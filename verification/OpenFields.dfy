/** Files that are all road: one whose search overruns the table, and one whose search does not although far longer
    walks are possible. */
module OpenFields {
  import opened Grid
  import opened Depth
  import opened MazeData
  import opened Solver

  function Field(w: nat, h: nat, start: Cell, end: Cell): (r: seq<int>)
    ensures |r| == 6 + w * h
  {
    Area(w, h);
    [w, h, start.0, start.1, end.0, end.1] + seq(w * h, _ => 0)
  }

  lemma Area(w: nat, h: nat)
    ensures w * h >= 0
  {
  }

  lemma OneMore(k: int, m: int)
    ensures k * m == (k - 1) * m + m
  {
  }

  function Inner(w: int, h: int): set<Cell> {
    set x, y | 0 < x < w && 0 < y < h :: (x, y)
  }

  lemma FieldRoads(w: nat, h: nat, start: Cell, end: Cell)
    requires w > 0 && h > 0
    ensures var ns := Field(w, h, start, end);
            Complete(ns) && FileRoads(ns) == Inner(w, h) && (ns[2], ns[3]) == start && (ns[4], ns[5]) == end
  {
    var ns := Field(w, h, start, end);
    RowStartIs(w, h);
    forall x, y | 0 <= x < w && 0 <= y < h ensures FileCell(ns, x, y) == 0 {
      RowStartIs(w, y);
      RowsFit(w, y + 1, h);
      assert ns[RowStart(w, y) + x] == 0;
    }
  }

  // What is left of a field when the search has gone down column 1, up column 2, and so on as far as (x, y).
  function Ahead(w: int, h: int, x: int, y: int): set<Cell> {
    set a, b | 0 < a < w && 0 < b < h && (a > x || (a == x && if x % 2 == 1 then b > y else b < y)) :: (a, b)
  }

  // The direction the search takes there.
  function Turn(h: int, x: int, y: int): int {
    if x % 2 == 1 && y < h - 1 then 1 else if x % 2 == 0 && y > 1 then 0 else 3
  }

  lemma TurnAhead(w: int, h: int, x: int, y: int)
    requires 0 < x < w && 0 < y < h && (Turn(h, x, y) == 3 ==> x + 1 < w)
    ensures var next := Next((x, y), Turn(h, x, y));
            next in Ahead(w, h, x, y) && Ahead(w, h, x, y) - {next} == Ahead(w, h, next.0, next.1)
    ensures forall d :: 0 <= d < Turn(h, x, y) ==> Next((x, y), d) !in Ahead(w, h, x, y)
  {
  }

  /** On a field the search goes up and down the columns and leaves no road out. */
  lemma {:induction false} Snake(w: int, h: int, x: int, y: int, goal: Cell, n: nat) returns (ds: seq<int>)
    requires 0 < x < goal.0 <= w && 0 < y < h
    requires n <= (if x % 2 == 1 then h - 1 - y else y - 1) + (goal.0 - 1 - x) * (h - 1)
    ensures |ds| == n && Stack(Ahead(w, h, x, y), (x, y), ds, goal)
    decreases n
  {
    if n == 0 {
      return [];
    }
    hide Ahead;
    var next := Next((x, y), Turn(h, x, y));
    OneMore(goal.0 - 1 - x, h - 1);
    TurnAhead(w, h, x, y);
    var rest := Snake(w, h, next.0, next.1, goal, n - 1);
    ds := [Turn(h, x, y)] + rest;
    assert ds[1..] == rest;
  }

  /** A field of 101 by 101 with its end in the middle overruns the table. */
  lemma FieldOverruns()
    ensures var ns := Field(101, 101, (1, 1), (50, 50)); Manageable(ns) && Overruns(ns)
  {
    var start: Cell, end: Cell := (1, 1), (50, 50);
    FieldRoads(101, 101, start, end);
    var ds := Snake(101, 101, 1, 1, end, MAX_MOVES + 1);
    assert Inner(101, 101) - {start} == Ahead(101, 101, 1, 1);
  }

  // A goal below the start, with no road above, is the first neighbour tried.
  lemma NextDoor(roads: set<Cell>, c: Cell)
    requires Next(c, 0) !in roads && Next(c, 1) in roads
    ensures Shallow(roads, c, Next(c, 1), 1)
  {
    var free, goal := roads - {c}, Next(c, 1);
    assert goal in free && Walk(free, goal, [], goal) && Reachable(free, goal, goal);
    assert !PassesBy(free, c, 2, goal) && !PassesBy(free, c, 3, goal);
    forall ds | Stack(free, c, ds, goal) ensures |ds| <= 1 {
      if ds != [] {
        assert ds[0] == 1 && Next(c, ds[0]) == goal;
        assert Stack(free - {goal}, goal, ds[1..], goal);
      }
    }
  }

  /** A field of 40 by 40 whose end is below its start does not overrun the table, and the end is reached, although
      walks without repetition much longer than the table exist. */
  lemma FieldNextDoor()
    ensures var ns := Field(40, 40, (1, 1), (1, 2));
            && Manageable(ns) && Complete(ns) && !Overruns(ns) && Reachable(FileRoads(ns), (1, 1), (1, 2))
            && !NoLonger(FileRoads(ns), (1, 1), MAX_MOVES)
  {
    var start: Cell := (1, 1);
    var roads := Inner(40, 40);
    FieldRoads(40, 40, start, (1, 2));
    NextDoor(roads, start);
    assert [1][1..] == [];
    assert Walk(roads, start, [1], (1, 2));
    LongWalk();
  }

  lemma LongWalk()
    ensures !NoLonger(Inner(40, 40), (1, 1), MAX_MOVES)
  {
    var start: Cell := (1, 1);
    var ds := Snake(40, 40, 1, 1, (40, 0), MAX_MOVES + 1);
    StackIsSimple(Ahead(40, 40, 1, 1), start, ds, (40, 0));
    assert Inner(40, 40) - {start} == Ahead(40, 40, 1, 1);
  }
}
