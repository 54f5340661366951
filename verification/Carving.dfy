/** The kernel's maze generator: open one room, visit its neighbours in random order, dig to those still walled. */
module Carving {
  import opened Shuffling
  import opened Tree

  const MAX_X: int := 101
  const MAX_Y: int := 101

  // Row and column steps of the four directions.
  const DIR_X: seq<int> := [-1, 1, 0, 0]
  const DIR_Y: seq<int> := [0, 0, -1, 1]

  function Passage(c: Room, d: int): Room
    requires 0 <= d < 4
  {
    (c.0 + DIR_X[d], c.1 + DIR_Y[d])
  }

  function Neighbour(c: Room, d: int): Room
    requires 0 <= d < 4
  {
    (c.0 + DIR_X[d] * 2, c.1 + DIR_Y[d] * 2)
  }

  /** The cells at odd rows and columns inside the border. */
  predicate IsRoom(rows: int, cols: int, c: Room) {
    1 <= c.0 < rows - 1 && 1 <= c.1 < cols - 1 && c.0 % 2 == 1 && c.1 % 2 == 1
  }

  function Rooms(rows: int, cols: int): (r: set<Room>)
    ensures forall c :: c in r <==> IsRoom(rows, cols, c)
  {
    set x, y | 1 <= x < rows - 1 && 1 <= y < cols - 1 && IsRoom(rows, cols, (x, y)) :: (x, y)
  }

  predicate Adjacent(a: Room, b: Room) {
    (a.0 == b.0 && (a.1 - b.1 == 2 || b.1 - a.1 == 2)) || (a.1 == b.1 && (a.0 - b.0 == 2 || b.0 - a.0 == 2))
  }

  function Middle(a: Room, b: Room): Room {
    ((a.0 + b.0) / 2, (a.1 + b.1) / 2)
  }

  /** The cells that are not walls once the edges `es` have been dug. */
  function OpenCells(start: Room, es: seq<Edge>): set<Room>
    decreases |es|
  {
    if es == [] then {start}
    else
      var e := es[|es| - 1];
      OpenCells(start, es[..|es| - 1]) + {e.to, Middle(e.from, e.to)}
  }

  ghost predicate Carved(rows: int, cols: int, start: Room, es: seq<Edge>) {
    && Grown(start, es) && IsRoom(rows, cols, start)
    && forall i :: 0 <= i < |es| ==>
         IsRoom(rows, cols, es[i].from) && IsRoom(rows, cols, es[i].to) && Adjacent(es[i].from, es[i].to)
  }

  // No direction in `ds` leads from `c` to a room that is still closed.
  ghost predicate Tried(rows: int, cols: int, open: set<Room>, c: Room, ds: seq<int>) {
    forall i :: 0 <= i < |ds| && 0 <= ds[i] < 4 ==>
      IsRoom(rows, cols, Neighbour(c, ds[i])) ==> Neighbour(c, ds[i]) in open
  }

  ghost predicate Settled(rows: int, cols: int, open: set<Room>, c: Room) {
    forall d :: 0 <= d < 4 ==> IsRoom(rows, cols, Neighbour(c, d)) ==> Neighbour(c, d) in open
  }

  // The search from `c`, begun at `es0`, after trying directions `ds`.
  ghost predicate Digging(rows: int, cols: int, start: Room, es0: seq<Edge>, c: Room, es: seq<Edge>, ds: seq<int>) {
    && es0 <= es && Carved(rows, cols, start, es) && c in Opened(start, es0)
    && Opened(start, es0) <= Opened(start, es)
    && (forall r :: r in Opened(start, es) && r !in Opened(start, es0) ==> Settled(rows, cols, Opened(start, es), r))
    && Tried(rows, cols, Opened(start, es), c, ds)
  }

  /** What a finished search leaves: a larger tree in which `c` and every new room have no closed neighbour. */
  ghost predicate Dug(rows: int, cols: int, start: Room, es0: seq<Edge>, c: Room, es: seq<Edge>) {
    && es0 <= es && Carved(rows, cols, start, es)
    && Opened(start, es0) <= Opened(start, es)
    && Settled(rows, cols, Opened(start, es), c)
    && forall r :: r in Opened(start, es) && r !in Opened(start, es0) ==> Settled(rows, cols, Opened(start, es), r)
  }

  // The order made of the random numbers that call `k` of the search draws, from an endless supply.
  function OrderNo(rnd: nat -> nat, k: nat): (order: seq<int>)
    ensures |order| == 4 && (forall i :: 0 <= i < 4 ==> 0 <= order[i] < 4) && forall d :: 0 <= d < 4 ==> d in order
  {
    var rs := [rnd(4 * k), rnd(4 * k + 1), rnd(4 * k + 2), rnd(4 * k + 3)];
    ShuffledKeeps([0, 1, 2, 3], 0, rs);
    OrderCovers(Shuffled([0, 1, 2, 3], 0, rs));
    Shuffled([0, 1, 2, 3], 0, rs)
  }

  // The rooms in the order they were opened.
  function RoomNo(start: Room, es: seq<Edge>, k: nat): Room
    requires k <= |es|
  {
    if k == 0 then start else es[k - 1].to
  }

  /** Edge `i` leads from room `k`, in direction `j` of its order, when no room opened later has a closed neighbour and
      no earlier direction leads to one. */
  ghost predicate LeadsBack(rows: int, cols: int, start: Room, es: seq<Edge>, rnd: nat -> nat, i: nat, k: nat, j: nat)
    requires k <= i < |es| && j < 4
  {
    var c, open := RoomNo(start, es, k), Opened(start, es[..i]);
    && es[i] == Edge(c, Neighbour(c, OrderNo(rnd, k)[j]))
    && (forall m: nat :: k < m <= i ==> Settled(rows, cols, open, RoomNo(start, es, m)))
    && Tried(rows, cols, open, c, OrderNo(rnd, k)[..j])
  }

  /** Backtracking, said of one edge: it is dug from the room opened last of those that still have a closed neighbour,
      to the first such neighbour in the order drawn for that room. */
  ghost predicate Backtracks(rows: int, cols: int, start: Room, es: seq<Edge>, rnd: nat -> nat, i: nat)
    requires i < |es|
  {
    exists k: nat, j: nat :: k <= i && j < 4 && LeadsBack(rows, cols, start, es, rnd, i, k, j)
  }

  ghost function Closed(rows: int, cols: int, start: Room, es: seq<Edge>): nat {
    |Rooms(rows, cols) - Opened(start, es)|
  }

  class MazeInfo {
    var coordX: int
    var coordY: int
    var posX: int
    var posY: int
    var sx: int
    var sy: int
    var ex: int
    var ey: int
    const blk: array2<char>  // [row, column]; '#' is a wall

    // The passages dug so far.
    ghost var edges: seq<Edge>

    constructor ()
      ensures fresh(blk) && blk.Length0 == MAX_Y && blk.Length1 == MAX_X
    {
      blk := new char[MAX_Y, MAX_X];
    }

    function Start(): Room
      reads `sx, `sy
    {
      (sy, sx)
    }

    ghost predicate Sized()
      reads `coordX, `coordY
    {
      blk.Length0 == MAX_Y && blk.Length1 == MAX_X && 1 <= coordX <= MAX_X && 1 <= coordY <= MAX_Y
    }

    /** The grid shows exactly the cells the edges open, the start among them. */
    ghost predicate Shape()
      reads this, blk
    {
      && Sized() && Carved(coordY, coordX, Start(), edges)
      && forall r, c :: 0 <= r < coordY && 0 <= c < coordX ==>
           blk[r, c] == (if (r, c) !in OpenCells(Start(), edges) then '#' else if (r, c) == Start() then '*' else '.')
    }

    // Open the neighbour in direction `d` and the cell between.
    method Dig(row: int, col: int, d: int)
      requires Shape() && 0 <= d < 4 && (row, col) in Opened(Start(), edges)
      requires IsRoom(coordY, coordX, Neighbour((row, col), d)) && Neighbour((row, col), d) !in Opened(Start(), edges)
      modifies blk, this`edges
      ensures Shape() && edges == old(edges) + [Edge((row, col), Neighbour((row, col), d))]
    {
      ghost var e := Edge((row, col), Neighbour((row, col), d));
      DigOne(coordY, coordX, Start(), edges, e, d);
      blk[row + DIR_X[d] * 2, col + DIR_Y[d] * 2] := '.';
      blk[row + DIR_X[d], col + DIR_Y[d]] := '.';
      edges := edges + [e];
    }

    /** Call number `calls` of the search; the calls made when it returns. */
    method Carve(row: int, col: int, rnd: nat -> nat, calls: nat) returns (next: nat)
      requires Shape() && (row, col) in Opened(Start(), edges)
      requires calls == |edges| && (row, col) == RoomNo(Start(), edges, calls)
      modifies blk, this`edges
      decreases Closed(coordY, coordX, Start(), edges)
      ensures Shape() && Dug(coordY, coordX, Start(), old(edges), (row, col), edges) && next == |edges| + 1
      ensures forall i :: calls <= i < |edges| ==> Backtracks(coordY, coordX, Start(), edges, rnd, i)
    {
      hide Shape, Digging, Dug, Closed, Settled, Tried, Opened, Neighbour, Carved, Shuffled, Backtracks, OrderNo;
      var dirSeq := Order(rnd, calls);
      next := calls + 1;
      ghost var here, es0 := (row, col), edges;
      ShapeIsCarved();
      DiggingStarts(coordY, coordX, Start(), edges, here);
      for i := 0 to 4
        modifies blk, this`edges
        invariant Shape() && Digging(coordY, coordX, Start(), es0, here, edges, dirSeq[..i]) && next == |edges| + 1
        invariant forall n :: calls <= n < |edges| ==> Backtracks(coordY, coordX, Start(), edges, rnd, n)
      {
        var d := dirSeq[i];
        assert dirSeq[..i + 1] == dirSeq[..i] + [d];
        NeighbourIs(here, d);
        var nextRow, nextCol := row + DIR_X[d] * 2, col + DIR_Y[d] * 2;
        if nextRow < 1 || nextRow >= coordY - 1 || nextCol < 1 || nextCol >= coordX - 1 {
          NothingToDig(coordY, coordX, Start(), es0, here, edges, dirSeq[..i], d);
          continue;
        }
        NextIsRoom(coordY, coordX, Start(), es0, here, edges, dirSeq[..i], d);
        var walled := IsWalled(nextRow, nextCol);
        if walled {
          ghost var es1 := edges;
          Dig(row, col, d);
          DigShrinks(coordY, coordX, Start(), es1, edges, (nextRow, nextCol));
          ghost var es2 := edges;
          DigBacktracks(coordY, coordX, Start(), es0, here, es1, es2, rnd, i);
          next := Carve(nextRow, nextCol, rnd, next);
          DiggingContinues(coordY, coordX, Start(), es0, here, es1, es2, edges, dirSeq[..i], d);
          StillBacktracks(coordY, coordX, Start(), es2, edges, rnd, calls);
        } else {
          NothingToDig(coordY, coordX, Start(), es0, here, edges, dirSeq[..i], d);
        }
      }
      assert dirSeq[..4] == dirSeq;
      DiggingEnds(coordY, coordX, Start(), es0, here, edges, dirSeq);
    }

    lemma ShapeIsCarved()
      requires Shape()
      ensures Carved(coordY, coordX, Start(), edges)
    {
    }

    method IsWalled(r: int, c: int) returns (walled: bool)
      requires Shape() && IsRoom(coordY, coordX, (r, c))
      ensures walled <==> (r, c) !in Opened(Start(), edges)
    {
      CellKinds(coordY, coordX, Start(), edges);
      walled := blk[r, c] == '#';
    }
  }

  // The four directions in the order the random numbers of call `k` make.
  method Order(rnd: nat -> nat, k: nat) returns (order: seq<int>)
    ensures order == OrderNo(rnd, k)
  {
    hide Shuffled;
    var dirSeq := new int[4](i => i);
    assert dirSeq[..] == [0, 1, 2, 3];
    Shuffle(dirSeq, [rnd(4 * k), rnd(4 * k + 1), rnd(4 * k + 2), rnd(4 * k + 3)]);
    order := dirSeq[..];
  }

  lemma OrderCovers(order: seq<int>)
    requires multiset(order) == multiset([0, 1, 2, 3])
    ensures |order| == 4 && (forall i :: 0 <= i < |order| ==> 0 <= order[i] < 4)
    ensures forall d :: 0 <= d < 4 ==> d in order
  {
    assert |multiset(order)| == 4;
    forall d | 0 <= d < 4 ensures d in order {
      assert d in multiset([0, 1, 2, 3]);
    }
    forall i | 0 <= i < |order| ensures 0 <= order[i] < 4 {
      assert order[i] in multiset(order);
    }
  }

  lemma NeighbourIs(c: Room, d: int)
    requires 0 <= d < 4
    ensures Neighbour(c, d) == (c.0 + DIR_X[d] * 2, c.1 + DIR_Y[d] * 2)
    ensures Adjacent(c, Neighbour(c, d)) && Middle(c, Neighbour(c, d)) == Passage(c, d)
  {
  }

  /** Open cells are the open rooms and the middles of edges; a middle is never a room, lies inside the border, and is
      not at an even row and an even column. */
  lemma {:induction false} CellKinds(rows: int, cols: int, start: Room, es: seq<Edge>)
    requires Carved(rows, cols, start, es)
    ensures forall c: Room :: c in Opened(start, es) ==> IsRoom(rows, cols, c)
    ensures forall c: Room :: c in OpenCells(start, es) ==>
        1 <= c.0 < rows - 1 && 1 <= c.1 < cols - 1 && (c.0 % 2 == 1 || c.1 % 2 == 1)
    ensures forall c: Room :: c.0 % 2 == 1 && c.1 % 2 == 1 ==> (c in OpenCells(start, es) <==> c in Opened(start, es))
    decreases |es|
  {
    if es != [] {
      var e := es[|es| - 1];
      CellKinds(rows, cols, start, es[..|es| - 1]);
      assert IsRoom(rows, cols, e.from) && IsRoom(rows, cols, e.to) && Adjacent(e.from, e.to);
      MiddleLies(rows, cols, e.from, e.to);
      hide Middle, Adjacent;
    }
  }

  lemma MiddleLies(rows: int, cols: int, a: Room, b: Room)
    requires IsRoom(rows, cols, a) && IsRoom(rows, cols, b) && Adjacent(a, b)
    ensures var c := Middle(a, b);
            1 <= c.0 < rows - 1 && 1 <= c.1 < cols - 1 && (c.0 % 2 == 1 <==> c.1 % 2 == 0)
  {
  }

  lemma DigOne(rows: int, cols: int, start: Room, es: seq<Edge>, e: Edge, d: int)
    requires Carved(rows, cols, start, es) && 0 <= d < 4 && e.from in Opened(start, es) && e.to == Neighbour(e.from, d)
    requires IsRoom(rows, cols, e.to) && e.to !in Opened(start, es)
    ensures Carved(rows, cols, start, es + [e])
    ensures OpenCells(start, es + [e]) == OpenCells(start, es) + {e.to, Passage(e.from, d)}
    ensures 0 <= Passage(e.from, d).0 < rows && 0 <= Passage(e.from, d).1 < cols
    ensures e.to != start && Passage(e.from, d) != start
  {
    OpenedGrows(start, [], es);
    FromIsRoom(rows, cols, start, es, e.from);
    NeighbourIs(e.from, d);
    MiddleLies(rows, cols, e.from, e.to);
    hide Neighbour, Passage, Middle, Adjacent, IsRoom;
    OpenedAppend(start, es, e);
    assert (es + [e])[..|es|] == es;
  }

  lemma FromIsRoom(rows: int, cols: int, start: Room, es: seq<Edge>, c: Room)
    requires Carved(rows, cols, start, es) && c in Opened(start, es)
    ensures IsRoom(rows, cols, c)
  {
    CellKinds(rows, cols, start, es);
  }

  lemma DiggingStarts(rows: int, cols: int, start: Room, es: seq<Edge>, c: Room)
    requires Carved(rows, cols, start, es) && c in Opened(start, es)
    ensures Digging(rows, cols, start, es, c, es, [])
  {
  }

  lemma NothingToDig(rows: int, cols: int, start: Room, es0: seq<Edge>, c: Room, es: seq<Edge>, ds: seq<int>, d: int)
    requires Digging(rows, cols, start, es0, c, es, ds) && 0 <= d < 4
    requires IsRoom(rows, cols, Neighbour(c, d)) ==> Neighbour(c, d) in Opened(start, es)
    ensures Digging(rows, cols, start, es0, c, es, ds + [d])
  {
  }

  // Neighbours inside the border are rooms, since `c` is one.
  lemma NextIsRoom(rows: int, cols: int, start: Room, es0: seq<Edge>, c: Room, es: seq<Edge>, ds: seq<int>, d: int)
    requires Digging(rows, cols, start, es0, c, es, ds) && 0 <= d < 4
    requires 1 <= Neighbour(c, d).0 < rows - 1 && 1 <= Neighbour(c, d).1 < cols - 1
    ensures IsRoom(rows, cols, Neighbour(c, d)) && c in Opened(start, es)
    ensures Closed(rows, cols, start, es) <= Closed(rows, cols, start, es0)
  {
    NeighbourInside(rows, cols, start, es, c, d);
    hide Rooms, IsRoom, Neighbour, Settled, Tried, Carved;
    FewerLeft(Rooms(rows, cols), Opened(start, es0), Opened(start, es));
  }

  lemma NeighbourInside(rows: int, cols: int, start: Room, es: seq<Edge>, c: Room, d: int)
    requires Carved(rows, cols, start, es) && c in Opened(start, es) && 0 <= d < 4
    requires 1 <= Neighbour(c, d).0 < rows - 1 && 1 <= Neighbour(c, d).1 < cols - 1
    ensures IsRoom(rows, cols, Neighbour(c, d))
  {
    FromIsRoom(rows, cols, start, es, c);
  }

  lemma FewerLeft(all: set<Room>, a: set<Room>, b: set<Room>)
    requires a <= b
    ensures |all - b| <= |all - a|
  {
    assert all - a == (all - b) + (all * (b - a));
  }

  lemma DigShrinks(rows: int, cols: int, start: Room, es: seq<Edge>, fs: seq<Edge>, n: Room)
    requires IsRoom(rows, cols, n) && n !in Opened(start, es)
    requires exists c :: fs == es + [Edge(c, n)]
    ensures Closed(rows, cols, start, fs) < Closed(rows, cols, start, es) && n in Opened(start, fs)
  {
    var c :| fs == es + [Edge(c, n)];
    OpenedAppend(start, es, Edge(c, n));
    var less, more := Rooms(rows, cols) - Opened(start, fs), Rooms(rows, cols) - Opened(start, es);
    assert more == less + {n} && n !in less;
  }

  lemma DiggingContinues(rows: int, cols: int, start: Room, es0: seq<Edge>, c: Room, es1: seq<Edge>, es2: seq<Edge>,
                         es3: seq<Edge>, ds: seq<int>, d: int)
    requires Digging(rows, cols, start, es0, c, es1, ds) && 0 <= d < 4
    requires es2 == es1 + [Edge(c, Neighbour(c, d))] && Dug(rows, cols, start, es2, Neighbour(c, d), es3)
    ensures Digging(rows, cols, start, es0, c, es3, ds + [d]) && es2 <= es3
  {
    OpenedAppend(start, es1, Edge(c, Neighbour(c, d)));
  }

  // The next dig goes on from the room last opened, for all that were opened after it are settled.
  lemma DigBacktracks(rows: int, cols: int, start: Room, es0: seq<Edge>, c: Room, es1: seq<Edge>, es2: seq<Edge>,
                      rnd: nat -> nat, j: nat)
    requires j < 4 && c == RoomNo(start, es0, |es0|)
    requires Digging(rows, cols, start, es0, c, es1, OrderNo(rnd, |es0|)[..j])
    requires es2 == es1 + [Edge(c, Neighbour(c, OrderNo(rnd, |es0|)[j]))]
    requires forall n :: |es0| <= n < |es1| ==> Backtracks(rows, cols, start, es1, rnd, n)
    ensures forall n :: |es0| <= n < |es2| ==> Backtracks(rows, cols, start, es2, rnd, n)
  {
    var i, k := |es1|, |es0|;
    assert LeadsBack(rows, cols, start, es2, rnd, i, k, j) by {
      assert es2[..i] == es1 && RoomNo(start, es2, k) == c;
      forall m: nat | k < m <= i ensures Settled(rows, cols, Opened(start, es1), RoomNo(start, es2, m)) {
        assert RoomNo(start, es2, m) == RoomNo(start, es1, m);
        OpenedLater(start, es0, es1, m);
      }
    }
    hide LeadsBack;
    StillBacktracks(rows, cols, start, es1, es2, rnd, k);
  }

  lemma {:induction false} OpenedLater(start: Room, es0: seq<Edge>, es: seq<Edge>, m: nat)
    requires es0 <= es && Grown(start, es) && |es0| < m <= |es|
    ensures RoomNo(start, es, m) in Opened(start, es) && RoomNo(start, es, m) !in Opened(start, es0)
    decreases |es|
  {
    var init := es[..|es| - 1];
    OpenedGrows(start, es0, init);
    if m < |es| {
      OpenedLater(start, es0, init, m);
    }
  }

  lemma {:induction false} OpenedGrows(start: Room, es0: seq<Edge>, es: seq<Edge>)
    requires es0 <= es
    ensures Opened(start, es0) <= Opened(start, es)
    decreases |es|
  {
    if |es0| < |es| {
      OpenedGrows(start, es0, es[..|es| - 1]);
    } else {
      assert es0 == es;
    }
  }

  lemma StillBacktracks(rows: int, cols: int, start: Room, es: seq<Edge>, fs: seq<Edge>, rnd: nat -> nat, from: nat)
    requires es <= fs
    requires forall i :: from <= i < |es| ==> Backtracks(rows, cols, start, es, rnd, i)
    ensures forall i :: from <= i < |es| ==> Backtracks(rows, cols, start, fs, rnd, i)
  {
    hide Backtracks;
    forall i | from <= i < |es| ensures Backtracks(rows, cols, start, fs, rnd, i) {
      assert Backtracks(rows, cols, start, es, rnd, i);
      BacktracksOn(rows, cols, start, es, fs, rnd, i);
    }
  }

  // An edge is chosen by what was dug before it.
  lemma BacktracksOn(rows: int, cols: int, start: Room, es: seq<Edge>, fs: seq<Edge>, rnd: nat -> nat, i: nat)
    requires es <= fs && i < |es| && Backtracks(rows, cols, start, es, rnd, i)
    ensures Backtracks(rows, cols, start, fs, rnd, i)
  {
    hide Settled, Tried, OrderNo, Opened, Neighbour;
    var k: nat, j: nat :| k <= i && j < 4 && LeadsBack(rows, cols, start, es, rnd, i, k, j);
    assert fs[..i] == es[..i];
    assert forall m: nat :: m <= i ==> RoomNo(start, fs, m) == RoomNo(start, es, m);
    assert LeadsBack(rows, cols, start, fs, rnd, i, k, j);
  }

  lemma DiggingEnds(rows: int, cols: int, start: Room, es0: seq<Edge>, c: Room, es: seq<Edge>, order: seq<int>)
    requires Digging(rows, cols, start, es0, c, es, order) && forall d :: 0 <= d < 4 ==> d in order
    ensures Dug(rows, cols, start, es0, c, es)
  {
    forall d | 0 <= d < 4 ensures IsRoom(rows, cols, Neighbour(c, d)) ==> Neighbour(c, d) in Opened(start, es) {
      assert d in order;
      var i :| 0 <= i < |order| && order[i] == d;
    }
  }
}
