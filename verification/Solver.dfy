/** The solver library: search the maze depth first, restore it, and compile the path into the call table. */
module Solver {
  import opened Grid
  import opened Depth
  import opened MazeData

  // What a slot points to: the random move it came with, a fixed direction, or nothing.
  datatype Target = Random | Fixed(d: int) | Missing

  // Every byte of the table is set to 4, which makes no direction of an entry.
  const NO_ENTRY: int := 0x0404_0404

  class Solver {
    const directions: array<int>
    const got: array<Target>  // slot n is what the call of move_n goes to
    var maxDepth: int

    constructor ()
      ensures directions.Length == MAX_MOVES && got.Length == MAX_MOVES + 1 && fresh(directions) && fresh(got)
      ensures maxDepth == 0 && forall n :: 0 <= n <= MAX_MOVES ==> got[n] == Random
    {
      directions := new int[MAX_MOVES](_ => 0);
      got := new Target[MAX_MOVES + 1](_ => Random);
      maxDepth := 0;
    }

    // `path` is what the table holds from entry `depth` up to `maxDepth`.
    ghost predicate Records(depth: nat, path: seq<int>)
      reads this, directions
    {
      && maxDepth == depth + |path| <= directions.Length
      && forall k :: 0 <= k < |path| ==> directions[depth + k] == path[k]
    }

    lemma RecordsNothing(depth: nat)
      requires maxDepth == depth <= directions.Length
      ensures Records(depth, [])
    {
    }

    lemma RecordsCons(depth: nat, d: int, path: seq<int>)
      requires Records(depth + 1, path) && directions[depth] == d
      ensures Records(depth, [d] + path)
    {
    }

    /** Depth-first search from (x, y). `over` is the one write the code should not make: a move recorded past the end
        of the table, which ends the model's run. It happens exactly when the search from here is deeper than the rest
        of the table is long. */
    method Dfs(mz: Maze, x: int, y: int, depth: nat) returns (found: bool, over: bool, ghost path: seq<int>)
      requires mz.Valid() && InArray((x, y)) && directions.Length == MAX_MOVES && depth <= MAX_MOVES
      modifies this`maxDepth, directions, mz.blk, mz`marked, mz`open
      decreases RoadsBeyond(mz.open, (x, y))
      ensures mz.Valid() && forall k :: 0 <= k < depth && k < MAX_MOVES ==> directions[k] == old(directions[k])
      ensures Noted(old(directions[..]), directions[..], depth + RoadsBeyond(old(mz.open), (x, y)))
      ensures !found ==> maxDepth == old(maxDepth)
      ensures over ==> !found && |path| == MAX_MOVES - depth + 1 && StackFrom(old(mz.open), (x, y), path, mz.End())
      ensures over ==> forall k :: depth <= k < MAX_MOVES ==> directions[k] == path[k - depth]
      ensures !over ==> Shallow(old(mz.open), (x, y), mz.End(), MAX_MOVES - depth)
      ensures !over ==> Searched(old(mz.marked), old(mz.open), (x, y), mz.marked, mz.open, mz.End())
      ensures !over && !found ==> DeadEnd(old(mz.marked), (x, y), mz.marked, mz.open) && (x, y) != mz.End()
      ensures !over && !found ==> TakenBy(old(mz.open), (x, y), mz.open)
      ensures found ==> Records(depth, path) && LeadsFrom(old(mz.open), (x, y), path, mz.End())
    {
      hide Maze.Valid, Searched, Searching, DeadEnd, LeadsFrom, StackFrom, Shallow, TakenBy, Explored, RoadsBeyond;
      hide Records, Next, Noted;
      path, over := [], false;
      ghost var was := directions[..];
      ghost var marked, open, end, here := mz.marked, mz.open, mz.End(), (x, y);
      ghost var room := MAX_MOVES - depth;
      mz.OpenIsUnmarked();
      if x == mz.ex && y == mz.ey {
        maxDepth := depth;
        NothingNoted(was, depth + RoadsBeyond(open, here));
        AtTheEnd(marked, open, here, room);
        RecordsNothing(depth);
        return true, false, [];
      }
      mz.Mark(x, y);
      SearchStarts(marked, open, here, mz.marked, mz.open, end, room);
      NothingNoted(was, depth + RoadsBeyond(open, here));
      for i := 0 to 4
        invariant mz.Valid() && Searching(marked, open, here, mz.marked, mz.open, end, i)
        invariant Explored(open - {here}, mz.open, here, end, i, room)
        invariant maxDepth == old(maxDepth) && Noted(was, directions[..], depth + RoadsBeyond(open, here))
        invariant forall k :: 0 <= k < depth && k < MAX_MOVES ==> directions[k] == old(directions[k])
      {
        var nx, ny := x + DIRX[i], y + DIRY[i];
        NextIs(here, i);
        if !mz.IsValid(nx, ny) {
          NoRoadThere(marked, open, here, mz.marked, mz.open, end, i, room);
          continue;
        }
        ghost var m, o := mz.marked, mz.open;
        SearchShrinks(marked, open, here, m, o, end, i);
        if depth == MAX_MOVES {
          StackStarts(marked, open, here, m, o, end, i, room);
          return false, true, [i];
        }
        ghost var before := directions[..];
        directions[depth] := i;
        ghost var after := directions[..];
        found, over, path := Dfs(mz, nx, ny, depth + 1);
        NotedOn(was, before, after, directions[..], depth, i, RoadsBeyond(o, (nx, ny)), RoadsBeyond(open, here));
        if found {
          LeadsOn(marked, open, here, m, o, mz.marked, mz.open, end, i, room, path);
          RecordsCons(depth, i, path);
          path := [i] + path;
          return;
        }
        if over {
          StackGoesOn(marked, open, here, m, o, end, i, room, path);
          path := [i] + path;
          return;
        }
        SearchContinues(marked, open, here, m, o, mz.marked, mz.open, end, i, room);
      }
      found := false;
      SearchFails(marked, open, here, mz.marked, mz.open, end, room);
    }

    /** Each slot from 1 to `maxDepth` gets the move recorded for it; with no path no slot changes. */
    method CheckPath()
      requires directions.Length == MAX_MOVES && got.Length == MAX_MOVES + 1 && 0 <= maxDepth <= MAX_MOVES
      modifies got
      ensures forall n :: 0 <= n <= MAX_MOVES ==>
          got[n] == if 1 <= n <= maxDepth then TargetOf(directions[n - 1]) else old(got[n])
      ensures forall n :: 1 <= n <= maxDepth ==>
          if 0 <= directions[n - 1] < 4 then got[n] == Fixed(directions[n - 1]) else got[n].Missing?
    {
      if maxDepth == 0 {
        return;
      }
      var d, i := 0, 1;
      while d < maxDepth
        invariant 0 <= d <= maxDepth && i == d + 1
        invariant forall n :: 0 <= n <= MAX_MOVES ==>
            got[n] == if 1 <= n < i then TargetOf(directions[n - 1]) else old(got[n])
      {
        got[i] := TargetOf(directions[d]);
        d, i := d + 1, i + 1;
      }
    }

    /** Search from the start, then turn the marks back into roads. */
    method Solve(mz: Maze, ghost ns: seq<int>) returns (found: bool, over: bool, ghost path: seq<int>)
      requires directions.Length == MAX_MOVES && 0 <= maxDepth <= MAX_MOVES
      requires Manageable(ns) && Complete(ns) && Holds(mz, ns)
      modifies this`maxDepth, directions, mz.blk, mz`loaded, mz`marked, mz`open
      ensures over <==> !Shallow(FileRoads(ns), mz.Start(), mz.End(), MAX_MOVES)
      ensures Noted(old(directions[..]), directions[..], RoadsBeyond(FileRoads(ns), mz.Start()))
      ensures !over ==> mz.Valid() && HeaderIs(mz, ns) && Restored(mz, ns)
      ensures !over ==> Solved(FileRoads(ns), mz.Start(), mz.End(), old(maxDepth), found, path)
    {
      hide Maze.Valid, Searched, DeadEnd, LeadsFrom, StackFrom, FileRoads, Reachable, FileCell, Complete, Holds;
      hide Shallow, Manageable, TakenBy, Noted, RoadsBeyond;
      FileFits(mz, ns);
      ghost var roads := mz.open;
      found, over, path := Dfs(mz, mz.sx, mz.sy, 0);
      if over {
        StackIsDeep(roads, mz.Start(), path, mz.End(), MAX_MOVES);
        return;
      }
      if found {
        FoundIsReachable(roads, mz.Start(), path, mz.End());
      } else {
        NotFoundIsNot(roads, mz.Start(), mz.marked, mz.open, mz.End());
      }
      MarksFit(mz, ns, mz.marked, mz.open);
      Restore(mz);
      assert Restored(mz, ns);
    }

    // A path is found exactly when there is one, and is then all the table counts; else the old count stays.
    ghost predicate Solved(roads: set<Cell>, start: Cell, end: Cell, before: int, found: bool, path: seq<int>)
      reads this, directions
    {
      && 0 <= maxDepth <= directions.Length
      && (found <==> Reachable(roads, start, end))
      && if found then Records(0, path) && LeadsFrom(roads, start, path, end) && (|path| == 0 <==> start == end)
         else maxDepth == before
    }

    /** Load, search, restore and compile. */
    method MazeLoad(ns: seq<int>) returns (mz: Maze?, ghost found: bool, over: bool, ghost path: seq<int>)
      requires directions.Length == MAX_MOVES && got.Length == MAX_MOVES + 1 && 0 <= maxDepth <= MAX_MOVES
      requires Manageable(ns)
      modifies this, directions, got
      ensures mz == null <==> !Complete(ns)
      ensures mz != null ==> fresh(mz) && fresh(mz.blk)
      ensures over <==> Overruns(ns)
      ensures mz != null ==> forall k :: 0 <= k < MAX_MOVES ==>
          directions[k] == NO_ENTRY || (k < |FileRoads(ns) - {mz.Start()}| && 0 <= directions[k] < 4)
      ensures over ==> mz != null
      ensures mz != null && !over ==> mz.Valid() && HeaderIs(mz, ns) && Restored(mz, ns)
      ensures mz != null && !over ==> Solved(FileRoads(ns), mz.Start(), mz.End(), old(maxDepth), found, path)
      ensures mz != null && !over ==> forall n :: 0 <= n <= MAX_MOVES ==>
          got[n] == if 1 <= n <= maxDepth then TargetOf(directions[n - 1]) else old(got[n])
    {
      hide Holds, Maze.Valid, Complete, Restored, FileRoads, Reachable, LeadsFrom, Shallow;
      path, found, over := [], false, false;
      mz := LoadBlocks(ns);
      if mz == null {
        return;
      }
      HoldsHeader(mz, ns);
      for k := 0 to MAX_MOVES
        modifies directions
        invariant Holds(mz, ns) && forall n :: 0 <= n < k ==> directions[n] == NO_ENTRY
      {
        directions[k] := NO_ENTRY;
      }
      ghost var clear := directions[..];
      found, over, path := Solve(mz, ns);
      assert forall k :: 0 <= k < MAX_MOVES ==> directions[k] == directions[..][k] && clear[k] == NO_ENTRY;
      if over {
        return;
      }
      CheckPath();
    }
  }

  /** The file whose search is deeper than the table is long. */
  ghost predicate Overruns(ns: seq<int>) {
    Complete(ns) && !Shallow(FileRoads(ns), (ns[2], ns[3]), (ns[4], ns[5]), MAX_MOVES)
  }

  lemma HoldsHeader(mz: Maze, ns: seq<int>)
    requires Complete(ns) && Holds(mz, ns)
    ensures HeaderIs(mz, ns)
  {
  }

  /** The maze handed to the program: the file's, except that a start that is no road has become one, if it was searched
      from. */
  ghost predicate Restored(mz: Maze, ns: seq<int>)
    requires Complete(ns)
    reads mz, mz.blk
  {
    && mz.blk.Length0 == mz.blk.Length1 == MAX_SIDE && mz.w <= MAX_SIDE && mz.h <= MAX_SIDE && mz.marked == {}
    && HeaderIs(mz, ns)
    && (forall x, y :: 0 <= x < mz.w && 0 <= y < mz.h ==>
          mz.blk[y, x] == if (x, y) == mz.Start() != mz.End() then 0 else FileCell(ns, x, y))
  }

  /** Restoration gives back exactly the loaded grid if and only if the start was a road or already the end. */
  lemma RestoredExactly(mz: Maze, ns: seq<int>)
    requires Complete(ns) && Restored(mz, ns) && 0 <= mz.sx < mz.w && 0 <= mz.sy < mz.h
    ensures (forall x, y :: 0 <= x < mz.w && 0 <= y < mz.h ==> mz.blk[y, x] == FileCell(ns, x, y))
            <==> FileCell(ns, mz.sx, mz.sy) == 0 || mz.Start() == mz.End()
  {
  }

  lemma FileFits(mz: Maze, ns: seq<int>)
    requires Manageable(ns) && Complete(ns) && Holds(mz, ns)
    ensures mz.Valid() && mz.marked == {} && HeaderIs(mz, ns)
    ensures InArray(mz.Start()) && mz.open == FileRoads(ns)
    ensures forall x, y :: 0 <= x < mz.w && 0 <= y < mz.h ==> mz.loaded[y][x] == FileCell(ns, x, y)
  {
    hide FileRoads, RowStart, Shift20, FileCell, RoadCells;
  }

  lemma MarksFit(mz: Maze, ns: seq<int>, marked: set<Cell>, open: set<Cell>)
    requires Manageable(ns) && Complete(ns) && HeaderIs(mz, ns)
    requires forall x, y :: 0 <= x < mz.w && 0 <= y < mz.h ==> mz.loaded[y][x] == FileCell(ns, x, y)
    requires Searched({}, FileRoads(ns), mz.Start(), marked, open, mz.End())
    ensures forall x, y :: 0 <= x < mz.w && 0 <= y < mz.h ==> mz.loaded[y][x] != 2
    ensures forall x, y :: (x, y) in marked ==> 0 <= x < mz.w && 0 <= y < mz.h
    ensures forall x, y :: 0 <= x < mz.w && 0 <= y < mz.h ==>
        (if (x, y) in marked then 0 else FileCell(ns, x, y)) ==
        if (x, y) == mz.Start() != mz.End() then 0 else FileCell(ns, x, y)
  {
    hide RowStart, Shift20, FileCell;
    forall x, y | 0 <= x < mz.w && 0 <= y < mz.h ensures FileCell(ns, x, y) != 2 {
      FileCellIsNotMark(ns, x, y);
    }
  }

  lemma FileCellIsNotMark(ns: seq<int>, x: int, y: int)
    requires Complete(ns) && 0 <= x < ns[0] && 0 <= y < ns[1]
    ensures FileCell(ns, x, y) != 2
  {
    RowsFit(ns[0], y + 1, ns[1]);
    Shift20IsNotMark(ns[RowStart(ns[0], y) + x]);
  }

  lemma FoundIsReachable(roads: set<Cell>, start: Cell, path: seq<int>, end: Cell)
    requires LeadsFrom(roads, start, path, end)
    ensures Reachable(roads, start, end) && (|path| > 0 <==> start != end)
  {
    LeadsIsWalk(roads - {start}, roads, start, path, end);
  }

  /** Completeness: if the search fails, the marked cells are all that can be reached, and the end is not among them. */
  lemma NotFoundIsNot(roads: set<Cell>, start: Cell, marked: set<Cell>, open: set<Cell>, end: Cell)
    requires start != end && Searched({}, roads, start, marked, open, end) && DeadEnd({}, start, marked, open)
    ensures !Reachable(roads, start, end)
    ensures forall c :: Reachable(roads, start, c) ==> c in marked
  {
    forall c, ds | Walk(roads, start, ds, c) ensures c in marked {
      ClosedHoldsWalks(roads, marked, start, ds, c);
    }
  }

  /** The table after a search that goes no deeper than entry `n`: some entries have become directions. */
  ghost predicate Noted(was: seq<int>, now: seq<int>, n: nat) {
    && |now| == |was|
    && forall k :: 0 <= k < |was| ==> now[k] == was[k] || (k < n && 0 <= now[k] < 4)
  }

  lemma NothingNoted(was: seq<int>, n: nat)
    ensures Noted(was, was, n)
  {
  }

  // A note at `depth`, and those of a search from there with fewer roads left.
  lemma NotedOn(was: seq<int>, before: seq<int>, after: seq<int>, now: seq<int>, depth: nat, i: int,
                       less: nat, more: nat)
    requires depth < |before| && 0 <= i < 4 && after == before[depth := i] && less < more
    requires Noted(was, before, depth + more) && Noted(after, now, depth + 1 + less)
    ensures Noted(was, now, depth + more)
  {
  }

  function TargetOf(d: int): Target {
    if 0 <= d < 4 then Fixed(d) else Missing
  }

  ghost function RoadsBeyond(open: set<Cell>, c: Cell): nat {
    |open - {c}|
  }

  /** A path that enters each road other than `c` at most once and meets `end` only at its end. */
  ghost predicate LeadsFrom(open: set<Cell>, c: Cell, path: seq<int>, end: Cell) {
    Leads(open - {c}, c, path, end)
  }

  // A path the search from `c` can have on its stack.
  ghost predicate StackFrom(open: set<Cell>, c: Cell, path: seq<int>, end: Cell) {
    Stack(open - {c}, c, path, end)
  }

  // A failed search takes only what can be reached.
  ghost predicate TakenBy(o0: set<Cell>, c: Cell, o1: set<Cell>) {
    forall a :: a in o0 - o1 ==> Reachable(o0 + {c}, c, a)
  }

  lemma StackIsDeep(open: set<Cell>, c: Cell, path: seq<int>, end: Cell, n: int)
    requires StackFrom(open, c, path, end) && |path| > n
    ensures !Shallow(open, c, end, n)
  {
  }

  /** What a search from `c` does to the grid: it marks roads and `c`, and never a road that is the end. */
  ghost predicate Searched(m0: set<Cell>, o0: set<Cell>, c: Cell, m1: set<Cell>, o1: set<Cell>, end: Cell) {
    && m0 <= m1 <= m0 + o0 + {c} && o1 == o0 - m1
    && (end in m1 ==> end in m0) && (c != end ==> c in m1)
  }

  // No cell of `cs` has a road beside it.
  ghost predicate Exhausted(cs: set<Cell>, roads: set<Cell>) {
    forall c, d :: c in cs && 0 <= d < 4 ==> Next(c, d) !in roads
  }

  /** A failed search has marked `c`, and nothing it has marked has a road left beside it. */
  ghost predicate DeadEnd(m0: set<Cell>, c: Cell, m1: set<Cell>, o1: set<Cell>) {
    c in m1 && Exhausted(m1 - m0 + {c}, o1)
  }

  // The search from `c` after trying its first `i` neighbours in vain.
  ghost predicate Searching(m0: set<Cell>, o0: set<Cell>, c: Cell, m: set<Cell>, o: set<Cell>, end: Cell, i: int) {
    && Searched(m0, o0, c, m, o, end)
    && c in m && c != end
    && Exhausted(m - m0 - {c}, o)
    && forall d :: 0 <= d < i && d < 4 ==> Next(c, d) !in o
  }

  lemma AtTheEnd(m: set<Cell>, o: set<Cell>, end: Cell, n: nat)
    requires o !! m
    ensures Searched(m, o, end, m, o, end) && LeadsFrom(o, end, [], end) && Shallow(o, end, end, n)
  {
  }

  lemma SearchStarts(m0: set<Cell>, o0: set<Cell>, c: Cell, m: set<Cell>, o: set<Cell>, end: Cell, n: int)
    requires o0 !! m0 && c != end && m == m0 + {c} && o == o0 - {c}
    ensures Searching(m0, o0, c, m, o, end, 0) && Explored(o0 - {c}, o, c, end, 0, n)
  {
    ExploreStarts(o, c, end, n);
  }

  lemma NoRoadThere(m0: set<Cell>, o0: set<Cell>, c: Cell, m: set<Cell>, o: set<Cell>, end: Cell, i: int, n: int)
    requires 0 <= i < 4 && Searching(m0, o0, c, m, o, end, i) && Next(c, i) !in o
    requires Explored(o0 - {c}, o, c, end, i, n)
    ensures Searching(m0, o0, c, m, o, end, i + 1) && Explored(o0 - {c}, o, c, end, i + 1, n)
  {
    ExploreSkips(o0 - {c}, o, c, end, i, n);
  }

  lemma SearchShrinks(m0: set<Cell>, o0: set<Cell>, c: Cell, m: set<Cell>, o: set<Cell>, end: Cell, i: int)
    requires 0 <= i < 4 && Searching(m0, o0, c, m, o, end, i) && Next(c, i) in o
    ensures RoadsBeyond(o, Next(c, i)) < RoadsBeyond(o0, c)
  {
    Smaller(o - {Next(c, i)}, o0 - {c}, Next(c, i));
  }

  lemma StackStarts(m0: set<Cell>, o0: set<Cell>, c: Cell, m: set<Cell>, o: set<Cell>, end: Cell, i: int, n: int)
    requires 0 <= i < 4 && Searching(m0, o0, c, m, o, end, i) && Next(c, i) in o
    requires Explored(o0 - {c}, o, c, end, i, n)
    ensures StackFrom(o0, c, [i], end)
  {
    StackGrows(o0 - {c}, o, c, end, i, n, []);
    assert [i] + [] == [i];
  }

  lemma StackGoesOn(m0: set<Cell>, o0: set<Cell>, c: Cell, m: set<Cell>, o: set<Cell>, end: Cell, i: int, n: int,
                    path: seq<int>)
    requires 0 <= i < 4 && Searching(m0, o0, c, m, o, end, i) && Next(c, i) in o
    requires Explored(o0 - {c}, o, c, end, i, n) && StackFrom(o, Next(c, i), path, end)
    ensures StackFrom(o0, c, [i] + path, end)
  {
    StackGrows(o0 - {c}, o, c, end, i, n, path);
  }

  // What a search has marked so far lies apart from the roads that are left.
  lemma MarksLieApart(m0: set<Cell>, o0: set<Cell>, c: Cell, m: set<Cell>, o: set<Cell>, end: Cell, i: int)
    requires o0 !! m0 && Searching(m0, o0, c, m, o, end, i)
    ensures Apart(o0 - {c}, o) && end !in o0 - {c} - o
  {
    assert forall a :: a in o0 - {c} - o ==> a in m - m0 - {c};
  }

  lemma SearchContinues(m0: set<Cell>, o0: set<Cell>, c: Cell, m: set<Cell>, o: set<Cell>,
                        m1: set<Cell>, o1: set<Cell>, end: Cell, i: int, n: int)
    requires o0 !! m0 && 0 <= i < 4 && Searching(m0, o0, c, m, o, end, i) && Next(c, i) in o
    requires Explored(o0 - {c}, o, c, end, i, n) && Shallow(o, Next(c, i), end, n - 1)
    requires Searched(m, o, Next(c, i), m1, o1, end) && DeadEnd(m, Next(c, i), m1, o1) && TakenBy(o, Next(c, i), o1)
    ensures Searching(m0, o0, c, m1, o1, end, i + 1) && Explored(o0 - {c}, o1, c, end, i + 1, n)
  {
    hide Explored, Shallow, Reachable;
    MarksLieApart(m0, o0, c, m1, o1, end, i + 1);
    assert o + {Next(c, i)} == o;
    ExploreContinues(o0 - {c}, o, c, end, i, n, o1);
  }

  lemma LeadsOn(m0: set<Cell>, o0: set<Cell>, c: Cell, m: set<Cell>, o: set<Cell>,
                m1: set<Cell>, o1: set<Cell>, end: Cell, i: int, n: nat, path: seq<int>)
    requires 0 <= i < 4 && Searching(m0, o0, c, m, o, end, i) && Next(c, i) in o
    requires Explored(o0 - {c}, o, c, end, i, n) && Shallow(o, Next(c, i), end, n - 1)
    requires Searched(m, o, Next(c, i), m1, o1, end) && LeadsFrom(o, Next(c, i), path, end)
    ensures LeadsFrom(o0, c, [i] + path, end) && Searched(m0, o0, c, m1, o1, end) && Shallow(o0, c, end, n)
  {
    var next := Next(c, i);
    LeadsWidens(o - {next}, o0 - {c} - {next}, next, path, end);
    LeadsCons(o0 - {c}, c, i, path, end);
    LeadsIsWalk(o - {next}, o, next, path, end);
    ExploreFinds(o0 - {c}, o, c, end, i, n);
  }

  lemma SearchFails(m0: set<Cell>, o0: set<Cell>, c: Cell, m: set<Cell>, o: set<Cell>, end: Cell, n: nat)
    requires Searching(m0, o0, c, m, o, end, 4) && Explored(o0 - {c}, o, c, end, 4, n)
    ensures Searched(m0, o0, c, m, o, end) && DeadEnd(m0, c, m, o) && c != end
    ensures Shallow(o0, c, end, n) && TakenBy(o0, c, o)
  {
    ExploreEnds(o0 - {c}, o, c, end, n);
    assert o0 - {c} + {c} == o0 + {c};
  }

  lemma Smaller(a: set<Cell>, b: set<Cell>, c: Cell)
    requires a <= b && c in b && c !in a
    ensures |a| < |b|
  {
    var rest := b - a;
    assert c in rest && b == a + rest;
  }
}
