/** The maze program: 1200 calls through the table, replayed against the library's moves. */
module Replay {
  import opened Grid
  import opened MazeData
  import opened Solver

  // The program finds the end at a call, runs out of calls, or calls something that is no move inside the array; or
  // the search has already written past the end of its table.
  datatype Outcome = NoMaze | Overrun | Bingo(call: nat) | Exhausted | Crash(call: nat)

  /** Step to the neighbour if it is a road; say whether that reached the end. */
  method MoveDir(mz: Maze, d: int) returns (bingo: bool)
    requires mz.blk.Length0 == mz.blk.Length1 == MAX_SIDE && 0 <= d < 4 && InArray(Next((mz.cx, mz.cy), d))
    modifies mz`cx, mz`cy
    ensures var here := old((mz.cx, mz.cy)); var next := Next(here, d);
            && (mz.cx, mz.cy) == (if mz.blk[next.1, next.0] == 0 then next else here)
            && (bingo <==> mz.blk[next.1, next.0] == 0 && next == mz.End())
  {
    var nx, ny := mz.cx + DIRX[d], mz.cy + DIRY[d];
    if mz.blk[ny, nx] != 0 {
      return false;
    }
    mz.cx, mz.cy := nx, ny;
    bingo := mz.cx == mz.ex && mz.cy == mz.ey;
  }

  /** The table's first slots hold a path from the current cell to the end, over roads. */
  ghost predicate Compiled(mz: Maze, got: array<Target>, path: seq<int>)
    requires mz.blk.Length0 == mz.blk.Length1 == MAX_SIDE && got.Length == MAX_MOVES + 1
    reads mz, mz.blk, got
  {
    && 0 < |path| <= MAX_MOVES
    && (forall n :: 0 <= n < |path| ==> 0 <= path[n] < 4 && got[n + 1] == Fixed(path[n]))
    && (mz.cx, mz.cy) != mz.End()
    && var trail := Trail((mz.cx, mz.cy), path);
       && trail[|path|] == mz.End() && (forall i :: 0 <= i < |path| ==> trail[i] != mz.End())
       && forall i :: 0 < i <= |path| ==> InArray(trail[i]) && mz.blk[trail[i].1, trail[i].0] == 0
  }

  // The direction of a call, if it goes to a move.
  function Direction(t: Target, r: nat): (d: int)
    ensures t.Random? ==> 0 <= d < 4 && (r - d) % 4 == 0
  {
    match t
    case Fixed(d) => d
    case Random => r % 4
    case Missing => -1
  }

  // Cell `i + 1` of the trail is where call `i + 1` leads from cell `i`: to the neighbour if that is clear, else
  // nowhere.
  ghost predicate Led(mz: Maze, got: array<Target>, rands: seq<nat>, trail: seq<Cell>, i: nat)
    requires mz.blk.Length0 == mz.blk.Length1 == MAX_SIDE && got.Length == MAX_MOVES + 1 && |rands| == MAX_MOVES
    reads mz.blk, got
  {
    && i + 1 < |trail| <= MAX_MOVES + 1
    && var d := Direction(got[i + 1], rands[i]);
       && 0 <= d < 4 && InArray(Next(trail[i], d))
       && var next := Next(trail[i], d); trail[i + 1] == if mz.blk[next.1, next.0] == 0 then next else trail[i]
  }

  // Call `i + 1` has moved, and onto the end.
  predicate Arrives(trail: seq<Cell>, i: nat, end: Cell)
    requires i + 1 < |trail|
  {
    trail[i + 1] == end != trail[i]
  }

  /** What each outcome means, on every table: success is the first arrival at the end, exhaustion is 1200 calls without
      one, and a crash is a call that goes to no move or off the array. */
  ghost predicate Explains(mz: Maze, got: array<Target>, rands: seq<nat>, out: Outcome, trail: seq<Cell>)
    requires mz.blk.Length0 == mz.blk.Length1 == MAX_SIDE && got.Length == MAX_MOVES + 1 && |rands| == MAX_MOVES
    reads mz, mz.blk, got
  {
    && |trail| >= 1 && (forall i: nat :: i + 1 < |trail| ==> Led(mz, got, rands, trail, i))
    && match out
       case Bingo(call) =>
         && 1 <= call <= MAX_MOVES && |trail| == call + 1
         && Arrives(trail, call - 1, mz.End()) && forall i: nat :: i < call - 1 ==> !Arrives(trail, i, mz.End())
       case Exhausted => |trail| == MAX_MOVES + 1 && forall i: nat :: i < MAX_MOVES ==> !Arrives(trail, i, mz.End())
       case Crash(call) =>
         && 1 <= call <= MAX_MOVES && |trail| == call
         && (forall i: nat :: i < call - 1 ==> !Arrives(trail, i, mz.End()))
         && var d := Direction(got[call], rands[call - 1]); 0 <= d < 4 ==> !InArray(Next(trail[call - 1], d))
       case _ => false
  }

  /** The calls of move_1 to move_1200, with the numbers rand() would give. On a compiled table every call moves, and
      the program ends exactly at the last slot of the path. */
  method MakeCalls(mz: Maze, got: array<Target>, rands: seq<nat>, ghost path: seq<int>)
    returns (out: Outcome, ghost trail: seq<Cell>)
    requires mz.blk.Length0 == mz.blk.Length1 == MAX_SIDE && got.Length == MAX_MOVES + 1 && |rands| == MAX_MOVES
    modifies mz`cx, mz`cy
    ensures Explains(mz, got, rands, out, trail) && trail[0] == old((mz.cx, mz.cy))
    ensures old(Compiled(mz, got, path)) ==> out == Bingo(|path|) && trail == Trail(old((mz.cx, mz.cy)), path)
  {
    hide Trail, Next, Led;
    ghost var compiled := Compiled(mz, got, path);
    ghost var start, end := (mz.cx, mz.cy), mz.End();
    ghost var cells := if compiled then Trail(start, path) else [];
    trail := [start];
    for n := 1 to MAX_MOVES + 1
      invariant |trail| == n && trail[0] == start && trail[n - 1] == (mz.cx, mz.cy)
      invariant forall i: nat :: i + 1 < n ==> Led(mz, got, rands, trail, i) && !Arrives(trail, i, end)
      invariant compiled ==> n <= |path| && trail == cells[..n]
    {
      if compiled {
        assert got[n - 1 + 1] == Fixed(path[n - 1]);
        TrailSteps(start, path, n - 1);
      }
      var d;
      match got[n] {
        case Fixed(dir) => d := dir;
        case Random => d := rands[n - 1] % 4;
        case Missing => return Crash(n), trail;
      }
      if !(0 <= d < 4) || !InArray(Next((mz.cx, mz.cy), d)) {
        return Crash(n), trail;
      }
      var bingo := MoveDir(mz, d);
      NextIs(trail[n - 1], d);
      assert d == Direction(got[|trail|], rands[|trail| - 1]);
      LedOn(mz, got, rands, trail, (mz.cx, mz.cy), end);
      trail := trail + [(mz.cx, mz.cy)];
      if bingo {
        return Bingo(n), trail;
      }
    }
    out := Exhausted;
  }

  lemma LedOn(mz: Maze, got: array<Target>, rands: seq<nat>, trail: seq<Cell>, c: Cell, end: Cell)
    requires mz.blk.Length0 == mz.blk.Length1 == MAX_SIDE && got.Length == MAX_MOVES + 1 && |rands| == MAX_MOVES
    requires 1 <= |trail| <= MAX_MOVES
    requires forall i: nat :: i + 1 < |trail| ==> Led(mz, got, rands, trail, i) && !Arrives(trail, i, end)
    requires var d := Direction(got[|trail|], rands[|trail| - 1]);
             && 0 <= d < 4 && InArray(Next(trail[|trail| - 1], d))
             && var next := Next(trail[|trail| - 1], d);
                c == if mz.blk[next.1, next.0] == 0 then next else trail[|trail| - 1]
    ensures forall i: nat :: i < |trail| ==> Led(mz, got, rands, trail + [c], i)
    ensures forall i: nat :: i < |trail| - 1 ==> !Arrives(trail + [c], i, end)
    ensures Arrives(trail + [c], |trail| - 1, end) <==> c == end != trail[|trail| - 1]
  {
    hide Next, Direction;
    forall i: nat | i + 1 < |trail| ensures Led(mz, got, rands, trail + [c], i) && !Arrives(trail + [c], i, end) {
      assert Led(mz, got, rands, trail, i) && !Arrives(trail, i, end);
    }
  }

  predicate Beside(a: Cell, b: Cell) {
    exists d :: 0 <= d < 4 && b == Next(a, d)
  }

  // The cells of the array that are clear.
  ghost function ClearCells(mz: Maze): (r: set<Cell>)
    requires mz.blk.Length0 == mz.blk.Length1 == MAX_SIDE
    reads mz.blk
    ensures forall x, y :: (x, y) in r <==> InArray((x, y)) && mz.blk[y, x] == 0
  {
    set x, y | 0 <= x < MAX_SIDE && 0 <= y < MAX_SIDE && mz.blk[y, x] == 0 :: (x, y)
  }

  /** The same without the maze: each call stays or goes to a clear neighbour, and success is the first arrival. */
  ghost predicate Tells(clear: set<Cell>, start: Cell, end: Cell, out: Outcome, trail: seq<Cell>) {
    && |trail| >= 1 && trail[0] == start
    && (forall i: nat :: i + 1 < |trail| ==>
          trail[i + 1] == trail[i] || (trail[i + 1] in clear && Beside(trail[i], trail[i + 1])))
    && match out
       case Bingo(call) =>
         && 1 <= call <= MAX_MOVES && |trail| == call + 1
         && Arrives(trail, call - 1, end) && forall i: nat :: i < call - 1 ==> !Arrives(trail, i, end)
       case Exhausted => |trail| == MAX_MOVES + 1 && forall i: nat :: i < MAX_MOVES ==> !Arrives(trail, i, end)
       case Crash(call) => |trail| == call && forall i: nat :: i < call - 1 ==> !Arrives(trail, i, end)
       case _ => false
  }

  lemma ExplainsTells(mz: Maze, got: array<Target>, rands: seq<nat>, out: Outcome, trail: seq<Cell>)
    requires mz.blk.Length0 == mz.blk.Length1 == MAX_SIDE && got.Length == MAX_MOVES + 1 && |rands| == MAX_MOVES
    requires Explains(mz, got, rands, out, trail)
    ensures Tells(ClearCells(mz), trail[0], mz.End(), out, trail)
  {
    forall i: nat | i + 1 < |trail|
      ensures trail[i + 1] == trail[i] || (trail[i + 1] in ClearCells(mz) && Beside(trail[i], trail[i + 1]))
    {
      assert Led(mz, got, rands, trail, i);
    }
  }

  /** A trail only goes where one can walk, so success is reported only if the end can be reached. */
  lemma {:induction false} TrailReaches(clear: set<Cell>, trail: seq<Cell>, n: nat)
    requires n < |trail|
    requires forall i: nat :: i + 1 < |trail| ==>
        trail[i + 1] == trail[i] || (trail[i + 1] in clear && Beside(trail[i], trail[i + 1]))
    ensures Reachable(clear, trail[0], trail[n])
    decreases n
  {
    if n == 0 {
      assert Walk(clear, trail[0], [], trail[0]);
    } else {
      TrailReaches(clear, trail, n - 1);
      if trail[n - 1 + 1] != trail[n - 1] {
        var d :| 0 <= d < 4 && trail[n] == Next(trail[n - 1], d);
        ReachAppend(clear, trail[0], trail[n - 1], d);
      }
    }
  }

  // In the maze handed over, the file's cells are clear whose numbers are multiples of 4096, and a start searched from.
  ghost predicate ClearAsFile(ns: seq<int>, clear: set<Cell>)
    requires Complete(ns)
  {
    forall x, y :: 0 <= x < ns[0] && 0 <= y < ns[1] ==>
      ((x, y) in clear <==> Number(ns, x, y) % 4096 == 0 || (x, y) == (ns[2], ns[3]) != (ns[4], ns[5]))
  }

  lemma RestoredClear(ns: seq<int>, mz: Maze)
    requires Complete(ns) && Restored(mz, ns)
    ensures ClearAsFile(ns, ClearCells(mz))
  {
    hide FileCell, Number;
    forall x, y | 0 <= x < ns[0] && 0 <= y < ns[1]
      ensures FileCell(ns, x, y) == 0 <==> Number(ns, x, y) % 4096 == 0
    {
      FileCellIs(ns, x, y);
    }
  }

  /** End to end. The search overruns its table exactly on the files of `Overruns`. On every other complete file the
      calls move over clear cells; success is the first arrival at the end, so there is none if the end cannot be
      reached; and if it can be reached over roads, the program stops with success at the last call of a path of road
      cells that visits none twice, every call before it having moved. */
  method Program(ns: seq<int>, rands: seq<nat>)
    returns (out: Outcome, ghost trail: seq<Cell>, ghost clear: set<Cell>)
    requires Manageable(ns) && |rands| == MAX_MOVES
    ensures out == NoMaze <==> !Complete(ns)
    ensures out == Overrun <==> Overruns(ns)
    ensures Complete(ns) && !Overruns(ns) ==>
        ClearAsFile(ns, clear) && Tells(clear, (ns[2], ns[3]), (ns[4], ns[5]), out, trail)
    ensures out.Bingo? ==> Reachable(clear, (ns[2], ns[3]), (ns[4], ns[5]))
    ensures Complete(ns) && !Overruns(ns) && (ns[2], ns[3]) != (ns[4], ns[5])
            && Reachable(FileRoads(ns), (ns[2], ns[3]), (ns[4], ns[5])) ==>
              out.Bingo? && 0 < out.call <= MAX_MOVES
              && Winning(FileRoads(ns), (ns[2], ns[3]), (ns[4], ns[5]), trail, out.call)
  {
    hide FileRoads, Reachable, Restored, Compiled, Winning, FileCell, Manageable, LeadsFrom, Overruns;
    hide Explains, ClearAsFile, ClearCells, Number;
    trail, clear := [], {};
    var solver := new Solver();
    var mz, found, over, path := solver.MazeLoad(ns);
    if mz == null {
      return NoMaze, [], {};
    }
    if over {
      return Overrun, [], {};
    }
    if found && |path| > 0 {
      PathCompiled(ns, mz, solver, path);
    }
    RestoredClear(ns, mz);
    clear := ClearCells(mz);
    out, trail := MakeCalls(mz, solver.got, rands, path);
    ExplainsTells(mz, solver.got, rands, out, trail);
    if out.Bingo? {
      TrailReaches(clear, trail, out.call);
    }
  }

  // `trail` goes from `start` to `end` in `calls` unit steps over roads, each cell once.
  ghost predicate Winning(roads: set<Cell>, start: Cell, end: Cell, trail: seq<Cell>, calls: nat) {
    && |trail| == calls + 1 && trail[0] == start && trail[calls] == end
    && (forall i :: 0 < i <= calls ==> trail[i] in roads)
    && (forall i :: 0 <= i < calls ==> trail[i] != end && Beside(trail[i], trail[i + 1]))
    && (forall i, j :: 0 <= i < j <= calls ==> trail[i] != trail[j])
  }

  /** The compiled path: it is in the slots, it is clear in the restored maze, and it wins. */
  lemma PathCompiled(ns: seq<int>, mz: Maze, solver: Solver, path: seq<int>)
    requires Complete(ns) && Restored(mz, ns)
    requires solver.directions.Length == MAX_MOVES && solver.got.Length == MAX_MOVES + 1
    requires solver.Solved(FileRoads(ns), mz.Start(), mz.End(), 0, true, path) && |path| > 0
    requires forall n :: 1 <= n <= solver.maxDepth ==> solver.got[n] == TargetOf(solver.directions[n - 1])
    ensures Compiled(mz, solver.got, path) && 0 < |path| <= MAX_MOVES && HeaderIs(mz, ns)
    ensures Winning(FileRoads(ns), mz.Start(), mz.End(), Trail(mz.Start(), path), |path|)
  {
    hide FileRoads, FileCell, LeadsFrom, Complete;
    RoadsAreClear(ns, mz);
    hide Restored, Next, Trail;
    PathWins(FileRoads(ns), mz.Start(), path, mz.End());
    SlotsHold(solver, path);
  }

  lemma SlotsHold(solver: Solver, path: seq<int>)
    requires solver.got.Length == MAX_MOVES + 1 && solver.Records(0, path)
    requires solver.directions.Length == MAX_MOVES && forall n :: 0 <= n < |path| ==> 0 <= path[n] < 4
    requires forall n :: 1 <= n <= solver.maxDepth ==> solver.got[n] == TargetOf(solver.directions[n - 1])
    ensures forall n :: 0 <= n < |path| ==> solver.got[n + 1] == Fixed(path[n])
  {
    forall n | 0 <= n < |path| ensures solver.got[n + 1] == Fixed(path[n]) {
      assert solver.directions[0 + n] == path[n];
    }
  }

  lemma RoadsAreClear(ns: seq<int>, mz: Maze)
    requires Complete(ns) && Restored(mz, ns)
    ensures forall c :: c in FileRoads(ns) ==> InArray(c) && mz.blk[c.1, c.0] == 0
  {
  }

  lemma PathWins(roads: set<Cell>, start: Cell, path: seq<int>, end: Cell)
    requires LeadsFrom(roads, start, path, end)
    ensures forall i :: 0 <= i < |path| ==> 0 <= path[i] < 4
    ensures Winning(roads, start, end, Trail(start, path), |path|)
  {
    hide Leads;
    LeadsIsSimple(roads - {start}, start, path, end);
    forall i | 0 <= i < |path| ensures Beside(Trail(start, path)[i], Trail(start, path)[i + 1]) {
      TrailSteps(start, path, i);
    }
  }
}
