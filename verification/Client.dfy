/** The test client: it rebuilds the maze from what it reads and foretells where a batch of moves will end. */
module Client {
  import opened Tree
  import opened Carving
  import opened Perfect
  import opened Generate
  import opened Kernel
  import opened Options

  // Any process's request.
  datatype Request =
    | Create(x: int, y: int, rs: seq<nat>) | ForQ3(x: int, y: int, rs: seq<nat>)
    | Reset | Destroy | Move(d: Delta) | Write(ds: seq<Delta>, len: nat) | Close
    | GetSize | GetPos | GetStart | GetEnd | Read

  // Unit moves, as many as the length says.
  predicate Served(r: Request) {
    match r
    case Move(d) => Unit(d)
    case Write(ds, len) => AllUnit(ds) && |ds| == len / MOVE_SIZE
    case _ => true
  }

  predicate AllUnit(ds: seq<Delta>) {
    forall i :: 0 <= i < |ds| ==> Unit(ds[i])
  }

  // Every request comes back and leaves the device valid, but a create that cannot find two ends for its maze, or that
  // finds them outside a grid with a side of one.
  predicate Finishes(r: Request) {
    match r
    case Create(x, y, rs) => 1 <= x <= MAX_X && 1 <= y <= MAX_Y ==> Generates(x, y, rs)
    case ForQ3(x, y, rs) => 1 <= x <= MAX_X && 1 <= y <= MAX_Y ==> Generates(x, y, rs)
    case _ => true
  }

  predicate ByOthers(rs: seq<(Pid, Request)>, pid: int) {
    forall i :: 0 <= i < |rs| ==> Served(rs[i].1) && rs[i].0 != pid
  }

  predicate AllFinish(rs: seq<(Pid, Request)>) {
    forall i :: 0 <= i < |rs| ==> Finishes(rs[i].1)
  }

  /** Every interleaving: a process that makes no request keeps its slots, its mazes, and its place in them, whatever
      the others do; and the device stays valid, so no move ever reads outside a grid, until a create does not come
      back or comes back with a side of one. */
  method Serve(dev: Device, rs: seq<(Pid, Request)>, ghost bystander: int) returns (stuck: bool)
    requires dev.Valid() && bystander > 0 && ByOthers(rs, bystander)
    modifies dev, dev.pids, dev.infos, dev.Mazes()
    ensures dev.Spares(bystander) && fresh(dev.Mazes() - old(dev.Mazes()))
    ensures !stuck ==> dev.Valid()
    ensures AllFinish(rs) ==> !stuck
  {
    hide PerfectMaze, Ready, Generates, Finishes;
    var k := 0;
    stuck := false;
    while k < |rs|
      invariant 0 <= k <= |rs| && dev.Valid() && dev.Spares(bystander)
      invariant fresh(dev.Mazes() - old(dev.Mazes()))
    {
      label before:
      var answer;
      stuck, answer := ServeOne(dev, rs[k].0, rs[k].1);
      assert dev.Spares@before(bystander);
      if stuck {
        return;
      }
      k := k + 1;
    }
  }

  // What a request brings back: a code, a pair of numbers, or the cells.
  datatype Answer = Code(code: int) | Pair(pair: Option<(int, int)>) | Cells(cells: Option<seq<int>>) | Nothing

  /** A query is answered with what it asks for, of the maze of the process that asks. */
  ghost predicate Answered(dev: Device, pid: Pid, r: Request, a: Answer)
    requires dev.Sized()
    reads dev, dev.pids, dev.infos, dev.Mazes(), dev.Grids()
  {
    var m := dev.MazeOf(pid);
    match r
    case GetSize => a == Pair(if m == null then None else Some((m.coordX, m.coordY)))
    case GetPos => a == Pair(if m == null then None else Some((m.posX, m.posY)))
    case GetStart => a == Pair(if m == null then None else Some((m.sx, m.sy)))
    case GetEnd => a == Pair(if m == null then None else Some((m.ex, m.ey)))
    case Read => a.Cells? && (a.cells.None? <==> m == null) && (m != null ==> Pictures(a.cells.value, m))
    case _ => false
  }

  /** What a request does for the process that makes it. */
  twostate predicate Obeyed(dev: Device, pid: Pid, r: Request, a: Answer)
    requires old(dev.Valid()) && dev.Valid()
    reads dev, dev.pids, dev.infos, dev.Mazes(), dev.Grids()
  {
    var m := dev.MazeOf(pid);
    match r
    case Reset => dev.SameTable() && (m != null ==> Position(m) == m.Start())
    case Destroy => m == null && dev.SlotOf(pid) == old(dev.SlotOf(pid))
    case Move(d) => m == old(dev.MazeOf(pid)) && (m != null ==> Moved(m, old(m.posX), old(m.posY), d))
    case Write(ds, _) =>
      m == old(dev.MazeOf(pid))
      && (m != null ==>
            Position(m) == if |ds| % 8 == 0 then MoveAll(OpenGrid(m), old(Position(m)), ds) else old(Position(m)))
    case Close =>
      if old(dev.errorNo) == ENOMEM then dev.SameTable()
      else old(dev.SlotOf(pid)) != -1 ==> dev.pids[old(dev.SlotOf(pid))] == 0
    case Create(x, y, _) =>
      a.Code? && if a.code == 0 && old(dev.SlotOf(0)) != -1 then dev.Filled(pid, x, y) else dev.SameTable()
    case ForQ3(x, y, _) =>
      a.Code? && if a.code == 0 && old(dev.SlotOf(0)) != -1 then dev.Filled(pid, x, y) else dev.SameTable()
    case _ => dev.SameTable() && Answered(dev, pid, r, a)
  }

  /** Each request is served by its own operation. */
  method ServeOne(dev: Device, pid: Pid, r: Request) returns (stuck: bool, answer: Answer)
    requires dev.Valid() && Served(r)
    modifies dev, dev.pids, dev.infos, dev.Own(pid)
    ensures forall p :: p != pid && p != 0 ==> dev.Spares(p)
    ensures fresh(dev.Mazes() - old(dev.Mazes()))
    ensures !stuck ==> dev.Valid() && Obeyed(dev, pid, r, answer)
    ensures Finishes(r) ==> !stuck
  {
    hide PerfectMaze, Ready, Generates, OpenGrid, Obeyed, Unit, AllUnit, Device.Valid;
    stuck := false;
    match r {
      case Reset => answer := ServeWalk(dev, pid, r);
      case Move(_) => answer := ServeWalk(dev, pid, r);
      case Write(_, _) => answer := ServeWalk(dev, pid, r);
      case Destroy => answer := ServeTable(dev, pid, r);
      case Close => answer := ServeTable(dev, pid, r);
      case Create(_, _, _) => stuck, answer := ServeCreate(dev, pid, r);
      case ForQ3(_, _, _) => stuck, answer := ServeCreate(dev, pid, r);
      case _ => answer := ServeQuery(dev, pid, r);
    }
  }

  method ServeQuery(dev: Device, pid: Pid, r: Request) returns (answer: Answer)
    requires dev.Valid() && Queries(r)
    ensures dev.Valid() && Obeyed(dev, pid, r, answer) && forall p :: dev.Spares(p)
  {
    hide PerfectMaze, Ready, OpenGrid, Answered;
    answer := Ask(dev, pid, r);
  }

  method ServeWalk(dev: Device, pid: Pid, r: Request) returns (answer: Answer)
    requires dev.Valid() && Served(r) && (r.Reset? || r.Move? || r.Write?)
    modifies dev.Own(pid)`posX, dev.Own(pid)`posY
    ensures dev.Valid() && dev.SameTable() && forall p :: p != pid ==> dev.Spares(p)
    ensures Obeyed(dev, pid, r, answer)
  {
    hide PerfectMaze, Ready, OpenGrid, MoveTo, MoveAll, Unit, StaysInGrid, InGrid, AllUnit, Moved;
    match r {
      case Reset =>
        var code := dev.Reset(pid);
        answer := Code(code);
      case Move(d) =>
        UnitTargets(dev, pid, d);
        var code := dev.Move(pid, d);
        answer := Code(code);
      case Write(ds, len) =>
        UnitsFollow(dev, pid, ds);
        var code := dev.Write(pid, ds, len);
        answer := Code(code);
    }
  }

  method ServeTable(dev: Device, pid: Pid, r: Request) returns (answer: Answer)
    requires dev.Valid() && (r.Destroy? || r.Close?)
    modifies dev, dev.pids, dev.infos
    ensures dev.Valid() && forall p :: p != pid && p != 0 ==> dev.Spares(p)
    ensures dev.Mazes() <= old(dev.Mazes()) && Obeyed(dev, pid, r, answer)
  {
    hide PerfectMaze, Ready, OpenGrid;
    if r.Destroy? {
      var code := dev.Destroy(pid);
      answer := Code(code);
    } else {
      dev.Close(pid);
      answer := Nothing;
    }
  }

  predicate Queries(r: Request) {
    r.GetSize? || r.GetPos? || r.GetStart? || r.GetEnd? || r.Read?
  }

  method ServeCreate(dev: Device, pid: Pid, r: Request) returns (stuck: bool, answer: Answer)
    requires dev.Valid() && (r.Create? || r.ForQ3?)
    modifies dev, dev.pids, dev.infos
    ensures forall p :: p != pid && p != 0 ==> dev.Spares(p)
    ensures fresh(dev.Mazes() - old(dev.Mazes()))
    ensures !stuck ==> dev.Valid()
    ensures Finishes(r) ==> !stuck
    ensures !stuck ==> Obeyed(dev, pid, r, answer)
  {
    hide PerfectMaze, Ready, Generates, Returns, OpenGrid, Device.Valid;
    UsableOrWalled(r.x, r.y, r.rs);
    var code;
    if r.Create? {
      code := dev.Create(pid, r.x, r.y, r.rs);
    } else {
      code := dev.CreateForQ3(pid, r.x, r.y, r.rs);
    }
    stuck := code.None? || (code.value == 0 && (r.x == 1 || r.y == 1));
    answer := if code.None? then Nothing else Code(code.value);
  }

  // The requests that only read.
  method Ask(dev: Device, pid: Pid, r: Request) returns (answer: Answer)
    requires dev.Valid() && Queries(r)
    ensures Answered(dev, pid, r, answer)
  {
    hide PerfectMaze, Ready, OpenGrid, Layout, Pictures;
    match r {
      case GetSize =>
        var size := dev.GetSize(pid);
        answer := Pair(size);
      case GetPos =>
        var pos := dev.GetPos(pid);
        answer := Pair(pos);
      case GetStart =>
        var start := dev.GetStart(pid);
        answer := Pair(start);
      case GetEnd =>
        var end := dev.GetEnd(pid);
        answer := Pair(end);
      case Read =>
        var layout := dev.Read(pid);
        answer := Cells(layout);
    }
  }

  lemma UnitTargets(dev: Device, pid: Pid, d: Delta)
    requires dev.Valid() && Unit(d)
    ensures dev.Targets(pid, d)
  {
    hide PerfectMaze;
    var m := dev.MazeOf(pid);
    if m != null {
      InBounds(m.coordY, m.coordX, OpenGrid(m), Position(m), d);
    }
  }

  lemma UnitsFollow(dev: Device, pid: Pid, ds: seq<Delta>)
    requires dev.Valid() && AllUnit(ds)
    ensures dev.Follows(pid, ds)
  {
    hide PerfectMaze, StaysInGrid;
    var m := dev.MazeOf(pid);
    if m != null {
      UnitsStayInGrid(m.coordY, m.coordX, OpenGrid(m), Position(m), ds);
    }
  }

  class Rebuilt {
    var w: int
    var h: int
    const blk: array2<int>

    constructor ()
      ensures blk.Length0 == MAX_Y && blk.Length1 == MAX_X && fresh(blk)
    {
      blk := new int[MAX_Y, MAX_X];
    }

    /** Cut the layout back into rows. */
    method Rebuild(layout: seq<int>, w: int, h: int, ghost open: set<Room>)
      requires blk.Length0 == MAX_Y && blk.Length1 == MAX_X && 0 <= w <= MAX_X && 0 <= h <= MAX_Y
      requires Layout(layout, w, h, open)
      modifies this, blk
      ensures this.w == w && this.h == h && Agrees(open)
    {
      this.w, this.h := w, h;
      for i := 0 to h
        invariant this.w == w && this.h == h
        invariant forall r, c :: 0 <= r < i && 0 <= c < w ==> blk[r, c] == if (r, c) in open then 0 else 1
      {
        RowAtIsProduct(w, i);
        for j := 0 to w
          invariant this.w == w && this.h == h
          invariant forall r, c :: 0 <= r < i && 0 <= c < w ==> blk[r, c] == if (r, c) in open then 0 else 1
          invariant forall c :: 0 <= c < j ==> blk[i, c] == if (i, c) in open then 0 else 1
        {
          assert Shows(layout, w, open, i, j);
          blk[i, j] := layout[i * w + j];
        }
      }
    }

    /** The rebuilt grid has walls exactly where the kernel's has. */
    ghost predicate Agrees(open: set<Room>)
      reads this, blk
    {
      && blk.Length0 == MAX_Y && blk.Length1 == MAX_X && w <= MAX_X && h <= MAX_Y
      && forall r, c :: 0 <= r < h && 0 <= c < w ==> blk[r, c] == if (r, c) in open then 0 else 1
    }

    /** The local simulation, which does check bounds. */
    method Simulate(sx: int, sy: int, ds: seq<Delta>, ghost open: set<Room>) returns (cx: int, cy: int)
      requires Agrees(open) && Inside(w, h, open)
      ensures (cy, cx) == MoveAll(open, (sy, sx), ds)
    {
      cx, cy := sx, sy;
      var i := 0;
      while i < |ds|
        invariant 0 <= i <= |ds| && MoveAll(open, (cy, cx), ds[i..]) == MoveAll(open, (sy, sx), ds)
      {
        assert ds[i..][0] == ds[i] && ds[i..][1..] == ds[i + 1..];
        var nx, ny := cx + ds[i].x, cy + ds[i].y;
        i := i + 1;
        if nx < 0 || ny < 0 || nx >= w || ny >= h {
          continue;
        }
        if blk[ny, nx] != 0 {
          continue;
        }
        cx, cy := nx, ny;
      }
    }
  }

  // The process has a maze of this size with these open cells, and stands at `pos` in it.
  ghost predicate Stands(dev: Device, pid: Pid, w: int, h: int, open: set<Room>, start: Room, pos: Room)
    reads dev, dev.pids, dev.infos, dev.Mazes(), dev.Grids()
  {
    && dev.Valid() && dev.MazeOf(pid) != null
    && var m := dev.MazeOf(pid);
       m.Sized() && (m.coordX, m.coordY) == (w, h) && OpenGrid(m) == open && m.Start() == start && Position(m) == pos
  }

  // Other processes' requests change nothing of that.
  method Meanwhile(dev: Device, pid: Pid, rs: seq<(Pid, Request)>,
                   ghost w: int, ghost h: int, ghost open: set<Room>, ghost start: Room, ghost pos: Room)
    returns (stuck: bool)
    requires Stands(dev, pid, w, h, open, start, pos) && ByOthers(rs, pid)
    modifies dev, dev.pids, dev.infos, dev.Mazes()
    ensures fresh(dev.Mazes() - old(dev.Mazes()))
    ensures !stuck ==> Stands(dev, pid, w, h, open, start, pos)
    ensures AllFinish(rs) ==> !stuck
  {
    hide PerfectMaze, Ready;
    stuck := Serve(dev, rs, pid);
  }

  method BeginMaze(dev: Device, pid: Pid, x: int, y: int, rs: seq<nat>)
    returns (stuck: bool, ghost open: set<Room>, ghost start: Room)
    requires dev.Valid() && dev.SlotOf(pid) == -1 && dev.SlotOf(0) != -1 && 1 <= x <= MAX_X && 1 <= y <= MAX_Y
    modifies dev, dev.pids, dev.infos
    ensures fresh(dev.Mazes() - old(dev.Mazes())) && (Generates(x, y, rs) ==> !stuck)
    ensures !stuck ==> Stands(dev, pid, x, y, open, start, start) && Inside(x, y, open)
  {
    hide PerfectMaze, EndsFrom, Ready, OpenGrid, Generates, Returns;
    UsableOrWalled(x, y, rs);
    var code := dev.Create(pid, x, y, rs);
    stuck, open, start := code.None? || x == 1 || y == 1, {}, (0, 0);
    if !stuck {
      MazeReady(dev, pid);
      open, start := OpenGrid(dev.MazeOf(pid)), dev.MazeOf(pid).Start();
      ReadyInside(dev.MazeOf(pid));
    }
  }

  ghost predicate Inside(w: int, h: int, open: set<Room>) {
    forall r, c :: (r, c) in open ==> 0 <= r < h && 0 <= c < w
  }

  // The answers to the queries.
  method AskSizeAndStart(dev: Device, pid: Pid, ghost w: int, ghost h: int, ghost open: set<Room>, ghost start: Room,
                         ghost pos: Room)
    returns (size: (int, int), from: (int, int))
    requires Stands(dev, pid, w, h, open, start, pos)
    ensures size == (w, h) && (from.1, from.0) == start && Stands(dev, pid, w, h, open, start, pos)
  {
    hide PerfectMaze, Ready, OpenGrid;
    var s := dev.GetSize(pid);
    var f := dev.GetStart(pid);
    size, from := s.value, f.value;
  }

  method AskPos(dev: Device, pid: Pid, ghost w: int, ghost h: int, ghost open: set<Room>, ghost start: Room,
                ghost pos: Room)
    returns (p: (int, int))
    requires Stands(dev, pid, w, h, open, start, pos)
    ensures dev.Valid() && dev.MazeOf(pid) != null && (p.1, p.0) == pos
    ensures p == (dev.MazeOf(pid).posX, dev.MazeOf(pid).posY)
  {
    hide PerfectMaze, Ready, OpenGrid;
    var r := dev.GetPos(pid);
    p := r.value;
  }

  // The layout, and what it foretells.
  method Foresee(dev: Device, pid: Pid, ds: seq<Delta>, size: (int, int), from: (int, int), ghost open: set<Room>)
    returns (cx: int, cy: int)
    requires Stands(dev, pid, size.0, size.1, open, (from.1, from.0), (from.1, from.0)) && Inside(size.0, size.1, open)
    ensures (cy, cx) == MoveAll(open, (from.1, from.0), ds)
    ensures Stands(dev, pid, size.0, size.1, open, (from.1, from.0), (from.1, from.0))
  {
    hide PerfectMaze, Ready, OpenGrid, Layout, MoveAll, Inside;
    var r := dev.Read(pid);
    cx, cy := Foretell(r.value, size.0, size.1, from.0, from.1, ds, open);
  }

  // Ask for the size, the start and the layout; foretell where the moves will end.
  method ReadMaze(dev: Device, pid: Pid, ds: seq<Delta>, others: seq<(Pid, Request)>,
                  ghost w: int, ghost h: int, ghost open: set<Room>, ghost start: Room)
    returns (stuck: bool, cx: int, cy: int)
    requires Stands(dev, pid, w, h, open, start, start) && Inside(w, h, open) && ByOthers(others, pid)
    modifies dev, dev.pids, dev.infos, dev.Mazes()
    ensures fresh(dev.Mazes() - old(dev.Mazes()))
    ensures !stuck ==> Stands(dev, pid, w, h, open, start, start) && (cy, cx) == MoveAll(open, start, ds)
    ensures AllFinish(others) ==> !stuck
  {
    hide Stands, ByOthers, AllFinish, MoveAll, Layout, Inside;
    cx, cy := 0, 0;
    var size, from := AskSizeAndStart(dev, pid, w, h, open, start, start);
    stuck := Meanwhile(dev, pid, others, w, h, open, start, start);
    if stuck {
      return;
    }
    cx, cy := Foresee(dev, pid, ds, size, from, open);
  }

  // Send the batch.
  method SendMoves(dev: Device, pid: Pid, ds: seq<Delta>, ghost w: int, ghost h: int, ghost open: set<Room>,
                   ghost start: Room)
    returns (code: int)
    requires Stands(dev, pid, w, h, open, start, start) && |ds| % 8 == 0 && AllUnit(ds)
    modifies dev.Mazes()
    ensures dev.Mazes() == old(dev.Mazes()) && code >= 0
    ensures Stands(dev, pid, w, h, open, start, MoveAll(open, start, ds))
  {
    hide PerfectMaze, Ready, OpenGrid, MoveAll, AllUnit, StaysInGrid;
    UnitsFollow(dev, pid, ds);
    code := dev.Write(pid, ds, MOVE_SIZE * |ds|);
  }

  // Create the maze, read it and foretell.
  method Predict(dev: Device, pid: Pid, x: int, y: int, rs: seq<nat>, ds: seq<Delta>, others: seq<seq<(Pid, Request)>>)
    returns (stuck: bool, told: (int, int), ghost open: set<Room>, ghost start: Room)
    requires dev.Valid() && dev.SlotOf(pid) == -1 && dev.SlotOf(0) != -1 && 1 <= x <= MAX_X && 1 <= y <= MAX_Y
    requires |others| == 4 && forall i :: 0 <= i < 4 ==> ByOthers(others[i], pid)
    modifies dev, dev.pids, dev.infos, dev.Mazes()
    ensures fresh(dev.Mazes() - old(dev.Mazes()))
    ensures !stuck ==> Stands(dev, pid, x, y, open, start, start) && (told.1, told.0) == MoveAll(open, start, ds)
    ensures Generates(x, y, rs) && AllFinish(others[0]) && AllFinish(others[1]) ==> !stuck
  {
    hide PerfectMaze, Ready, OpenGrid, Generates, ByOthers, AllFinish, MoveAll, Stands, Inside;
    told := (0, 0);
    stuck, open, start := BeginMaze(dev, pid, x, y, rs);
    if stuck {
      return;
    }
    stuck := Meanwhile(dev, pid, others[0], x, y, open, start, start);
    if stuck {
      return;
    }
    var cx, cy;
    stuck, cx, cy := ReadMaze(dev, pid, ds, others[1], x, y, open, start);
    told := (cx, cy);
  }

  // Send the moves and ask where they have led.
  method Confirm(dev: Device, pid: Pid, ds: seq<Delta>, others: seq<seq<(Pid, Request)>>,
                 ghost w: int, ghost h: int, ghost open: set<Room>, ghost start: Room)
    returns (stuck: bool, sent: int, reported: (int, int))
    requires Stands(dev, pid, w, h, open, start, start) && |ds| % 8 == 0 && AllUnit(ds)
    requires |others| == 4 && forall i :: 0 <= i < 4 ==> ByOthers(others[i], pid)
    modifies dev, dev.pids, dev.infos, dev.Mazes()
    ensures !stuck ==> dev.Valid() && sent >= 0 && (reported.1, reported.0) == MoveAll(open, start, ds)
    ensures !stuck ==> WalkedFromStart(dev.MazeOf(pid), ds, reported)
    ensures AllFinish(others[2]) && AllFinish(others[3]) ==> !stuck
  {
    hide PerfectMaze, Ready, OpenGrid, AllUnit, ByOthers, AllFinish, MoveAll, Stands, WalkedFromStart;
    sent, reported := 0, (0, 0);
    stuck := Meanwhile(dev, pid, others[2], w, h, open, start, start);
    if stuck {
      return;
    }
    sent := SendMoves(dev, pid, ds, w, h, open, start);
    ghost var goal := MoveAll(open, start, ds);
    stuck := Meanwhile(dev, pid, others[3], w, h, open, start, goal);
    if stuck {
      return;
    }
    StandsWalked(dev, pid, w, h, open, start, ds);
    reported := AskPos(dev, pid, w, h, open, start, goal);
  }

  /** The random-walk case: create, read, rebuild, foretell, send the batch, compare. Whatever the other processes do
      between its calls, the position told is the one reported, and the one the moves lead to from the start, for every
      maze and every batch of unit moves of an accepted length, unless some create, its own or another's, does not come
      back or has a side of one. */
  method RandomWalk(dev: Device, pid: Pid, x: int, y: int, rs: seq<nat>, ds: seq<Delta>,
                    others: seq<seq<(Pid, Request)>>)
    returns (stuck: bool, passed: bool, told: (int, int), reported: (int, int))
    requires dev.Valid() && dev.SlotOf(pid) == -1 && dev.SlotOf(0) != -1 && 1 <= x <= MAX_X && 1 <= y <= MAX_Y
    requires |ds| % 8 == 0 && AllUnit(ds)
    requires |others| == 4 && forall i :: 0 <= i < 4 ==> ByOthers(others[i], pid)
    modifies dev, dev.pids, dev.infos, dev.Mazes()
    ensures !stuck ==> dev.Valid() && passed && told == reported
    ensures !stuck ==> WalkedFromStart(dev.MazeOf(pid), ds, reported)
    ensures Generates(x, y, rs) && (forall i :: 0 <= i < 4 ==> AllFinish(others[i])) ==> !stuck
  {
    hide PerfectMaze, Ready, OpenGrid, Generates, AllUnit, ByOthers, AllFinish, MoveAll, Stands, WalkedFromStart;
    passed, reported := false, (0, 0);
    ghost var open, start;
    stuck, told, open, start := Predict(dev, pid, x, y, rs, ds, others);
    if stuck {
      return;
    }
    var sent;
    stuck, sent, reported := Confirm(dev, pid, ds, others, x, y, open, start);
    passed := sent >= 0 && reported == told;
  }

  /** The position is reported as it is, and is where the moves lead from the start. */
  ghost predicate WalkedFromStart(m: MazeInfo?, ds: seq<Delta>, reported: (int, int))
    reads m, if m == null then {} else {m.blk}
  {
    && m != null && m.Sized() && reported == (m.posX, m.posY)
    && Position(m) == MoveAll(OpenGrid(m), m.Start(), ds)
  }

  lemma StandsWalked(dev: Device, pid: Pid, w: int, h: int, open: set<Room>, start: Room, ds: seq<Delta>)
    requires Stands(dev, pid, w, h, open, start, MoveAll(open, start, ds))
    ensures dev.Valid() && dev.MazeOf(pid) != null
    ensures WalkedFromStart(dev.MazeOf(pid), ds, (dev.MazeOf(pid).posX, dev.MazeOf(pid).posY))
  {
    hide PerfectMaze, Ready, OpenGrid, MoveAll;
  }

  lemma MazeReady(dev: Device, pid: Pid)
    requires dev.Valid()
    ensures dev.Sized()
    ensures dev.MazeOf(pid) != null ==> Ready(dev.MazeOf(pid)) && dev.MazeOf(pid).Sized()
  {
    hide PerfectMaze, OpenGrid;
  }

  lemma ReadyInside(m: MazeInfo)
    requires Ready(m)
    ensures m.Sized() && forall r, c :: (r, c) in OpenGrid(m) ==> 0 <= r < m.coordY && 0 <= c < m.coordX
  {
  }

  method Foretell(layout: seq<int>, w: int, h: int, sx: int, sy: int, ds: seq<Delta>, ghost open: set<Room>)
    returns (cx: int, cy: int)
    requires 0 <= w <= MAX_X && 0 <= h <= MAX_Y && Layout(layout, w, h, open) && Inside(w, h, open)
    ensures (cy, cx) == MoveAll(open, (sy, sx), ds)
  {
    hide Layout, MoveAll, Rebuilt.Agrees;
    var mine := new Rebuilt();
    mine.Rebuild(layout, w, h, open);
    cx, cy := mine.Simulate(sx, sy, ds, open);
  }

  /** Moves made one at a time end where a batch of them does. */
  method OneByOne(dev: Device, pid: Pid, ds: seq<Delta>)
    requires dev.Valid() && dev.MazeOf(pid) != null && AllUnit(ds)
    modifies dev.Own(pid)`posX, dev.Own(pid)`posY
    ensures dev.Valid() && dev.MazeOf(pid) == old(dev.MazeOf(pid))
    ensures var m := dev.MazeOf(pid);
            m.Sized() && Position(m) == MoveAll(OpenGrid(m), old(Position(dev.MazeOf(pid))), ds)
  {
    hide PerfectMaze, Ready, MoveTo, OpenGrid, Unit;
    var i := 0;
    ReadyInside(dev.MazeOf(pid));
    while i < |ds|
      invariant 0 <= i <= |ds| && dev.Valid() && dev.MazeOf(pid) == old(dev.MazeOf(pid))
      invariant var m := dev.MazeOf(pid);
                m.Sized() && MoveAll(OpenGrid(m), Position(m), ds[i..])
                             == MoveAll(OpenGrid(m), old(Position(dev.MazeOf(pid))), ds)
    {
      assert ds[i..][0] == ds[i] && ds[i..][1..] == ds[i + 1..];
      UnitTargets(dev, pid, ds[i]);
      var code := dev.Move(pid, ds[i]);
      i := i + 1;
    }
  }

  /** Unit moves never leave the open cells, so never the inside of the border. */
  lemma {:induction false} WalksStayInside(rows: int, cols: int, open: set<Room>, pos: Room, ds: seq<Delta>)
    requires PerfectMaze(rows, cols, open) && pos in open
    ensures MoveAll(open, pos, ds) in open
    ensures var p := MoveAll(open, pos, ds); 1 <= p.0 < rows - 1 && 1 <= p.1 < cols - 1
    decreases |ds|
  {
    if ds == [] {
      if !(1 <= pos.0 < rows - 1 && 1 <= pos.1 < cols - 1) {
        WallsRemain(rows, cols, open, pos);
      }
    } else {
      WalksStayInside(rows, cols, open, MoveTo(open, pos, ds[0]), ds[1..]);
    }
  }

  /** Every room can be walked to from every room, so the end from the start: unit moves lead there. */
  lemma Walkable(rows: int, cols: int, open: set<Room>, a: Room, b: Room) returns (ds: seq<Delta>)
    requires PerfectMaze(rows, cols, open) && IsRoom(rows, cols, a) && IsRoom(rows, cols, b)
    ensures AllUnit(ds) && MoveAll(open, a, ds) == b
  {
    var rs := RouteBetween(rows, cols, open, a, b);
    SpanningTree(rows, cols, open);
    ds := FollowRoute(open, rs);
  }

  // Two moves through each passage.
  lemma {:induction false} FollowRoute(open: set<Room>, rs: seq<Room>) returns (ds: seq<Delta>)
    requires |rs| > 0 && forall i :: 0 <= i < |rs| ==> rs[i] in open
    requires forall i :: 0 <= i < |rs| - 1 ==> ThroughPassage(open, rs[i], rs[i + 1])
    ensures AllUnit(ds) && MoveAll(open, rs[0], ds) == rs[|rs| - 1]
    decreases |rs|
  {
    if |rs| == 1 {
      return [];
    }
    var rest := FollowRoute(open, rs[1..]);
    assert ThroughPassage(open, rs[0], rs[0 + 1]);
    var d := HalfWay(open, rs[0], rs[1]);
    ds := [d] + ([d] + rest);
    assert ds[1..] == [d] + rest && ([d] + rest)[1..] == rest;
  }

  lemma HalfWay(open: set<Room>, a: Room, b: Room) returns (d: Delta)
    requires ThroughPassage(open, a, b) && b in open
    ensures Unit(d) && MoveTo(open, a, d) == Middle(a, b) && MoveTo(open, Middle(a, b), d) == b
  {
    d := Delta((b.1 - a.1) / 2, (b.0 - a.0) / 2);
  }
}
