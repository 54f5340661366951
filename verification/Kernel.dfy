/** The maze device: a table of three slots, and the operations processes make on it. Each operation is one atomic
    step. */
module Kernel {
  import opened Tree
  import opened Carving
  import opened Perfect
  import opened Generate
  import opened Options

  const MAX_USER: int := 3
  const ENOENT: int := 2
  const ENOMEM: int := 12
  const EEXIST: int := 17
  const EINVAL: int := 22
  const EBADFD: int := 77
  const MOVE_SIZE: int := 8  // bytes

  type Pid = p: int | p > 0 witness 1

  // A move by (x, y), as the user passes it.
  datatype Delta = Delta(x: int, y: int)

  predicate Unit(d: Delta) {
    -1 <= d.x <= 1 && -1 <= d.y <= 1
  }

  /** One move: to the cell if it is open, else nowhere. */
  function MoveTo(open: set<Room>, pos: Room, d: Delta): Room {
    var next := (pos.0 + d.y, pos.1 + d.x);
    if next in open then next else pos
  }

  /** Every cell that moving by `ds` from `pos` looks at is inside the grid. */
  predicate StaysInGrid(rows: int, cols: int, open: set<Room>, pos: Room, ds: seq<Delta>)
    decreases |ds|
  {
    ds == [] || (InGrid(rows, cols, pos, ds[0]) && StaysInGrid(rows, cols, open, MoveTo(open, pos, ds[0]), ds[1..]))
  }

  predicate InGrid(rows: int, cols: int, pos: Room, d: Delta) {
    0 <= pos.0 + d.y < rows && 0 <= pos.1 + d.x < cols
  }

  function MoveAll(open: set<Room>, pos: Room, ds: seq<Delta>): Room
    decreases |ds|
  {
    if ds == [] then pos else MoveAll(open, MoveTo(open, pos, ds[0]), ds[1..])
  }

  function IndexOf(s: seq<int>, v: int): (i: int)
    ensures -1 <= i < |s|
    ensures i >= 0 ==> s[i] == v && forall j :: 0 <= j < i ==> s[j] != v
    ensures i == -1 ==> v !in s
  {
    if s == [] then -1
    else if s[0] == v then 0
    else var i := IndexOf(s[1..], v); if i == -1 then -1 else i + 1
  }

  // Of a slot one has, or -1, and one more, the one a search finds.
  function First(mine: int, more: int): int {
    if mine == -1 || more < mine then more else mine
  }

  lemma {:induction false} IndexAfter(s: seq<int>, v: int, e: int)
    requires -1 <= e < |s| && (e >= 0 ==> s[e] != v)
    ensures e >= 0 ==> IndexOf(s[e := v], v) == First(IndexOf(s, v), e)
    decreases |s|
  {
    if e > 0 {
      assert s[e := v][1..] == s[1..][e - 1 := v];
      IndexAfter(s[1..], v, e - 1);
    }
  }

  class Device {
    const pids: array<int>
    const infos: array<MazeInfo?>
    var errorNo: int

    constructor ()
      ensures Valid() && fresh(pids) && fresh(infos) && errorNo == 0
      ensures forall i :: 0 <= i < MAX_USER ==> pids[i] == 0
    {
      pids := new int[MAX_USER](_ => 0);
      infos := new MazeInfo?[MAX_USER](_ => null);
      errorNo := 0;
    }

    ghost predicate Sized() {
      pids.Length == infos.Length == MAX_USER
    }

    ghost function Mazes(): set<MazeInfo>
      reads infos
    {
      set i | 0 <= i < infos.Length && infos[i] != null :: infos[i]
    }

    ghost function Grids(): set<array2<char>>
      reads infos
    {
      set i | 0 <= i < infos.Length && infos[i] != null :: infos[i].blk
    }

    /** A vacant slot holds no maze, no two slots share a maze, and every maze is ready to be walked. */
    ghost predicate Valid()
      reads this, pids, infos, Mazes(), Grids()
    {
      && Sized()
      && (forall i :: 0 <= i < MAX_USER ==> pids[i] >= 0 && (pids[i] == 0 ==> infos[i] == null))
      && (forall i, j :: 0 <= i < j < MAX_USER && infos[i] != null && infos[j] != null ==>
            infos[i] != infos[j] && infos[i].blk != infos[j].blk)
      && (forall i :: 0 <= i < MAX_USER && infos[i] != null ==> Ready(infos[i]))
    }

    // The process's slot: the first one with its pid, or -1.
    function SlotOf(pid: int): (i: int)
      requires Sized()
      reads pids
      ensures -1 <= i < MAX_USER
      ensures i >= 0 ==> pids[i] == pid
      ensures i == -1 ==> forall j :: 0 <= j < MAX_USER ==> pids[j] != pid
    {
      IndexOf(pids[..], pid)
    }

    /** The maze the process's operations go to. */
    function MazeOf(pid: int): (m: MazeInfo?)
      requires Sized()
      reads pids, infos
      ensures m != null ==> m in Mazes()
    {
      if SlotOf(pid) == -1 then null else infos[SlotOf(pid)]
    }

    method GetIndex(v: int) returns (index: int)
      requires Sized()
      ensures index == SlotOf(v)
    {
      var i := 0;
      while i < MAX_USER
        invariant 0 <= i <= MAX_USER && forall j :: 0 <= j < i ==> pids[j] != v
      {
        if pids[i] == v {
          return i;
        }
        i := i + 1;
      }
      index := -1;
    }

    ghost function Own(pid: int): set<MazeInfo>
      requires Sized()
      reads pids, infos
    {
      if MazeOf(pid) == null then {} else {MazeOf(pid)}
    }

    /** Process `p` finds its slots and its mazes as they were. */
    twostate predicate Spares(p: int)
      requires Sized()
      reads pids, infos, Mazes(), Grids()
    {
      forall i :: 0 <= i < MAX_USER ==>
        && (pids[i] == p <==> old(pids[i]) == p)
        && (pids[i] == p ==>
              && infos[i] == old(infos[i])
              && (infos[i] != null ==> unchanged(infos[i]) && unchanged(infos[i].blk)))
    }

    // No slot has changed hands or maze.
    twostate predicate SameTable()
      requires Sized()
      reads pids, infos
    {
      forall i :: 0 <= i < MAX_USER ==> pids[i] == old(pids[i]) && infos[i] == old(infos[i])
    }

    // The cell the process's move looks at is inside its grid.
    predicate Targets(pid: Pid, d: Delta)
      requires Sized()
      reads pids, infos, Mazes()
    {
      MazeOf(pid) != null ==> InGrid(MazeOf(pid).coordY, MazeOf(pid).coordX, Position(MazeOf(pid)), d)
    }

    /** MAZE_MOVE: the grid is read without a bounds check, which is right for every move that stays inside it. */
    method Move(pid: Pid, d: Delta) returns (code: int)
      requires Valid() && Targets(pid, d)
      modifies Own(pid)`posX, Own(pid)`posY
      ensures Valid() && SameTable() && forall p :: p != pid ==> Spares(p)
      ensures code == if MazeOf(pid) == null then -ENOENT else 0
      ensures MazeOf(pid) != null ==>
          Position(MazeOf(pid)) == MoveTo(OpenGrid(MazeOf(pid)), old(Position(MazeOf(pid))), d)
      ensures MazeOf(pid) != null ==> Moved(MazeOf(pid), old(MazeOf(pid).posX), old(MazeOf(pid).posY), d)
    {
      hide PerfectMaze, Ready, MoveTo, OpenGrid, Moved;
      var index := GetIndex(pid);
      if index == -1 || infos[index] == null {
        return -ENOENT;
      }
      StepIn(infos[index], d);
      code := 0;
    }

    ghost predicate Follows(pid: Pid, ds: seq<Delta>)
      requires Sized()
      reads pids, infos, Mazes(), Grids()
    {
      MazeOf(pid) != null && MazeOf(pid).Sized() ==>
        var m := MazeOf(pid); StaysInGrid(m.coordY, m.coordX, OpenGrid(m), Position(m), ds)
    }

    /** The batch write, of `len` bytes: whole moves are counted, and a number that is no multiple of eight is refused;
        else the moves are made in order. */
    method Write(pid: Pid, ds: seq<Delta>, len: nat) returns (code: int)
      requires Valid() && |ds| == len / MOVE_SIZE && (|ds| % 8 == 0 ==> Follows(pid, ds))
      modifies Own(pid)`posX, Own(pid)`posY
      ensures Valid() && SameTable() && forall p :: p != pid ==> Spares(p)
      ensures MazeOf(pid) == old(MazeOf(pid))
      ensures code == if MazeOf(pid) == null then -EBADFD else if |ds| % 8 != 0 then -EINVAL else len
      ensures MazeOf(pid) != null && |ds| % 8 != 0 ==> Position(MazeOf(pid)) == old(Position(MazeOf(pid)))
      ensures MazeOf(pid) != null && |ds| % 8 == 0 ==>
          Position(MazeOf(pid)) == MoveAll(OpenGrid(MazeOf(pid)), old(Position(MazeOf(pid))), ds)
    {
      hide PerfectMaze, Ready, MoveTo, OpenGrid, MoveAll, StaysInGrid;
      var index := GetIndex(pid);
      if index == -1 || infos[index] == null {
        return -EBADFD;
      }
      if |ds| % 8 != 0 {
        return -EINVAL;
      }
      ReadyIsSized(infos[index]);
      WalkIn(infos[index], ds);
      code := len;
    }

    method Reset(pid: Pid) returns (code: int)
      requires Valid()
      modifies Own(pid)`posX, Own(pid)`posY
      ensures Valid() && SameTable() && forall p :: p != pid ==> Spares(p)
      ensures code == if MazeOf(pid) == null then -ENOENT else 0
      ensures MazeOf(pid) != null ==> Position(MazeOf(pid)) == MazeOf(pid).Start()
    {
      hide PerfectMaze, Ready, OpenGrid;
      var index := GetIndex(pid);
      if index == -1 || infos[index] == null {
        return -ENOENT;
      }
      BackToStart(infos[index]);
      code := 0;
    }

    /** MAZE_DESTROY: the maze goes, the slot stays. */
    method Destroy(pid: Pid) returns (code: int)
      requires Valid()
      modifies infos
      ensures Valid() && forall p :: p != pid ==> Spares(p)
      ensures code == if old(MazeOf(pid)) == null then -ENOENT else 0
      ensures MazeOf(pid) == null && SlotOf(pid) == old(SlotOf(pid)) && Mazes() <= old(Mazes())
      ensures forall i :: 0 <= i < MAX_USER && i != SlotOf(pid) ==> infos[i] == old(infos[i])
    {
      hide PerfectMaze, Ready, OpenGrid;
      var index := GetIndex(pid);
      if index == -1 || infos[index] == null {
        return -ENOENT;
      }
      infos[index] := null;
      code := 0;
    }

    // What the four queries report, as (x, y).
    method GetSize(pid: Pid) returns (r: Option<(int, int)>)
      requires Valid()
      ensures r == if MazeOf(pid) == null then None else Some((MazeOf(pid).coordX, MazeOf(pid).coordY))
    {
      var index := GetIndex(pid);
      if index == -1 || infos[index] == null {
        return None;
      }
      r := Some((infos[index].coordX, infos[index].coordY));
    }

    method GetPos(pid: Pid) returns (r: Option<(int, int)>)
      requires Valid()
      ensures r == if MazeOf(pid) == null then None else Some((MazeOf(pid).posX, MazeOf(pid).posY))
    {
      var index := GetIndex(pid);
      if index == -1 || infos[index] == null {
        return None;
      }
      r := Some((infos[index].posX, infos[index].posY));
    }

    method GetStart(pid: Pid) returns (r: Option<(int, int)>)
      requires Valid()
      ensures r == if MazeOf(pid) == null then None else Some((MazeOf(pid).sx, MazeOf(pid).sy))
    {
      var index := GetIndex(pid);
      if index == -1 || infos[index] == null {
        return None;
      }
      r := Some((infos[index].sx, infos[index].sy));
    }

    method GetEnd(pid: Pid) returns (r: Option<(int, int)>)
      requires Valid()
      ensures r == if MazeOf(pid) == null then None else Some((MazeOf(pid).ex, MazeOf(pid).ey))
    {
      var index := GetIndex(pid);
      if index == -1 || infos[index] == null {
        return None;
      }
      r := Some((infos[index].ex, infos[index].ey));
    }

    /** The layout, row after row: 1 for a wall, 0 for anything else. */
    method Read(pid: Pid) returns (r: Option<seq<int>>)
      requires Valid()
      ensures r.None? <==> MazeOf(pid) == null
      ensures r.Some? ==> Layout(r.value, MazeOf(pid).coordX, MazeOf(pid).coordY, OpenGrid(MazeOf(pid)))
      ensures r.Some? ==> Pictures(r.value, MazeOf(pid))
    {
      var index := GetIndex(pid);
      if index == -1 || infos[index] == null {
        return None;
      }
      var layout := LayoutOf(infos[index]);
      r := Some(layout);
    }

    /** The slot that was the first vacant one holds a new maze of the process, and no other slot has changed. */
    twostate predicate Filled(pid: int, x: int, y: int)
      requires Sized()
      reads pids, infos, Mazes()
    {
      var e := old(SlotOf(0));
      && NewMaze(pid, e, x, y) && fresh(infos[e]) && SlotOf(pid) == First(old(SlotOf(pid)), e)
      && forall i :: 0 <= i < MAX_USER && i != e ==> pids[i] == old(pids[i]) && infos[i] == old(infos[i])
    }

    ghost predicate NewMaze(pid: int, e: int, x: int, y: int)
      requires Sized()
      reads pids, infos, Mazes()
    {
      0 <= e < MAX_USER && pids[e] == pid && infos[e] != null
      && (infos[e].coordX, infos[e].coordY) == (x, y) && Position(infos[e]) == infos[e].Start()
    }

    /** A new maze in the first vacant slot, whoever else has one. None: the call does not come back properly, because
        the choice of ends never finishes, a side of two divides by zero, or a side of one leads out of the array. With
        a side of one it can also come back; then the maze is all walls, the position lies outside it, and the device is
        not valid any more. */
    method CreateMaze(pid: Pid, x: int, y: int, rs: seq<nat>) returns (code: Option<int>)
      requires Valid() && 1 <= x <= MAX_X && 1 <= y <= MAX_Y
      modifies pids, infos
      ensures forall p :: p != pid && p != 0 ==> Spares(p)
      ensures code == if old(SlotOf(0)) == -1 then Some(-ENOMEM) else if Returns(x, y, rs) then Some(0) else None
      ensures code.Some? ==> (Valid() <==> code != Some(0) || Generates(x, y, rs))
      ensures code == Some(0) && !Generates(x, y, rs) ==> AllWalls(old(SlotOf(0)))
      ensures if old(SlotOf(0)) == -1 then SameTable() else code.Some? ==> Filled(pid, x, y)
      ensures fresh(Mazes() - old(Mazes()))
    {
      hide PerfectMaze, Ready, OpenGrid, EndsFrom, IndexOf, Generates, Returns, First, AllWalls, NewMaze;
      var index := GetIndex(0);
      if index == -1 {
        return Some(-ENOMEM);
      }
      label vacant:
      var done := FillVacant(index, pid, x, y, rs);
      forall p | p != pid && p != 0 ensures Spares(p) {
        assert Spares@vacant(p);
      }
      code := if done then Some(0) else None;
    }

    method FillVacant(e: int, pid: Pid, x: int, y: int, rs: seq<nat>) returns (done: bool)
      requires Valid() && 1 <= x <= MAX_X && 1 <= y <= MAX_Y && e == SlotOf(0) != -1
      modifies pids, infos
      ensures forall p :: p != pid && p != 0 ==> Spares(p)
      ensures (done <==> Returns(x, y, rs)) && (done ==> (Valid() <==> Generates(x, y, rs)))
      ensures done ==> Filled(pid, x, y) && (!Generates(x, y, rs) ==> AllWalls(e))
      ensures fresh(Mazes() - old(Mazes()))
    {
      hide PerfectMaze, Ready, OpenGrid, EndsFrom, IndexOf, Generates, Returns, First, AllWalls, NewMaze;
      var m;
      m, done := Generated(x, y, rs);
      Occupy(e, pid, m);
    }

    // The maze in slot `e` has no open cell.
    ghost predicate AllWalls(e: int)
      requires Sized()
      reads infos, Mazes(), Grids()
    {
      0 <= e < MAX_USER && infos[e] != null && infos[e].Sized() && OpenGrid(infos[e]) == {}
    }

    method Occupy(e: int, pid: Pid, m: MazeInfo)
      requires Valid() && e == SlotOf(0) != -1 && m !in Mazes() && m.blk !in Grids()
      modifies pids, infos
      ensures forall p :: p != pid && p != 0 ==> Spares(p)
      ensures Valid() <==> Ready(m)
      ensures m.Sized() && OpenGrid(m) == {} ==> AllWalls(e)
      ensures Position(m) == m.Start() ==> NewMaze(pid, e, m.coordX, m.coordY)
      ensures pids[e] == pid && infos[e] == m && SlotOf(pid) == First(old(SlotOf(pid)), e)
      ensures forall i :: 0 <= i < MAX_USER && i != e ==> pids[i] == old(pids[i]) && infos[i] == old(infos[i])
    {
      hide PerfectMaze, Ready, OpenGrid, IndexOf;
      IndexAfter(pids[..], pid, e);
      pids[e] := pid;
      assert pids[..] == old(pids[..])[e := pid];
      infos[e] := m;
    }

    /** MAZE_CREATE. It reports success with no usable maze when the process already has a slot: exactly then, unless
        the vacant slot it fills comes before that one. */
    method Create(pid: Pid, x: int, y: int, rs: seq<nat>) returns (code: Option<int>)
      requires Valid()
      modifies `errorNo, pids, infos
      ensures forall p :: p != pid && p != 0 ==> Spares(p)
      ensures code ==
          if !(1 <= x <= MAX_X && 1 <= y <= MAX_Y) then Some(-EINVAL)
          else if old(MazeOf(pid)) != null then Some(-EEXIST)
          else if old(SlotOf(pid)) == -1 && old(SlotOf(0)) == -1 then Some(-ENOMEM)
          else if old(SlotOf(0)) == -1 || Returns(x, y, rs) then Some(0) else None
      ensures code.Some? ==> (Valid() <==> code != Some(0) || old(SlotOf(0)) == -1 || Generates(x, y, rs))
      ensures code.Some? ==> if code == Some(0) && old(SlotOf(0)) != -1 then Filled(pid, x, y) else SameTable()
      ensures errorNo == if code == Some(-ENOMEM) then ENOMEM else old(errorNo)
      ensures code == Some(0) ==>
          (MazeOf(pid) != null <==> old(SlotOf(pid)) == -1 || 0 <= old(SlotOf(0)) < old(SlotOf(pid)))
      ensures code == Some(0) && MazeOf(pid) != null ==> NewMaze(pid, SlotOf(pid), x, y) && fresh(MazeOf(pid))
      ensures fresh(Mazes() - old(Mazes()))
    {
      hide PerfectMaze, Ready, OpenGrid, EndsFrom, IndexOf, Generates, Returns, MoveTo;
      if x <= 0 || y <= 0 || x > MAX_X || y > MAX_Y {
        return Some(-EINVAL);
      }
      var index := GetIndex(pid);
      if index != -1 {
        if infos[index] != null {
          return Some(-EEXIST);
        }
      } else {
        var empty := GetIndex(0);
        if empty == -1 {
          errorNo := ENOMEM;
          return Some(-ENOMEM);
        }
      }
      label asked:
      var ignored := CreateMaze(pid, x, y, rs);
      forall p | p != pid && p != 0 ensures Spares(p) {
        assert Spares@asked(p);
      }
      code := if ignored.Some? then Some(0) else None;
    }

    /** ONLY_FOR_Q3: create without asking what the process already has, and without saying whether there was room. */
    method CreateForQ3(pid: Pid, x: int, y: int, rs: seq<nat>) returns (code: Option<int>)
      requires Valid()
      modifies pids, infos
      ensures forall p :: p != pid && p != 0 ==> Spares(p)
      ensures code ==
          if !(1 <= x <= MAX_X && 1 <= y <= MAX_Y) then Some(-EINVAL)
          else if old(SlotOf(0)) == -1 || Returns(x, y, rs) then Some(0) else None
      ensures code.Some? ==> (Valid() <==> code != Some(0) || old(SlotOf(0)) == -1 || Generates(x, y, rs))
      ensures code.Some? ==> if code == Some(0) && old(SlotOf(0)) != -1 then Filled(pid, x, y) else SameTable()
      ensures fresh(Mazes() - old(Mazes()))
    {
      hide PerfectMaze, Ready, OpenGrid, EndsFrom, IndexOf, Generates, Returns, MoveTo;
      if x <= 0 || y <= 0 || x > MAX_X || y > MAX_Y {
        return Some(-EINVAL);
      }
      var ignored := CreateMaze(pid, x, y, rs);
      code := if ignored.Some? then Some(0) else None;
    }

    /** Closing gives the process's first slot back, unless a failed create, by any process, has left its mark. */
    method Close(pid: Pid)
      requires Valid()
      modifies `errorNo, pids, infos
      ensures Valid() && forall p :: p != pid && p != 0 ==> Spares(p)
      ensures old(errorNo) == ENOMEM ==> errorNo == 0 && SameTable()
      ensures old(errorNo) != ENOMEM ==> errorNo == old(errorNo)
      ensures old(errorNo) != ENOMEM && old(SlotOf(pid)) != -1 ==>
          pids[old(SlotOf(pid))] == 0 && infos[old(SlotOf(pid))] == null
      ensures forall i :: 0 <= i < MAX_USER && i != old(SlotOf(pid)) ==>
          pids[i] == old(pids[i]) && infos[i] == old(infos[i])
      ensures Mazes() <= old(Mazes())
    {
      hide PerfectMaze, Ready, OpenGrid;
      if errorNo == ENOMEM {
        errorNo := 0;
        return;
      }
      var index := GetIndex(pid);
      if index == -1 {
        return;
      }
      infos[index] := null;
      pids[index] := 0;
    }
  }

  // Index of the first cell of row `r` in a layout with `w` columns.
  function RowAt(w: nat, r: nat): nat {
    if r == 0 then 0 else RowAt(w, r - 1) + w
  }

  lemma {:induction false} RowAtIsProduct(w: nat, r: nat)
    ensures RowAt(w, r) == r * w
  {
    if r > 0 {
      RowAtIsProduct(w, r - 1);
      assert r * w == (r - 1) * w + w;
    }
  }

  lemma {:induction false} RowsApart(w: nat, r: nat, k: nat)
    requires r < k
    ensures RowAt(w, r) + w <= RowAt(w, k)
    decreases k
  {
    if r < k - 1 {
      RowsApart(w, r, k - 1);
    }
  }

  // Cell (r, c) of a layout with `w` columns.
  predicate Shows(layout: seq<int>, w: nat, open: set<Room>, r: nat, c: nat) {
    RowAt(w, r) + c < |layout| && layout[RowAt(w, r) + c] == if (r, c) in open then 0 else 1
  }

  ghost predicate Layout(layout: seq<int>, w: nat, h: nat, open: set<Room>) {
    |layout| == w * h && forall r, c :: 0 <= r < h && 0 <= c < w ==> Shows(layout, w, open, r, c)
  }

  // The first `k` rows of the layout are filled in.
  ghost predicate RowsShown(layout: seq<int>, w: nat, open: set<Room>, k: nat) {
    forall r, c :: 0 <= r < k && 0 <= c < w ==> Shows(layout, w, open, r, c)
  }

  /** Said of the grid: cell (r, c) is at r * columns + c, 1 for a wall and 0 for anything else. */
  ghost predicate Pictures(layout: seq<int>, m: MazeInfo)
    reads m, m.blk
  {
    && 0 <= m.coordY <= m.blk.Length0 && 0 <= m.coordX <= m.blk.Length1
    && forall r, c :: 0 <= r < m.coordY && 0 <= c < m.coordX ==>
         At(layout, r * m.coordX + c, if m.blk[r, c] == '#' then 1 else 0)
  }

  predicate At(layout: seq<int>, i: int, v: int) {
    0 <= i < |layout| && layout[i] == v
  }

  lemma LayoutPictures(layout: seq<int>, m: MazeInfo)
    requires m.Sized() && Layout(layout, m.coordX, m.coordY, OpenGrid(m))
    ensures Pictures(layout, m)
  {
    forall r, c | 0 <= r < m.coordY && 0 <= c < m.coordX
      ensures At(layout, r * m.coordX + c, if m.blk[r, c] == '#' then 1 else 0)
    {
      RowAtIsProduct(m.coordX, r);
      assert Shows(layout, m.coordX, OpenGrid(m), r, c);
    }
  }

  method LayoutOf(m: MazeInfo) returns (layout: seq<int>)
    requires Ready(m)
    ensures Layout(layout, m.coordX, m.coordY, OpenGrid(m)) && Pictures(layout, m)
  {
    hide PerfectMaze, RowsShown, RowAt, IsRoom;
    RowAtIsProduct(m.coordX, m.coordY);
    var buffer := new int[m.coordX * m.coordY];
    NoRowsShown(buffer[..], m.coordX, OpenGrid(m));
    for i := 0 to m.coordY
      invariant RowsShown(buffer[..], m.coordX, OpenGrid(m), i)
    {
      LayoutRow(m, buffer, i);
    }
    layout := buffer[..];
    AllRowsShown(layout, m.coordX, m.coordY, OpenGrid(m));
    LayoutPictures(layout, m);
  }

  lemma NoRowsShown(layout: seq<int>, w: nat, open: set<Room>)
    ensures RowsShown(layout, w, open, 0)
  {
  }

  lemma AllRowsShown(layout: seq<int>, w: nat, h: nat, open: set<Room>)
    requires RowsShown(layout, w, open, h) && |layout| == w * h
    ensures Layout(layout, w, h, open)
  {
  }

  method LayoutRow(m: MazeInfo, buffer: array<int>, i: nat)
    requires m.Sized() && i < m.coordY && buffer.Length == RowAt(m.coordX, m.coordY)
    requires RowsShown(buffer[..], m.coordX, OpenGrid(m), i)
    modifies buffer
    ensures RowsShown(buffer[..], m.coordX, OpenGrid(m), i + 1)
  {
    ghost var w, open := m.coordX, OpenGrid(m);
    RowAtIsProduct(w, i);
    RowsApart(w, i, m.coordY);
    hide RowAt;
    for j := 0 to m.coordX
      invariant RowsShown(buffer[..], w, open, i)
      invariant forall c :: 0 <= c < j ==> Shows(buffer[..], w, open, i, c)
    {
      ghost var was := buffer[..];
      var at := i * m.coordX + j;
      if m.blk[i, j] == '#' {
        buffer[at] := 1;
      } else {
        buffer[at] := 0;
      }
      forall r, c | 0 <= r < i && 0 <= c < w ensures Shows(buffer[..], w, open, r, c) {
        RowsApart(w, r, i);
        assert Shows(was, w, open, r, c);
      }
      forall c | 0 <= c < j ensures Shows(buffer[..], w, open, i, c) {
        assert Shows(was, w, open, i, c);
      }
    }
  }

  /** The random numbers let the generator finish, with its ends inside the array ... */
  predicate Returns(x: int, y: int, rs: seq<nat>) {
    1 <= x <= MAX_X && 1 <= y <= MAX_Y && Placeable(y, x, rs)
  }

  /** ... and the size is one for which it then makes a maze. */
  predicate Generates(x: int, y: int, rs: seq<nat>) {
    3 <= x <= MAX_X && 3 <= y <= MAX_Y && EndsFrom(y, x, rs).Some?
  }

  lemma UsableOrWalled(x: int, y: int, rs: seq<nat>)
    ensures Generates(x, y, rs) <==> Returns(x, y, rs) && x != 1 && y != 1
  {
    hide EndsFrom;
    if 3 <= x <= MAX_X && 3 <= y <= MAX_Y {
      RoomsPlaceable(y, x, rs);
    }
  }

  /** A maze of nine columns and one row, with its ends in the row below it: the create comes back. */
  lemma OneRow()
    ensures Returns(9, 1, [0, 0, 0, 2]) && !Generates(9, 1, [0, 0, 0, 2])
    ensures EndsFrom(1, 9, [0, 0, 0, 2]) == Some(Ends((1, 1), (1, 3)))
  {
    FirstTry(1, 9, 0, 2);
  }

  method Generated(x: int, y: int, rs: seq<nat>) returns (m: MazeInfo, done: bool)
    requires 1 <= x <= MAX_X && 1 <= y <= MAX_Y
    ensures fresh(m) && fresh(m.blk) && (done <==> Returns(x, y, rs))
    ensures done ==> (m.coordX, m.coordY) == (x, y) && Position(m) == m.Start()
    ensures done ==> (Ready(m) <==> Generates(x, y, rs))
    ensures done && !Ready(m) ==> m.Sized() && OpenGrid(m) == {}
  {
    UsableOrWalled(x, y, rs);
    hide PerfectMaze, Ready, EndsFrom;
    m := new MazeInfo();
    done := false;
    if x != 2 && y != 2 {
      done := GenerateMaze(y, x, m, rs);
    }
  }

  method WalkIn(m: MazeInfo, ds: seq<Delta>)
    requires Ready(m) && StaysInGrid(m.coordY, m.coordX, OpenGrid(m), Position(m), ds)
    modifies m`posX, m`posY
    ensures Ready(m) && Position(m) == MoveAll(OpenGrid(m), old(Position(m)), ds)
  {
    hide PerfectMaze, MoveTo, OpenGrid, InGrid;
    var i := 0;
    while i < |ds|
      invariant 0 <= i <= |ds| && Ready(m)
      invariant StaysInGrid(m.coordY, m.coordX, OpenGrid(m), Position(m), ds[i..])
      invariant MoveAll(OpenGrid(m), Position(m), ds[i..]) == MoveAll(OpenGrid(m), old(Position(m)), ds)
    {
      assert ds[i..][0] == ds[i] && ds[i..][1..] == ds[i + 1..];
      StepIn(m, ds[i]);
      i := i + 1;
    }
  }

  method BackToStart(m: MazeInfo)
    requires Ready(m)
    modifies m`posX, m`posY
    ensures Ready(m) && Position(m) == m.Start()
  {
    StartIsOpen(m);
    hide PerfectMaze;
    m.posX := m.sx;
    m.posY := m.sy;
  }

  lemma StartIsOpen(m: MazeInfo)
    requires Ready(m)
    ensures m.Start() in OpenGrid(m)
  {
    SpanningTree(m.coordY, m.coordX, OpenGrid(m));
  }

  lemma ReadyIsSized(m: MazeInfo)
    requires Ready(m)
    ensures m.Sized()
  {
  }

  /** A move from (x, y), said of the grid: to the cell it aims at unless that is a wall. */
  predicate Moved(m: MazeInfo, x: int, y: int, d: Delta)
    reads m, m.blk
  {
    && 0 <= y + d.y < m.coordY <= m.blk.Length0 && 0 <= x + d.x < m.coordX <= m.blk.Length1
    && if m.blk[y + d.y, x + d.x] == '#' then m.posX == x && m.posY == y
       else m.posX == x + d.x && m.posY == y + d.y
  }

  method StepIn(m: MazeInfo, d: Delta)
    requires Ready(m) && InGrid(m.coordY, m.coordX, Position(m), d)
    modifies m`posX, m`posY
    ensures Ready(m) && Position(m) == MoveTo(OpenGrid(m), old(Position(m)), d)
    ensures Moved(m, old(m.posX), old(m.posY), d)
  {
    hide PerfectMaze, IsRoom;
    ghost var open := OpenGrid(m);
    assert m.blk[m.posY + d.y, m.posX + d.x] != '#' <==> (m.posY + d.y, m.posX + d.x) in open;
    hide OpenGrid;
    if m.blk[m.posY + d.y, m.posX + d.x] != '#' {
      m.posX := m.posX + d.x;
      m.posY := m.posY + d.y;
    }
  }

  /** From an open cell a unit move looks inside the grid. */
  lemma InBounds(rows: int, cols: int, open: set<Room>, pos: Room, d: Delta)
    requires PerfectMaze(rows, cols, open) && pos in open && Unit(d)
    ensures InGrid(rows, cols, pos, d)
  {
    if !(1 <= pos.0 < rows - 1 && 1 <= pos.1 < cols - 1) {
      WallsRemain(rows, cols, open, pos);
    }
  }

  /** So any number of unit moves do, wherever they have led. */
  lemma {:induction false} UnitsStayInGrid(rows: int, cols: int, open: set<Room>, pos: Room, ds: seq<Delta>)
    requires PerfectMaze(rows, cols, open) && pos in open && forall i :: 0 <= i < |ds| ==> Unit(ds[i])
    ensures StaysInGrid(rows, cols, open, pos, ds)
    decreases |ds|
  {
    if ds != [] {
      InBounds(rows, cols, open, pos, ds[0]);
      UnitsStayInGrid(rows, cols, open, MoveTo(open, pos, ds[0]), ds[1..]);
    }
  }
}
