/** The maze both sides of the library share, and reading it from a file. */
module MazeData {
  import opened Grid

  const MAX_SIDE: int := 101
  const MAX_MOVES: int := 1200

  // Block contents by row and column; zero is a road.
  type Blocks = b: seq<seq<int>> | |b| == MAX_SIDE && forall y :: 0 <= y < MAX_SIDE ==> |b[y]| == MAX_SIDE
    witness seq(MAX_SIDE, _ => seq(MAX_SIDE, _ => 0))

  predicate InArray(c: Cell) {
    0 <= c.0 < MAX_SIDE && 0 <= c.1 < MAX_SIDE
  }

  function RoadCells(w: int, h: int, b: Blocks): (r: set<Cell>)
    requires w <= MAX_SIDE && h <= MAX_SIDE
    ensures forall x, y :: (x, y) in r <==> 0 < x < w && 0 < y < h && b[y][x] == 0
  {
    set x, y | 0 < x < w && 0 < y < h && b[y][x] == 0 :: (x, y)
  }

  class Maze {
    var w: int
    var h: int
    var sx: int
    var sy: int
    var ex: int
    var ey: int
    var cx: int
    var cy: int
    const blk: array2<int>  // [row, column]

    constructor (w: int, h: int, sx: int, sy: int, ex: int, ey: int)
      ensures this.w == w && this.h == h && this.sx == sx && this.sy == sy && this.ex == ex && this.ey == ey
      ensures cx == sx && cy == sy && marked == {} && fresh(blk) && blk.Length0 == blk.Length1 == MAX_SIDE
    {
      this.w, this.h, this.sx, this.sy, this.ex, this.ey, cx, cy := w, h, sx, sy, ex, ey, sx, sy;
      blk := new int[MAX_SIDE, MAX_SIDE];
      marked, open, loaded := {}, {}, seq(MAX_SIDE, _ => seq(MAX_SIDE, _ => 0));
    }

    // What was loaded, the cells that hold a 2 since, and the roads that are left.
    ghost var loaded: Blocks
    ghost var marked: set<Cell>
    ghost var open: set<Cell>

    ghost predicate Valid()
      reads this, blk
    {
      && blk.Length0 == blk.Length1 == MAX_SIDE && w <= MAX_SIDE && h <= MAX_SIDE
      && (forall x, y :: InArray((x, y)) ==> blk[y, x] == if (x, y) in marked then 2 else loaded[y][x])
      && open == RoadCells(w, h, loaded) - marked
    }

    lemma OpenIsUnmarked()
      requires Valid()
      ensures open !! marked
    {
    }

    function Start(): Cell
      reads this
    {
      (sx, sy)
    }

    function End(): Cell
      reads this
    {
      (ex, ey)
    }

    predicate IsValid(x: int, y: int)
      requires Valid()
      reads this, blk
      ensures IsValid(x, y) <==> (x, y) in open
      ensures IsValid(x, y) ==> InArray((x, y))
    {
      x > 0 && x < w && y > 0 && y < h && blk[y, x] == 0
    }

    method Mark(x: int, y: int)
      requires Valid() && InArray((x, y))
      modifies blk, this`marked, this`open
      ensures Valid() && marked == old(marked) + {(x, y)} && open == old(open) - {(x, y)}
    {
      blk[y, x] := 2;
      marked, open := marked + {(x, y)}, open - {(x, y)};
    }
  }

  /** The 32-bit value of k << 20. */
  function Shift20(k: int): int {
    var u := (k * 0x10_0000) % 0x1_0000_0000;
    if u < 0x8000_0000 then u else u - 0x1_0000_0000
  }

  /** It is the 32-bit number congruent to k * 2^20. */
  lemma Shift20IsCongruent(k: int)
    ensures -0x8000_0000 <= Shift20(k) < 0x8000_0000
    ensures (Shift20(k) - k * 0x10_0000) % 0x1_0000_0000 == 0
  {
    var q := (k * 0x10_0000) / 0x1_0000_0000;
    assert Shift20(k) - k * 0x10_0000 == 0x1_0000_0000 * (-q) || Shift20(k) - k * 0x10_0000 == 0x1_0000_0000 * (-q - 1);
  }

  /** So a number loads as a road exactly if it is a multiple of 4096. */
  lemma Shift20IsRoad(k: int)
    ensures Shift20(k) == 0 <==> k % 4096 == 0
  {
    var q := (k * 0x10_0000) / 0x1_0000_0000;
    assert (k * 0x10_0000) % 0x1_0000_0000 == 0x10_0000 * (k - 4096 * q);
  }

  lemma Shift20IsNotMark(k: int)
    ensures Shift20(k) != 2
  {
    var u := (k * 0x10_0000) % 0x1_0000_0000;
    var q := (k * 0x10_0000) / 0x1_0000_0000;
    assert u == 0x10_0000 * (k - 0x1000 * q);
  }

  // A maze file is the numbers it holds: width, height, start and end, then the rows.
  // Index of the first number of row `y`.
  function RowStart(w: nat, y: nat): nat {
    if y == 0 then 6 else RowStart(w, y - 1) + w
  }

  lemma {:induction false} RowsFit(w: nat, y: nat, h: nat)
    requires y <= h
    ensures RowStart(w, y) <= RowStart(w, h)
    decreases h
  {
    if y < h {
      RowsFit(w, y, h - 1);
    }
  }

  lemma {:induction false} RowStartIs(w: nat, y: nat)
    ensures RowStart(w, y) == 6 + y * w
  {
    if y > 0 {
      RowStartIs(w, y - 1);
      assert y * w == (y - 1) * w + w;
    }
  }

  predicate Complete(ns: seq<int>) {
    |ns| >= 6 && (ns[0] > 0 && ns[1] > 0 ==> RowStart(ns[0], ns[1]) <= |ns|)
  }

  // The block the file gives for (x, y).
  function FileCell(ns: seq<int>, x: int, y: int): int
    requires Complete(ns) && 0 <= x < ns[0] && 0 <= y < ns[1]
  {
    RowsFit(ns[0], y + 1, ns[1]);
    Shift20(ns[RowStart(ns[0], y) + x])
  }

  /** Said of the numbers alone: a file is complete if it has six numbers and then one for each cell ... */
  lemma CompleteIs(ns: seq<int>)
    ensures Complete(ns) <==> |ns| >= 6 && (ns[0] > 0 && ns[1] > 0 ==> |ns| >= 6 + ns[1] * ns[0])
  {
    if |ns| >= 6 && ns[0] > 0 && ns[1] > 0 {
      RowStartIs(ns[0], ns[1]);
    }
  }

  // The number for (x, y).
  function Number(ns: seq<int>, x: int, y: int): int
    requires Complete(ns) && 0 <= x < ns[0] && 0 <= y < ns[1]
  {
    NumberFits(ns, x, y);
    ns[6 + y * ns[0] + x]
  }

  lemma NumberFits(ns: seq<int>, x: int, y: int)
    requires Complete(ns) && 0 <= x < ns[0] && 0 <= y < ns[1]
    ensures 6 <= 6 + y * ns[0] + x == RowStart(ns[0], y) + x < |ns|
  {
    RowStartIs(ns[0], y);
    RowsFit(ns[0], y + 1, ns[1]);
  }

  /** ... and a cell is a road exactly if its number is a multiple of 4096. */
  lemma FileCellIs(ns: seq<int>, x: int, y: int)
    requires Complete(ns) && 0 <= x < ns[0] && 0 <= y < ns[1]
    ensures FileCell(ns, x, y) == 0 <==> Number(ns, x, y) % 4096 == 0
  {
    NumberFits(ns, x, y);
    Shift20IsRoad(Number(ns, x, y));
  }

  lemma FileRoadsAre(ns: seq<int>)
    requires Complete(ns)
    ensures forall x, y :: (x, y) in FileRoads(ns) <==> 0 < x < ns[0] && 0 < y < ns[1] && Number(ns, x, y) % 4096 == 0
  {
    hide FileCell, Number;
    forall x, y | 0 < x < ns[0] && 0 < y < ns[1]
      ensures FileCell(ns, x, y) == 0 <==> Number(ns, x, y) % 4096 == 0
    {
      FileCellIs(ns, x, y);
    }
  }

  function FileRoads(ns: seq<int>): (r: set<Cell>)
    requires Complete(ns)
    ensures forall x, y :: (x, y) in r <==> 0 < x < ns[0] && 0 < y < ns[1] && FileCell(ns, x, y) == 0
  {
    set x, y | 0 < x < ns[0] && 0 < y < ns[1] && FileCell(ns, x, y) == 0 :: (x, y)
  }

  // The file describes a maze the array can hold, with its start inside.
  predicate Manageable(ns: seq<int>) {
    |ns| >= 6 ==>
      && ns[0] <= MAX_SIDE && ns[1] <= MAX_SIDE
      && (Complete(ns) ==> 0 <= ns[2] < ns[0] && 0 <= ns[3] < ns[1])
  }

  // Rows before `y`, and row `y` before column `x`, have been copied.
  ghost predicate Copied(m: Maze, ns: seq<int>, y: int, x: int)
    requires |ns| >= 6 && m.blk.Length0 == m.blk.Length1 == MAX_SIDE
    reads m.blk
  {
    forall r, c :: 0 <= c < ns[0] && 0 <= r && (r < y || (r == y && c < x)) ==>
      r < MAX_SIDE && c < MAX_SIDE && Numbered(ns, r, c, m.blk[r, c])
  }

  // `v` is what the number for column `c` of row `r` loads as.
  ghost predicate Numbered(ns: seq<int>, r: nat, c: nat, v: int)
    requires |ns| >= 6 && ns[0] >= 0
  {
    RowStart(ns[0], r) + c < |ns| && v == Shift20(ns[RowStart(ns[0], r) + c])
  }

  method LoadRow(m: Maze, ns: seq<int>, y: nat, at: nat) returns (ok: bool)
    requires |ns| >= 6 && m.blk.Length0 == m.blk.Length1 == MAX_SIDE && y < MAX_SIDE && ns[0] <= MAX_SIDE
    requires ns[0] >= 0 ==> at == RowStart(ns[0], y)
    requires Copied(m, ns, y, 0)
    modifies m.blk
    ensures ok <==> ns[0] <= 0 || at + ns[0] <= |ns|
    ensures ok ==> Copied(m, ns, y + 1, 0)
  {
    hide Shift20, RowStart;
    var j := 0;
    while j < ns[0]
      invariant j >= 0 && (j <= ns[0] || j == 0) && (j > 0 ==> at + j <= |ns|)
      invariant Copied(m, ns, y, j)
    {
      if at + j >= |ns| {
        return false;
      }
      m.blk[y, j] := Shift20(ns[at + j]);
      j := j + 1;
    }
    ok := true;
  }

  ghost predicate HeaderIs(mz: Maze, ns: seq<int>)
    requires |ns| >= 6
    reads mz
  {
    && mz.w == ns[0] && mz.h == ns[1] && mz.sx == ns[2] && mz.sy == ns[3] && mz.ex == ns[4] && mz.ey == ns[5]
    && mz.cx == mz.sx && mz.cy == mz.sy
  }

  // `mz` is what the file `ns` describes.
  ghost predicate Holds(mz: Maze, ns: seq<int>)
    requires Complete(ns)
    reads mz, mz.blk
  {
    && mz.Valid() && mz.marked == {} && mz.open == FileRoads(ns)
    && HeaderIs(mz, ns)
    && forall x, y :: 0 <= x < mz.w && 0 <= y < mz.h ==> mz.blk[y, x] == FileCell(ns, x, y)
  }

  method LoadRows(m: Maze, ns: seq<int>) returns (ok: bool)
    requires |ns| >= 6 && m.blk.Length0 == m.blk.Length1 == MAX_SIDE && ns[0] <= MAX_SIDE && ns[1] <= MAX_SIDE
    modifies m.blk
    ensures ok <==> Complete(ns)
    ensures ok ==> Copied(m, ns, ns[1], 0)
  {
    hide Copied;
    NothingCopied(m, ns);
    var at, i := 6, 0;
    while i < ns[1]
      invariant 0 <= i <= ns[1] || i == 0
      invariant if ns[0] >= 0 then at == RowStart(ns[0], i) && (i > 0 ==> at <= |ns|) else at == 6
      invariant Copied(m, ns, i, 0)
    {
      ok := LoadRow(m, ns, i, at);
      if !ok {
        RowsFit(ns[0], i + 1, ns[1]);
        return;
      }
      if ns[0] > 0 {
        at := at + ns[0];
      }
      i := i + 1;
    }
    if i > ns[1] {
      CopiedLess(m, ns, ns[1]);
    }
    ok := true;
  }

  method LoadBlocks(ns: seq<int>) returns (mz: Maze?)
    requires |ns| >= 6 ==> ns[0] <= MAX_SIDE && ns[1] <= MAX_SIDE
    ensures mz == null <==> !Complete(ns)
    ensures mz != null ==> fresh(mz) && fresh(mz.blk) && Holds(mz, ns)
    ensures mz != null ==> forall x, y :: 0 <= x < ns[0] && 0 <= y < ns[1] ==>
        (mz.blk[y, x] == 0 <==> Number(ns, x, y) % 4096 == 0)
  {
    if |ns| < 6 {
      return null;
    }
    mz := new Maze(ns[0], ns[1], ns[2], ns[3], ns[4], ns[5]);
    hide Copied, Complete, Holds;
    var ok := LoadRows(mz, ns);
    if !ok {
      return null;
    }
    Snapshot(mz);
    AllRows(mz, ns);
    CellsAre(mz, ns);
  }

  lemma CellsAre(mz: Maze, ns: seq<int>)
    requires Complete(ns) && Holds(mz, ns)
    ensures forall x, y :: 0 <= x < ns[0] && 0 <= y < ns[1] ==>
        y < mz.blk.Length0 && x < mz.blk.Length1 && (mz.blk[y, x] == 0 <==> Number(ns, x, y) % 4096 == 0)
  {
    hide FileCell, Number, FileRoads;
    forall x, y | 0 <= x < ns[0] && 0 <= y < ns[1]
      ensures FileCell(ns, x, y) == 0 <==> Number(ns, x, y) % 4096 == 0
    {
      FileCellIs(ns, x, y);
    }
  }

  lemma CopiedLess(m: Maze, ns: seq<int>, y: int)
    requires |ns| >= 6 && m.blk.Length0 == m.blk.Length1 == MAX_SIDE && y < 0
    ensures Copied(m, ns, y, 0)
  {
  }

  lemma NothingCopied(m: Maze, ns: seq<int>)
    requires |ns| >= 6 && m.blk.Length0 == m.blk.Length1 == MAX_SIDE
    ensures Copied(m, ns, 0, 0)
  {
  }

  lemma AllRows(m: Maze, ns: seq<int>)
    requires |ns| >= 6 && m.Valid() && m.w == ns[0] && m.h == ns[1] && Copied(m, ns, ns[1], 0) && m.marked == {}
    requires Complete(ns) && HeaderIs(m, ns)
    requires forall x, y :: (x, y) in m.open <==> 0 < x < m.w && 0 < y < m.h && m.blk[y, x] == 0
    ensures Holds(m, ns)
  {
    assert forall x, y :: 0 <= x < m.w && 0 <= y < m.h ==> m.blk[y, x] == FileCell(ns, x, y);
  }

  // Start the records from what the array holds now.
  ghost method Snapshot(m: Maze)
    requires m.blk.Length0 == m.blk.Length1 == MAX_SIDE && m.w <= MAX_SIDE && m.h <= MAX_SIDE
    modifies m`loaded, m`marked, m`open
    ensures m.Valid() && m.marked == {}
    ensures forall x, y :: (x, y) in m.open <==> 0 < x < m.w && 0 < y < m.h && m.blk[y, x] == 0
  {
    var b: seq<seq<int>> := [];
    while |b| < MAX_SIDE
      invariant |b| <= MAX_SIDE
      invariant forall y :: 0 <= y < |b| ==> |b[y]| == MAX_SIDE
      invariant forall x, y :: 0 <= y < |b| && 0 <= x < MAX_SIDE ==> b[y][x] == m.blk[y, x]
    {
      var row: seq<int> := [];
      while |row| < MAX_SIDE
        invariant |row| <= MAX_SIDE
        invariant forall x :: 0 <= x < |row| ==> row[x] == m.blk[|b|, x]
      {
        row := row + [m.blk[|b|, |row|]];
      }
      b := b + [row];
    }
    m.loaded, m.marked := b, {};
    m.open := RoadCells(m.w, m.h, m.loaded);
  }

  /** Turn every 2 inside the maze back into a road. */
  method Restore(mz: Maze)
    requires mz.Valid() && forall x, y :: 0 <= x < mz.w && 0 <= y < mz.h ==> mz.loaded[y][x] != 2
    requires forall x, y :: (x, y) in mz.marked ==> 0 <= x < mz.w && 0 <= y < mz.h
    modifies mz.blk, mz`loaded, mz`marked, mz`open
    ensures forall x, y :: InArray((x, y)) ==>
        mz.blk[y, x] == if (x, y) in old(mz.marked) then 0 else old(mz.loaded)[y][x]
    ensures mz.Valid() && mz.marked == {}
    ensures forall x, y :: (x, y) in mz.open <==> 0 < x < mz.w && 0 < y < mz.h && mz.blk[y, x] == 0
  {
    var i := 0;
    while i < mz.h
      modifies mz.blk
      invariant 0 <= i <= mz.h || i == 0
      invariant Cleared(mz, i, 0)
    {
      var j := 0;
      while j < mz.w
        modifies mz.blk
        invariant 0 <= j <= mz.w || j == 0
        invariant Cleared(mz, i, j)
      {
        if mz.blk[i, j] == 2 {
          mz.blk[i, j] := 0;
        }
        j := j + 1;
      }
      i := i + 1;
    }
    Snapshot(mz);
  }

  // Rows before `i`, and row `i` before column `j`, have been restored.
  ghost predicate Cleared(mz: Maze, i: int, j: int)
    requires mz.blk.Length0 == mz.blk.Length1 == MAX_SIDE
    reads mz, mz.blk
  {
    forall x, y :: InArray((x, y)) ==>
      mz.blk[y, x] == if (x, y) !in mz.marked then mz.loaded[y][x] else if y < i || (y == i && x < j) then 0 else 2
  }
}
