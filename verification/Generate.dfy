/** Generating a maze: choose two rooms from the random numbers that come, wall everything, carve, and mark the ends. */
module Generate {
  import opened Shuffling
  import opened Tree
  import opened Carving
  import opened Backtracking
  import opened Perfect
  import opened Options

  // Bounds that draw without dividing by zero, in 32 bits.
  predicate Bounds(min: int, max: int) {
    0 <= min < 0x8000_0000 && -0x8000_0000 <= max < 0x8000_0000 && min != max
  }

  // The number of choices, as an unsigned number: a negative one wraps round.
  function Width(min: int, max: int): nat
    requires Bounds(min, max)
  {
    if min < max then max - min else max - min + 0x1_0000_0000
  }

  // The number made of a random one, as a signed number.
  function Drawn(min: int, max: int, r: nat): (num: int)
    requires Bounds(min, max)
    ensures min < max ==> min <= num < max
  {
    var u := min + r % Width(min, max);
    if u < 0x8000_0000 then u else u - 0x1_0000_0000
  }

  /** Drawing from `min` up to `max`: the number in the range that differs from `min` by the random number, modulo the
      width of the range. */
  lemma DrawnIsCongruent(min: int, max: int, r: nat)
    requires Bounds(min, max) && min < max
    ensures var num := Drawn(min, max, r); min <= num < max && Congruent(r, num - min, max - min)
  {
    RemainderIsCongruent(r, max - min);
  }

  /** With the bounds the wrong way round the width wraps to a 32-bit one, and so does the number. */
  lemma DrawnWraps(min: int, max: int, r: nat)
    requires Bounds(min, max) && max < min
    ensures var num, width := Drawn(min, max, r), max - min + 0x1_0000_0000;
            && -0x8000_0000 <= num < 0x1_0000_0000
            && exists q :: 0 <= q < width && Congruent(r, q, width) && Congruent(num, min + q, 0x1_0000_0000)
  {
    var num, width := Drawn(min, max, r), max - min + 0x1_0000_0000;
    var q := r % width;
    RemainderIsCongruent(r, width);
    assert num - (min + q) == 0 || num - (min + q) == 0x1_0000_0000 * -1;
    assert Congruent(r, q, width) && Congruent(num, min + q, 0x1_0000_0000);
  }

  /** The first odd number drawn, and the random numbers left; None while there has been none yet. */
  function OddFrom(min: int, max: int, rs: seq<nat>): (r: Option<(int, seq<nat>)>)
    requires Bounds(min, max)
    ensures r.Some? ==> r.value.0 % 2 == 1 && |r.value.1| < |rs| && (min < max ==> min <= r.value.0 < max)
  {
    if rs == [] then None
    else
      var num := Drawn(min, max, rs[0]);
      if num % 2 == 0 then OddFrom(min, max, rs[1..]) else Some((num, rs[1..]))
  }

  // Draw `k` is odd, and none before it is.
  predicate FirstOdd(min: int, max: int, rs: seq<nat>, k: nat)
    requires Bounds(min, max) && k <= |rs|
  {
    && (forall i :: 0 <= i < k ==> Drawn(min, max, rs[i]) % 2 == 0)
    && (k < |rs| ==> Drawn(min, max, rs[k]) % 2 == 1)
  }

  /** Said outright: there is none exactly when every draw is even, and else it is the first odd draw. */
  lemma {:induction false} OddFromIsFirst(min: int, max: int, rs: seq<nat>, k: nat)
    requires Bounds(min, max) && k <= |rs|
    ensures OddFrom(min, max, rs) == (if k == |rs| then None else Some((Drawn(min, max, rs[k]), rs[k + 1..])))
            <==> FirstOdd(min, max, rs, k)
    decreases |rs|
  {
    if rs != [] {
      var rest, even := rs[1..], Drawn(min, max, rs[0]) % 2 == 0;
      if even && k > 0 {
        OddFromIsFirst(min, max, rest, k - 1);
        assert FirstOdd(min, max, rest, k - 1) <==> FirstOdd(min, max, rs, k) by {
          assert forall i :: 0 < i < |rs| ==> rs[i] == rest[i - 1];
        }
        assert k < |rs| ==> rest[k - 1 + 1..] == rs[k + 1..];
      }
    }
  }

  method GetOddNumber(min: int, max: int, rs: seq<nat>) returns (r: Option<(int, seq<nat>)>)
    requires Bounds(min, max)
    ensures r == OddFrom(min, max, rs)
  {
    var num, at := 0, 0;
    while num % 2 == 0
      invariant 0 <= at <= |rs|
      invariant if num % 2 == 0 then OddFrom(min, max, rs[at..]) == OddFrom(min, max, rs)
                else OddFrom(min, max, rs) == Some((num, rs[at..]))
      decreases |rs| - at, num % 2 == 0
    {
      if at == |rs| {
        return None;
      }
      num := Drawn(min, max, rs[at]);
      assert rs[at..][1..] == rs[at + 1..];
      at := at + 1;
    }
    r := Some((num, rs[at..]));
  }

  datatype Ends = Ends(start: Room, end: Room)

  predicate OddEnds(e: Ends) {
    e.start.0 % 2 == 1 && e.start.1 % 2 == 1 && e.end.0 % 2 == 1 && e.end.1 % 2 == 1
  }

  // Sides whose ends can be drawn: two would divide by zero.
  predicate Drawable(rows: int, cols: int) {
    1 <= rows < 0x8000_0000 && 1 <= cols < 0x8000_0000 && rows != 2 && cols != 2
  }

  // One round: four odd numbers. With a side of one they lie outside the grid.
  function RoundFrom(rows: int, cols: int, rs: seq<nat>): (r: Option<(Ends, seq<nat>)>)
    requires Drawable(rows, cols)
    ensures r.Some? ==> |r.value.1| < |rs| && OddEnds(r.value.0)
    ensures r.Some? && rows >= 3 && cols >= 3 ==>
        IsRoom(rows, cols, r.value.0.start) && IsRoom(rows, cols, r.value.0.end)
  {
    var a := OddFrom(1, rows - 1, rs);
    if a.None? then None else
    var b := OddFrom(1, cols - 1, a.value.1);
    if b.None? then None else
    var c := OddFrom(1, rows - 1, b.value.1);
    if c.None? then None else
    var d := OddFrom(1, cols - 1, c.value.1);
    if d.None? then None else
    Some((Ends((a.value.0, b.value.0), (c.value.0, d.value.0)), d.value.1))
  }

  /** Rounds until the two rooms differ; None while they have not yet. */
  function EndsFrom(rows: int, cols: int, rs: seq<nat>): (r: Option<Ends>)
    requires Drawable(rows, cols)
    ensures r.Some? ==> r.value.start != r.value.end && OddEnds(r.value)
    ensures r.Some? && rows >= 3 && cols >= 3 ==>
        IsRoom(rows, cols, r.value.start) && IsRoom(rows, cols, r.value.end)
    decreases |rs|
  {
    var round := RoundFrom(rows, cols, rs);
    if round.None? then None
    else if round.value.0.start == round.value.0.end then EndsFrom(rows, cols, round.value.1)
    else Some(round.value.0)
  }

  // The random numbers left after `n` rounds.
  function LeftAfter(rows: int, cols: int, rs: seq<nat>, n: nat): Option<seq<nat>>
    requires Drawable(rows, cols)
    decreases n
  {
    if n == 0 then Some(rs)
    else
      var round := RoundFrom(rows, cols, rs);
      if round.None? then None else LeftAfter(rows, cols, round.value.1, n - 1)
  }

  // The rooms of round `n`, counted from 0.
  function RoundNo(rows: int, cols: int, rs: seq<nat>, n: nat): Option<Ends>
    requires Drawable(rows, cols)
  {
    var left := LeftAfter(rows, cols, rs, n);
    if left.None? then None
    else
      var round := RoundFrom(rows, cols, left.value);
      if round.None? then None else Some(round.value.0)
  }

  ghost predicate FirstApart(rows: int, cols: int, rs: seq<nat>, n: nat, ends: Ends)
    requires Drawable(rows, cols)
  {
    && RoundNo(rows, cols, rs, n) == Some(ends) && ends.start != ends.end
    && forall i :: 0 <= i < n ==>
         var r := RoundNo(rows, cols, rs, i); r.Some? && r.value.start == r.value.end
  }

  /** Said outright: the rooms chosen are those of the first round in which they differ, if there is one. */
  lemma {:induction false} EndsFromIsFirst(rows: int, cols: int, rs: seq<nat>, ends: Ends)
    requires Drawable(rows, cols)
    ensures EndsFrom(rows, cols, rs) == Some(ends) <==> exists n :: FirstApart(rows, cols, rs, n, ends)
    decreases |rs|
  {
    hide RoundFrom, IsRoom;
    var round := RoundFrom(rows, cols, rs);
    assert RoundNo(rows, cols, rs, 0) == if round.None? then None else Some(round.value.0);
    if round.Some? && round.value.0.start != round.value.0.end {
      assert EndsFrom(rows, cols, rs) == Some(ends) ==> FirstApart(rows, cols, rs, 0, ends);
    } else if round.Some? {
      var rest := round.value.1;
      EndsFromIsFirst(rows, cols, rest, ends);
      forall n: nat | FirstApart(rows, cols, rest, n, ends) ensures FirstApart(rows, cols, rs, n + 1, ends) {
        LaterRounds(rows, cols, rs, n);
      }
      forall n: nat | FirstApart(rows, cols, rs, n, ends) ensures n > 0 && FirstApart(rows, cols, rest, n - 1, ends) {
        LaterRounds(rows, cols, rs, n - 1);
      }
    }
  }

  lemma LaterRounds(rows: int, cols: int, rs: seq<nat>, n: nat)
    requires Drawable(rows, cols) && RoundFrom(rows, cols, rs).Some?
    ensures var rest := RoundFrom(rows, cols, rs).value.1;
            && (forall i :: 0 < i <= n + 1 ==> RoundNo(rows, cols, rs, i) == RoundNo(rows, cols, rest, i - 1))
            && (forall i :: 0 <= i <= n ==> RoundNo(rows, cols, rest, i) == RoundNo(rows, cols, rs, i + 1))
  {
    hide RoundFrom, IsRoom;
  }

  method DrawRound(rows: int, cols: int, rs: seq<nat>) returns (r: Option<(Ends, seq<nat>)>)
    requires Drawable(rows, cols)
    ensures r == RoundFrom(rows, cols, rs)
  {
    hide OddFrom;
    var a := GetOddNumber(1, rows - 1, rs);
    if a.None? { return None; }
    var b := GetOddNumber(1, cols - 1, a.value.1);
    if b.None? { return None; }
    var c := GetOddNumber(1, rows - 1, b.value.1);
    if c.None? { return None; }
    var d := GetOddNumber(1, cols - 1, c.value.1);
    if d.None? { return None; }
    r := Some((Ends((a.value.0, b.value.0), (c.value.0, d.value.0)), d.value.1));
  }

  method ChooseEnds(rows: int, cols: int, rs: seq<nat>) returns (r: Option<Ends>)
    requires Drawable(rows, cols)
    ensures r == EndsFrom(rows, cols, rs)
  {
    hide RoundFrom, IsRoom;
    var ends, rest := Ends((0, 0), (0, 0)), rs;
    while ends.start == ends.end
      invariant if ends.start == ends.end then EndsFrom(rows, cols, rest) == EndsFrom(rows, cols, rs)
                else EndsFrom(rows, cols, rs) == Some(ends)
      decreases ends.start == ends.end, |rest|
    {
      var round := DrawRound(rows, cols, rest);
      if round.None? {
        return None;
      }
      ends, rest := round.value.0, round.value.1;
    }
    r := Some(ends);
  }

  /** The choice can come to an end exactly when there are two rooms to choose, or with a side of one. */
  lemma EndsPossible(rows: int, cols: int)
    requires Drawable(rows, cols)
    ensures (exists rs :: EndsFrom(rows, cols, rs).Some?) <==> rows >= 5 || cols >= 5 || rows == 1 || cols == 1
  {
    if rows >= 5 || rows == 1 {
      var rs: seq<nat> := [0, 0, 2, 0];
      FirstTry(rows, cols, 2, 0);
      assert EndsFrom(rows, cols, rs).Some?;
    } else if cols >= 5 || cols == 1 {
      var rs: seq<nat> := [0, 0, 0, 2];
      FirstTry(rows, cols, 0, 2);
      assert EndsFrom(rows, cols, rs).Some?;
    } else {
      assert forall c :: IsRoom(rows, cols, c) ==> c == (1, 1);
    }
  }

  /** Four random numbers that each draw an odd one give row and column of the start, then of the end. */
  lemma FourDraws(rows: int, cols: int, a: nat, b: nat, c: nat, d: nat)
    requires Drawable(rows, cols)
    requires Drawn(1, rows - 1, a) % 2 == 1 && Drawn(1, cols - 1, b) % 2 == 1
    requires Drawn(1, rows - 1, c) % 2 == 1 && Drawn(1, cols - 1, d) % 2 == 1
    requires var ends := Ends((Drawn(1, rows - 1, a), Drawn(1, cols - 1, b)),
                              (Drawn(1, rows - 1, c), Drawn(1, cols - 1, d)));
             ends.start != ends.end
    ensures EndsFrom(rows, cols, [a, b, c, d]) ==
            Some(Ends((Drawn(1, rows - 1, a), Drawn(1, cols - 1, b)), (Drawn(1, rows - 1, c), Drawn(1, cols - 1, d))))
  {
    hide Drawn;
    assert [a, b, c, d][1..] == [b, c, d] && [b, c, d][1..] == [c, d] && [c, d][1..] == [d] && [d][1..] == [];
  }

  /** With sides of five the numbers 8, 6, 6, 6 start the maze at row 3 and end it at row 1. */
  lemma DrawsFold()
    ensures EndsFrom(5, 5, [8, 6, 6, 6]) == Some(Ends((3, 1), (1, 1)))
  {
    assert Drawn(1, 4, 8) == 3 && Drawn(1, 4, 6) == 1;
    FourDraws(5, 5, 8, 6, 6, 6);
  }

  lemma FirstTry(rows: int, cols: int, dr: nat, dc: nat)
    requires Drawable(rows, cols) && dr % 2 == 0 && dc % 2 == 0 && 0 < dr + dc < 0x1000
    requires dr < Width(1, rows - 1) && dc < Width(1, cols - 1)
    ensures EndsFrom(rows, cols, [0, 0, dr, dc]) == Some(Ends((1, 1), (1 + dr, 1 + dc)))
  {
    DrawnSmall(1, rows - 1, 0);
    DrawnSmall(1, cols - 1, 0);
    DrawnSmall(1, rows - 1, dr);
    DrawnSmall(1, cols - 1, dc);
    hide Drawn, Width, EndsFrom;
    FourDraws(rows, cols, 0, 0, dr, dc);
  }

  lemma DrawnSmall(min: int, max: int, x: nat)
    requires Bounds(min, max) && x < Width(min, max) && min + x < 0x8000_0000
    ensures Drawn(min, max, x) == min + x
  {
    SmallMod(x, Width(min, max));
  }

  lemma SmallMod(x: nat, n: nat)
    requires x < n
    ensures x % n == x
  {
  }

  // The cells that are not walls.
  ghost function OpenGrid(m: MazeInfo): (s: set<Room>)
    requires m.Sized()
    reads m`coordX, m`coordY, m.blk
    ensures forall r, c :: (r, c) in s <==> 0 <= r < m.coordY && 0 <= c < m.coordX && m.blk[r, c] != '#'
  {
    set r, c | 0 <= r < m.coordY && 0 <= c < m.coordX && m.blk[r, c] != '#' :: (r, c)
  }

  function Position(m: MazeInfo): Room
    reads m`posX, m`posY
  {
    (m.posY, m.posX)
  }

  /** A maze ready to be walked: a perfect maze whose position is on an open cell and whose start is a room. */
  ghost predicate Ready(m: MazeInfo)
    reads m, m.blk
  {
    && m.Sized() && PerfectMaze(m.coordY, m.coordX, OpenGrid(m))
    && Position(m) in OpenGrid(m) && IsRoom(m.coordY, m.coordX, m.Start())
    && IsRoom(m.coordY, m.coordX, (m.ey, m.ex)) && m.Start() != (m.ey, m.ex)
  }

  /** What the grid shows: the cells the edges open, and on them the end and the start. */
  ghost predicate Shown(m: MazeInfo)
    reads m, m.blk
  {
    && m.Sized() && Carved(m.coordY, m.coordX, m.Start(), m.edges)
    && forall r, c :: 0 <= r < m.coordY && 0 <= c < m.coordX ==>
         m.blk[r, c] == (if (r, c) !in OpenCells(m.Start(), m.edges) then '#' else if (r, c) == (m.ey, m.ex) then 'E'
                         else if (r, c) == m.Start() then '*' else '.')
  }

  /** A maze that backtracking makes: some random numbers choose each of its edges. */
  ghost predicate Backtracked(m: MazeInfo)
    reads m`coordX, m`coordY, m`sx, m`sy, m`edges
  {
    exists rnd: nat -> nat :: AllBacktrack(m.coordY, m.coordX, m.Start(), m.edges, rnd)
  }

  // The cell lies in the array, which is larger than most grids.
  predicate InBlock(c: Room) {
    0 <= c.0 < MAX_Y && 0 <= c.1 < MAX_X
  }

  // The ends are found, and can be written.
  predicate Placeable(rows: int, cols: int, rs: seq<nat>) {
    Drawable(rows, cols) &&
    var ends := EndsFrom(rows, cols, rs);
    ends.Some? && InBlock(ends.value.start) && InBlock(ends.value.end)
  }

  lemma RoomsPlaceable(rows: int, cols: int, rs: seq<nat>)
    requires 3 <= rows <= MAX_Y && 3 <= cols <= MAX_X
    ensures Placeable(rows, cols, rs) <==> EndsFrom(rows, cols, rs).Some?
  {
  }

  /** From sides of at least three a perfect maze. With a side of one there is no room: the grid stays walled, the ends
      and the position lie outside it. */
  method GenerateMaze(rows: int, cols: int, m: MazeInfo, rs: seq<nat>) returns (done: bool)
    requires 1 <= rows <= MAX_Y && 1 <= cols <= MAX_X && m.blk.Length0 == MAX_Y && m.blk.Length1 == MAX_X
    requires Drawable(rows, cols)
    modifies m, m.blk
    ensures done <==> Placeable(rows, cols, rs)
    ensures done ==> (m.coordY, m.coordX) == (rows, cols) && Position(m) == m.Start()
    ensures done ==> EndsFrom(rows, cols, rs) == Some(Ends(m.Start(), (m.ey, m.ex)))
    ensures done && rows >= 3 && cols >= 3 ==> Ready(m) && Shown(m) && Backtracked(m)
    ensures done && (rows == 1 || cols == 1) ==> m.Sized() && OpenGrid(m) == {} && !Ready(m)
  {
    var ends := ChooseEnds(rows, cols, rs);
    if ends.None? {
      return false;
    }
    done := InBlock(ends.value.start) && InBlock(ends.value.end);
    if done {
      hide EndsFrom, PerfectMaze;
      if rows == 1 || cols == 1 {
        WallBetween(rows, cols, m, ends.value);
      } else {
        CarveBetween(rows, cols, m, ends.value);
      }
    }
  }

  // With a side of one every neighbour lies outside the border, so the search digs nothing.
  lemma NothingInside(rows: int, cols: int)
    requires rows == 1 || cols == 1
    ensures forall c: Room, d :: 0 <= d < 4 ==>
        !(1 <= Neighbour(c, d).0 < rows - 1 && 1 <= Neighbour(c, d).1 < cols - 1)
  {
  }

  method WallBetween(rows: int, cols: int, m: MazeInfo, ends: Ends)
    requires 1 <= rows <= MAX_Y && 1 <= cols <= MAX_X && m.blk.Length0 == MAX_Y && m.blk.Length1 == MAX_X
    requires (rows == 1 || cols == 1) && InBlock(ends.start) && InBlock(ends.end)
    requires OddEnds(ends)
    modifies m, m.blk
    ensures (m.coordY, m.coordX) == (rows, cols) && Position(m) == m.Start()
    ensures ends == Ends(m.Start(), (m.ey, m.ex))
    ensures m.Sized() && OpenGrid(m) == {} && !Ready(m)
  {
    m.coordY, m.coordX := rows, cols;
    m.sy, m.sx := ends.start.0, ends.start.1;
    m.posY, m.posX := m.sy, m.sx;
    m.ey, m.ex := ends.end.0, ends.end.1;
    m.edges := [];
    WallAll(m);
    m.blk[m.sy, m.sx] := '*';
    NothingInside(rows, cols);
    m.blk[m.ey, m.ex] := 'E';
    assert OpenGrid(m) == {};
  }

  method CarveBetween(rows: int, cols: int, m: MazeInfo, ends: Ends)
    requires 3 <= rows <= MAX_Y && 3 <= cols <= MAX_X && m.blk.Length0 == MAX_Y && m.blk.Length1 == MAX_X
    requires IsRoom(rows, cols, ends.start) && IsRoom(rows, cols, ends.end) && ends.start != ends.end
    modifies m, m.blk
    ensures Ready(m) && (m.coordY, m.coordX) == (rows, cols) && Position(m) == m.Start()
    ensures ends == Ends(m.Start(), (m.ey, m.ex)) && Shown(m) && Backtracked(m)
  {
    hide IsRoom, PerfectMaze, OpenGrid, Ready, Shown, Backtracked, MazeInfo.Shape;
    m.coordY, m.coordX := rows, cols;
    m.sy, m.sx := ends.start.0, ends.start.1;
    m.posY, m.posX := m.sy, m.sx;
    m.ey, m.ex := ends.end.0, ends.end.1;
    m.edges := [];
    OpenStart(m);
    var drawn: seq<bv32> := *;
    CarveAll(m, Supply(drawn));
    MarkEnd(m);
  }

  method OpenStart(m: MazeInfo)
    requires m.Sized() && m.edges == [] && IsRoom(m.coordY, m.coordX, m.Start())
    modifies m.blk
    ensures m.Shape() && m.Start() in Opened(m.Start(), m.edges)
  {
    WallAll(m);
    m.blk[m.sy, m.sx] := '*';
    OneRoom(m);
  }

  // Random numbers for a search, which draws only so many.
  function Supply(drawn: seq<bv32>): nat -> nat {
    (k: nat) => if k < |drawn| then drawn[k] as nat else 0
  }

  // Carve from the start, with whatever random numbers come.
  method CarveAll(m: MazeInfo, rnd: nat -> nat)
    requires m.Sized() && m.Shape() && m.edges == [] && m.Start() in Opened(m.Start(), m.edges)
    modifies m.blk, m`edges
    ensures m.Shape() && PerfectMaze(m.coordY, m.coordX, OpenGrid(m)) && Backtracked(m)
    ensures forall c :: IsRoom(m.coordY, m.coordX, c) ==> c in OpenGrid(m)
  {
    hide IsRoom, PerfectMaze, OpenGrid, MazeInfo.Shape, Backtracks, Dug;
    var calls := m.Carve(m.sy, m.sx, rnd, 0);
    assert AllBacktrack(m.coordY, m.coordX, m.Start(), m.edges, rnd);
    CarvedAll(m);
  }

  method MarkEnd(m: MazeInfo)
    requires m.Sized() && PerfectMaze(m.coordY, m.coordX, OpenGrid(m)) && Position(m) == m.Start() != (m.ey, m.ex)
    requires IsRoom(m.coordY, m.coordX, m.Start()) && m.Start() in OpenGrid(m)
    requires IsRoom(m.coordY, m.coordX, (m.ey, m.ex)) && (m.ey, m.ex) in OpenGrid(m) && m.Shape()
    modifies m.blk
    ensures Ready(m) && Shown(m)
  {
    hide PerfectMaze;
    ghost var open := OpenGrid(m);
    m.blk[m.ey, m.ex] := 'E';
    assert OpenGrid(m) == open;
  }

  method WallAll(m: MazeInfo)
    requires m.Sized()
    modifies m.blk
    ensures forall r, c :: 0 <= r < m.coordY && 0 <= c < m.coordX ==> m.blk[r, c] == '#'
  {
    for i := 0 to m.coordY
      invariant forall r, c :: 0 <= r < i && 0 <= c < m.coordX ==> m.blk[r, c] == '#'
    {
      for j := 0 to m.coordX
        invariant forall r, c :: 0 <= r < i && 0 <= c < m.coordX ==> m.blk[r, c] == '#'
        invariant forall c :: 0 <= c < j ==> m.blk[i, c] == '#'
      {
        m.blk[i, j] := '#';
      }
    }
  }

  lemma OneRoom(m: MazeInfo)
    requires m.Sized() && m.edges == [] && IsRoom(m.coordY, m.coordX, m.Start())
    requires forall r, c :: 0 <= r < m.coordY && 0 <= c < m.coordX ==>
        m.blk[r, c] == if (r, c) == m.Start() then '*' else '#'
    ensures m.Shape() && m.Start() in Opened(m.Start(), m.edges)
  {
  }

  // After carving from the start, every room is open; what the grid shows is a perfect maze.
  lemma CarvedAll(m: MazeInfo)
    requires m.Shape() && m.Sized() && Dug(m.coordY, m.coordX, m.Start(), [], m.Start(), m.edges)
    ensures PerfectMaze(m.coordY, m.coordX, OpenGrid(m))
    ensures forall c :: IsRoom(m.coordY, m.coordX, c) ==> c in OpenGrid(m)
  {
    var rows, cols, start, es := m.coordY, m.coordX, m.Start(), m.edges;
    var open := Opened(start, es);
    assert Opened(start, []) == {start};
    CellKinds(rows, cols, start, es);
    AllRoomsOpen(rows, cols, start, open);
    forall c: Room | c in OpenCells(start, es) ensures c in OpenGrid(m) { }
    assert OpenGrid(m) == OpenCells(start, es);
    assert Built(rows, cols, OpenGrid(m), start, es);
  }
}
