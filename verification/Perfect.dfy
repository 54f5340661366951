/** What a generated maze is, read off its open cells alone: every room open, and exactly one way between any two. */
module Perfect {
  import opened Tree
  import opened Carving

  /** All rooms have been opened by edges, and `open` is what those edges open. */
  ghost predicate Built(rows: int, cols: int, open: set<Room>, start: Room, es: seq<Edge>) {
    Carved(rows, cols, start, es) && Opened(start, es) == Rooms(rows, cols) && open == OpenCells(start, es)
  }

  ghost predicate PerfectMaze(rows: int, cols: int, open: set<Room>) {
    exists start, es :: Built(rows, cols, open, start, es)
  }

  // One can go from room `a` to the neighbouring room `b`: the cell between them is open.
  predicate ThroughPassage(open: set<Room>, a: Room, b: Room) {
    Adjacent(a, b) && Middle(a, b) in open
  }

  ghost predicate GridRoute(rows: int, cols: int, open: set<Room>, rs: seq<Room>, a: Room, b: Room) {
    && |rs| > 0 && rs[0] == a && rs[|rs| - 1] == b
    && (forall i :: 0 <= i < |rs| ==> IsRoom(rows, cols, rs[i]))
    && (forall i :: 0 <= i < |rs| - 1 ==> ThroughPassage(open, rs[i], rs[i + 1]))
    && (forall i, j :: 0 <= i < j < |rs| ==> rs[i] != rs[j])
  }

  /** The coverage argument: open rooms with no closed neighbour, one of them at all, are all the rooms. */
  lemma AllRoomsOpen(rows: int, cols: int, start: Room, open: set<Room>)
    requires IsRoom(rows, cols, start) && start in open
    requires forall c :: c in open ==> IsRoom(rows, cols, c) && Settled(rows, cols, open, c)
    ensures open == Rooms(rows, cols)
  {
    forall c | IsRoom(rows, cols, c) ensures c in open {
      RoomIsOpen(rows, cols, start, open, c);
    }
  }

  function Distance(a: Room, b: Room): nat {
    (if a.0 < b.0 then b.0 - a.0 else a.0 - b.0) + (if a.1 < b.1 then b.1 - a.1 else a.1 - b.1)
  }

  lemma {:induction false} RoomIsOpen(rows: int, cols: int, start: Room, open: set<Room>, c: Room)
    requires IsRoom(rows, cols, start) && start in open && IsRoom(rows, cols, c)
    requires forall r :: r in open ==> Settled(rows, cols, open, r)
    ensures c in open
    decreases Distance(start, c)
  {
    if c != start {
      var d := if c.0 > start.0 then 1 else if c.0 < start.0 then 0 else if c.1 > start.1 then 3 else 2;
      var nearer := (c.0 - DIR_X[d] * 2, c.1 - DIR_Y[d] * 2);
      RoomIsOpen(rows, cols, start, open, nearer);
      assert Neighbour(nearer, d) == c;
      assert Settled(rows, cols, open, nearer);
    }
  }

  function RoomBlock(m: nat, n: nat): set<Room> {
    set i, j | 0 <= i < m && 0 <= j < n :: (2 * i + 1, 2 * j + 1)
  }

  function RoomRow(i: nat, n: nat): set<Room> {
    set j | 0 <= j < n :: (2 * i + 1, 2 * j + 1)
  }

  lemma {:induction false} RowCount(i: nat, n: nat)
    ensures |RoomRow(i, n)| == n
  {
    if n > 0 {
      RowCount(i, n - 1);
      assert RoomRow(i, n) == RoomRow(i, n - 1) + {(2 * i + 1, 2 * (n - 1) + 1)};
    }
  }

  lemma BlockGrows(m: nat, n: nat)
    requires m > 0
    ensures RoomBlock(m, n) == RoomBlock(m - 1, n) + RoomRow(m - 1, n) && RoomBlock(m - 1, n) !! RoomRow(m - 1, n)
  {
  }

  lemma OneRowMore(m: nat, n: nat)
    requires m > 0
    ensures m * n == (m - 1) * n + n
  {
  }

  lemma {:induction false} BlockCount(m: nat, n: nat)
    ensures |RoomBlock(m, n)| == m * n
  {
    hide RoomBlock, RoomRow;
    if m == 0 {
      NoBlock(n);
    } else {
      BlockCount(m - 1, n);
      RowCount(m - 1, n);
      BlockGrows(m, n);
      OneRowMore(m, n);
      UnionCount(RoomBlock(m - 1, n), RoomRow(m - 1, n));
    }
  }

  lemma NoBlock(n: nat)
    ensures RoomBlock(0, n) == {}
  {
  }

  lemma UnionCount(a: set<Room>, b: set<Room>)
    requires a !! b
    ensures |a + b| == |a| + |b|
  {
  }

  lemma RoomCount(rows: int, cols: int)
    requires rows >= 1 && cols >= 1
    ensures |Rooms(rows, cols)| == ((rows - 1) / 2) * ((cols - 1) / 2)
  {
    BlockCount((rows - 1) / 2, (cols - 1) / 2);
    hide RoomBlock, Rooms;
    RoomsAreBlock(rows, cols);
  }

  lemma RoomsAreBlock(rows: int, cols: int)
    requires rows >= 1 && cols >= 1
    ensures Rooms(rows, cols) == RoomBlock((rows - 1) / 2, (cols - 1) / 2)
  {
    var m, n := (rows - 1) / 2, (cols - 1) / 2;
    forall c | c in Rooms(rows, cols) ensures c in RoomBlock(m, n) {
      assert c == (2 * (c.0 / 2) + 1, 2 * (c.1 / 2) + 1);
    }
    forall c | c in RoomBlock(m, n) ensures IsRoom(rows, cols, c) {
    }
  }

  lemma MiddleDetermines(rows: int, cols: int, a: Room, b: Room, c: Room, d: Room)
    requires IsRoom(rows, cols, a) && IsRoom(rows, cols, b) && IsRoom(rows, cols, c) && IsRoom(rows, cols, d)
    requires Adjacent(a, b) && Adjacent(c, d) && Middle(a, b) == Middle(c, d)
    ensures (a == c && b == d) || (a == d && b == c)
  {
  }

  /** A passage is open exactly where an edge has been dug. */
  lemma {:induction false} PassageIsEdge(rows: int, cols: int, start: Room, es: seq<Edge>, a: Room, b: Room)
    requires Carved(rows, cols, start, es) && IsRoom(rows, cols, a) && IsRoom(rows, cols, b)
    ensures ThroughPassage(OpenCells(start, es), a, b) <==> Joined(es, a, b)
    decreases |es|
  {
    if es == [] {
      assert Adjacent(a, b) ==> !IsRoom(rows, cols, Middle(a, b));
    } else {
      var init, e := es[..|es| - 1], es[|es| - 1];
      assert IsRoom(rows, cols, e.from) && IsRoom(rows, cols, e.to) && Adjacent(e.from, e.to);
      PassageIsEdge(rows, cols, start, init, a, b);
      JoinedAppend(start, es, a, b);
      if Adjacent(a, b) {
        MiddleLies(rows, cols, a, b);
        if Middle(a, b) == Middle(e.from, e.to) {
          MiddleDetermines(rows, cols, a, b, e.from, e.to);
        }
      }
    }
  }

  /** Every dug edge is one more passage: no cell is dug twice. */
  lemma {:induction false} PassageCount(rows: int, cols: int, start: Room, es: seq<Edge>)
    requires Carved(rows, cols, start, es)
    ensures |OpenCells(start, es) - Opened(start, es)| == |es|
    decreases |es|
  {
    if es == [] {
      assert OpenCells(start, es) - Opened(start, es) == {};
    } else {
      var init, e := es[..|es| - 1], es[|es| - 1];
      var middle := Middle(e.from, e.to);
      PassageCount(rows, cols, start, init);
      PassageIsNew(rows, cols, start, es);
      var before := OpenCells(start, init) - Opened(start, init);
      assert OpenCells(start, es) - Opened(start, es) == before + {middle} && middle !in before;
    }
  }

  lemma PassageIsNew(rows: int, cols: int, start: Room, es: seq<Edge>)
    requires Carved(rows, cols, start, es) && es != []
    ensures var init, e := es[..|es| - 1], es[|es| - 1];
            && Middle(e.from, e.to) !in OpenCells(start, init) && Middle(e.from, e.to) !in Opened(start, es)
            && e.to !in OpenCells(start, init)
  {
    var init, e := es[..|es| - 1], es[|es| - 1];
    assert IsRoom(rows, cols, e.from) && IsRoom(rows, cols, e.to) && Adjacent(e.from, e.to);
    PassageIsEdge(rows, cols, start, init, e.from, e.to);
    JoinedAppend(start, es, e.from, e.to);
    CellKinds(rows, cols, start, init);
    CellKinds(rows, cols, start, es);
    assert !IsRoom(rows, cols, Middle(e.from, e.to));
  }

  /** The generated maze is a spanning tree of its rooms: all floor((rows-1)/2) * floor((cols-1)/2) of them are open and
      there is exactly one passage fewer. */
  lemma SpanningTree(rows: int, cols: int, open: set<Room>)
    requires rows >= 1 && cols >= 1 && PerfectMaze(rows, cols, open)
    ensures Rooms(rows, cols) <= open
    ensures |Rooms(rows, cols)| == ((rows - 1) / 2) * ((cols - 1) / 2)
    ensures |open - Rooms(rows, cols)| == |Rooms(rows, cols)| - 1
  {
    var start, es :| Built(rows, cols, open, start, es);
    RoomCount(rows, cols);
    PassageCount(rows, cols, start, es);
    OpenedCount(start, es);
    CellKinds(rows, cols, start, es);
    forall c | c in Rooms(rows, cols) ensures c in open { }
  }

  /** Any two rooms are joined by a route of rooms and passages ... */
  lemma RouteBetween(rows: int, cols: int, open: set<Room>, a: Room, b: Room) returns (rs: seq<Room>)
    requires PerfectMaze(rows, cols, open) && IsRoom(rows, cols, a) && IsRoom(rows, cols, b)
    ensures GridRoute(rows, cols, open, rs, a, b)
  {
    var start, es :| Built(rows, cols, open, start, es);
    rs := RouteExists(start, es, a, b);
    forall i | 0 <= i < |rs| - 1 ensures ThroughPassage(open, rs[i], rs[i + 1]) {
      PassageIsEdge(rows, cols, start, es, rs[i], rs[i + 1]);
    }
  }

  /** ... and by no other. */
  lemma RouteOnly(rows: int, cols: int, open: set<Room>, a: Room, b: Room, rs: seq<Room>, ts: seq<Room>)
    requires PerfectMaze(rows, cols, open)
    requires GridRoute(rows, cols, open, rs, a, b) && GridRoute(rows, cols, open, ts, a, b)
    ensures rs == ts
  {
    var start, es :| Built(rows, cols, open, start, es);
    RouteOfEdges(rows, cols, open, start, es, a, b, rs);
    RouteOfEdges(rows, cols, open, start, es, a, b, ts);
    RouteUnique(start, es, a, b, rs, ts);
  }

  lemma RouteOfEdges(rows: int, cols: int, open: set<Room>, start: Room, es: seq<Edge>, a: Room, b: Room, rs: seq<Room>)
    requires Built(rows, cols, open, start, es) && GridRoute(rows, cols, open, rs, a, b)
    ensures Route(es, rs, a, b)
  {
    forall i | 0 <= i < |rs| - 1 ensures Joined(es, rs[i], rs[i + 1]) {
      assert ThroughPassage(open, rs[i], rs[i + 1]);
      PassageIsEdge(rows, cols, start, es, rs[i], rs[i + 1]);
    }
  }

  /** Border cells and cells at an even row and an even column are walls. */
  lemma WallsRemain(rows: int, cols: int, open: set<Room>, c: Room)
    requires PerfectMaze(rows, cols, open)
    requires c.0 <= 0 || c.0 >= rows - 1 || c.1 <= 0 || c.1 >= cols - 1 || (c.0 % 2 == 0 && c.1 % 2 == 0)
    ensures c !in open
  {
    var start, es :| Built(rows, cols, open, start, es);
    CellKinds(rows, cols, start, es);
  }
}
