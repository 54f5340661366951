/** Road cells, unit steps, and walks over them. */
module Grid {
  type Cell = (int, int)  // (x, y)

  // UP, DOWN, LEFT, RIGHT
  const DIRX: seq<int> := [0, 0, -1, 1]
  const DIRY: seq<int> := [-1, 1, 0, 0]

  function Next(c: Cell, d: int): Cell
    requires 0 <= d < 4
  {
    (c.0 + DIRX[d], c.1 + DIRY[d])
  }

  lemma NextIs(c: Cell, d: int)
    requires 0 <= d < 4
    ensures Next(c, d) == (c.0 + DIRX[d], c.1 + DIRY[d]) != c
  {
  }

  /** `ds` walks from `c` to `goal`, entering only cells of `free`. */
  ghost predicate Walk(free: set<Cell>, c: Cell, ds: seq<int>, goal: Cell)
    decreases |ds|
  {
    if ds == [] then c == goal
    else 0 <= ds[0] < 4 && Next(c, ds[0]) in free && Walk(free, Next(c, ds[0]), ds[1..], goal)
  }

  ghost predicate Reachable(free: set<Cell>, c: Cell, goal: Cell) {
    exists ds :: Walk(free, c, ds, goal)
  }

  lemma {:induction false} WalkAppend(free: set<Cell>, c: Cell, ds: seq<int>, b: Cell, d: int)
    requires Walk(free, c, ds, b) && 0 <= d < 4 && Next(b, d) in free
    ensures Walk(free, c, ds + [d], Next(b, d))
    decreases |ds|
  {
    if ds == [] {
      assert [d][1..] == [] && [] + [d] == [d];
    } else {
      assert (ds + [d])[0] == ds[0] && (ds + [d])[1..] == ds[1..] + [d];
      WalkAppend(free, Next(c, ds[0]), ds[1..], b, d);
    }
  }

  lemma ReachAppend(free: set<Cell>, c: Cell, b: Cell, d: int)
    requires Reachable(free, c, b) && 0 <= d < 4 && Next(b, d) in free
    ensures Reachable(free, c, Next(b, d))
  {
    var ds :| Walk(free, c, ds, b);
    WalkAppend(free, c, ds, b, d);
  }

  /** A walk that enters no cell twice and meets `goal` only at its end. */
  ghost predicate Leads(free: set<Cell>, c: Cell, ds: seq<int>, goal: Cell)
    decreases |ds|
  {
    if ds == [] then c == goal
    else
      && c != goal && 0 <= ds[0] < 4 && Next(c, ds[0]) in free
      && Leads(free - {Next(c, ds[0])}, Next(c, ds[0]), ds[1..], goal)
  }

  // A walk that enters no cell twice, wherever it ends.
  ghost predicate Simple(free: set<Cell>, c: Cell, ds: seq<int>)
    decreases |ds|
  {
    ds == [] || (0 <= ds[0] < 4 && Next(c, ds[0]) in free && Simple(free - {Next(c, ds[0])}, Next(c, ds[0]), ds[1..]))
  }

  /** No walk from `c` over other roads that enters none twice is longer than `n`. */
  ghost predicate NoLonger(roads: set<Cell>, c: Cell, n: int) {
    forall ds :: Simple(roads - {c}, c, ds) ==> |ds| <= n
  }

  /** In particular none is longer than there are other roads. */
  lemma FewRoadsShortWalks(roads: set<Cell>, c: Cell, n: int)
    requires |roads - {c}| <= n
    ensures NoLonger(roads, c, n)
  {
    forall ds | Simple(roads - {c}, c, ds) ensures |ds| <= n {
      SimpleIsShort(roads - {c}, c, ds);
    }
  }

  lemma {:induction false} SimpleIsShort(free: set<Cell>, c: Cell, ds: seq<int>)
    requires Simple(free, c, ds)
    ensures |ds| <= |free|
    decreases |ds|
  {
    if ds != [] {
      var n := Next(c, ds[0]);
      SimpleIsShort(free - {n}, n, ds[1..]);
    }
  }

  // The cells a walk stands on, start included.
  function Trail(c: Cell, ds: seq<int>): (cs: seq<Cell>)
    requires forall i :: 0 <= i < |ds| ==> 0 <= ds[i] < 4
    ensures |cs| == |ds| + 1 && cs[0] == c
    decreases |ds|
  {
    if ds == [] then [c] else [c] + Trail(Next(c, ds[0]), ds[1..])
  }

  lemma LeadsCons(free: set<Cell>, c: Cell, d: int, ds: seq<int>, goal: Cell)
    requires 0 <= d < 4 && c != goal && Next(c, d) in free
    requires Leads(free - {Next(c, d)}, Next(c, d), ds, goal)
    ensures Leads(free, c, [d] + ds, goal)
  {
    assert ([d] + ds)[1..] == ds;
  }

  lemma {:induction false} LeadsWidens(free: set<Cell>, wider: set<Cell>, c: Cell, ds: seq<int>, goal: Cell)
    requires Leads(free, c, ds, goal) && free <= wider
    ensures Leads(wider, c, ds, goal)
    decreases |ds|
  {
    if ds != [] {
      var n := Next(c, ds[0]);
      LeadsWidens(free - {n}, wider - {n}, n, ds[1..], goal);
    }
  }

  lemma {:induction false} LeadsIsWalk(free: set<Cell>, all: set<Cell>, c: Cell, ds: seq<int>, goal: Cell)
    requires Leads(free, c, ds, goal) && free <= all
    ensures Walk(all, c, ds, goal)
    decreases |ds|
  {
    if ds != [] {
      var n := Next(c, ds[0]);
      LeadsIsWalk(free - {n}, all, n, ds[1..], goal);
    }
  }

  /** The walk enters each free cell at most once, so it is no longer than there are free cells. */
  lemma {:induction false} LeadsIsShort(free: set<Cell>, c: Cell, ds: seq<int>, goal: Cell)
    requires Leads(free, c, ds, goal)
    ensures |ds| <= |free|
    ensures forall i :: 0 <= i < |ds| ==> 0 <= ds[i] < 4
    decreases |ds|
  {
    if ds != [] {
      var n := Next(c, ds[0]);
      LeadsIsShort(free - {n}, n, ds[1..], goal);
    }
  }

  /** No cell is visited twice, and the goal is the last cell and no earlier one. */
  lemma {:induction false} LeadsIsSimple(free: set<Cell>, c: Cell, ds: seq<int>, goal: Cell)
    requires Leads(free, c, ds, goal) && c !in free
    ensures forall i :: 0 <= i < |ds| ==> 0 <= ds[i] < 4
    ensures var cs := Trail(c, ds);
            && (forall i :: 0 < i < |cs| ==> cs[i] in free)
            && (forall i, j :: 0 <= i < j < |cs| ==> cs[i] != cs[j])
            && cs[|ds|] == goal && forall i :: 0 <= i < |ds| ==> cs[i] != goal
    decreases |ds|
  {
    LeadsIsShort(free, c, ds, goal);
    if ds != [] {
      var n := Next(c, ds[0]);
      LeadsIsSimple(free - {n}, n, ds[1..], goal);
      var cs, rest := Trail(c, ds), Trail(n, ds[1..]);
      assert cs == [c] + rest;
      assert forall i :: 0 < i < |cs| ==> cs[i] == rest[i - 1];
    }
  }

  /** The visited-set argument: if every cell of `seen` has all its free neighbours in `seen`, no walk leaves it. */
  lemma {:induction false} ClosedHoldsWalks(free: set<Cell>, seen: set<Cell>, c: Cell, ds: seq<int>, goal: Cell)
    requires Walk(free, c, ds, goal) && c in seen
    requires forall a, d :: a in seen && 0 <= d < 4 && Next(a, d) in free ==> Next(a, d) in seen
    ensures goal in seen
    decreases |ds|
  {
    if ds != [] {
      ClosedHoldsWalks(free, seen, Next(c, ds[0]), ds[1..], goal);
    }
  }

  lemma {:induction false} TrailSteps(c: Cell, ds: seq<int>, i: nat)
    requires i < |ds| && forall k :: 0 <= k < |ds| ==> 0 <= ds[k] < 4
    ensures Trail(c, ds)[i + 1] == Next(Trail(c, ds)[i], ds[i])
    decreases i
  {
    if i > 0 {
      TrailSteps(Next(c, ds[0]), ds[1..], i - 1);
    }
  }
}
