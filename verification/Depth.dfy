/** How deep a depth-first search goes: the paths that can be on its stack, said without the search. */
module Depth {
  import opened Grid

  // No direction before `i` leads to a free cell from which the goal, or the neighbour in direction `i`, can be
  // reached.
  ghost predicate PassesBy(free: set<Cell>, c: Cell, i: int, goal: Cell)
    requires 0 <= i < 4
  {
    forall d :: 0 <= d < i && Next(c, d) in free ==>
      !Reachable(free, Next(c, d), goal) && !Reachable(free, Next(c, d), Next(c, i))
  }

  /** `ds` leads from `c` away from the goal over free cells, none twice, each move in the first direction that was not
      settled before: an earlier one would have found the goal or taken the cell. */
  ghost predicate Stack(free: set<Cell>, c: Cell, ds: seq<int>, goal: Cell)
    decreases |ds|
  {
    ds == [] ||
    (c != goal && 0 <= ds[0] < 4 && Next(c, ds[0]) in free && PassesBy(free, c, ds[0], goal)
     && Stack(free - {Next(c, ds[0])}, Next(c, ds[0]), ds[1..], goal))
  }

  /** No search from `c` for the goal holds more than `n` moves. */
  ghost predicate Shallow(roads: set<Cell>, c: Cell, goal: Cell, n: int) {
    forall ds :: Stack(roads - {c}, c, ds, goal) ==> |ds| <= n
  }

  lemma {:induction false} StackIsSimple(free: set<Cell>, c: Cell, ds: seq<int>, goal: Cell)
    requires Stack(free, c, ds, goal)
    ensures Simple(free, c, ds)
    decreases |ds|
  {
    if ds != [] {
      StackIsSimple(free - {Next(c, ds[0])}, Next(c, ds[0]), ds[1..], goal);
    }
  }

  /** Where no walk without repetition is longer, no search is deeper. */
  lemma NoLongerIsShallow(roads: set<Cell>, c: Cell, goal: Cell, n: int)
    requires NoLonger(roads, c, n)
    ensures Shallow(roads, c, goal, n)
  {
    forall ds | Stack(roads - {c}, c, ds, goal) ensures |ds| <= n {
      StackIsSimple(roads - {c}, c, ds, goal);
    }
  }

  function Opposite(d: int): int
    requires 0 <= d < 4
  {
    if d % 2 == 0 then d + 1 else d - 1
  }

  lemma ThereAndBack(c: Cell, d: int)
    requires 0 <= d < 4
    ensures 0 <= Opposite(d) < 4 && Next(Next(c, d), Opposite(d)) == c
  {
  }

  /** `rest` is part of `free`, and no other free cell is beside a cell of it. */
  ghost predicate Apart(free: set<Cell>, rest: set<Cell>) {
    rest <= free && forall a, d :: a in free - rest && 0 <= d < 4 ==> Next(a, d) !in rest
  }

  // `c` is beside no free cell outside `rest`.
  ghost predicate Within(free: set<Cell>, rest: set<Cell>, c: Cell) {
    forall d :: 0 <= d < 4 && Next(c, d) in free ==> Next(c, d) in rest
  }

  lemma ApartIsWithin(free: set<Cell>, rest: set<Cell>, c: Cell)
    requires Apart(free, rest) && c in rest
    ensures Within(free, rest, c)
  {
    forall d | 0 <= d < 4 && Next(c, d) in free ensures Next(c, d) in rest {
      ThereAndBack(c, d);
    }
  }

  lemma {:induction false} WalkStays(free: set<Cell>, rest: set<Cell>, c: Cell, ds: seq<int>, goal: Cell)
    requires Apart(free, rest) && c in rest && Walk(free, c, ds, goal)
    ensures Walk(rest, c, ds, goal)
    decreases |ds|
  {
    if ds != [] {
      ApartIsWithin(free, rest, c);
      WalkStays(free, rest, Next(c, ds[0]), ds[1..], goal);
    }
  }

  lemma {:induction false} WalkWidens(free: set<Cell>, wider: set<Cell>, c: Cell, ds: seq<int>, goal: Cell)
    requires free <= wider && Walk(free, c, ds, goal)
    ensures Walk(wider, c, ds, goal)
    decreases |ds|
  {
    if ds != [] {
      WalkWidens(free, wider, Next(c, ds[0]), ds[1..], goal);
    }
  }

  lemma ReachWidens(free: set<Cell>, wider: set<Cell>, c: Cell, goal: Cell)
    requires free <= wider && Reachable(free, c, goal)
    ensures Reachable(wider, c, goal)
  {
    var ds :| Walk(free, c, ds, goal);
    WalkWidens(free, wider, c, ds, goal);
  }

  lemma SameReach(free: set<Cell>, rest: set<Cell>, c: Cell, goal: Cell)
    requires Apart(free, rest) && c in rest
    ensures Reachable(free, c, goal) <==> Reachable(rest, c, goal)
  {
    if Reachable(free, c, goal) {
      var ds :| Walk(free, c, ds, goal);
      WalkStays(free, rest, c, ds, goal);
    }
    if Reachable(rest, c, goal) {
      ReachWidens(rest, free, c, goal);
    }
  }

  lemma SamePassing(free: set<Cell>, rest: set<Cell>, c: Cell, i: int, goal: Cell)
    requires Apart(free, rest) && Within(free, rest, c) && 0 <= i < 4
    ensures PassesBy(free, c, i, goal) <==> PassesBy(rest, c, i, goal)
  {
    forall d, x | 0 <= d < i && Next(c, d) in free
      ensures Reachable(free, Next(c, d), x) <==> Reachable(rest, Next(c, d), x)
    {
      SameReach(free, rest, Next(c, d), x);
    }
  }

  /** What is apart makes no difference to a search that starts outside it. */
  lemma {:induction false} SameStack(free: set<Cell>, rest: set<Cell>, c: Cell, ds: seq<int>, goal: Cell)
    requires Apart(free, rest) && Within(free, rest, c)
    ensures Stack(free, c, ds, goal) <==> Stack(rest, c, ds, goal)
    decreases |ds|
  {
    if ds != [] && 0 <= ds[0] < 4 && Next(c, ds[0]) in free {
      var n := Next(c, ds[0]);
      SamePassing(free, rest, c, ds[0], goal);
      ApartIsWithin(free, rest, n);
      SameStack(free - {n}, rest - {n}, n, ds[1..], goal);
    }
  }

  // The cells taken so far can each be reached from a neighbour of `c` before direction `i`.
  ghost predicate TakenFrom(free: set<Cell>, rest: set<Cell>, c: Cell, i: int) {
    forall a :: a in free - rest ==>
      exists d :: 0 <= d < i && d < 4 && Next(c, d) in free && Reachable(free, Next(c, d), a)
  }

  // Every stack whose first move is before direction `i` is short.
  ghost predicate ShortBefore(free: set<Cell>, c: Cell, goal: Cell, i: int, n: int) {
    forall ds :: Stack(free, c, ds, goal) && ds != [] && ds[0] < i ==> |ds| <= n
  }

  /** The search from `c` over `free` after its first `i` directions: `rest` is left, and nothing went too deep. */
  ghost predicate Explored(free: set<Cell>, rest: set<Cell>, c: Cell, goal: Cell, i: int, n: int) {
    && Apart(free, rest) && TakenFrom(free, rest, c, i) && ShortBefore(free, c, goal, i, n)
    && goal !in free - rest
    && forall d :: 0 <= d < i && d < 4 ==> Next(c, d) !in rest
  }

  lemma ExploreStarts(free: set<Cell>, c: Cell, goal: Cell, n: int)
    ensures Explored(free, free, c, goal, 0, n)
  {
    forall ds | Stack(free, c, ds, goal) && ds != [] ensures ds[0] >= 0 { }
  }

  // A neighbour that is not left was taken from an earlier direction, if it was ever free.
  lemma ExploreSkips(free: set<Cell>, rest: set<Cell>, c: Cell, goal: Cell, i: int, n: int)
    requires Explored(free, rest, c, goal, i, n) && 0 <= i < 4 && Next(c, i) !in rest
    ensures Explored(free, rest, c, goal, i + 1, n)
  {
    if Next(c, i) in free {
      NotPassed(free, rest, c, i, goal);
    }
    forall ds | Stack(free, c, ds, goal) && ds != [] && ds[0] < i + 1 ensures |ds| <= n { }
  }

  lemma NotPassed(free: set<Cell>, rest: set<Cell>, c: Cell, i: int, goal: Cell)
    requires TakenFrom(free, rest, c, i) && 0 <= i < 4 && Next(c, i) in free - rest
    ensures !PassesBy(free, c, i, goal)
  {
  }

  lemma FirstMove(free: set<Cell>, rest: set<Cell>, c: Cell, ds: seq<int>, goal: Cell, i: int, n: int)
    requires Apart(free, rest) && 0 <= i < 4 && Next(c, i) in rest && Shallow(rest, Next(c, i), goal, n - 1)
    requires Stack(free, c, ds, goal) && ds != [] && ds[0] == i
    ensures |ds| <= n
  {
    var next := Next(c, i);
    ApartIsWithin(free, rest, next);
    SameStack(free - {next}, rest - {next}, next, ds[1..], goal);
  }

  // A neighbour searched in vain.
  lemma ExploreContinues(free: set<Cell>, rest: set<Cell>, c: Cell, goal: Cell, i: int, n: int, left: set<Cell>)
    requires Explored(free, rest, c, goal, i, n) && 0 <= i < 4 && Next(c, i) in rest
    requires Shallow(rest, Next(c, i), goal, n - 1)
    requires Apart(free, left) && left <= rest && goal !in free - left && Next(c, i) !in left
    requires forall a :: a in rest - left ==> Reachable(rest, Next(c, i), a)
    ensures Explored(free, left, c, goal, i + 1, n)
  {
    forall a | a in free - left
      ensures exists d :: 0 <= d < i + 1 && d < 4 && Next(c, d) in free && Reachable(free, Next(c, d), a)
    {
      if a in rest {
        ReachWidens(rest, free, Next(c, i), a);
      } else {
        assert a in free - rest;
        var d :| 0 <= d < i && d < 4 && Next(c, d) in free && Reachable(free, Next(c, d), a);
      }
    }
    forall ds | Stack(free, c, ds, goal) && ds != [] && ds[0] < i + 1 ensures |ds| <= n {
      if ds[0] == i {
        FirstMove(free, rest, c, ds, goal, i, n);
      }
    }
  }

  // A neighbour from which the goal was found: no later direction is taken.
  lemma ExploreFinds(free: set<Cell>, rest: set<Cell>, c: Cell, goal: Cell, i: int, n: int)
    requires Explored(free, rest, c, goal, i, n) && 0 <= i < 4 && Next(c, i) in rest && n >= 0
    requires Shallow(rest, Next(c, i), goal, n - 1) && Reachable(rest, Next(c, i), goal)
    ensures forall ds :: Stack(free, c, ds, goal) ==> |ds| <= n
  {
    ReachWidens(rest, free, Next(c, i), goal);
    forall ds | Stack(free, c, ds, goal) ensures |ds| <= n {
      if ds != [] && ds[0] == i {
        FirstMove(free, rest, c, ds, goal, i, n);
      }
    }
  }

  lemma ExploreEnds(free: set<Cell>, rest: set<Cell>, c: Cell, goal: Cell, n: int)
    requires Explored(free, rest, c, goal, 4, n) && n >= 0
    ensures forall ds :: Stack(free, c, ds, goal) ==> |ds| <= n
    ensures forall a :: a in free + {c} - rest ==> Reachable(free + {c}, c, a)
  {
    assert Walk(free + {c}, c, [], c);
    forall a | a in free - rest ensures Reachable(free + {c}, c, a) {
      var d :| 0 <= d < 4 && Next(c, d) in free && Reachable(free, Next(c, d), a);
      ReachWidens(free, free + {c}, Next(c, d), a);
      var ds :| Walk(free + {c}, Next(c, d), ds, a);
      assert ([d] + ds)[1..] == ds;
      assert Walk(free + {c}, c, [d] + ds, a);
    }
  }

  /** A stack grows at its bottom: what a later search can hold, the earlier one can with one move more. */
  lemma StackGrows(free: set<Cell>, rest: set<Cell>, c: Cell, goal: Cell, i: int, n: int, ds: seq<int>)
    requires Explored(free, rest, c, goal, i, n) && 0 <= i < 4 && Next(c, i) in rest && c != goal
    requires Stack(rest - {Next(c, i)}, Next(c, i), ds, goal)
    ensures Stack(free, c, [i] + ds, goal)
  {
    var next := Next(c, i);
    forall d, x | 0 <= d < i && Next(c, d) in free && Reachable(free, Next(c, d), x) ensures x in free - rest {
      var w :| Walk(free, Next(c, d), w, x);
      ClosedHoldsWalks(free, free - rest, Next(c, d), w, x);
    }
    ApartIsWithin(free, rest, next);
    SameStack(free - {next}, rest - {next}, next, ds, goal);
    assert ([i] + ds)[1..] == ds;
  }
}
