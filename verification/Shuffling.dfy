/** A random order: every place in turn gets one of the entries not placed before. */
module Shuffling {
  predicate Congruent(a: int, b: int, n: int)
    requires n > 0
  {
    (a - b) % n == 0
  }

  lemma RemainderIsCongruent(r: nat, n: nat)
    requires n > 0
    ensures Congruent(r, r % n, n)
  {
    var q := r / n;
    assert r - r % n == n * q;
    var t, m := (n * q) / n, (n * q) % n;
    assert n * (q - t) == m && n * (q - t) == -(n * (t - q));
    if q > t {
      AtLeast(n, q - t);
    } else if q < t {
      AtLeast(n, t - q);
    }
  }

  lemma AtLeast(n: nat, k: nat)
    requires k >= 1
    ensures n * k >= n
  {
  }

  // The entry a random number counts to, among `n`.
  function Counted(r: nat, n: nat): (k: nat)
    requires n > 0
    ensures k < n && Congruent(r, k, n) && (r < n ==> k == r)
  {
    RemainderIsCongruent(r, n);
    r % n
  }

  function Swapped(s: seq<int>, i: nat, j: nat): (t: seq<int>)
    requires i < |s| && j < |s|
    ensures |t| == |s| && forall k :: 0 <= k < |s| ==> t[k] == if k == i then s[j] else if k == j then s[i] else s[k]
  {
    s[j := s[i]][i := s[j]]
  }

  lemma SwappedKeeps(s: seq<int>, i: nat, j: nat)
    requires i < |s| && j < |s|
    ensures multiset(Swapped(s, i, j)) == multiset(s)
  {
  }

  /** The order after shuffling from place `i` on, a random number a place. */
  function Shuffled(s: seq<int>, i: nat, rs: seq<nat>): (t: seq<int>)
    requires i + |rs| == |s|
    ensures |t| == |s|
    decreases |rs|
  {
    if rs == [] then s else Shuffled(Swapped(s, i, i + Counted(rs[0], |s| - i)), i + 1, rs[1..])
  }

  /** Shuffling loses and repeats nothing ... */
  lemma {:induction false} ShuffledKeeps(s: seq<int>, i: nat, rs: seq<nat>)
    requires i + |rs| == |s|
    ensures multiset(Shuffled(s, i, rs)) == multiset(s)
    decreases |rs|
  {
    hide Counted, Congruent, Swapped;
    if rs != [] {
      var j := i + Counted(rs[0], |s| - i);
      SwappedKeeps(s, i, j);
      ShuffledKeeps(Swapped(s, i, j), i + 1, rs[1..]);
    }
  }

  lemma {:induction false} PlacedStays(s: seq<int>, i: nat, rs: seq<nat>, k: nat)
    requires i + |rs| == |s| && k < i
    ensures Shuffled(s, i, rs)[k] == s[k]
    decreases |rs|
  {
    hide Counted, Congruent, Swapped;
    if rs != [] {
      PlacedStays(Swapped(s, i, i + Counted(rs[0], |s| - i)), i + 1, rs[1..], k);
    }
  }

  /** ... the place turned to gets the entry its random number counts to, modulo how many are left, and keeps it ... */
  lemma PlaceGets(s: seq<int>, i: nat, rs: seq<nat>, j: nat)
    requires i + |rs| == |s| && i <= j < |s| && Congruent(rs[0], j - i, |s| - i)
    ensures Shuffled(s, i, rs)[i] == s[j]
  {
    var k := i + Counted(rs[0], |s| - i);
    OneRemainder(rs[0], j - i, k - i, |s| - i);
    hide Counted, Congruent, Swapped;
    PlacedStays(Swapped(s, i, k), i + 1, rs[1..], i);
  }

  lemma OneRemainder(r: int, a: nat, b: nat, n: nat)
    requires a < n && b < n && Congruent(r, a, n) && Congruent(r, b, n)
    ensures a == b
  {
    var p, q := (r - a) / n, (r - b) / n;
    assert r - a == n * p && r - b == n * q;
    assert n * (p - q) == b - a && n * (q - p) == a - b;
    if p > q {
      AtLeast(n, p - q);
    } else if q > p {
      AtLeast(n, q - p);
    }
  }

  lemma SameRest(a: seq<int>, b: seq<int>, c: seq<int>)
    requires multiset(a + b) == multiset(a + c)
    ensures multiset(b) == multiset(c)
  {
    assert multiset(b) == multiset(a + b) - multiset(a) && multiset(c) == multiset(a + c) - multiset(a);
  }

  // What comes next in the order is not yet placed.
  lemma Remaining(s: seq<int>, i: nat, order: seq<int>) returns (j: nat)
    requires i < |s| && |order| == |s| && order[..i] == s[..i] && multiset(order) == multiset(s)
    ensures i <= j < |s| && s[j] == order[i]
  {
    assert order == s[..i] + order[i..] && s == s[..i] + s[i..];
    SameRest(s[..i], order[i..], s[i..]);
    assert order[i] == order[i..][0];
    assert order[i] in multiset(s[i..]);
    var k :| 0 <= k < |s[i..]| && s[i..][k] == order[i];
    j := i + k;
  }

  /** ... and every order can come out: for each there are random numbers that make it. */
  lemma {:induction false} AnyOrder(s: seq<int>, i: nat, order: seq<int>) returns (rs: seq<nat>)
    requires i <= |s| && |order| == |s| && order[..i] == s[..i] && multiset(order) == multiset(s)
    ensures i + |rs| == |s| && Shuffled(s, i, rs) == order
    decreases |s| - i
  {
    hide Counted, Congruent, Swapped;
    if i == |s| {
      assert s == s[..i] && order == order[..i];
      return [];
    }
    var j := Remaining(s, i, order);
    var t := Swapped(s, i, j);
    SwappedKeeps(s, i, j);
    assert order[..i + 1] == t[..i + 1] by {
      assert forall k :: 0 <= k < i ==> order[k] == order[..i][k] == s[..i][k] == s[k];
    }
    var rest := AnyOrder(t, i + 1, order);
    rs := [j - i] + rest;
    assert rs[1..] == rest;
  }

  /** The loop that draws and swaps. */
  method Shuffle(a: array<int>, rs: seq<nat>)
    requires |rs| == a.Length
    modifies a
    ensures a[..] == Shuffled(old(a[..]), 0, rs)
  {
    hide Counted, Congruent, Swapped;
    var n := a.Length;
    for i := 0 to n
      invariant Shuffled(a[..], i, rs[i..]) == Shuffled(old(a[..]), 0, rs)
    {
      var j := i + Counted(rs[i], n - i);
      ghost var was := a[..];
      assert rs[i..][1..] == rs[i + 1..] && rs[i..][0] == rs[i];
      var tmp := a[j];
      a[j] := a[i];
      a[i] := tmp;
      assert a[..] == Swapped(was, i, j);
    }
    assert rs[n..] == [];
  }
}
