/** The carved maze is settled by where it starts and by the random numbers: there is one way to backtrack. */
module Backtracking {
  import opened Tree
  import opened Carving

  ghost predicate AllBacktrack(rows: int, cols: int, start: Room, es: seq<Edge>, rnd: nat -> nat) {
    forall i :: 0 <= i < |es| ==> Backtracks(rows, cols, start, es, rnd, i)
  }

  // An edge leads to a room that was closed before it.
  lemma {:induction false} LeadsToClosed(start: Room, es: seq<Edge>, i: nat)
    requires Grown(start, es) && i < |es|
    ensures es[i].to !in Opened(start, es[..i])
    decreases |es|
  {
    var init := es[..|es| - 1];
    if i < |es| - 1 {
      LeadsToClosed(start, init, i);
      assert init[..i] == es[..i];
    } else {
      assert es[..i] == init;
    }
  }

  // The same edges so far: the choice made for `fs` rules out any later room and any later direction for `es`.
  lemma NoLaterChoice(rows: int, cols: int, start: Room, es: seq<Edge>, fs: seq<Edge>, rnd: nat -> nat, i: nat,
                      k: nat, j: nat, l: nat, n: nat)
    requires Carved(rows, cols, start, es) && i < |es| && i < |fs| && es[..i] == fs[..i]
    requires k <= i && j < 4 && LeadsBack(rows, cols, start, es, rnd, i, k, j)
    requires l <= i && n < 4 && LeadsBack(rows, cols, start, fs, rnd, i, l, n)
    ensures k <= l && (k == l ==> n <= j)
  {
    var open, to := Opened(start, es[..i]), es[i].to;
    LeadsToClosed(start, es, i);
    assert RoomNo(start, es, k) == RoomNo(start, fs, k) by {
      assert k > 0 ==> es[k - 1] == es[..i][k - 1] == fs[..i][k - 1] == fs[k - 1];
    }
    hide Opened, OrderNo, Neighbour, IsRoom;
    var c, order := RoomNo(start, es, k), OrderNo(rnd, k);
    assert IsRoom(rows, cols, to) && to !in open && to == Neighbour(c, order[j]);
    assert !Settled(rows, cols, open, c);
    assert j < n ==> order[..n][j] == order[j];
    assert j < n ==> !Tried(rows, cols, open, c, order[..n]);
  }

  lemma SameEdge(rows: int, cols: int, start: Room, es: seq<Edge>, fs: seq<Edge>, rnd: nat -> nat, i: nat)
    requires Carved(rows, cols, start, es) && Carved(rows, cols, start, fs)
    requires i < |es| && i < |fs| && es[..i] == fs[..i]
    requires Backtracks(rows, cols, start, es, rnd, i) && Backtracks(rows, cols, start, fs, rnd, i)
    ensures es[i] == fs[i]
  {
    var k: nat, j: nat :| k <= i && j < 4 && LeadsBack(rows, cols, start, es, rnd, i, k, j);
    var l: nat, n: nat :| l <= i && n < 4 && LeadsBack(rows, cols, start, fs, rnd, i, l, n);
    NoLaterChoice(rows, cols, start, es, fs, rnd, i, k, j, l, n);
    NoLaterChoice(rows, cols, start, fs, es, rnd, i, l, n, k, j);
    assert k > 0 ==> es[k - 1] == es[..i][k - 1] == fs[..i][k - 1] == fs[k - 1];
  }

  lemma {:induction false} SameSoFar(rows: int, cols: int, start: Room, es: seq<Edge>, fs: seq<Edge>, rnd: nat -> nat,
                                     n: nat)
    requires Carved(rows, cols, start, es) && Carved(rows, cols, start, fs) && n <= |es| && n <= |fs|
    requires AllBacktrack(rows, cols, start, es, rnd) && AllBacktrack(rows, cols, start, fs, rnd)
    ensures es[..n] == fs[..n]
    decreases n
  {
    hide Carved, Backtracks;
    if n > 0 {
      SameSoFar(rows, cols, start, es, fs, rnd, n - 1);
      SameEdge(rows, cols, start, es, fs, rnd, n - 1);
      assert es[..n] == es[..n - 1] + [es[n - 1]] && fs[..n] == fs[..n - 1] + [fs[n - 1]];
    }
  }

  /** From the same start with the same random numbers there is one maze: two searches that open every room dig the same
      passages in the same order. */
  lemma OneMaze(rows: int, cols: int, start: Room, es: seq<Edge>, fs: seq<Edge>, rnd: nat -> nat)
    requires Carved(rows, cols, start, es) && Carved(rows, cols, start, fs)
    requires AllBacktrack(rows, cols, start, es, rnd) && AllBacktrack(rows, cols, start, fs, rnd)
    requires Opened(start, es) == Opened(start, fs) == Rooms(rows, cols)
    ensures es == fs
  {
    OpenedCount(start, es);
    OpenedCount(start, fs);
    SameSoFar(rows, cols, start, es, fs, rnd, |es|);
    assert es[..|es|] == es && fs[..|fs|] == fs;
  }
}
