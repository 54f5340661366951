/** The enter/leave label the debugger prints at each system-call stop. */
module SyscallLabels {
  import opened Options

  // What happens to the tracee: `syscall` stops it entering call `nr`, or leaving the call it is in;
  // or `si`/`cont` take it out of a call with no stop at the exit.
  datatype Move = Enter(nr: int) | Leave | Skip

  datatype Phase = Outside | Inside(nr: int)

  function After(p: Phase, m: Move): Phase {
    match m
    case Enter(nr) => Inside(nr)
    case Leave => Outside
    case Skip => Outside
  }

  // The moves a tracee can make from phase `p`.
  predicate Possible(p: Phase, ms: seq<Move>)
    decreases |ms|
  {
    ms == [] ||
    ((match ms[0] case Enter(_) => p.Outside? case Leave => p.Inside? case Skip => true)
     && Possible(After(p, ms[0]), ms[1..]))
  }

  // True for each stop that is an entry, in order.
  function TrueLabels(ms: seq<Move>): seq<bool>
    decreases |ms|
  {
    if ms == [] then []
    else (match ms[0] case Enter(_) => [true] case Leave => [false] case Skip => []) + TrueLabels(ms[1..])
  }

  /** The tracker's two globals and what one stop does to them. */
  datatype Tracker = Tracker(enter: bool, preOrigRax: int)

  function Corrected(t: Tracker, nr: int): bool {
    t.enter || t.preOrigRax != nr
  }

  function Printed(t: Tracker, p: Phase, ms: seq<Move>): seq<bool>
    decreases |ms|
  {
    if ms == [] then []
    else if ms[0].Skip? || (ms[0].Leave? && p.Outside?) then Printed(t, After(p, ms[0]), ms[1..])
    else
      var nr := if ms[0].Enter? then ms[0].nr else p.nr;
      [Corrected(t, nr)] + Printed(Tracker(!Corrected(t, nr), nr), After(p, ms[0]), ms[1..])
  }

  lemma PrintedNone(t: Tracker, p: Phase)
    ensures Printed(t, p, []) == []
  {
  }

  // The labels of a run, after those printed before it: the first stop's label goes to the end of these.
  lemma PrintedFirst(t: Tracker, p: Phase, ms: seq<Move>, before: seq<bool>)
    requires ms != [] && Possible(p, ms)
    ensures Possible(After(p, ms[0]), ms[1..]) && (ms[0].Leave? ==> p.Inside?)
    ensures before + Printed(t, p, ms) ==
            if ms[0].Skip? then before + Printed(t, After(p, ms[0]), ms[1..])
            else
              var nr := if ms[0].Enter? then ms[0].nr else p.nr;
              before + [Corrected(t, nr)] + Printed(Tracker(!Corrected(t, nr), nr), After(p, ms[0]), ms[1..])
  {
  }

  // `owed` is the call whose exit was skipped and after which nothing has been reported yet.
  predicate NeverRepeated(p: Phase, owed: Option<int>, ms: seq<Move>)
    decreases |ms|
  {
    ms == [] ||
    match ms[0]
    case Enter(nr) => owed != Some(nr) && NeverRepeated(Inside(nr), None, ms[1..])
    case Leave => NeverRepeated(Outside, None, ms[1..])
    case Skip => NeverRepeated(Outside, if p.Inside? then Some(p.nr) else owed, ms[1..])
  }

  // The tracker between stops: it expects an exit exactly when it has reported an entry last.
  predicate Tracks(t: Tracker, p: Phase, owed: Option<int>) {
    match p
    case Inside(nr) => !t.enter && t.preOrigRax == nr && owed == None
    case Outside => if owed == None then t.enter else !t.enter && t.preOrigRax == owed.value
  }

  class SyscallStops {
    var enter: bool
    var preOrigRax: int

    constructor ()
      ensures Tracker(enter, preOrigRax) == Tracker(true, 0)
    {
      enter, preOrigRax := true, 0;
    }

    /** One system-call stop: the label, and the state for the next. */
    method Judge(origRax: int) returns (entering: bool)
      modifies this
      ensures entering == Corrected(Tracker(old(enter), old(preOrigRax)), origRax)
      ensures Tracker(enter, preOrigRax) == Tracker(!entering, origRax)
    {
      if !enter && preOrigRax != origRax {
        enter := !enter;
      }
      entering := enter;
      enter := !enter;
      preOrigRax := origRax;
    }

    method Trace(ms: seq<Move>) returns (labels: seq<bool>)
      requires Possible(Outside, ms)
      modifies this
      ensures labels == Printed(Tracker(old(enter), old(preOrigRax)), Outside, ms)
    {
      hide Printed, Possible, Corrected;
      labels := [];
      var phase := Outside;
      var i := 0;
      while i < |ms|
        invariant 0 <= i <= |ms| && Possible(phase, ms[i..])
        invariant labels + Printed(Tracker(enter, preOrigRax), phase, ms[i..]) ==
                  Printed(Tracker(old(enter), old(preOrigRax)), Outside, ms)
      {
        assert ms[i..][0] == ms[i] && ms[i..][1..] == ms[i + 1..];
        PrintedFirst(Tracker(enter, preOrigRax), phase, ms[i..], labels);
        if !ms[i].Skip? {
          var shown := Judge(if ms[i].Enter? then ms[i].nr else phase.nr);
          labels := labels + [shown];
        }
        phase := After(phase, ms[i]);
        i := i + 1;
      }
      assert ms[i..] == [];
      PrintedNone(Tracker(enter, preOrigRax), phase);
    }
  }

  /** Every label printed in a run is right exactly when no call follows one with the same number whose exit was
      skipped. */
  lemma LabelsRight(ms: seq<Move>)
    requires Possible(Outside, ms)
    ensures Printed(Tracker(true, 0), Outside, ms) == TrueLabels(ms) <==> NeverRepeated(Outside, None, ms)
  {
    LabelsRightFrom(Tracker(true, 0), Outside, None, ms);
  }

  lemma {:induction false} LabelsRightFrom(t: Tracker, p: Phase, owed: Option<int>, ms: seq<Move>)
    requires Possible(p, ms) && Tracks(t, p, owed)
    ensures Printed(t, p, ms) == TrueLabels(ms) <==> NeverRepeated(p, owed, ms)
    decreases |ms|
  {
    if ms != [] {
      var m := ms[0];
      if m.Skip? {
        LabelsRightFrom(t, Outside, if p.Inside? then Some(p.nr) else owed, ms[1..]);
      } else {
        var nr := if m.Enter? then m.nr else p.nr;
        var shown := Corrected(t, nr);
        var u := Tracker(!shown, nr);
        assert Printed(t, p, ms) == [shown] + Printed(u, After(p, m), ms[1..]);
        assert Printed(t, p, ms)[0] == shown && TrueLabels(ms)[0] == m.Enter?;
        if shown == m.Enter? {
          LabelsRightFrom(u, After(p, m), None, ms[1..]);
          assert Printed(t, p, ms)[1..] == Printed(u, After(p, m), ms[1..]);
          assert TrueLabels(ms)[1..] == TrueLabels(ms[1..]);
        }
      }
    }
  }

  /** Two reads with the exit of the first skipped: both stops of the second are labelled the wrong way round. */
  lemma RepeatedCallMislabelled(nr: int)
    ensures Printed(Tracker(true, 0), Outside, [Enter(nr), Skip, Enter(nr), Leave]) == [true, false, true]
    ensures TrueLabels([Enter(nr), Skip, Enter(nr), Leave]) == [true, true, false]
  {
    var ms := [Enter(nr), Skip, Enter(nr), Leave];
    assert ms[1..] == [Skip, Enter(nr), Leave] && ms[1..][1..] == [Enter(nr), Leave] && ms[1..][1..][1..] == [Leave];
    assert Printed(Tracker(false, nr), Outside, [Enter(nr), Leave]) ==
           [false] + Printed(Tracker(true, nr), Inside(nr), [Leave]);
    assert [Leave][1..] == [];
    assert Printed(Tracker(true, nr), Inside(nr), [Leave]) == [true];
    assert TrueLabels([Leave]) == [false];
    assert TrueLabels([Enter(nr), Leave]) == [true] + TrueLabels([Leave]);
    assert TrueLabels(ms[1..]) == TrueLabels([Enter(nr), Leave]);
    assert [Enter(nr), Leave][1..] == [Leave];
  }
}
