/** Two workers and one producer on a shared job list, as a state machine over the steps of the mutex and condition
    variable. */
module JobQueue {
  import opened Options

  // Where a worker is. `nth` is the place of its job among all jobs taken; `left` bounds the status updates still to
  // come.
  datatype Worker =
    | Top                                        // about to lock
    | GetJob                                     // holds the mutex, at the test of the list
    | Blocked                                    // in pthread_cond_wait
    | Woken                                      // signalled, or spuriously awake; must lock again
    | Leaving(job: string, nth: nat)             // holds the mutex, with a job
    | Working(job: string, nth: nat, left: nat)  // in do_job
    | Writing(job: string, nth: nat, left: nat)  // holds the mutex, in update_status

  datatype Producer =
    | Ready
    | Pushing(job: string)  // holds the mutex
    | Pushed                // holds the mutex
    | ToSignal
    | Viewing               // holds the mutex, listing jobs or status

  datatype Who = Main | Thread(id: int)
  datatype Take = Take(id: int, job: string)

  datatype State = State(
    jobs: seq<string>, workers: seq<Worker>, producer: Producer, owner: Option<Who>, status: seq<string>,
    taken: seq<Take>)

  datatype Step =
    | LockAdd(job: string) | Push | UnlockAdd | Signal(first: bool, second: bool) | LockView | UnlockView
    | Lock(id: int) | TestList(id: int) | Spurious(id: int) | Unlock(id: int)
    | LockStatus(id: int) | WriteStatus(id: int, text: string) | Finish(id: int)

  // do_job tries twice and reports at most twice in each try.
  const MAX_UPDATES: nat := 4

  const INITIAL: State := State([], [Top, Top], Ready, None, ["", ""], [])

  predicate Id(i: int) {
    0 <= i < 2
  }

  predicate Sized(s: State) {
    |s.workers| == |s.status| == 2
  }

  predicate IsBlocked(s: State, i: int)
    requires Sized(s)
  {
    Id(i) && s.workers[i].Blocked?
  }

  predicate Can(s: State, e: Step)
    requires Sized(s)
  {
    match e
    // the command loop adds only non-empty words
    case LockAdd(job) => s.producer.Ready? && s.owner.None? && job != ""
    case Push => s.producer.Pushing?
    case UnlockAdd => s.producer.Pushed?
    // at least one waiting thread is unblocked, if there is one
    case Signal(first, second) => s.producer.ToSignal? && (first ==> IsBlocked(s, 0)) && (second ==> IsBlocked(s, 1))
                                  && (IsBlocked(s, 0) || IsBlocked(s, 1) ==> first || second)
    case LockView => s.producer.Ready? && s.owner.None?
    case UnlockView => s.producer.Viewing?
    case Lock(i) => Id(i) && (s.workers[i].Top? || s.workers[i].Woken?) && s.owner.None?
    case TestList(i) => Id(i) && s.workers[i].GetJob?
    case Spurious(i) => IsBlocked(s, i)
    case Unlock(i) => Id(i) && s.workers[i].Leaving?
    case LockStatus(i) => Id(i) && s.workers[i].Working? && s.workers[i].left > 0 && s.owner.None?
    case WriteStatus(i, _) => Id(i) && s.workers[i].Writing?
    case Finish(i) => Id(i) && s.workers[i].Working?
  }

  function Wake(w: Worker, now: bool): Worker {
    if now then Woken else w
  }

  function Do(s: State, e: Step): (t: State)
    requires Sized(s) && Can(s, e)
    ensures Sized(t)
  {
    match e
    case LockAdd(job) => s.(producer := Pushing(job), owner := Some(Main))
    case Push => s.(producer := Pushed, jobs := s.jobs + [s.producer.job])
    case UnlockAdd => s.(producer := ToSignal, owner := None)
    case Signal(first, second) =>
      s.(producer := Ready, workers := [Wake(s.workers[0], first), Wake(s.workers[1], second)])
    case LockView => s.(producer := Viewing, owner := Some(Main))
    case UnlockView => s.(producer := Ready, owner := None)
    case Lock(i) => s.(workers := s.workers[i := GetJob], owner := Some(Thread(i)))
    case TestList(i) =>
      if s.jobs != [] && s.jobs[0] != "" then
        s.(jobs := s.jobs[1..], taken := s.taken + [Take(i, s.jobs[0])],
           workers := s.workers[i := Leaving(s.jobs[0], |s.taken|)])
      else
        // the wait gives the mutex back; an empty word is dropped
        s.(jobs := if s.jobs == [] then [] else s.jobs[1..], workers := s.workers[i := Blocked], owner := None,
           taken := if s.jobs == [] then s.taken else s.taken + [Take(i, "")])
    case Spurious(i) => s.(workers := s.workers[i := Woken])
    case Unlock(i) =>
      var w := s.workers[i];
      s.(workers := s.workers[i := Working(w.job, w.nth, MAX_UPDATES)], owner := None)
    case LockStatus(i) =>
      var w := s.workers[i];
      s.(workers := s.workers[i := Writing(w.job, w.nth, w.left - 1)], owner := Some(Thread(i)))
    case WriteStatus(i, text) =>
      var w := s.workers[i];
      s.(workers := s.workers[i := Working(w.job, w.nth, w.left)], status := s.status[i := "[" + w.job + "] " + text],
         owner := None)
    case Finish(i) => s.(workers := s.workers[i := Top])
  }

  function JobsOf(ts: seq<Take>): seq<string> {
    seq(|ts|, i requires 0 <= i < |ts| => ts[i].job)
  }

  predicate Holds(w: Worker) {
    w.Leaving? || w.Working? || w.Writing?
  }

  predicate Inside(w: Worker) {
    w.GetJob? || w.Leaving? || w.Writing?
  }

  /** The mutex is held by exactly the thread that is inside. */
  predicate MutexRight(s: State)
    requires Sized(s)
  {
    && (s.owner == Some(Main) <==> s.producer.Pushing? || s.producer.Pushed? || s.producer.Viewing?)
    && (s.owner == Some(Thread(0)) <==> Inside(s.workers[0]))
    && (s.owner == Some(Thread(1)) <==> Inside(s.workers[1]))
    && (s.owner.Some? ==> s.owner.value in {Main, Thread(0), Thread(1)})
  }

  /** A worker with a job is the one that took it. */
  ghost predicate HeldByTaker(s: State)
    requires Sized(s)
  {
    && (forall i :: 0 <= i < |s.taken| ==> Id(s.taken[i].id))
    && (forall i :: Id(i) && Holds(s.workers[i]) ==>
          s.workers[i].nth < |s.taken| && s.taken[s.workers[i].nth] == Take(i, s.workers[i].job))
  }

  /** No lost wake-up: with jobs pending and both workers blocked, the producer has still to signal. */
  predicate NoLostWakeup(s: State)
    requires Sized(s)
  {
    s.jobs != [] && s.workers[0].Blocked? && s.workers[1].Blocked? ==> s.producer.Pushed? || s.producer.ToSignal?
  }

  ghost predicate Inv(s: State) {
    && Sized(s) && MutexRight(s) && HeldByTaker(s) && NoLostWakeup(s)
    && (forall i :: 0 <= i < |s.jobs| ==> s.jobs[i] != "")
    && (s.producer.Pushing? ==> s.producer.job != "")
  }

  lemma StepKeepsHolders(s: State, e: Step)
    requires Inv(s) && Can(s, e)
    ensures HeldByTaker(Do(s, e))
  {
    hide MutexRight, NoLostWakeup, Inside;
    match e {
      case TestList(_) =>
      case Lock(_) =>
      case LockStatus(_) =>
      case WriteStatus(_, _) =>
      case _ =>
    }
  }

  lemma StepKeeps(s: State, e: Step)
    requires Inv(s) && Can(s, e)
    ensures Inv(Do(s, e))
  {
    StepKeepsHolders(s, e);
    hide HeldByTaker;
  }

  predicate CanRun(s: State, es: seq<Step>)
    requires Sized(s)
    decreases |es|
  {
    es == [] || (Can(s, es[0]) && CanRun(Do(s, es[0]), es[1..]))
  }

  function Run(s: State, es: seq<Step>): (t: State)
    requires Sized(s) && CanRun(s, es)
    ensures Sized(t)
    decreases |es|
  {
    if es == [] then s else Run(Do(s, es[0]), es[1..])
  }

  /** In every reachable state, whatever the interleaving: the mutex excludes, a job is held by the worker that took it,
      and no pending job is left with both workers asleep. */
  lemma {:induction false} Always(s: State, es: seq<Step>)
    requires Inv(s) && CanRun(s, es)
    ensures Inv(Run(s, es))
    decreases |es|
  {
    if es != [] {
      StepKeeps(s, es[0]);
      Always(Do(s, es[0]), es[1..]);
    }
  }

  lemma FromTheStart(es: seq<Step>)
    requires CanRun(INITIAL, es)
    ensures Inv(Run(INITIAL, es))
  {
    Always(INITIAL, es);
  }

  // The jobs the user asks for in a run, in order.
  function Asked(es: seq<Step>): seq<string>
    decreases |es|
  {
    if es == [] then [] else (if es[0].LockAdd? then [es[0].job] else []) + Asked(es[1..])
  }

  // Taken, pending, and about to be pending.
  function Offered(s: State): seq<string> {
    JobsOf(s.taken) + s.jobs + (if s.producer.Pushing? then [s.producer.job] else [])
  }

  lemma TakenAppend(ts: seq<Take>, t: Take)
    ensures JobsOf(ts + [t]) == JobsOf(ts) + [t.job]
  {
  }

  lemma StepConserves(s: State, e: Step)
    requires Inv(s) && Can(s, e)
    ensures Offered(Do(s, e)) == Offered(s) + (if e.LockAdd? then [e.job] else [])
  {
    match e {
      case TestList(i) =>
        if s.jobs != [] {
          TakenAppend(s.taken, Take(i, s.jobs[0]));
          assert JobsOf(s.taken) + s.jobs == JobsOf(s.taken) + [s.jobs[0]] + s.jobs[1..];
        }
      case Push => assert JobsOf(s.taken) + (s.jobs + [s.producer.job]) == JobsOf(s.taken) + s.jobs + [s.producer.job];
      case _ =>
    }
  }

  /** Conservation: over every run, the jobs taken, then those pending, then the one being pushed, grow by exactly the
      jobs the user asks for, in the order asked. */
  lemma {:induction false} Conserved(s: State, es: seq<Step>)
    requires Inv(s) && CanRun(s, es)
    ensures Offered(Run(s, es)) == Offered(s) + Asked(es)
    decreases |es|
  {
    hide Do, Can, MutexRight, HeldByTaker, NoLostWakeup, Offered;
    if es != [] {
      StepKeeps(s, es[0]);
      StepConserves(s, es[0]);
      Conserved(Do(s, es[0]), es[1..]);
      Regroup(Offered(s), if es[0].LockAdd? then [es[0].job] else [], Asked(es[1..]));
    }
  }

  lemma Regroup(a: seq<string>, b: seq<string>, c: seq<string>)
    ensures a + b + c == a + (b + c)
  {
  }

  lemma NothingLost(es: seq<Step>)
    requires CanRun(INITIAL, es)
    ensures var t := Run(INITIAL, es);
            JobsOf(t.taken) + t.jobs + (if t.producer.Pushing? then [t.producer.job] else []) == Asked(es)
  {
    FromTheStart([]);
    Conserved(INITIAL, es);
    assert Offered(INITIAL) == [];
  }

  // How many of the jobs taken worker `i` took.
  function TakenBy(ts: seq<Take>, i: int): nat
    decreases |ts|
  {
    if ts == [] then 0 else TakenBy(ts[..|ts| - 1], i) + if ts[|ts| - 1].id == i then 1 else 0
  }

  // How many jobs worker `i` finishes in a run.
  function FinishedBy(es: seq<Step>, i: int): nat
    decreases |es|
  {
    if es == [] then 0 else (if es[0] == Finish(i) then 1 else 0) + FinishedBy(es[1..], i)
  }

  // How many jobs worker `i` is through with.
  function Through(s: State, i: int): int
    requires Sized(s) && Id(i)
  {
    TakenBy(s.taken, i) - if Holds(s.workers[i]) then 1 else 0
  }

  lemma StepFinishes(s: State, e: Step, i: int)
    requires Inv(s) && Can(s, e) && Id(i)
    ensures Through(Do(s, e), i) == Through(s, i) + if e == Finish(i) then 1 else 0
  {
    match e {
      case TestList(k) =>
        if s.jobs != [] {
          assert (s.taken + [Take(k, s.jobs[0])])[..|s.taken|] == s.taken;
        }
      case _ =>
    }
  }

  lemma {:induction false} Finishes(s: State, es: seq<Step>, i: int)
    requires Inv(s) && CanRun(s, es) && Id(i)
    ensures Through(Run(s, es), i) == Through(s, i) + FinishedBy(es, i)
    decreases |es|
  {
    hide Do, Can, MutexRight, HeldByTaker, NoLostWakeup, Through;
    if es != [] {
      StepKeeps(s, es[0]);
      StepFinishes(s, es[0], i);
      Finishes(Do(s, es[0]), es[1..], i);
    }
  }

  /** A worker works on every job it takes until it finishes it: over every run it has finished all but the one it
      holds. */
  lemma WorkedOff(es: seq<Step>, i: int)
    requires CanRun(INITIAL, es) && Id(i)
    ensures var t := Run(INITIAL, es); TakenBy(t.taken, i) == FinishedBy(es, i) + if Holds(t.workers[i]) then 1 else 0
  {
    FromTheStart([]);
    Finishes(INITIAL, es, i);
  }

  /** No two workers hold the same taken job. */
  lemma JobsHeldApart(s: State)
    requires Inv(s) && Holds(s.workers[0]) && Holds(s.workers[1])
    ensures s.workers[0].nth != s.workers[1].nth
  {
  }

  /** Each step leaves the status lines alone, but for a write by worker i: that sets line i to the text it gives,
      headed by the job the worker has taken, and it holds the mutex. */
  lemma StatusIsOwn(s: State, e: Step)
    requires Inv(s) && Can(s, e)
    ensures !e.WriteStatus? ==> Do(s, e).status == s.status
    ensures e.WriteStatus? ==>
        var n := s.workers[e.id].nth;
        && s.owner == Some(Thread(e.id)) && n < |s.taken| && s.taken[n].id == e.id
        && Do(s, e).status == s.status[e.id := "[" + s.taken[n].job + "] " + e.text]
  {
  }

  // The last line worker `i` writes in a run from `s`, with the number of the job it is about.
  function LastWrite(s: State, es: seq<Step>, i: int): (r: Option<(nat, string)>)
    requires Sized(s) && CanRun(s, es) && Id(i)
    decreases |es|
  {
    if es == [] then None
    else
      var later := LastWrite(Do(s, es[0]), es[1..], i);
      if later.Some? then later
      else if es[0].WriteStatus? && es[0].id == i then Some((s.workers[i].nth, es[0].text))
      else None
  }

  /** Over every run a status line is what it was, or the last one its worker wrote, about a job that worker took. */
  lemma {:induction false} StatusOverRun(s: State, es: seq<Step>, i: int)
    requires Inv(s) && CanRun(s, es) && Id(i)
    ensures s.taken <= Run(s, es).taken
    ensures var t, w := Run(s, es), LastWrite(s, es, i);
            if w.None? then t.status[i] == s.status[i]
            else
              && w.value.0 < |t.taken| && t.taken[w.value.0].id == i
              && t.status[i] == "[" + t.taken[w.value.0].job + "] " + w.value.1
    decreases |es|
  {
    if es != [] {
      StepKeeps(s, es[0]);
      StatusIsOwn(s, es[0]);
      StatusOverRun(Do(s, es[0]), es[1..], i);
    }
  }

  // Steps other than new requests of the user and spurious wake-ups.
  predicate Internal(e: Step) {
    !e.LockAdd? && !e.LockView? && !e.Spurious?
  }

  function WorkerWeight(w: Worker): nat {
    match w
    case Blocked => 0
    case GetJob => 1
    case Woken => 2
    case Top => 2
    case Working(_, _, left) => 3 + 2 * left
    case Writing(_, _, left) => 4 + 2 * left
    case Leaving(_, _) => 4 + 2 * MAX_UPDATES
  }

  function ProducerWeight(p: Producer): nat {
    match p
    case Ready => 0
    case Viewing => 1
    case ToSignal => 5
    case Pushed => 6
    case Pushing(_) => 7 + 4 + 2 * MAX_UPDATES
  }

  function Weight(s: State): nat
    requires Sized(s)
  {
    (4 + 2 * MAX_UPDATES) * |s.jobs|
    + WorkerWeight(s.workers[0]) + WorkerWeight(s.workers[1]) + ProducerWeight(s.producer)
  }

  lemma InternalStepsRunDown(s: State, e: Step)
    requires Inv(s) && Can(s, e) && Internal(e)
    ensures Weight(Do(s, e)) < Weight(s)
  {
  }

  // No internal step can be taken.
  ghost predicate Stuck(s: State)
    requires Sized(s)
  {
    forall e :: Internal(e) ==> !Can(s, e)
  }

  /** If nothing internal can happen, the list is empty and both workers wait. */
  lemma StuckIsDrained(s: State)
    requires Inv(s) && Stuck(s)
    ensures s.jobs == [] && s.workers == [Blocked, Blocked] && s.producer.Ready? && s.owner.None?
  {
    assert !Can(s, Signal(IsBlocked(s, 0), IsBlocked(s, 1))) && !Can(s, Push);
    assert !Can(s, UnlockAdd) && !Can(s, UnlockView);
    forall i | Id(i) ensures !Inside(s.workers[i]) && !s.workers[i].Working? {
      assert !Can(s, TestList(i)) && !Can(s, Unlock(i)) && !Can(s, WriteStatus(i, "")) && !Can(s, Finish(i));
    }
    assert s.owner.None?;
    assert !Can(s, Lock(0)) && !Can(s, Lock(1));
  }

  /** Then every job the user has asked for has been taken, in the order asked, and finished by the worker that took
      it. */
  lemma StuckIsDone(es: seq<Step>)
    requires CanRun(INITIAL, es) && Stuck(Run(INITIAL, es))
    ensures var t := Run(INITIAL, es);
            JobsOf(t.taken) == Asked(es) && forall i :: Id(i) ==> TakenBy(t.taken, i) == FinishedBy(es, i)
  {
    FromTheStart(es);
    StuckIsDrained(Run(INITIAL, es));
    NothingLost(es);
    WorkedOff(es, 0);
    WorkedOff(es, 1);
    assert JobsOf(Run(INITIAL, es).taken) + [] + [] == JobsOf(Run(INITIAL, es).taken);
  }

  lemma {:induction false} RunsDown(s: State, es: seq<Step>)
    requires Inv(s) && CanRun(s, es) && forall i :: 0 <= i < |es| ==> Internal(es[i])
    ensures |es| + Weight(Run(s, es)) <= Weight(s)
    decreases |es|
  {
    if es != [] {
      StepKeeps(s, es[0]);
      InternalStepsRunDown(s, es[0]);
      RunsDown(Do(s, es[0]), es[1..]);
    }
  }

  lemma {:induction false} RunAppend(s: State, es: seq<Step>, fs: seq<Step>)
    requires Sized(s) && CanRun(s, es) && CanRun(Run(s, es), fs)
    ensures CanRun(s, es + fs) && Run(s, es + fs) == Run(Run(s, es), fs)
    decreases |es|
  {
    hide Do, Can;
    if es == [] {
      assert es + fs == fs;
    } else {
      assert (es + fs)[0] == es[0] && (es + fs)[1..] == es[1..] + fs;
      RunAppend(Do(s, es[0]), es[1..], fs);
    }
  }

  lemma {:induction false} AskedAppend(es: seq<Step>, fs: seq<Step>)
    ensures Asked(es + fs) == Asked(es) + Asked(fs)
    decreases |es|
  {
    if es == [] {
      assert es + fs == fs;
    } else {
      assert (es + fs)[0] == es[0] && (es + fs)[1..] == es[1..] + fs;
      AskedAppend(es[1..], fs);
    }
  }

  lemma {:induction false} AsksNothing(es: seq<Step>)
    requires forall i :: 0 <= i < |es| ==> Internal(es[i])
    ensures Asked(es) == []
    decreases |es|
  {
    if es != [] {
      AsksNothing(es[1..]);
    }
  }

  /** Draining: after any run, internal steps are at most as many as the weight of its state, and when they can go no
      further every job the user asked for in the run has been taken, in the order asked, and both workers wait. */
  lemma Drains(es: seq<Step>, fs: seq<Step>)
    requires CanRun(INITIAL, es) && CanRun(Run(INITIAL, es), fs) && forall i :: 0 <= i < |fs| ==> Internal(fs[i])
    ensures |fs| <= Weight(Run(INITIAL, es))
    ensures var t := Run(Run(INITIAL, es), fs);
            Stuck(t) ==> JobsOf(t.taken) == Asked(es) && t.jobs == [] && t.workers == [Blocked, Blocked]
  {
    FromTheStart(es);
    RunsDown(Run(INITIAL, es), fs);
    RunAppend(INITIAL, es, fs);
    AskedAppend(es, fs);
    AsksNothing(fs);
    if Stuck(Run(INITIAL, es + fs)) {
      StuckIsDone(es + fs);
      FromTheStart(es + fs);
      StuckIsDrained(Run(INITIAL, es + fs));
      assert Asked(es) + [] == Asked(es);
    }
  }
}
