/** Whole debugging sessions: breakpoints decide where a run stops and change nothing else. */
module Transparency {
  import opened Words
  import opened Machine
  import opened Session
  import opened Outcomes
  import opened Debuggers

  predicate Over(s: Session) {
    s.quit || s.process.Dead?
  }

  ghost predicate PermitsAll(s: Session, cs: seq<Command>)
    decreases |cs|
  {
    cs == [] || Over(s) || (Permits(s, cs[0]) && PermitsAll(Apply(s, cs[0]), cs[1..]))
  }

  ghost function ApplyAll(s: Session, cs: seq<Command>): Session
    requires PermitsAll(s, cs)
    decreases |cs|
  {
    if cs == [] || Over(s) then s else ApplyAll(Apply(s, cs[0]), cs[1..])
  }

  // What the invariant says about the breakpoint set just here.
  lemma PlacedFits(d: Debugger)
    requires d.Valid() && !d.quit
    ensures d.tracee.process.Live? && PlacedOk(d.Abs()) && TableOk(d.mem, d.Abs().points)
  {
  }

  /** One command: permitted ones keep the invariant and do what they are for. */
  method Obey(d: Debugger, c: Command)
    requires d.Valid() && !d.quit && Permits(d.Abs(), c)
    modifies d, d.breakpoints, d.tracee
    ensures d.Valid() && d.Abs() == Apply(old(d.Abs()), c)
  {
    ghost var s := d.Abs();
    PlacedFits(d);
    hide Permits, PlacedOk, TableOk, Debugger.Valid;
    match c {
      case Break(addr) => d.SetBreakpoint(addr);
      case Delete(id) => d.DeleteBreakpoint(id);
      case Si =>
        SiMeets(s);
        d.CommandSi();
      case Cont =>
        ContMeets(s);
        d.CommandCont();
      case Patch(at, value, len) =>
        PatchPermitted(s, at, value, len);
        d.PatchMemory(at, value, len);
    }
  }

  lemma PatchPermitted(s: Session, at: nat, value: Word, len: int)
    requires s.process.Live? && Permits(s, Patch(at, value, len))
    ensures len <= 8
  {
  }

  /** The debugger's command loop follows the session, command by command, until it leaves. */
  method CommandLoop(d: Debugger, cs: seq<Command>)
    requires d.Valid() && PermitsAll(d.Abs(), cs)
    modifies d, d.breakpoints, d.tracee
    ensures d.Valid() && d.Abs() == ApplyAll(old(d.Abs()), cs)
  {
    hide Permits, Apply;
    var i := 0;
    while i < |cs| && !d.quit
      invariant 0 <= i <= |cs| && d.Valid()
      invariant PermitsAll(d.Abs(), cs[i..])
      invariant ApplyAll(d.Abs(), cs[i..]) == ApplyAll(old(d.Abs()), cs)
    {
      assert cs[i..][0] == cs[i] && cs[i..][1..] == cs[i + 1..];
      Obey(d, cs[i]);
      i := i + 1;
    }
  }

  // What a command amounts to without breakpoints: `cont` becomes `si`s.
  ghost function PlainOne(s: Session, c: Command): seq<Command>
    requires s.process.Live? && Permits(s, c)
  {
    match c
    case Break(_) => []
    case Delete(_) => []
    case Si => [Si]
    case Cont => seq(StepsToStop(s), _ => Si)
    case Patch(_, _, _) => [c]
  }

  ghost function Plain(s: Session, cs: seq<Command>): seq<Command>
    requires PermitsAll(s, cs)
    decreases |cs|
  {
    if cs == [] || Over(s) then [] else PlainOne(s, cs[0]) + Plain(Apply(s, cs[0]), cs[1..])
  }

  lemma {:induction false} Appended(s: Session, cs: seq<Command>, ds: seq<Command>)
    requires PermitsAll(s, cs) && PermitsAll(ApplyAll(s, cs), ds)
    ensures PermitsAll(s, cs + ds) && ApplyAll(s, cs + ds) == ApplyAll(ApplyAll(s, cs), ds)
    decreases |cs|
  {
    if cs == [] {
      assert cs + ds == ds;
    } else if !Over(s) {
      assert (cs + ds)[0] == cs[0] && (cs + ds)[1..] == cs[1..] + ds;
      Appended(Apply(s, cs[0]), cs[1..], ds);
    }
  }

  // The same program at the same point, with no breakpoints.
  ghost predicate Twin(s: Session, t: Session) {
    t.cpu == s.cpu && t.mem == s.mem && t.process == s.process && t.points == [] && t.placed == -1
  }

  // Without breakpoints, `si` is a step of the program and nothing more.
  lemma NoPoints(t: Session, ps: seq<Point>)
    requires !Over(t) && t.points == [] && t.placed == -1 && Smooth(t.cpu, t.mem, ps, t.process.regs)
    ensures Permits(t, Si)
    ensures var p := Step(t.cpu, t.mem, t.process.regs).0; Apply(t, Si) == t.(process := p, quit := p.Dead?)
  {
  }

  lemma {:induction false} RunAsSteps(t: Session, ps: seq<Point>, n: nat)
    requires !Over(t) && t.points == [] && t.placed == -1 && RunsTo(t.cpu, t.mem, ps, t.process.regs, n)
    ensures var cs := seq(n, _ => Si);
            && PermitsAll(t, cs)
            && var p := Bare(t.cpu, t.mem, t.process, n); ApplyAll(t, cs) == t.(process := p, quit := p.Dead?)
    decreases n
  {
    var cs := seq(n, _ => Si);
    NoPoints(t, ps);
    assert cs[1..] == seq(n - 1, _ => Si);
    hide Permits, Apply, Smooth, Step, StaysPut;
    var u := Apply(t, Si);
    if n > 1 {
      RunAsSteps(u, ps, n - 1);
    }
  }

  // What a patch does to the program: the bytes depend on nothing but the code before.
  function Patched(mem: Memory, at: nat, bytes: seq<Byte>, len: int): (m: Memory)
    requires len <= |bytes|
  {
    seq(|mem|, a requires 0 <= a < |mem| => if at <= a < at + len && a + 8 <= |mem| then bytes[a - at] else mem[a])
  }

  lemma PatchOnce(s: Session, at: nat, value: Word, len: int)
    requires !Over(s) && Permits(s, Patch(at, value, len))
    ensures var u := Apply(s, Patch(at, value, len));
            && len <= 8 && u.mem == Patched(s.mem, at, Split(value), len)
            && u.(mem := s.mem, points := s.points, quit := false) == s && |u.points| == |s.points|
            && (u.quit <==> len > 0 && at + len + 7 > |s.mem|)
  {
    hide Split, Overlay, ActiveAt, PatchFrom, LiftedAt;
    var lifted, bytes := LiftedAt(s), Split(value);
    PatchBytes(s, lifted, at, bytes, len, 0);
    PatchKeeps(s, lifted, at, bytes, len, 0);
    assert PatchFrom(s, lifted, at, bytes, len, 0).0.mem == Patched(s.mem, at, bytes, len);
  }

  lemma PatchTwin(s: Session, t: Session, c: Command)
    requires !Over(s) && !Over(t) && Twin(s, t) && c.Patch? && Permits(s, c)
    ensures Permits(t, c) && Twin(Apply(s, c), Apply(t, c)) && (Apply(s, c).quit <==> Apply(t, c).quit)
  {
    PatchOnce(s, c.at, c.value, c.len);
    PatchOnce(t, c.at, c.value, c.len);
  }

  /** Transparency: for every permitted sequence of commands, the program and its code end up exactly where the same
      session without any breakpoint takes them, and that session too is one the debugger handles. */
  lemma {:induction false} BreakpointsAreTransparent(s: Session, t: Session, cs: seq<Command>)
    requires PermitsAll(s, cs) && Twin(s, t) && (Over(t) ==> Over(s))
    ensures PermitsAll(t, Plain(s, cs))
    ensures Twin(ApplyAll(s, cs), ApplyAll(t, Plain(s, cs)))
    decreases |cs|
  {
    if cs != [] && !Over(s) {
      var c := cs[0];
      CommandTwin(s, t, c);
      BreakpointsAreTransparent(Apply(s, c), ApplyAll(t, PlainOne(s, c)), cs[1..]);
      Appended(t, PlainOne(s, c), Plain(Apply(s, c), cs[1..]));
    }
  }

  /** The same of two debuggers: the second, which has no breakpoints and is given the plain commands, ends with the
      same program in the same place on the same code. */
  method TwinRuns(d: Debugger, e: Debugger, cs: seq<Command>, plain: seq<Command>)
    requires d != e && d.tracee != e.tracee && d.breakpoints != e.breakpoints
    requires d.Valid() && e.Valid() && Twin(d.Abs(), e.Abs()) && (Over(e.Abs()) ==> Over(d.Abs()))
    requires PermitsAll(d.Abs(), cs) && plain == Plain(d.Abs(), cs)
    modifies d, d.breakpoints, d.tracee, e, e.breakpoints, e.tracee
    ensures d.Valid() && e.Valid()
    ensures d.tracee.process == e.tracee.process && d.mem == e.mem
    ensures e.count == 0 && (!e.quit ==> e.tracee.text == d.mem)
  {
    BreakpointsAreTransparent(d.Abs(), e.Abs(), cs);
    CommandLoop(d, cs);
    CommandLoop(e, plain);
    assert e.Abs().points == [];
    assert !e.quit ==> e.tracee.text == Overlay(e.mem, [], e.Rip()) == e.mem;
  }

  lemma CommandTwin(s: Session, t: Session, c: Command)
    requires !Over(s) && !Over(t) && Twin(s, t) && Permits(s, c)
    ensures PermitsAll(t, PlainOne(s, c)) && Twin(Apply(s, c), ApplyAll(t, PlainOne(s, c)))
    ensures Over(ApplyAll(t, PlainOne(s, c))) ==> Over(Apply(s, c))
  {
    match c {
      case Cont => RunAsSteps(t, s.points, StepsToStop(s));
      case Patch(_, _, _) =>
        PatchTwin(s, t, c);
        OneCommand(t, c);
      case Si => OneCommand(t, c);
      case Break(_) => assert ApplyAll(t, []) == t;
      case Delete(_) => assert ApplyAll(t, []) == t;
    }
  }

  lemma OneCommand(t: Session, c: Command)
    requires !Over(t) && Permits(t, c)
    ensures PermitsAll(t, [c]) && ApplyAll(t, [c]) == Apply(t, c)
  {
    assert [c][1..] == [];
  }

  // The bare run's first stop, said outright.
  ghost predicate FirstStop(cpu: Cpu, mem: Memory, ps: seq<Point>, r: Regs, n: nat) {
    && n >= 1
    && (forall i :: 0 <= i < n ==>
          var p := Bare(cpu, mem, Live(r), i);
          && p.Live? && Smooth(cpu, mem, ps, p.regs)
          && (0 < i ==> !ActiveAt(ps, p.regs.rip))
          && (i + 1 < n ==> Step(cpu, mem, p.regs).1 == Stepped))
    && var p := Bare(cpu, mem, Live(r), n - 1);
       Step(cpu, mem, p.regs).1 != Stepped || ActiveAt(ps, Step(cpu, mem, p.regs).0.regs.rip)
  }

  /** `cont` runs to the first breakpoint the program reaches after at least one step, or to its end or first signal. */
  lemma ContStopsFirst(cpu: Cpu, mem: Memory, ps: seq<Point>, r: Regs, n: nat)
    ensures RunsTo(cpu, mem, ps, r, n) <==> FirstStop(cpu, mem, ps, r, n)
  {
    if RunsTo(cpu, mem, ps, r, n) {
      RunsToFirstStop(cpu, mem, ps, r, n);
    }
    if FirstStop(cpu, mem, ps, r, n) {
      FirstStopRunsTo(cpu, mem, ps, r, n);
    }
  }

  lemma {:induction false} RunsToFirstStop(cpu: Cpu, mem: Memory, ps: seq<Point>, r: Regs, n: nat)
    requires RunsTo(cpu, mem, ps, r, n)
    ensures FirstStop(cpu, mem, ps, r, n)
    decreases n
  {
    if n > 1 {
      var p := Step(cpu, mem, r).0;
      RunsToFirstStop(cpu, mem, ps, p.regs, n - 1);
      forall i | 0 < i < n ensures Bare(cpu, mem, Live(r), i) == Bare(cpu, mem, p, i - 1) { }
    }
  }

  lemma {:induction false} FirstStopRunsTo(cpu: Cpu, mem: Memory, ps: seq<Point>, r: Regs, n: nat)
    requires FirstStop(cpu, mem, ps, r, n)
    ensures RunsTo(cpu, mem, ps, r, n)
    decreases n
  {
    assert Bare(cpu, mem, Live(r), 0) == Live(r);
    if n > 1 {
      var p := Step(cpu, mem, r).0;
      forall i | 0 <= i < n - 1
        ensures var q := Bare(cpu, mem, p, i);
          && q.Live? && Smooth(cpu, mem, ps, q.regs) && !ActiveAt(ps, q.regs.rip)
          && (i + 1 < n - 1 ==> Step(cpu, mem, q.regs).1 == Stepped)
      {
        assert Bare(cpu, mem, Live(r), i + 1) == Bare(cpu, mem, p, i);
      }
      assert !ActiveAt(ps, Bare(cpu, mem, p, 0).regs.rip);
      FirstStopRunsTo(cpu, mem, ps, p.regs, n - 1);
    }
  }
}
