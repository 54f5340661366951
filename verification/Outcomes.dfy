/** What `si` and `cont` do from every state, and exactly when that is what they are for. */
module Outcomes {
  import opened Words
  import opened Machine
  import opened Session

  // The entry set just here, if any, is active at the tracee.
  predicate PlacedOk(s: Session)
    requires s.process.Live?
  {
    s.placed >= 0 ==>
      s.placed < |s.points| && s.points[s.placed].active && s.points[s.placed].addr == s.process.regs.rip
  }

  // The code with the trap under the tracee lifted, whether or not it is.
  function Bared(s: Session): Memory
    requires s.process.Live?
  {
    Overlay(s.mem, s.points, s.process.regs.rip)
  }

  /** What `si` and `cont` do first, on whatever code the debugger has left: one step and, if that leaves the tracee at
      a lifted breakpoint, whose trap is planted again by then, a second step onto the trap. */
  function SteppedOff(s: Session): (Process, Stop)
    requires s.process.Live?
  {
    var r := s.process.regs;
    var (p, stop) := Step(s.cpu, Raw(s), r);
    if ActiveAt(s.points, r.rip) && p.Live? && p.regs.rip == r.rip then (Live(p.regs.(rip := r.rip + 1)), Trapped)
    else (p, stop)
  }

  // After a trap the tracee is moved back one byte ...
  function Landed(p: Process, stop: Stop): Process {
    if stop == Trapped && p.Live? && p.regs.rip >= 1 then Live(p.regs.(rip := p.regs.rip - 1)) else p
  }

  // ... except by `si` at an entry, which counts as reached by stepping.
  function Reached(ps: seq<Point>, p: Process, stop: Stop): Process {
    if p.Live? && EntryAt(ps, p.regs.rip) then p else Landed(p, stop)
  }

  function SiOutcome(s: Session): Process
    requires s.process.Live?
  {
    var (p, stop) := SteppedOff(s);
    Reached(s.points, p, stop)
  }

  /** `si` at the breakpoint set just here: a step with its trap lifted. A breakpoint it ends at is reported and lifted
      only if it is the next entry. */
  function StepOver(s: Session): Session
    requires s.process.Live?
  {
    var p := Step(s.cpu, Bared(s), s.process.regs).0;
    s.(process := p, placed := -1,
       hits := if p.Live? && NextIs(s.points, s.placed, p.regs.rip) then s.hits + [p.regs.rip] else s.hits,
       quit := p.Dead?)
  }

  predicate StepOverKeeps(s: Session)
    requires s.process.Live?
  {
    var p := Step(s.cpu, Bared(s), s.process.regs).0;
    p.Dead? || !ActiveAt(s.points, p.regs.rip) || NextIs(s.points, s.placed, p.regs.rip)
  }

  /** Where `si` takes the session, from every state, and whether the debugger's records still fit it. */
  function SiResult(s: Session): Session
    requires s.process.Live?
  {
    if s.placed >= 0 && !EntryAt(s.points, s.process.regs.rip + 1) then StepOver(s) else Arrive(s, SiOutcome(s))
  }

  predicate SiKeeps(s: Session)
    requires s.process.Live?
  {
    s.placed < 0 || (!EntryAt(s.points, s.process.regs.rip + 1) && StepOverKeeps(s))
  }

  // Where the run of `cont` starts: it steps first only off a lifted breakpoint.
  function ContFrom(s: Session): Process
    requires s.process.Live?
  {
    if s.placed < 0 && ActiveAt(s.points, s.process.regs.rip) then SteppedOff(s).0 else s.process
  }

  // The code the run of `cont` is on: a trap set just here stays lifted throughout.
  function ContText(s: Session): Memory
    requires s.process.Live?
  {
    if s.placed >= 0 then Bared(s) else Armed(s.mem, s.points)
  }

  // The wait of `cont` returns.
  ghost predicate ContStops(s: Session)
    requires s.process.Live?
  {
    var p := ContFrom(s);
    p.Dead? || exists fuel: nat :: Resume(s.cpu, ContText(s), p.regs, fuel) != Running
  }

  ghost function ContFuel(s: Session): (fuel: nat)
    requires s.process.Live? && ContStops(s) && ContFrom(s).Live?
    ensures Resume(s.cpu, ContText(s), ContFrom(s).regs, fuel) != Running
  {
    var fuel: nat :| Resume(s.cpu, ContText(s), ContFrom(s).regs, fuel) != Running;
    fuel
  }

  // How the wait ends.
  ghost function ContWait(s: Session): Waited
    requires s.process.Live? && ContStops(s) && ContFrom(s).Live?
    ensures ContWait(s) != Running
  {
    Resume(s.cpu, ContText(s), ContFrom(s).regs, ContFuel(s))
  }

  // Where `cont` leaves the program if no breakpoint was set just here.
  ghost function ContOutcome(s: Session): Process
    requires s.process.Live? && ContStops(s)
  {
    var p := ContFrom(s);
    if p.Dead? then p else Landed(ContWait(s).process, ContWait(s).stop)
  }

  // One byte back, in 64 bits.
  function Back(r: Regs): Regs {
    r.(rip := if r.rip == 0 then 0xffff_ffff_ffff_ffff else r.rip - 1)
  }

  /** `cont` from the breakpoint set just here: `q` is where the run ends, and whatever ended it the tracee is moved
      back one byte. */
  function RunOver(s: Session, q: Process): Session {
    if q.Dead? then s.(process := q, placed := -1, quit := true)
    else
      var r := Back(q.regs);
      s.(process := Live(r), placed := -1,
         hits := if NextIs(s.points, s.placed, r.rip) then s.hits + [r.rip] else s.hits)
  }

  predicate RunOverKeeps(s: Session, q: Process)
    requires s.process.Live?
  {
    q.Dead? || Back(q.regs).rip == s.process.regs.rip
  }

  /** Where `cont` takes the session, from every state in which its wait returns, and whether the records fit. */
  ghost function ContResult(s: Session): Session
    requires s.process.Live? && ContStops(s)
  {
    if s.placed >= 0 then RunOver(s, ContWait(s).process) else Arrive(s, ContOutcome(s))
  }

  ghost predicate ContKeeps(s: Session)
    requires s.process.Live? && ContStops(s)
  {
    s.placed < 0 || RunOverKeeps(s, ContWait(s).process)
  }

  lemma SteppedOffIsRaw(s: Session, text: Memory)
    requires s.process.Live? && text == Raw(s) && (s.placed >= 0 || !ActiveAt(s.points, s.process.regs.rip))
    requires PlacedOk(s) && TableOk(s.mem, s.points)
    ensures SteppedOff(s) == Step(s.cpu, text, s.process.regs)
    ensures s.placed >= 0 ==> SteppedOff(s) == (Live(s.process.regs.(rip := s.process.regs.rip + 1)), Trapped)
  {
    if s.placed >= 0 {
      TrapUnderOverlay(s.cpu, s.mem, s.points, s.process.regs);
    }
  }

  // The kinds of stop: a trap moves the tracee past it, a signal leaves it where it is, away from lifted breakpoints.
  lemma SteppedOffStops(s: Session)
    requires s.process.Live?
    ensures var (p, stop) := SteppedOff(s);
            && (stop == Exited <==> p.Dead?)
            && (stop == Trapped ==> p.regs.rip >= 1)
            && (stop == Signalled ==> p == s.process && !ActiveAt(s.points, p.regs.rip))
  {
  }

  // The step that leaves a lifted breakpoint is a step of the program, unless the program stays where it is.
  lemma SteppedOffIsStep(s: Session)
    requires s.process.Live? && s.placed < 0 && Smooth(s.cpu, s.mem, s.points, s.process.regs)
    ensures var r := s.process.regs;
            var (p, stop) := Step(s.cpu, s.mem, r);
            SteppedOff(s) == if ActiveAt(s.points, r.rip) && StaysPut(s) then (Live(p.regs.(rip := r.rip + 1)), Trapped)
                             else (p, stop)
    ensures Step(s.cpu, s.mem, s.process.regs).1 != Trapped
  {
    StepUnderOverlay(s.cpu, s.mem, s.points, s.process.regs.rip, s.process.regs);
  }

  /** `si` is one step of the program, with the hits and the records right, exactly when it is permitted; at a lifted
      breakpoint whose instruction stays put with an entry at the next byte it leaves the program at that byte. */
  lemma SiExact(s: Session)
    requires s.process.Live? && PlacedOk(s) && Smooth(s.cpu, s.mem, s.points, s.process.regs)
    ensures var r := s.process.regs;
            var p := Step(s.cpu, s.mem, r).0;
            && (SiResult(s) == Arrive(s, p) && SiKeeps(s) <==> Permits(s, Si))
            && (s.placed < 0 ==> (SiOutcome(s) == p <==> Permits(s, Si)))
            && (s.placed < 0 && !Permits(s, Si) ==> SiOutcome(s) == Live(p.regs.(rip := r.rip + 1)))
  {
    if s.placed >= 0 {
      StepUnderOverlay(s.cpu, s.mem, s.points, s.process.regs.rip, s.process.regs);
      hide Step, Smooth, EntryAt;
      var p := Step(s.cpu, s.mem, s.process.regs).0;
      if p.Live? && NextIs(s.points, s.placed, p.regs.rip) {
        assert ActiveAt(s.points, p.regs.rip);
      }
    } else {
      hide Step, Smooth, ActiveAt, EntryAt;
      SteppedOffIsStep(s);
    }
  }

  lemma SiMeets(s: Session)
    requires s.process.Live? && PlacedOk(s) && Permits(s, Si)
    ensures SiResult(s) == Apply(s, Si) && SiKeeps(s)
  {
    hide Smooth, SiResult, SiKeeps, StaysPut, StepsToNext;
    SiExact(s);
  }

  /** At an int3 of the program's own `si` makes no headway, unless an entry lies at the next byte. */
  lemma SiAtOwnTrap(s: Session)
    requires s.process.Live? && s.process.regs.rip < |s.mem| && s.mem[s.process.regs.rip] == INT3
    ensures var here := s.process.regs.rip;
            SiOutcome(s) == if EntryAt(s.points, here + 1) then Step(s.cpu, s.mem, s.process.regs).0 else s.process
  {
    assert Raw(s)[s.process.regs.rip] == INT3;
  }

  /** From a lifted breakpoint `cont` resumes where one step of the program takes it exactly when that step leaves the
      address; otherwise it resumes one byte past the address, whatever is there. */
  lemma ContExact(s: Session)
    requires s.process.Live? && s.placed < 0 && ActiveAt(s.points, s.process.regs.rip)
    requires Smooth(s.cpu, s.mem, s.points, s.process.regs)
    ensures var r := s.process.regs;
            var p := Step(s.cpu, s.mem, r).0;
            && (ContFrom(s) == p <==> !StaysPut(s))
            && (StaysPut(s) ==> ContFrom(s) == Live(p.regs.(rip := r.rip + 1)))
  {
    hide Step, Smooth, ActiveAt;
    SteppedOffIsStep(s);
  }

  // A run to the end of the program meets no other breakpoint, so it is the same with the first trap lifted.
  lemma {:induction false} ResumeToEnd(cpu: Cpu, mem: Memory, ps: seq<Point>, lifted: nat, r: Regs, n: nat)
    requires RunsTo(cpu, mem, ps, r, n) && (r.rip == lifted || !ActiveAt(ps, r.rip))
    requires Bare(cpu, mem, Live(r), n).Dead?
    ensures Resume(cpu, Overlay(mem, ps, lifted), r, n) == Stopped(Bare(cpu, mem, Live(r), n), Exited)
    decreases n
  {
    var (p, stop) := Step(cpu, mem, r);
    StepUnderOverlay(cpu, mem, ps, lifted, r);
    assert Bare(cpu, mem, Live(r), n) == Bare(cpu, mem, p, n - 1);
    if n > 1 {
      ResumeToEnd(cpu, mem, ps, lifted, p.regs, n - 1);
    }
  }

  /** From a breakpoint set just here `cont` ends at the program's first stop, with the hits and the records right,
      exactly when that stop is the end of the program. */
  lemma ContPlacedExact(s: Session)
    requires s.process.Live? && s.placed >= 0 && PlacedOk(s) && TableOk(s.mem, s.points)
    requires Stops(s) && ContStops(s)
    ensures ContResult(s) == Arrive(s, Bare(s.cpu, s.mem, s.process, StepsToStop(s))) && ContKeeps(s)
            <==> Permits(s, Cont)
  {
    hide Step, Smooth, Length, Overlay;
    var r, n := s.process.regs, StepsToStop(s);
    if Bare(s.cpu, s.mem, s.process, n).Dead? {
      ResumeToEnd(s.cpu, s.mem, s.points, r.rip, r, n);
      ResumeUnique(s.cpu, Bared(s), r, n, ContFuel(s));
    } else {
      assert ActiveAt(s.points, r.rip);
      assert !NextIs(s.points, s.placed, r.rip);
    }
  }

  /** Where it is permitted, the wait of `cont` returns and the debugger ends at the program's first stop. */
  lemma ContMeets(s: Session)
    requires s.process.Live? && TableOk(s.mem, s.points) && PlacedOk(s) && Permits(s, Cont)
    ensures ContStops(s) && ContResult(s) == Apply(s, Cont) && ContKeeps(s)
  {
    hide Step, Smooth, Overlay, Length, TableOk, ActiveAt;
    var n, r := StepsToStop(s), s.process.regs;
    if s.placed >= 0 {
      ResumeToEnd(s.cpu, s.mem, s.points, r.rip, r, n);
      assert Resume(s.cpu, ContText(s), ContFrom(s).regs, n) != Running;
      ContPlacedExact(s);
    } else {
      ContIsBare(s);
    }
  }

  lemma ContIsBare(s: Session)
    requires s.process.Live? && TableOk(s.mem, s.points) && s.placed < 0 && Permits(s, Cont)
    ensures ContStops(s) && ContOutcome(s) == Bare(s.cpu, s.mem, s.process, StepsToStop(s))
  {
    hide Step, Smooth, Overlay, Length, TableOk, ActiveAt;
    var n, r := StepsToStop(s), s.process.regs;
    var k := if ActiveAt(s.points, r.rip) then n - 1 else n;
    var p := ContFrom(s);
    SteppedOffIsStep(s);
    if ActiveAt(s.points, r.rip) {
      SettlesAfterStep(s, n);
    }
    if p.Live? {
      ResumeArmed(s.cpu, s.mem, s.points, p.regs, k);
      assert Resume(s.cpu, ContText(s), p.regs, k + 1) != Running;
      ResumeUnique(s.cpu, Armed(s.mem, s.points), p.regs, k + 1, ContFuel(s));
    }
  }
}
