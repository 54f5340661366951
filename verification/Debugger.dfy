/** The debugger: its breakpoint table and re-arming state, working on a tracee through ptrace. */
module Debuggers {
  import opened Words
  import opened Machine
  import opened Session
  import opened Table
  import opened Outcomes
  import opened Stopping
  import opened Laws

  // The command on whose behalf a stop is handled.
  datatype Cause = BySi | ByCont

  class Debugger {
    const tracee: Tracee
    const breakpoints: array<Breakpoint>
    var count: nat
    var bpAgain: bool
    var whichBp: nat
    var quit: bool
    var hits: seq<nat>
    // The program's own code: what the tracee would hold without planted traps.
    ghost var mem: Memory

    // The entries in use, as a sequence.
    ghost var entries: seq<Breakpoint>

    // The entry set at the instruction the tracee still stands at, or -1.
    ghost var placed: int

    ghost predicate InTable()
      reads this, breakpoints
    {
      && breakpoints.Length == MAX_BREAKPOINTS && count == |entries| <= MAX_BREAKPOINTS
      && forall i :: 0 <= i < count ==> breakpoints[i] == entries[i]
    }

    ghost predicate Valid()
      reads this, breakpoints, tracee
    {
      && InTable()
      && (quit || Sound(mem, entries, tracee.text, tracee.process, bpAgain, whichBp, placed))
    }

    ghost function Abs(): Session
      reads this, tracee
    {
      Session(tracee.cpu, mem, tracee.process, PointsOf(entries), placed, hits, quit)
    }

    function Rip(): nat
      requires tracee.process.Live?
      reads this, tracee
    {
      tracee.process.regs.rip
    }

    // Sound records, with a trap at every active breakpoint but `lifted`.
    ghost predicate Planted(lifted: int)
      reads this, breakpoints, tracee
    {
      InTable() && EntriesOk(mem, entries) && tracee.text == Overlay(mem, PointsOf(entries), lifted)
    }

    constructor (tracee: Tracee)
      requires tracee.process.Live?
      ensures Valid() && this.tracee == tracee && fresh(breakpoints)
      ensures Abs() == Session(tracee.cpu, tracee.text, tracee.process, [], -1, [], false)
    {
      this.tracee := tracee;
      breakpoints := new Breakpoint[MAX_BREAKPOINTS](_ => Breakpoint(0, 0, 0, false, false));
      count, bpAgain, whichBp, quit, hits := 0, false, 0, false, [];
      mem, entries, placed := tracee.text, [], -1;
      new;
      assert PointsOf(entries) == [];
      assert tracee.text == Overlay(mem, PointsOf(entries), tracee.process.regs.rip);
    }

    // The first active entry at `a`, or `count`.
    method FindActive(a: nat) returns (i: nat)
      requires InTable()
      ensures i <= count
      ensures if i < count then breakpoints[i].active && breakpoints[i].addr == a && ActiveAt(PointsOf(entries), a)
              else !ActiveAt(PointsOf(entries), a)
    {
      i := 0;
      while i < count && !(breakpoints[i].active && breakpoints[i].addr == a)
        invariant i <= count
        invariant forall j :: 0 <= j < i ==> !(entries[j].active && entries[j].addr == a)
      {
        i := i + 1;
      }
      if i < count {
        OneActive(entries, i);
      } else {
        NoneActive(entries, a);
      }
    }

    /** For every address, with the tracee anywhere: an active breakpoint stays as it is, an unmapped word ends the
        debugger, and any other address gets an entry and a trap. */
    method SetBreakpoint(addr: nat)
      requires Valid() && !quit && Permits(Abs(), Break(addr))
      modifies this`quit, this`entries, this`placed, this`count, breakpoints, tracee`text
      ensures Valid() && Abs() == Apply(old(Abs()), Break(addr))
      ensures quit <==> addr + 8 > |old(tracee.text)| && !ActiveAt(old(PointsOf(entries)), addr)
      ensures !quit ==> ActiveAt(PointsOf(entries), addr)
      ensures forall b :: b != addr ==> (ActiveAt(PointsOf(entries), b) <==> ActiveAt(old(PointsOf(entries)), b))
      ensures tracee.text == if quit || ActiveAt(old(PointsOf(entries)), addr) then old(tracee.text)
                             else old(tracee.text)[addr := INT3]
    {
      hide Overlay, ActiveAt, EntriesOk, Peek, Poke, WithLow, PointsOf;
      BreakAdds(Abs(), addr);
      var i := FindActive(addr);
      if i < count {
        return;
      }
      if !(addr + 8 <= |tracee.text|) {
        quit := true;
        return;
      }
      PokeLowByte(tracee.text, addr, INT3);
      PlantKeeps(mem, entries, tracee.text, tracee.process, bpAgain, whichBp, placed, addr);
      placed := if addr == tracee.process.regs.rip then count else placed;
      AddEntry(addr);
    }

    method AddEntry(addr: nat)
      requires InTable() && count < MAX_BREAKPOINTS && addr + 8 <= |tracee.text| && tracee.process.Live?
      modifies this`entries, this`count, breakpoints, tracee`text
      ensures InTable() && entries == old(entries) + [NewEntry(old(tracee.text), addr, Rip())]
      ensures tracee.text == Poke(old(tracee.text), addr, entries[old(count)].trap)
    {
      var data := tracee.PeekText(addr);
      var dataTrap := WithLow(data, INT3);
      tracee.PokeText(addr, dataTrap);
      breakpoints[count] := Breakpoint(addr, data, dataTrap, true, tracee.process.regs.rip == addr);
      entries := entries + [breakpoints[count]];
      count := count + 1;
    }

    /** For every id: the saved word goes back whole and the entry becomes inactive. Under the stated condition
        this is exactly the removal of one breakpoint. */
    method DeleteBreakpoint(id: nat)
      requires Valid() && !quit
      modifies this, breakpoints, tracee
      ensures InTable() && mem == old(mem)
      ensures Abs() == old(Abs()).(points := PointsOf(entries), placed := if id == old(placed) then -1 else old(placed))
      ensures entries ==
              if id < old(count) then old(entries)[id := old(entries[id]).(active := false)] else old(entries)
      ensures id >= old(count) ==> tracee.text == old(tracee.text)
      ensures id < old(count) ==> old(breakpoints[id].addr) + 8 <= |old(tracee.text)|
      ensures id < old(count) ==>
          tracee.text == Poke(old(tracee.text), old(breakpoints[id].addr), old(breakpoints[id].original))
      ensures old(Permits(Abs(), Delete(id))) ==> Valid() && Abs() == Apply(old(Abs()), Delete(id))
    {
      hide Overlay, ActiveAt, EntriesOk, Peek, Poke, Split;
      ghost var es, s := entries, Abs();
      if id >= count {
        return;
      }
      EntryMapped(mem, es, id);
      ghost var permitted := Permits(s, Delete(id));
      if permitted {
        Unplant(mem, es, tracee.text, tracee.process, bpAgain, whichBp, placed, id, s);
      }
      placed := if id == placed then -1 else placed;
      RemoveEntry(id);
    }

    method RemoveEntry(id: nat)
      requires InTable() && id < count && breakpoints[id].addr + 8 <= |tracee.text|
      modifies this`entries, breakpoints, tracee`text
      ensures InTable()
      ensures tracee.text == Poke(old(tracee.text), old(breakpoints[id].addr), old(breakpoints[id].original))
      ensures entries == old(entries)[id := old(entries[id]).(active := false)]
    {
      ghost var es := entries;
      var data := tracee.PeekText(breakpoints[id].addr);
      tracee.PokeText(breakpoints[id].addr, breakpoints[id].original);
      if !breakpoints[id].active {
        assert es[id := es[id].(active := false)] == es;
        return;
      }
      breakpoints[id] := breakpoints[id].(active := false);
      entries := entries[id := breakpoints[id]];
    }

    // Put the trap of breakpoint `i` back.
    method Rearm(i: nat)
      requires InTable() && i < count && EntriesOk(mem, entries) && breakpoints[i].active
      requires tracee.text == Overlay(mem, PointsOf(entries), breakpoints[i].addr)
      modifies tracee`text
      ensures AllArmed(mem, entries, tracee.text)
    {
      Replant(mem, entries, tracee.text, i);
      var data := tracee.PeekText(breakpoints[i].addr);
      tracee.PokeText(breakpoints[i].addr, WithLow(data, Low(breakpoints[i].trap)));
    }

    // Give the tracee back its own byte at breakpoint `i`.
    method LiftTrap(i: nat)
      requires InTable() && i < count && EntriesOk(mem, entries) && breakpoints[i].active && |tracee.text| == |mem|
      modifies tracee`text
      ensures breakpoints[i].addr < |mem| && ActiveAt(PointsOf(entries), breakpoints[i].addr)
      ensures tracee.text == old(tracee.text)[breakpoints[i].addr := mem[breakpoints[i].addr]]
    {
      Lift(mem, entries, tracee.text, i);
      var data := tracee.PeekText(breakpoints[i].addr);
      tracee.PokeText(breakpoints[i].addr, WithLow(data, Low(breakpoints[i].original)));
    }

    /** The tracee stands at `regs.rip - 1`: if an active breakpoint is there, lift it and report the hit, unless it was
        set while the tracee stood there: then pass over it. */
    method HandleBreakpoints(regs: Regs, cause: Cause, ghost fuel: nat)
      requires InTable() && EntriesOk(mem, entries) && |tracee.text| == |mem| && tracee.process.Live? && !quit
      requires regs.rip >= 1 && OnlyFlagged(entries, placed)
      requires FlaggedAt(entries, placed, regs.rip - 1) ==>
          && !bpAgain && AllArmed(mem, entries, tracee.text)
          && var here := regs.(rip := regs.rip - 1);
             cause == ByCont ==> Resume(tracee.cpu, Overlay(mem, PointsOf(entries), here.rip), here, fuel) != Running
      modifies this, breakpoints, tracee
      ensures InTable() && EntriesOk(mem, entries) && mem == old(mem)
      ensures var here := regs.(rip := regs.rip - 1);
              if old(FlaggedAt(entries, placed, here.rip))
              then Passed(old(Abs()).(process := Live(here)), cause, fuel)
              else
                && entries == old(entries) && Abs() == Arrive(old(Abs()), Live(here))
                && Handled(mem, entries, here, old(tracee.text), old(bpAgain), old(whichBp),
                           tracee.text, bpAgain, whichBp)
      decreases placed >= 0, 1
    {
      hide Overlay, Peek, Poke, WithLow, Low, TableOk, ActiveAt, Resume, StepOver, RunOver;
      var here := regs.(rip := regs.rip - 1);
      tracee.SetRegs(here);
      var i := FindActive(here.rip);
      if i < count {
        OneFlagged(mem, entries, i, placed);
        if breakpoints[i].ignoreRip {
          PassOver(i, cause, fuel);
        } else {
          Report(i);
        }
      } else {
        NotFlagged(entries, placed, here.rip);
        placed := -1;
      }
    }

    // The hit message, and the trap lifted.
    method Report(i: nat)
      requires InTable() && i < count && EntriesOk(mem, entries) && |tracee.text| == |mem|
      requires tracee.process.Live? && breakpoints[i].active && breakpoints[i].addr == Rip() && !quit
      modifies this`hits, this`bpAgain, this`whichBp, this`placed, tracee`text
      ensures Abs() == Arrive(old(Abs()), tracee.process)
      ensures Handled(mem, entries, tracee.process.regs, old(tracee.text), old(bpAgain), old(whichBp),
                      tracee.text, bpAgain, whichBp)
    {
      hide Overlay, Peek, Poke, WithLow, Low, TableOk, ActiveAt;
      hits := hits + [breakpoints[i].addr];
      bpAgain, whichBp, placed := true, i, -1;
      LiftTrap(i);
    }

    /** The breakpoint under the tracee in `s`, set just there, has been passed over. */
    ghost predicate Passed(s: Session, cause: Cause, fuel: nat)
      requires s.process.Live?
      requires cause == ByCont ==> Resume(s.cpu, Bared(s), s.process.regs, fuel) != Running
      reads this, breakpoints, tracee
    {
      match cause
      case BySi => Abs() == StepOver(s) && (Valid() <==> StepOverKeeps(s))
      case ByCont =>
        var q := Resume(s.cpu, Bared(s), s.process.regs, fuel).process;
        Abs() == RunOver(s, q) && (Valid() <==> RunOverKeeps(s, q))
    }

    method PassOver(i: nat, cause: Cause, ghost fuel: nat)
      requires InTable() && AllArmed(mem, entries, tracee.text) && OnlyFlagged(entries, i) && i == placed
      requires tracee.process.Live? && !quit && !bpAgain
      requires i < count && breakpoints[i].active && breakpoints[i].addr == Rip()
      requires cause == ByCont ==>
          Resume(tracee.cpu, Overlay(mem, PointsOf(entries), Rip()), tracee.process.regs, fuel) != Running
      modifies this, breakpoints, tracee
      ensures InTable() && EntriesOk(mem, entries) && mem == old(mem)
      ensures Passed(old(Abs()), cause, fuel)
      decreases true, 0
    {
      hide Overlay, Peek, Poke, WithLow, Low, TableOk, ActiveAt, Resume, StepOver, RunOver, StepOverKeeps, RunOverKeeps;
      breakpoints[i] := breakpoints[i].(ignoreRip := false);
      UnflagEntry(mem, entries, tracee.text, i);
      entries := entries[i := breakpoints[i]];
      LiftedText(mem, entries, tracee.text, i);
      LiftTrap(i);
      match cause {
        case BySi => StepPast(i, Abs());
        case ByCont => RunPast(i, Abs(), fuel);
      }
    }

    // The next entry, if it is an active breakpoint where the tracee is now.
    method HandleNext(i: nat, regs: Regs, cause: Cause)
      requires InTable() && EntriesOk(mem, entries) && |tracee.text| == |mem| && !quit
      requires tracee.process == Live(regs) && OnlyFlagged(entries, -1) && placed == -1
      modifies this, breakpoints, tracee
      ensures InTable() && mem == old(mem) && entries == old(entries)
      ensures var s, next := old(Abs()), NextIs(PointsOf(entries), i, regs.rip);
              && Abs() == s.(hits := if next then s.hits + [regs.rip] else s.hits)
              && if next then ActiveAt(s.points, regs.rip)
                              && Handled(mem, entries, regs, old(tracee.text), old(bpAgain), old(whichBp),
                                         tracee.text, bpAgain, whichBp)
                 else tracee.text == old(tracee.text) && bpAgain == old(bpAgain) && whichBp == old(whichBp)
      decreases false, 2
    {
      hide Overlay, Peek, Poke, WithLow, Low, TableOk, ActiveAt, Resume, Handled;
      if i + 1 < count && breakpoints[i + 1].active && breakpoints[i + 1].addr == regs.rip {
        OneActive(entries, i + 1);
        HandleBreakpoints(regs.(rip := regs.rip + 1), cause, 0);
      }
    }

    // Past the trap of breakpoint `i`, lifted just now, by one step.
    method StepPast(i: nat, ghost s: Session)
      requires tracee.process.Live? && Planted(Rip()) && OnlyFlagged(entries, -1) && !quit && !bpAgain
      requires i < count && breakpoints[i].active && breakpoints[i].addr == Rip() && s == Abs() && placed == i
      modifies this, breakpoints, tracee
      ensures InTable() && EntriesOk(mem, entries) && mem == old(mem)
      ensures Passed(s, BySi, 0)
      decreases false, 3
    {
      hide Overlay, Peek, Poke, WithLow, Low, TableOk, ActiveAt, Step;
      placed := -1;
      var stop := tracee.SingleStep();
      assert tracee.process == Step(s.cpu, Bared(s), s.process.regs).0;
      if tracee.process.Dead? {
        quit := true;
        return;
      }
      Rearm(i);
      var regs := tracee.process.regs;
      ghost var text, which := tracee.text, whichBp;
      HandleNext(i, regs, BySi);
      if NextIs(s.points, i, regs.rip) {
        HandledSound(mem, entries, regs, text, which, tracee.text, bpAgain, whichBp);
      } else if !ActiveAt(PointsOf(entries), regs.rip) {
        NothingToLift(mem, entries, tracee.text, regs, whichBp);
      }
    }

    // Past it by a run; the trap is not put back.
    method RunPast(i: nat, ghost s: Session, ghost fuel: nat)
      requires tracee.process.Live? && Planted(Rip()) && OnlyFlagged(entries, -1) && !quit && !bpAgain
      requires i < count && breakpoints[i].active && breakpoints[i].addr == Rip() && s == Abs() && placed == i
      requires Resume(tracee.cpu, tracee.text, tracee.process.regs, fuel) != Running
      modifies this, breakpoints, tracee
      ensures InTable() && EntriesOk(mem, entries) && mem == old(mem)
      ensures Passed(s, ByCont, fuel)
      decreases false, 3
    {
      hide Overlay, Peek, Poke, WithLow, Low, TableOk, ActiveAt, Resume;
      placed := -1;
      ghost var text, here := tracee.text, tracee.process.regs;
      var stop := tracee.Continue(fuel);
      if tracee.process.Dead? {
        quit := true;
        return;
      }
      var regs := Back(tracee.process.regs);
      bpAgain, whichBp := true, i;
      tracee.SetRegs(regs);
      HandleNext(i, regs, ByCont);
      if NextIs(s.points, i, regs.rip) {
        DistinctEntries(mem, entries, i, i + 1);
      }
      StaysLifted(mem, entries, i, here, tracee.cpu, fuel, text, regs, tracee.text, whichBp);
    }

    // Is any entry, deleted ones included, at `a`?
    method HasEntryAt(a: nat) returns (found: bool)
      requires InTable()
      ensures found <==> EntryAt(PointsOf(entries), a)
    {
      found := false;
      for i := 0 to count
        invariant forall j :: 0 <= j < i ==> entries[j].addr != a
      {
        if breakpoints[i].addr == a {
          assert PointsOf(entries)[i].addr == a;
          return true;
        }
      }
    }

    /** The stop after a single step: a breakpoint reached by stepping counts as hit although it has not trapped yet. */
    method AfterStep(stop: Stop)
      requires InTable() && AllArmed(mem, entries, tracee.text) && tracee.process.Live? && !quit && !bpAgain
      requires stop == Stepped || (stop == Trapped && Rip() >= 1)
      requires OnlyFlagged(entries, placed) && !FlaggedAt(entries, placed, Rip())
      modifies this, breakpoints, tracee
      ensures InTable() && mem == old(mem)
      ensures var p := Reached(old(Abs()).points, old(tracee.process), stop);
              if old(FlaggedAt(entries, placed, p.regs.rip)) then Passed(old(Abs()).(process := p), BySi, 0)
              else
                && entries == old(entries) && Abs() == Arrive(old(Abs()), p)
                && (OnlyFlagged(entries, -1) ==> Valid())
    {
      hide Overlay, TableOk, ActiveAt, Step, StepOver, StepOverKeeps;
      var regs := tracee.process.regs;
      ghost var text, which := tracee.text, whichBp;
      var bpAddr := HasEntryAt(regs.rip);
      if stop == Trapped || bpAddr {
        if bpAddr {
          regs := regs.(rip := regs.rip + 1);
        }
        ghost var here := regs.(rip := regs.rip - 1);
        ghost var passed := FlaggedAt(entries, placed, here.rip);
        HandleBreakpoints(regs, BySi, 0);
        if !passed && OnlyFlagged(entries, -1) {
          HandledSound(mem, entries, here, text, which, tracee.text, bpAgain, whichBp);
        }
      } else {
        placed := -1;
        NoEntryNoneActive(PointsOf(entries), regs.rip);
        if OnlyFlagged(entries, -1) {
          NothingToLift(mem, entries, tracee.text, regs, whichBp);
        }
      }
    }

    /** Leave the lifted breakpoint: step, plant it again, and step once more if the tracee has not moved. */
    method StepOff() returns (stop: Stop)
      requires Valid() && !quit && bpAgain
      modifies this`quit, tracee
      ensures tracee.process == SteppedOff(old(Abs())).0 && (quit <==> tracee.process.Dead?)
      ensures !quit ==> stop == SteppedOff(old(Abs())).1 && AllArmed(mem, entries, tracee.text)
    {
      hide Overlay, Peek, Poke, WithLow, Low, TableOk, ActiveAt, Step;
      stop := tracee.SingleStep();
      if tracee.process.Dead? {
        quit := true;
        return;
      }
      Rearm(whichBp);
      if tracee.process.regs.rip == breakpoints[whichBp].addr {
        OneActive(entries, whichBp);
        TrapPlanted(tracee.cpu, mem, entries, tracee.text, whichBp, tracee.process.regs);
        stop := tracee.SingleStep();
      }
    }

    // The steps of `si`, before the stop is looked at.
    method StepOnce() returns (stop: Stop)
      requires Valid() && !quit
      modifies this`quit, this`bpAgain, tracee
      ensures tracee.process == SteppedOff(old(Abs())).0 && (quit ==> tracee.process.Dead?)
      ensures !quit ==> !bpAgain && stop == SteppedOff(old(Abs())).1 && AllArmed(mem, entries, tracee.text)
    {
      hide Overlay, TableOk, ActiveAt, Step;
      if bpAgain {
        stop := StepOff();
        if quit {
          return;
        }
      }
      if !bpAgain {
        NothingLifted(mem, entries, tracee.text, tracee.process, whichBp, placed);
        SteppedOffIsRaw(Abs(), tracee.text);
        stop := tracee.SingleStep();
      } else {
        bpAgain := false;
      }
    }

    /** `si`, with no condition on the program or the table: the session becomes `SiResult`, and the invariant is kept
        exactly when `SiKeeps` says so. */
    method CommandSi()
      requires Valid() && !quit
      modifies this, breakpoints, tracee
      ensures Abs() == SiResult(old(Abs())) && (Valid() <==> SiKeeps(old(Abs())))
    {
      hide Overlay, TableOk, ActiveAt, SteppedOff, Step, EntryAt, StepOver, StepOverKeeps;
      SteppedOffStops(Abs());
      PlacedSteps(mem, entries, placed, Abs());
      var stop := StepOnce();
      if quit {
        placed := -1;
        return;
      }
      if stop == Exited {
        quit, placed := true, -1;
        return;
      }
      if stop == Stepped || stop == Trapped {
        AfterStep(stop);
      } else {
        NothingToLift(mem, entries, tracee.text, tracee.process.regs, whichBp);
      }
    }

    /** PTRACE_CONT and its wait, with every breakpoint planted. */
    method RunToStop(ghost wait: nat, ghost fuel: nat)
      requires InTable() && AllArmed(mem, entries, tracee.text) && tracee.process.Live? && !quit && !bpAgain
      requires Resume(tracee.cpu, tracee.text, tracee.process.regs, wait) != Running && OnlyFlagged(entries, placed)
      requires var w := Resume(tracee.cpu, tracee.text, tracee.process.regs, wait);
               var p := Landed(w.process, w.stop);
               p.Live? && FlaggedAt(entries, placed, p.regs.rip) ==>
                 && w.stop == Trapped
                 && Resume(tracee.cpu, Overlay(mem, PointsOf(entries), p.regs.rip), p.regs, fuel) != Running
      modifies this, breakpoints, tracee
      ensures InTable() && mem == old(mem)
      ensures var w := Resume(tracee.cpu, old(tracee.text), old(tracee.process.regs), wait);
              var p := Landed(w.process, w.stop);
              if p.Live? && old(FlaggedAt(entries, placed, p.regs.rip))
              then Passed(old(Abs()).(process := p), ByCont, fuel)
              else
                && entries == old(entries) && Abs() == Arrive(old(Abs()), p)
                && (OnlyFlagged(entries, -1) ==> Valid())
    {
      hide Overlay, TableOk, ActiveAt, Resume, RunOver, RunOverKeeps;
      ghost var text, which, start := tracee.text, whichBp, tracee.process.regs;
      var stop := tracee.Continue(wait);
      WaitEnds(tracee.cpu, mem, entries, text, start, wait);
      if stop == Trapped {
        ghost var here := tracee.process.regs.(rip := tracee.process.regs.rip - 1);
        ghost var passed := FlaggedAt(entries, placed, here.rip);
        HandleBreakpoints(tracee.process.regs, ByCont, fuel);
        if !passed && OnlyFlagged(entries, -1) {
          HandledSound(mem, entries, here, text, which, tracee.text, bpAgain, whichBp);
        }
      } else {
        placed := -1;
        if stop == Exited {
          quit := true;
        } else if OnlyFlagged(entries, -1) {
          NothingToLift(mem, entries, tracee.text, tracee.process.regs, whichBp);
        }
      }
    }

    /** `cont`, whenever its wait returns: the session becomes `ContResult`, and the invariant is kept exactly when
        `ContKeeps` says so. */
    method CommandCont()
      requires Valid() && !quit && ContStops(Abs())
      modifies this, breakpoints, tracee
      ensures Abs() == ContResult(old(Abs())) && (Valid() <==> ContKeeps(old(Abs())))
    {
      hide Overlay, TableOk, ActiveAt, Step, Resume, RunOver, RunOverKeeps, SteppedOff;
      ghost var s := Abs();
      if bpAgain {
        var stop := StepOff();
        if quit {
          return;
        }
        bpAgain := false;
      } else {
        NothingLifted(mem, entries, tracee.text, tracee.process, whichBp, placed);
        if placed >= 0 {
          TrapWaits(tracee.cpu, mem, entries, tracee.text, placed, tracee.process.regs);
        }
      }
      RunToStop(if placed >= 0 then 1 else ContFuel(s), if placed >= 0 then ContFuel(s) else 0);
    }

    /** For every address, value and length up to eight, wherever breakpoints lie: the outcome of `PatchFrom`, which
        the invariant survives unless the lifted breakpoint is patched over. */
    method PatchMemory(addr: nat, value: Word, len: int)
      requires Valid() && !quit && len <= 8
      modifies this`mem, this`entries, this`quit, breakpoints, tracee`text
      ensures var (t, lifted) := PatchFrom(old(Abs()), LiftedAt(old(Abs())), addr, Split(value), len, 0);
              Abs() == t && Planted(lifted)
      ensures old(Permits(Abs(), Patch(addr, value, len))) ==> Valid()
    {
      ghost var s, es := Abs(), entries;
      PatchBytewise(addr, value, len, LiftedAt(s));
      hide EntriesOk, Overlay, PatchFrom, PointsOf, ActiveAt, Split;
      if Permits(s, Patch(addr, value, len)) {
        PatchSound(s, es, bpAgain, whichBp, addr, Split(value), len, entries, tracee.text);
      }
    }

    method PatchBytewise(addr: nat, value: Word, len: int, ghost at: int)
      requires Planted(at) && !quit && len <= 8
      modifies this`mem, this`entries, this`quit, breakpoints, tracee`text
      ensures var (t, lifted) := PatchFrom(old(Abs()), at, addr, Split(value), len, 0);
              Abs() == t && Planted(lifted)
      ensures SameFlags(old(entries), entries)
    {
      hide EntriesOk, Overlay, PatchPoints, PointsOf, ActiveAt, Split;
      ghost var es, bytes, lifted := entries, Split(value), at;
      ghost var target := PatchFrom(Abs(), at, addr, bytes, len, 0);
      var i := 0;
      while i < len && !quit
        invariant i >= 0 && Planted(lifted) && SameFlags(es, entries)
        invariant if quit then (Abs(), lifted) == target else PatchFrom(Abs(), lifted, addr, bytes, len, i) == target
        decreases len - i, !quit
      {
        if !(addr + i + 8 <= |tracee.text|) {
          quit := true;
        } else {
          lifted := PatchByte(addr + i, Split(value)[i], lifted);
          i := i + 1;
        }
      }
    }

    // One round of the loop: the byte, and the trap over it if there is one.
    method PatchByte(a: nat, byte: Byte, ghost lifted: int) returns (ghost left: int)
      requires Planted(lifted) && a + 8 <= |tracee.text|
      modifies this`mem, this`entries, breakpoints, tracee`text
      ensures Planted(left) && left == NextLifted(old(Abs()), lifted, a) && SameFlags(old(entries), entries)
      ensures Abs() == NextPatch(old(Abs()), lifted, a, byte)
    {
      hide EntriesOk, Overlay, Peek, Poke, PatchPoints, PointsOf, ActiveAt, WithLow;
      ghost var m, text := mem, tracee.text;
      left := NextLifted(Abs(), lifted, a);
      var data := tracee.PeekText(a);
      var newData := WithLow(data, byte);
      tracee.PokeText(a, newData);
      mem := mem[a := byte];
      var j := FindActive(a);
      if j < count {
        PatchUnder(m, entries, text, lifted, a, byte, j, newData, tracee.text, WithLow(Peek(tracee.text, a), INT3));
        PlantAgain(j, newData);
      } else {
        PatchPlain(m, entries, text, lifted, a, byte, tracee.text);
      }
    }

    method PlantAgain(j: nat, newData: Word)
      requires InTable() && j < count && breakpoints[j].addr + 8 <= |tracee.text|
      modifies this`entries, breakpoints, tracee`text
      ensures InTable()
      ensures var trap := WithLow(Peek(old(tracee.text), old(breakpoints[j].addr)), INT3);
              && entries == old(entries)[j := old(entries[j]).(original := newData, trap := trap)]
              && tracee.text == Poke(old(tracee.text), old(breakpoints[j].addr), trap)
    {
      breakpoints[j] := breakpoints[j].(original := newData);
      var data := tracee.PeekText(breakpoints[j].addr);
      var dataTrap := WithLow(data, INT3);
      tracee.PokeText(breakpoints[j].addr, dataTrap);
      breakpoints[j] := breakpoints[j].(trap := dataTrap);
      entries := entries[j := breakpoints[j]];
    }
  }
}
