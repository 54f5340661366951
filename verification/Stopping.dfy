/** The debugger's records at a stop. */
module Stopping {
  import opened Words
  import opened Machine
  import opened Session
  import opened Outcomes
  import opened Table

  lemma OneFlagged(mem: Memory, es: seq<Breakpoint>, i: nat, k: int)
    requires EntriesOk(mem, es) && OnlyFlagged(es, k) && i < |es| && es[i].active
    ensures FlaggedAt(es, k, es[i].addr) <==> es[i].ignoreRip
    ensures es[i].ignoreRip ==> i == k
  {
    if FlaggedAt(es, k, es[i].addr) {
      assert PointsOf(es)[i].addr == PointsOf(es)[k].addr;
    }
  }

  lemma NotFlagged(es: seq<Breakpoint>, k: int, a: nat)
    requires !ActiveAt(PointsOf(es), a)
    ensures !FlaggedAt(es, k, a)
  {
    if FlaggedAt(es, k, a) {
      OneActive(es, k);
    }
  }

  lemma UnflagEntry(mem: Memory, es: seq<Breakpoint>, text: Memory, i: nat)
    requires AllArmed(mem, es, text) && i < |es| && OnlyFlagged(es, i)
    ensures var fs := es[i := es[i].(ignoreRip := false)];
            PointsOf(fs) == PointsOf(es) && AllArmed(mem, fs, text) && OnlyFlagged(fs, -1)
  {
    assert PointsOf(es[i := es[i].(ignoreRip := false)]) == PointsOf(es);
  }

  lemma DistinctEntries(mem: Memory, es: seq<Breakpoint>, i: nat, j: nat)
    requires EntriesOk(mem, es) && i < |es| && j < |es| && es[i].active && es[j].active && i != j
    ensures es[i].addr != es[j].addr
  {
    assert PointsOf(es)[i].addr == es[i].addr && PointsOf(es)[j].addr == es[j].addr;
  }

  lemma EntryMapped(mem: Memory, es: seq<Breakpoint>, i: nat)
    requires EntriesOk(mem, es) && i < |es|
    ensures es[i].addr + 8 <= |mem|
  {
    assert PointsOf(es)[i].addr == es[i].addr;
  }

  // At a breakpoint set just here the first step is onto its trap.
  lemma PlacedSteps(mem: Memory, es: seq<Breakpoint>, placed: int, s: Session)
    requires EntriesOk(mem, es) && s.process.Live? && s.mem == mem && s.points == PointsOf(es) && s.placed == placed
    requires placed >= 0 ==> FlaggedAt(es, placed, s.process.regs.rip)
    ensures placed >= 0 ==> SteppedOff(s) == (Live(s.process.regs.(rip := s.process.regs.rip + 1)), Trapped)
  {
    if placed >= 0 {
      SteppedOffIsRaw(s, Raw(s));
    }
  }

  lemma TrapWaits(cpu: Cpu, mem: Memory, es: seq<Breakpoint>, text: Memory, i: nat, r: Regs)
    requires AllArmed(mem, es, text) && i < |es| && es[i].active && es[i].addr == r.rip
    ensures Resume(cpu, text, r, 1) == Stopped(Live(r.(rip := r.rip + 1)), Trapped)
  {
    TrapPlanted(cpu, mem, es, text, i, r);
  }

  // A wait ends with a trap, with the end of the program, or with a signal away from every breakpoint.
  lemma {:induction false} WaitEnds(cpu: Cpu, mem: Memory, es: seq<Breakpoint>, text: Memory, r: Regs, fuel: nat)
    requires AllArmed(mem, es, text) && Resume(cpu, text, r, fuel) != Running
    ensures var w := Resume(cpu, text, r, fuel);
            && w.stop != Stepped && (w.stop == Exited <==> w.process.Dead?)
            && (w.stop == Trapped ==> w.process.regs.rip >= 1)
            && (w.stop == Signalled ==> !ActiveAt(PointsOf(es), w.process.regs.rip))
    decreases fuel
  {
    hide ActiveAt, Length;
    var (p, stop) := Step(cpu, text, r);
    if stop == Stepped {
      WaitEnds(cpu, mem, es, text, p.regs, fuel - 1);
    } else if ActiveAt(PointsOf(es), r.rip) {
      ActiveMapped(mem, PointsOf(es), r.rip);
      assert text[r.rip] == INT3;
    }
  }

  // A run that goes away from its start did not start on a trap.
  lemma RunMoved(cpu: Cpu, m: Memory, r: Regs, fuel: nat)
    requires Resume(cpu, m, r, fuel) != Running && Resume(cpu, m, r, fuel).process.Live?
    requires Back(Resume(cpu, m, r, fuel).process.regs).rip != r.rip < |m|
    ensures m[r.rip] != INT3
  {
  }

  /** After a run with the trap of breakpoint `i` lifted the records fit only if the tracee is back where it started. */
  lemma StaysLifted(mem: Memory, es: seq<Breakpoint>, i: nat, here: Regs, cpu: Cpu, fuel: nat, text: Memory,
                    regs: Regs, text': Memory, whichBp: nat)
    requires EntriesOk(mem, es) && OnlyFlagged(es, -1) && i < |es| && es[i].active && es[i].addr == here.rip
    requires text == Overlay(mem, PointsOf(es), here.rip)
    requires Resume(cpu, text, here, fuel) != Running && Resume(cpu, text, here, fuel).process.Live?
    requires regs == Back(Resume(cpu, text, here, fuel).process.regs)
    requires || (text' == text && whichBp == i)
             || (regs.rip != here.rip && regs.rip < |text| && text' == text[regs.rip := mem[regs.rip]])
    ensures Sound(mem, es, text', Live(regs), true, whichBp, -1) <==> regs.rip == here.rip
  {
    hide TableOk, Resume;
    OneActive(es, i);
    EntryMapped(mem, es, i);
    if regs.rip != here.rip {
      RunMoved(cpu, text, here, fuel);
      assert Overlay(mem, PointsOf(es), regs.rip)[here.rip] == INT3;
    }
  }
}
