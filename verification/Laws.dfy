/** What the commands do to breakpoints, saved words and hit messages, said of the state before and after. */
module Laws {
  import opened Words
  import opened Machine
  import opened Session
  import opened Outcomes
  import opened Table

  /** `break` leaves an active breakpoint at its address and touches no other; the debugger ends exactly if there was
      none and the word is not mapped. */
  lemma BreakAdds(s: Session, a: nat)
    requires s.process.Live? && Permits(s, Break(a))
    ensures var t := Apply(s, Break(a));
            && (t.quit <==> s.quit || (!ActiveAt(s.points, a) && a + 8 > |s.mem|))
            && (a + 8 <= |s.mem| ==> ActiveAt(t.points, a))
            && (forall b :: b != a ==> (ActiveAt(t.points, b) <==> ActiveAt(s.points, b)))
            && s.points <= t.points && t.mem == s.mem && t.process == s.process && t.hits == s.hits
  {
    var p := Apply(s, Break(a)).points;
    forall b | b != a ensures ActiveAt(p, b) <==> ActiveAt(s.points, b) {
      if |p| > |s.points| {
        ActiveAppend(s.points, p[|s.points|], b);
      }
    }
    if |p| > |s.points| {
      ActiveAppend(s.points, p[|s.points|], a);
    }
  }

  /** `delete` leaves no active breakpoint where its entry has one, and touches no other; no entry goes. */
  lemma DeleteRemoves(s: Session, id: nat)
    requires s.process.Live? && TableOk(s.mem, s.points) && Permits(s, Delete(id))
    ensures var t := Apply(s, Delete(id));
            && (forall b :: ActiveAt(t.points, b)
                  <==> ActiveAt(s.points, b) && !(id < |s.points| && s.points[id].active && s.points[id].addr == b))
            && |t.points| == |s.points| && t.mem == s.mem && t.process == s.process && t.hits == s.hits
            && t.quit == s.quit
  {
    if id < |s.points| {
      forall b ensures ActiveAt(Apply(s, Delete(id)).points, b)
                       <==> ActiveAt(s.points, b) && !(s.points[id].active && s.points[id].addr == b)
      {
        ActiveDelete(s.mem, s.points, id, b);
      }
    }
  }

  /** A round trip: a breakpoint just set can be deleted, and then code and breakpoints are as before. */
  lemma BreakThenDelete(s: Session, a: nat)
    requires s.process.Live? && TableOk(s.mem, s.points) && |s.points| < MAX_BREAKPOINTS
    requires !ActiveAt(s.points, a) && a + 8 <= |s.mem| && s.placed < |s.points|
    ensures Permits(s, Break(a))
    ensures var t, id := Apply(s, Break(a)), |s.points|;
            && Permits(t, Delete(id))
            && var u := Apply(t, Delete(id));
               Raw(u) == Raw(s) && u.placed == (if a == s.process.regs.rip then -1 else s.placed)
  {
    hide Split, Peek, Low, ActiveAt, TableOk;
    var raw, ps, rip := Raw(s), s.points, s.process.regs.rip;
    var p := Point(a, Peek(raw, a), true);
    var t := Apply(s, Break(a));
    forall b ensures ActiveAt(t.points, b) <==> ActiveAt(ps, b) || b == a {
      ActiveAppend(ps, p, b);
    }
    SavedTail(raw, a);
    SameBehind(s.mem, ps, t.points, LiftedAt(s), LiftedAt(t), a);
    var u := Apply(t, Delete(|ps|));
    assert u.points == ps + [p.(active := false)];
    forall b ensures ActiveAt(u.points, b) <==> ActiveAt(ps, b) {
      ActiveAppend(ps, p.(active := false), b);
    }
    SameOverlay(s.mem, ps, u.points, LiftedAt(s));
    if a == rip {
      SameOverlay(s.mem, ps, u.points, rip);
      SameWithout(s.mem, ps, rip);
    }
  }

  lemma SavedTail(m: Memory, a: nat)
    requires a + 8 <= |m|
    ensures Split(Peek(m, a))[1..] == m[a + 1..a + 8]
  {
    SplitJoin(m[a..a + 8]);
    assert m[a..a + 8][1..] == m[a + 1..a + 8];
  }

  lemma SameBehind(mem: Memory, ps: seq<Point>, qs: seq<Point>, lifted: int, lifted': int, a: nat)
    requires a + 8 <= |mem| && (lifted' == lifted || (lifted' == -1 && lifted == a))
    requires forall b :: b > a ==> (ActiveAt(qs, b) <==> ActiveAt(ps, b))
    ensures Overlay(mem, qs, lifted')[a + 1..a + 8] == Overlay(mem, ps, lifted)[a + 1..a + 8]
  {
  }

  lemma SameOverlay(mem: Memory, ps: seq<Point>, qs: seq<Point>, lifted: int)
    requires forall b :: ActiveAt(qs, b) <==> ActiveAt(ps, b)
    ensures Overlay(mem, qs, lifted) == Overlay(mem, ps, lifted)
  {
  }

  /** Patching over a breakpoint saves the byte patched in, in front of the seven bytes that lay behind it before the
      patch; the saved words of all other entries stay. */
  lemma {:induction false} PatchSaves(s: Session, lifted: int, at: nat, bytes: seq<Byte>, len: int, i: nat, j: nat)
    requires len <= |bytes| && j < |s.points| && s.points[j].addr + 8 <= |s.mem|
    ensures var t, p := PatchFrom(s, lifted, at, bytes, len, i).0, s.points[j];
            && |t.points| == |s.points|
            && if p.active && at + i <= p.addr < at + len
               then Split(t.points[j].saved)
                    == [bytes[p.addr - at]] + Overlay(s.mem, s.points, lifted)[p.addr + 1..p.addr + 8]
               else t.points[j].saved == p.saved
    decreases len - i
  {
    hide ActiveAt, Split, Peek, WithLow;
    var a := at + i;
    if i < len && a + 8 <= |s.mem| {
      var t, text := NextPatch(s, lifted, a, bytes[i]), Overlay(s.mem, s.points, lifted);
      assert PatchFrom(s, lifted, at, bytes, len, i)
             == PatchFrom(t, NextLifted(s, lifted, a), at, bytes, len, i + 1) by {
        hide NextPatch, NextLifted;
      }
      hide PatchFrom;
      PokeLowByte(text, a, bytes[i]);
      forall b: nat ensures ActiveAt(t.points, b) <==> ActiveAt(s.points, b) {
        SameActive(s.points, t.points, b);
      }
      PatchSaves(t, NextLifted(s, lifted, a), at, bytes, len, i + 1, j);
      if a < s.points[j].addr {
        SameAhead(s.mem, s.points, t.points, lifted, a, bytes[i], s.points[j].addr);
      }
    }
  }

  lemma SameAhead(mem: Memory, ps: seq<Point>, qs: seq<Point>, lifted: int, a: nat, x: Byte, b: nat)
    requires a < b && b + 8 <= |mem| && forall c: nat :: ActiveAt(qs, c) <==> ActiveAt(ps, c)
    ensures Overlay(mem[a := x], qs, lifted)[b + 1..b + 8] == Overlay(mem, ps, lifted)[b + 1..b + 8]
    ensures a == lifted ==> Overlay(mem[a := x], qs, -1)[b + 1..b + 8] == Overlay(mem, ps, lifted)[b + 1..b + 8]
  {
  }

  // Hit messages grow by the tracee's address if an active entry is there, else not at all.
  predicate Reports(s: Session, t: Session) {
    t.hits ==
    if t.process.Live? && ActiveAt(s.points, t.process.regs.rip) then s.hits + [t.process.regs.rip] else s.hits
  }

  /** A permitted command reports a hit exactly when it runs the program to an active breakpoint, ends the debugger with
      the program, and otherwise moves neither. */
  lemma HitsAreBreakpoints(s: Session, c: Command)
    requires s.process.Live? && Permits(s, c)
    ensures var t := Apply(s, c);
            if c.Si? || c.Cont? then
              Reports(s, t) && (t.quit <==> t.process.Dead?) && t.points == s.points && t.mem == s.mem
            else t.hits == s.hits && t.process == s.process
  {
    if c.Patch? {
      PatchKeeps(s, LiftedAt(s), c.at, Split(c.value), c.len, 0);
    }
  }

  /** `si` from any state: off a breakpoint set just here, where the next step ends and which hit that is. */
  lemma SiReports(s: Session)
    requires s.process.Live? && PlacedOk(s)
    ensures var t, r := SiResult(s), s.process.regs;
            && (t.quit <==> t.process.Dead?) && t.points == s.points && t.mem == s.mem
            && (s.placed < 0 || EntryAt(s.points, r.rip + 1) ==> Reports(s, t))
            && (s.placed >= 0 && TableOk(s.mem, s.points) && Smooth(s.cpu, s.mem, s.points, r) ==>
                  if EntryAt(s.points, r.rip + 1) then t.process == Live(r.(rip := r.rip + 1))
                  else
                    && t.process == Step(s.cpu, s.mem, r).0
                    && t.hits == if t.process.Live? && NextIs(s.points, s.placed, t.process.regs.rip)
                                 then s.hits + [t.process.regs.rip] else s.hits)
  {
    if s.placed >= 0 && TableOk(s.mem, s.points) && Smooth(s.cpu, s.mem, s.points, s.process.regs) {
      SteppedOffIsRaw(s, Raw(s));
      StepUnderOverlay(s.cpu, s.mem, s.points, s.process.regs.rip, s.process.regs);
    }
    hide Step, Smooth, TableOk;
  }

  // A run with the trap at its start lifted, to a first stop elsewhere.
  lemma {:induction false} ResumeLifted(cpu: Cpu, mem: Memory, ps: seq<Point>, lifted: nat, r: Regs, n: nat)
    requires TableOk(mem, ps) && RunsTo(cpu, mem, ps, r, n) && (r.rip == lifted || !ActiveAt(ps, r.rip))
    requires var p := Bare(cpu, mem, Live(r), n); p.Live? && p.regs.rip != lifted
    ensures var p := Bare(cpu, mem, Live(r), n);
            Resume(cpu, Overlay(mem, ps, lifted), r, n + 1) ==
            if ActiveAt(ps, p.regs.rip) then Stopped(Live(p.regs.(rip := p.regs.rip + 1)), Trapped)
            else Stopped(p, Signalled)
    decreases n
  {
    var (p, stop) := Step(cpu, mem, r);
    StepUnderOverlay(cpu, mem, ps, lifted, r);
    assert Bare(cpu, mem, Live(r), n) == Bare(cpu, mem, p, n - 1);
    if n > 1 {
      ResumeLifted(cpu, mem, ps, lifted, p.regs, n - 1);
    } else if stop == Stepped {
      assert Resume(cpu, Overlay(mem, ps, lifted), r, 2) == Resume(cpu, Overlay(mem, ps, lifted), p.regs, 1);
    }
  }

  /** `cont` from a breakpoint set just here, when the program's first stop is elsewhere: it ends there if that is a
      breakpoint, one byte short of it if it is a signal; only the next entry is reported. */
  lemma ContPlacedStops(s: Session)
    requires s.process.Live? && s.placed >= 0 && PlacedOk(s) && TableOk(s.mem, s.points) && Stops(s) && ContStops(s)
    requires var p := Bare(s.cpu, s.mem, s.process, StepsToStop(s)); p.Live? && p.regs.rip != s.process.regs.rip
    ensures var p, t := Bare(s.cpu, s.mem, s.process, StepsToStop(s)), ContResult(s);
            && t.process == Live(if ActiveAt(s.points, p.regs.rip) then p.regs else Back(p.regs))
            && t.hits == (if NextIs(s.points, s.placed, t.process.regs.rip) then s.hits + [t.process.regs.rip]
                          else s.hits)
            && t.points == s.points && t.mem == s.mem && !t.quit == !s.quit
  {
    hide Step, Smooth, Length, Overlay, TableOk;
    var r, n := s.process.regs, StepsToStop(s);
    ResumeLifted(s.cpu, s.mem, s.points, r.rip, r, n);
    ResumeUnique(s.cpu, Bared(s), r, n + 1, ContFuel(s));
  }
}
