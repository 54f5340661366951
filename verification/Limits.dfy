/** Where the debugger does not do what its commands are for, and exactly when it does. */
module Limits {
  import opened Words
  import opened Machine
  import opened Session
  import opened Outcomes
  import opened Table

  // What deleting entry `id` leaves in the tracee, and what it should leave.
  function Written(s: Session, id: nat): Memory
    requires s.process.Live? && id < |s.points| && s.points[id].addr + 8 <= |s.mem|
  {
    Poke(Raw(s), s.points[id].addr, s.points[id].saved)
  }

  function Wanted(s: Session, id: nat): Memory
    requires s.process.Live? && id < |s.points|
  {
    Overlay(s.mem, s.points[id := s.points[id].(active := false)], LiftedAt(s))
  }

  /** Deleting a breakpoint that is not lifted removes its trap and changes nothing else exactly when the bytes behind
      it are still those of the saved word; an entry deleted before must match in all eight bytes. */
  lemma DeleteExact(s: Session, id: nat)
    requires s.process.Live? && TableOk(s.mem, s.points) && id < |s.points|
    requires s.points[id].active ==> s.points[id].addr != LiftedAt(s)
    ensures Written(s, id) == Wanted(s, id) <==> DeletePermitted(s, s.points[id])
  {
    var p := s.points[id];
    var qs := s.points[id := p.(active := false)];
    forall a ensures ActiveAt(qs, a) <==> ActiveAt(s.points, a) && !(p.active && p.addr == a) {
      ActiveDelete(s.mem, s.points, id, a);
    }
    hide Split, Poke, Overlay, ActiveAt;
    if DeletePermitted(s, p) {
      UnplantText(s.mem, s.points, qs, id, LiftedAt(s));
    }
    if Written(s, id) == Wanted(s, id) {
      WantedFits(s.mem, s.points, qs, id, LiftedAt(s));
    }
  }

  // If writing the saved word back gives the code of the smaller table, the word matches what was there.
  lemma WantedFits(mem: Memory, ps: seq<Point>, qs: seq<Point>, id: nat, lifted: int)
    requires TableOk(mem, ps) && id < |ps| && (ps[id].active ==> ps[id].addr != lifted)
    requires forall a :: ActiveAt(qs, a) <==> ActiveAt(ps, a) && !(ps[id].active && ps[id].addr == a)
    requires Poke(Overlay(mem, ps, lifted), ps[id].addr, ps[id].saved) == Overlay(mem, qs, lifted)
    ensures var raw, a := Overlay(mem, ps, lifted), ps[id].addr;
            if ps[id].active then Split(ps[id].saved)[1..] == raw[a + 1..a + 8]
            else Split(ps[id].saved) == raw[a..a + 8]
  {
    hide ActiveAt, Low;
    var raw, a, bytes := Overlay(mem, ps, lifted), ps[id].addr, Split(ps[id].saved);
    assert Poke(raw, a, ps[id].saved)[a..a + 8] == bytes;
    hide Split, Poke;
    if ps[id].active {
      assert Overlay(mem, qs, lifted)[a + 1..a + 8] == raw[a + 1..a + 8];
      assert bytes[1..] == Overlay(mem, qs, lifted)[a..a + 8][1..];
    } else {
      assert Overlay(mem, qs, lifted) == raw;
    }
  }

  /** A patch behind a breakpoint is undone by deleting the breakpoint. */
  lemma DeleteUndoesPatch(cpu: Cpu, regs: Regs)
    requires regs.rip == 20
    ensures var code := seq(32, _ => 0x90);
            var s := Session(cpu, code, Live(regs), [], -1, [], false);
            && Permits(s, Break(4)) && Permits(Apply(s, Break(4)), Patch(6, 0x11, 1))
            && var t := Apply(Apply(s, Break(4)), Patch(6, 0x11, 1));
               t.mem[6] == 0x11 && t.points[0].addr == 4 && Written(t, 0)[6] == 0x90
  {
    var code := seq(32, _ => 0x90 as Byte);
    var s := Session(cpu, code, Live(regs), [], -1, [], false);
    var b := Apply(s, Break(4));
    assert Raw(s) == code;
    SplitJoin(code[4..12]);
    var p := b.points[0];
    assert p == Point(4, Peek(code, 4), true) && Split(p.saved)[2] == 0x90;
    PatchOneByte(b, 20, 6, Split(0x11));
    hide Join, Split, PatchFrom, Overlay;
    assert Written(b.(mem := code[6 := 0x11]), 0)[6] == 0x90;
  }

  // A patch of one byte away from every breakpoint.
  lemma PatchOneByte(s: Session, lifted: int, a: nat, bytes: seq<Byte>)
    requires |bytes| >= 1 && a + 8 <= |s.mem| && !ActiveAt(s.points, a)
    ensures PatchFrom(s, lifted, a, bytes, 1, 0).0 == s.(mem := s.mem[a := bytes[0]])
  {
    var t := NextPatch(s, lifted, a, bytes[0]);
    assert t.points == s.points;
    assert PatchFrom(t, lifted, a, bytes, 1, 1).0 == t;
  }

  /** Deleting the lifted breakpoint leaves `bpAgain` set, so the next command plants its trap once more with no entry
      to account for it: the code is then right exactly if that byte is a trap anyway and the bytes behind it are still
      those of the saved word. */
  lemma DeleteLifted(s: Session, id: nat, trap: Word)
    requires s.process.Live? && TableOk(s.mem, s.points) && id < |s.points|
    requires s.points[id].active && s.points[id].addr == LiftedAt(s) && Low(trap) == INT3
    ensures var a := s.points[id].addr;
            var qs := s.points[id := s.points[id].(active := false)];
            Poke(Written(s, id), a, WithLow(Peek(Written(s, id), a), Low(trap))) == Armed(s.mem, qs)
            <==> s.mem[a] == INT3 && Split(s.points[id].saved)[1..] == Raw(s)[a + 1..a + 8]
  {
    var p := s.points[id];
    PokeLowByte(Written(s, id), p.addr, INT3);
    StrayTrap(s.mem, s.points, id, p.saved);
  }

  lemma StrayTrap(mem: Memory, ps: seq<Point>, id: nat, w: Word)
    requires TableOk(mem, ps) && id < |ps| && ps[id].active
    ensures var a := ps[id].addr;
            var raw := Overlay(mem, ps, a);
            Poke(raw, a, w)[a := INT3] == Armed(mem, ps[id := ps[id].(active := false)])
            <==> mem[a] == INT3 && Split(w)[1..] == raw[a + 1..a + 8]
  {
    var a, qs := ps[id].addr, ps[id := ps[id].(active := false)];
    var raw, bytes := Overlay(mem, ps, a), Split(w);
    hide Split, ActiveAt, TableOk;
    forall b ensures ActiveAt(qs, b) <==> ActiveAt(ps, b) && b != a {
      ActiveDelete(mem, ps, id, b);
    }
    PokedParts(raw, a, w);
    hide Poke;
    assert Armed(mem, qs) == raw[..a] + [mem[a]] + raw[a + 1..a + 8] + raw[a + 8..];
    SameParts(raw[..a], INT3, bytes[1..], raw[a + 8..], mem[a], raw[a + 1..a + 8]);
  }

  lemma PokedParts(m: Memory, a: nat, w: Word)
    requires a + 8 <= |m|
    ensures Poke(m, a, w)[a := INT3] == m[..a] + [INT3] + Split(w)[1..] + m[a + 8..]
  {
    hide Split;
  }

  lemma SameParts(left: seq<Byte>, x: Byte, mid: seq<Byte>, right: seq<Byte>, y: Byte, other: seq<Byte>)
    requires |mid| == |other|
    ensures left + [x] + mid + right == left + [y] + other + right <==> x == y && mid == other
  {
    var s, t, n := left + [x] + mid + right, left + [y] + other + right, |left|;
    assert s[n] == x && t[n] == y && s[n + 1..n + 1 + |mid|] == mid && t[n + 1..n + 1 + |mid|] == other;
  }

  /** Patching over the lifted breakpoint plants it under the tracee, so the next step executes the trap; the records
      stay right only if the byte patched in is itself a trap. */
  lemma PatchOverLifted(s: Session, at: nat, bytes: seq<Byte>, len: int)
    requires s.process.Live? && TableOk(s.mem, s.points) && len <= |bytes|
    requires ActiveAt(s.points, s.process.regs.rip)
    ensures var rip := s.process.regs.rip;
            var (t, lifted) := PatchFrom(s, rip, at, bytes, len, 0);
            Overlay(t.mem, t.points, lifted) == Overlay(t.mem, t.points, rip)
            <==> !(at <= rip < at + len) || bytes[rip - at] == INT3
  {
    var rip := s.process.regs.rip;
    var (t, lifted) := PatchFrom(s, rip, at, bytes, len, 0);
    PatchLifted(s, rip, at, bytes, len, 0);
    PatchBytes(s, rip, at, bytes, len, 0);
    PatchKeeps(s, rip, at, bytes, len, 0);
    SameRecords(s.points, t.points);
    SameActive(s.points, t.points, rip);
    ActiveMapped(s.mem, s.points, rip);
    hide PatchFrom, ActiveAt, Overlay, TableOk;
    if at <= rip < at + len {
      LiftedOrNot(t.mem, t.points, rip);
    }
  }

  lemma LiftedOrNot(mem: Memory, ps: seq<Point>, a: nat)
    requires a < |mem| && ActiveAt(ps, a)
    ensures Armed(mem, ps) == Overlay(mem, ps, a) <==> mem[a] == INT3
  {
    assert Armed(mem, ps)[a] == INT3 && Overlay(mem, ps, a)[a] == mem[a];
    if mem[a] == INT3 {
      assert Armed(mem, ps) == Overlay(mem, ps, a);
    }
  }

  // A machine whose instructions are single bytes: F4 faults, any other byte does nothing.
  function Plodding(): Cpu {
    Cpu(b => |b| == 1, (b, r: Regs) => if b == [0xf4] then Fault else Next(r.(rip := r.rip + 1)))
  }

  lemma Plods(text: Memory, r: Regs)
    requires r.rip < |text| && text[r.rip] != INT3
    ensures Length(Plodding(), text, r.rip, 1) == 1
    ensures Step(Plodding(), text, r) ==
            if text[r.rip] == 0xf4 then (Live(r), Signalled) else (Live(r.(rip := r.rip + 1)), Stepped)
  {
    assert text[r.rip..r.rip + 1] == [text[r.rip]];
  }

  lemma PlodsOn(mem: Memory, ps: seq<Point>, r: Regs)
    requires r.rip < |mem| && mem[r.rip] == 0x90
    ensures Smooth(Plodding(), mem, ps, r) && Step(Plodding(), mem, r) == (Live(r.(rip := r.rip + 1)), Stepped)
  {
    Plods(mem, r);
  }

  // Plodding over bytes that are no trap and no fault, `n` of them, up to a stop.
  lemma {:induction false} PlodsTo(mem: Memory, ps: seq<Point>, text: Memory, r: Regs, n: nat)
    requires n >= 1 && r.rip + n < |mem| == |text|
    requires forall a :: r.rip <= a < r.rip + n ==> text[a] == mem[a] == 0x90 && (r.rip < a ==> !ActiveAt(ps, a))
    requires ActiveAt(ps, r.rip + n) && text[r.rip + n] == INT3
    ensures RunsTo(Plodding(), mem, ps, r, n) && Bare(Plodding(), mem, Live(r), n) == Live(r.(rip := r.rip + n))
    ensures Resume(Plodding(), text, r, n + 1) == Stopped(Live(r.(rip := r.rip + n + 1)), Trapped)
    decreases n
  {
    hide Smooth, Length, ActiveAt, Plodding;
    PlodsOn(mem, ps, r);
    PlodsOn(text, ps, r);
    var q := r.(rip := r.rip + 1);
    assert n == 1 ==> Step(Plodding(), text, q) == (Live(q.(rip := q.rip + 1)), Trapped);
    hide Step;
    if n > 1 {
      PlodsTo(mem, ps, text, q, n - 1);
      assert q.(rip := q.rip + (n - 1)) == r.(rip := r.rip + n);
    }
    assert Bare(Plodding(), mem, Live(r), n) == Bare(Plodding(), mem, Live(q), n - 1);
  }

  // A session at its start.
  function Started(code: Memory, gpr: seq<Word>, ram: map<nat, Byte>): Session {
    Session(Plodding(), code, Live(Regs(0, gpr, ram)), [], -1, [], false)
  }

  function Nops(): Memory {
    seq(16, _ => 0x90)
  }

  // `cont` over bytes that do nothing to a breakpoint on the way.
  lemma ContPlods(s: Session, n: nat)
    requires s.cpu == Plodding() && s.process.Live? && !s.quit && s.placed == -1 && n >= 1
    requires var rip := s.process.regs.rip;
             && rip + n < |s.mem| && ActiveAt(s.points, rip + n)
             && forall a :: rip <= a < rip + n ==> s.mem[a] == 0x90 && !ActiveAt(s.points, a)
    ensures var r := s.process.regs;
            && Permits(s, Cont)
            && Apply(s, Cont) == s.(process := Live(r.(rip := r.rip + n)), hits := s.hits + [r.rip + n])
  {
    var r := s.process.regs;
    PlodsTo(s.mem, s.points, Armed(s.mem, s.points), r, n);
    assert !ActiveAt(s.points, r.rip);
    hide *;
    ContStopsAt(s, n, r.(rip := r.rip + n));
  }

  lemma ContStopsAt(s: Session, n: nat, q: Regs)
    requires s.process.Live? && !s.quit && s.placed == -1 && !ActiveAt(s.points, s.process.regs.rip)
    requires RunsTo(s.cpu, s.mem, s.points, s.process.regs, n)
    requires Bare(s.cpu, s.mem, Live(s.process.regs), n) == Live(q) && ActiveAt(s.points, q.rip)
    ensures Permits(s, Cont)
    ensures Apply(s, Cont) == s.(process := Live(q), hits := s.hits + [q.rip])
  {
    hide RunsTo, Step, Smooth, Bare, ActiveAt, StaysPut;
    StopsAfter(s, n);
  }

  lemma StopsAfter(s: Session, n: nat)
    requires s.process.Live? && RunsTo(s.cpu, s.mem, s.points, s.process.regs, n)
    ensures Stops(s) && StepsToStop(s) == n
  {
    RunsToUnique(s.cpu, s.mem, s.points, s.process.regs, n, StepsToStop(s));
  }

  // The word `break` saves is the one that was there.
  lemma Saves(s: Session, a: nat)
    requires s.process.Live? && a + 8 <= |s.mem|
    ensures Split(Peek(Raw(s), a)) == Raw(s)[a..a + 8] && Low(Peek(Raw(s), a)) == Raw(s)[a]
  {
    SplitJoin(Raw(s)[a..a + 8]);
    PokeLowByte(Raw(s), a, 0);
  }

  // `break` three bytes on, then `cont`: the tracee is at a lifted breakpoint.
  lemma BreakAndCont(gpr: seq<Word>, ram: map<nat, Byte>)
    ensures var s := Started(Nops(), gpr, ram);
            && Permits(s, Break(3)) && Permits(Apply(s, Break(3)), Cont)
            && var t := Apply(Apply(s, Break(3)), Cont);
               && t.mem == Nops() && t.process == Live(Regs(3, gpr, ram)) && t.placed == -1
               && t.points == [Point(3, Peek(Nops(), 3), true)] && TableOk(t.mem, t.points)
  {
    var s := Started(Nops(), gpr, ram);
    assert Raw(s) == Nops();
    Saves(s, 3);
    var b := Apply(s, Break(3));
    assert b.points == [Point(3, Peek(Nops(), 3), true)];
    assert b.points[0].active && ActiveAt(b.points, 3);
    ContPlods(b, 3);
  }

  /** Deleting a breakpoint one stands on: when its trap is planted again, the code has a trap that no entry accounts
      for. */
  lemma DeleteHere(gpr: seq<Word>, ram: map<nat, Byte>)
    ensures var s := Started(Nops(), gpr, ram);
            && Permits(s, Break(3)) && Permits(Apply(s, Break(3)), Cont)
            && var t := Apply(Apply(s, Break(3)), Cont);
               && t.process == Live(Regs(3, gpr, ram)) && t.placed == -1
               && |t.points| == 1 && t.points[0].active && t.points[0].addr == 3
               && Poke(Written(t, 0), 3, WithLow(Peek(Written(t, 0), 3), INT3))
                  != Armed(t.mem, t.points[0 := t.points[0].(active := false)])
  {
    BreakAndCont(gpr, ram);
    var t := Apply(Apply(Started(Nops(), gpr, ram), Break(3)), Cont);
    SplitWithLow(0, INT3);
    DeleteLifted(t, 0, WithLow(0, INT3));
  }

  /** Patching over a breakpoint one stands on: its trap is in the code although it counts as lifted. */
  lemma PatchHere(gpr: seq<Word>, ram: map<nat, Byte>)
    ensures var s := Started(Nops(), gpr, ram);
            && Permits(s, Break(3)) && Permits(Apply(s, Break(3)), Cont)
            && var t := Apply(Apply(s, Break(3)), Cont);
               && t.process == Live(Regs(3, gpr, ram))
               && var (u, lifted) := PatchFrom(t, LiftedAt(t), 3, Split(0x11), 1, 0);
                  Overlay(u.mem, u.points, lifted) != Overlay(u.mem, u.points, 3)
  {
    BreakAndCont(gpr, ram);
    var t := Apply(Apply(Started(Nops(), gpr, ram), Break(3)), Cont);
    assert t.points[0].active && ActiveAt(t.points, 3);
    assert Split(0x11)[0] == 0x11;
    PatchOverLifted(t, 3, Split(0x11), 1);
  }

  // Two breakpoints, the second deleted again.
  lemma BreakTwiceAndDelete(gpr: seq<Word>, ram: map<nat, Byte>)
    ensures var s := Started(Nops()[2 := 0xf4], gpr, ram);
            && Permits(s, Break(2)) && Permits(Apply(s, Break(2)), Break(3))
            && var b := Apply(Apply(s, Break(2)), Break(3));
               && Permits(b, Delete(1))
               && var d := Apply(b, Delete(1));
                  && d.(points := []) == s && |d.points| == 2
                  && d.points[0].active && d.points[0].addr == 2 && !d.points[1].active && d.points[1].addr == 3
  {
    hide Peek, Split, Low;
    var s := Started(Nops()[2 := 0xf4], gpr, ram);
    var a := Apply(s, Break(2));
    assert a.points[0].active && ActiveAt(a.points, 2) && !ActiveAt(a.points, 3);
    Saves(a, 3);
    var b := Apply(a, Break(3));
    assert b.points[1].active && b.points[0].addr == 2;
    assert Raw(b)[4..11] == Raw(a)[4..11] == Raw(a)[3..11][1..];
  }

  /** `si` from a breakpoint on a one-byte instruction that faults, with a breakpoint at the next byte that has been
      deleted: the program stays where it is, the debugger leaves it one byte further. */
  lemma SiLosesFault(gpr: seq<Word>, ram: map<nat, Byte>)
    ensures var s := Started(Nops()[2 := 0xf4], gpr, ram);
            && Permits(s, Break(2)) && Permits(Apply(s, Break(2)), Break(3))
            && var b := Apply(Apply(s, Break(2)), Break(3));
               && Permits(b, Delete(1)) && Permits(Apply(b, Delete(1)), Cont)
               && var t := Apply(Apply(b, Delete(1)), Cont);
                  && t.process == Live(Regs(2, gpr, ram))
                  && Step(t.cpu, t.mem, t.process.regs) == (t.process, Signalled)
                  && SiOutcome(t) == Live(Regs(3, gpr, ram))
  {
    BreakTwiceAndDelete(gpr, ram);
    var d := Apply(Apply(Apply(Started(Nops()[2 := 0xf4], gpr, ram), Break(2)), Break(3)), Delete(1));
    assert ActiveAt(d.points, 2) && EntryAt(d.points, 3);
    FaultAt(d);
  }

  lemma FaultAt(d: Session)
    requires d.cpu == Plodding() && d.process.Live? && !d.quit && d.process.regs.rip == 0 && d.placed == -1
    requires d.mem == Nops()[2 := 0xf4] && |d.points| == 2 && d.points[0].active && d.points[0].addr == 2
    requires !d.points[1].active && d.points[1].addr == 3
    ensures Permits(d, Cont)
    ensures var t := Apply(d, Cont);
            && t.process == Live(d.process.regs.(rip := 2))
            && Step(t.cpu, t.mem, t.process.regs) == (t.process, Signalled)
            && SiOutcome(t) == Live(d.process.regs.(rip := 3))
  {
    assert ActiveAt(d.points, 2) && EntryAt(d.points, 3);
    ContPlods(d, 2);
    var t := Apply(d, Cont);
    Plods(t.mem, t.process.regs);
    Plods(Raw(t), t.process.regs);
  }

  // `cont` from a breakpoint set at the start, with another three bytes on.
  lemma RunsOver(b: Session)
    requires b.cpu == Plodding() && b.mem == Nops() && b.process.Live? && b.process.regs.rip == 0 && b.placed >= 0
    requires ActiveAt(b.points, 3) && forall a: nat :: ActiveAt(b.points, a) ==> a == 0 || a == 3
    ensures ContStops(b) && ContWait(b) == Stopped(Live(b.process.regs.(rip := 4)), Trapped)
    ensures RunsTo(b.cpu, b.mem, b.points, b.process.regs, 3)
    ensures Bare(b.cpu, b.mem, b.process, 3) == Live(b.process.regs.(rip := 3))
  {
    var text, here := Bared(b), b.process.regs;
    PlodsTo(b.mem, b.points, text, here, 3);
    hide Resume, ActiveAt;
    assert Resume(b.cpu, ContText(b), ContFrom(b).regs, 4) != Running;
    ResumeUnique(b.cpu, text, here, 4, ContFuel(b));
  }

  /** `break` at the current instruction, then `cont`, with an earlier breakpoint three bytes on: the program stops
      there, and the debugger reports no hit. */
  lemma ContMissesHit(gpr: seq<Word>, ram: map<nat, Byte>)
    ensures var s := Started(Nops(), gpr, ram);
            && Permits(s, Break(3)) && Permits(Apply(s, Break(3)), Break(0))
            && var b := Apply(Apply(s, Break(3)), Break(0));
               && RunsTo(b.cpu, b.mem, b.points, b.process.regs, 3)
               && Bare(b.cpu, b.mem, b.process, 3) == Live(Regs(3, gpr, ram)) && ActiveAt(b.points, 3)
               && ContStops(b) && ContResult(b).process == Live(Regs(3, gpr, ram)) && ContResult(b).hits == []
  {
    hide Peek, Overlay, Bare, RunsTo, Resume;
    var s := Started(Nops(), gpr, ram);
    var a := Apply(s, Break(3));
    assert a.points[0].active && !ActiveAt(a.points, 0);
    var b := Apply(a, Break(0));
    assert b.points[0].addr == 3 && b.points[1].addr == 0 && b.points[0].active && ActiveAt(b.points, 3);
    hide ActiveAt;
    RunsOver(b);
  }

  /** The same with the two breakpoints set in the other order: the hit is reported, but the trap at the start is gone
      while its entry stays active. */
  lemma ContReportsNext(gpr: seq<Word>, ram: map<nat, Byte>)
    ensures var s := Started(Nops(), gpr, ram);
            && Permits(s, Break(0)) && Permits(Apply(s, Break(0)), Break(3))
            && var b := Apply(Apply(s, Break(0)), Break(3));
               && ContStops(b) && ContResult(b).process == Live(Regs(3, gpr, ram)) && ContResult(b).hits == [3]
               && ActiveAt(ContResult(b).points, 0) && !ContKeeps(b)
  {
    hide Peek, Overlay, Bare, RunsTo, Resume;
    var s := Started(Nops(), gpr, ram);
    var a := Apply(s, Break(0));
    assert a.points[0].active && ActiveAt(a.points, 0) && !ActiveAt(a.points, 3);
    var b := Apply(a, Break(3));
    assert b.points[0].addr == 0 && b.points[1].addr == 3;
    assert b.points[0].active && b.points[1].active && ActiveAt(b.points, 0) && ActiveAt(b.points, 3);
    hide ActiveAt;
    RunsOver(b);
  }

  // A machine with one instruction, EB FE, that jumps to itself; any other two bytes end the program.
  function Spinning(): Cpu {
    Cpu(b => |b| == 2, (b, r) => if b == [0xeb, 0xfe] then Next(r) else Halt(1))
  }

  /** `cont` from a breakpoint on an instruction that jumps to itself: the program alone never ends, yet the debugger,
      having stepped onto the trap and past it, resumes in the middle of the instruction and the program ends. */
  lemma ContLosesSelfJump(gpr: seq<Word>, ram: map<nat, Byte>, n: nat)
    ensures var code: Memory := [0xeb, 0xfe] + seq(14, _ => 0x90);
            var points := [Point(0, Peek(code, 0), true)];
            var here := Regs(0, gpr, ram);
            && Bare(Spinning(), code, Live(here), n) == Live(here)
            && Step(Spinning(), Armed(code, points), here) == (Live(here.(rip := 1)), Trapped)
            && Resume(Spinning(), Armed(code, points), here.(rip := 1), 1) == Stopped(Dead(1), Exited)
  {
    var code: Memory := [0xeb, 0xfe] + seq(14, _ => 0x90);
    var points := [Point(0, Peek(code, 0), true)];
    var here := Regs(0, gpr, ram);
    var text := Armed(code, points);
    SpinsForever(code, here, n);
    assert points[0].active && ActiveAt(points, 0);
    assert forall i :: 0 <= i < 1 ==> points[i].addr == 0;
    assert text[1] == 0xfe;
    assert Length(Spinning(), text, 1, 1) == Length(Spinning(), text, 1, 2) == 2;
  }

  lemma {:induction false} SpinsForever(code: Memory, r: Regs, n: nat)
    requires r.rip == 0 && |code| >= 2 && code[..2] == [0xeb, 0xfe]
    ensures Bare(Spinning(), code, Live(r), n) == Live(r)
    decreases n
  {
    assert code[0] == 0xeb && code[0..2] == code[..2];
    assert Length(Spinning(), code, 0, 1) == Length(Spinning(), code, 0, 2) == 2;
    if n > 0 {
      SpinsForever(code, r, n - 1);
    }
  }
}
