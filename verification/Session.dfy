/** What a debugging session means: the program on its own code, plus a table of breakpoints that only decides where
    to stop. */
module Session {
  import opened Words
  import opened Machine

  // `saved` is the word read when the breakpoint was planted, or written when it was last patched.
  datatype Point = Point(addr: nat, saved: Word, active: bool)

  // `mem` is the program's own code, without planted traps; `hits` are the addresses of the hit messages so far;
  // `placed` is the point set at the instruction the tracee still stands at, or -1.
  datatype Session =
    Session(cpu: Cpu, mem: Memory, process: Process, points: seq<Point>, placed: int, hits: seq<nat>, quit: bool)

  const MAX_BREAKPOINTS: nat := 10

  predicate ActiveAt(ps: seq<Point>, a: nat) {
    exists i :: 0 <= i < |ps| && ps[i].active && ps[i].addr == a
  }

  // Any entry at `a`, deleted ones included.
  predicate EntryAt(ps: seq<Point>, a: nat) {
    exists i :: 0 <= i < |ps| && ps[i].addr == a
  }

  /** The bytes the debugger leaves in the tracee: a trap at every active breakpoint but the lifted one. */
  function Overlay(mem: Memory, ps: seq<Point>, lifted: int): (text: Memory)
    ensures |text| == |mem|
  {
    seq(|mem|, a requires 0 <= a < |mem| => if a != lifted && ActiveAt(ps, a) then INT3 else mem[a])
  }

  function Armed(mem: Memory, ps: seq<Point>): Memory {
    Overlay(mem, ps, -1)
  }

  // The trap at the current instruction is lifted, unless its breakpoint was set just here.
  function LiftedAt(s: Session): int
    requires s.process.Live?
  {
    if s.placed >= 0 then -1 else s.process.regs.rip
  }

  function Raw(s: Session): Memory
    requires s.process.Live?
  {
    Overlay(s.mem, s.points, LiftedAt(s))
  }

  lemma ActiveMapped(mem: Memory, ps: seq<Point>, a: nat)
    requires TableOk(mem, ps) && ActiveAt(ps, a)
    ensures a + 8 <= |mem|
  {
  }

  ghost predicate TableOk(mem: Memory, ps: seq<Point>) {
    && (forall i :: 0 <= i < |ps| ==> ps[i].addr + 8 <= |mem|)
    && (forall i :: 0 <= i < |ps| && ps[i].active ==> Low(ps[i].saved) == mem[ps[i].addr])
    && (forall i, j :: 0 <= i < j < |ps| && ps[i].active && ps[j].active ==> ps[i].addr != ps[j].addr)
  }

  /** The instruction at `r.rip` is the program's own: no int3, and no breakpoint strictly inside it. */
  ghost predicate Smooth(cpu: Cpu, mem: Memory, ps: seq<Point>, r: Regs) {
    r.rip < |mem| ==>
      && mem[r.rip] != INT3
      && var n := Length(cpu, mem, r.rip, 1);
         forall a :: r.rip < a < r.rip + (if n == 0 then MAX_LENGTH else n) ==> !ActiveAt(ps, a)
  }

  ghost predicate StaysPut(s: Session)
    requires s.process.Live?
  {
    var p := Step(s.cpu, s.mem, s.process.regs).0;
    p.Live? && p.regs.rip == s.process.regs.rip
  }

  // A new stop: record a hit if it is at an active breakpoint, and leave if the program has ended.
  function Arrive(s: Session, p: Process): Session {
    s.(process := p, placed := -1,
       hits := if p.Live? && ActiveAt(s.points, p.regs.rip) then s.hits + [p.regs.rip] else s.hits,
       quit := p.Dead?)
  }

  /** `cont` from `r` takes exactly `n` steps: it stops where the program ends, gets a signal, or reaches a
      breakpoint. */
  ghost predicate RunsTo(cpu: Cpu, mem: Memory, ps: seq<Point>, r: Regs, n: nat)
    decreases n
  {
    && n >= 1
    && Smooth(cpu, mem, ps, r)
    && var (p, stop) := Step(cpu, mem, r);
       if n == 1 then stop != Stepped || ActiveAt(ps, p.regs.rip)
       else stop == Stepped && !ActiveAt(ps, p.regs.rip) && RunsTo(cpu, mem, ps, p.regs, n - 1)
  }

  ghost predicate Stops(s: Session)
    requires s.process.Live?
  {
    exists n :: RunsTo(s.cpu, s.mem, s.points, s.process.regs, n)
  }

  ghost function StepsToStop(s: Session): (n: nat)
    requires s.process.Live? && Stops(s)
    ensures RunsTo(s.cpu, s.mem, s.points, s.process.regs, n)
  {
    var n :| RunsTo(s.cpu, s.mem, s.points, s.process.regs, n);
    n
  }

  datatype Command = Break(addr: nat) | Delete(id: nat) | Si | Cont | Patch(at: nat, value: Word, len: int)

  // The points after the word at `a` has been given the low byte `x`.
  function PatchPoints(ps: seq<Point>, text: Memory, a: nat, x: Byte): (qs: seq<Point>)
    requires a + 8 <= |text|
    ensures |qs| == |ps|
  {
    seq(|ps|, j requires 0 <= j < |ps| =>
          if ps[j].active && ps[j].addr == a then ps[j].(saved := WithLow(Peek(text, a), x)) else ps[j])
  }

  /** Patch `bytes[i..len]` in at `at + i`, one byte at a time; a breakpoint that is patched over is planted again,
      so the second result, the address left without a trap, becomes -1 when the lifted breakpoint is patched over. */
  function PatchFrom(s: Session, lifted: int, at: nat, bytes: seq<Byte>, len: int, i: nat): (Session, int)
    requires len <= |bytes|
    decreases len - i
  {
    var a := at + i;
    if i >= len then (s, lifted)
    else if a + 8 > |s.mem| then (s.(quit := true), lifted)
    else PatchFrom(NextPatch(s, lifted, a, bytes[i]), NextLifted(s, lifted, a), at, bytes, len, i + 1)
  }

  function NextPatch(s: Session, lifted: int, a: nat, x: Byte): Session
    requires a + 8 <= |s.mem|
  {
    s.(mem := s.mem[a := x], points := PatchPoints(s.points, Overlay(s.mem, s.points, lifted), a, x))
  }

  function NextLifted(s: Session, lifted: int, a: nat): int {
    if a == lifted && ActiveAt(s.points, a) then -1 else lifted
  }

  ghost function Apply(s: Session, c: Command): Session
    requires s.process.Live? && Permits(s, c)
  {
    match c
    case Break(a) =>
      if ActiveAt(s.points, a) then s
      else if a + 8 > |s.mem| then s.(quit := true)
      else s.(points := s.points + [Point(a, Peek(Raw(s), a), true)],
              placed := if a == s.process.regs.rip then |s.points| else s.placed)
    case Delete(id) =>
      if id >= |s.points| then s
      else s.(points := s.points[id := s.points[id].(active := false)],
              placed := if id == s.placed then -1 else s.placed)
    case Si => Arrive(s, Step(s.cpu, s.mem, s.process.regs).0)
    case Cont => Arrive(s, Bare(s.cpu, s.mem, s.process, StepsToStop(s)))
    case Patch(at, value, len) => PatchFrom(s, LiftedAt(s), at, Split(value), len, 0).0
  }

  // The stop handler looks for a breakpoint after `k` in the next entry only.
  predicate NextIs(ps: seq<Point>, k: int, a: nat) {
    0 <= k + 1 < |ps| && ps[k + 1].active && ps[k + 1].addr == a
  }

  /** When the code does what the command is for. Each clause is something the user can check before typing it. */
  ghost predicate Permits(s: Session, c: Command)
    requires s.process.Live?
  {
    var rip := s.process.regs.rip;
    match c
    // an active breakpoint already, or room in the table
    case Break(a) => ActiveAt(s.points, a) || |s.points| < MAX_BREAKPOINTS
    // not the lifted breakpoint, and the saved word is still what memory holds apart from a planted trap
    case Delete(id) => id < |s.points| ==> DeletePermitted(s, s.points[id])
    // the instruction is the program's own, and if it stays put at a lifted breakpoint no entry is at the next byte;
    // at a breakpoint set just here, no entry is at the next byte and no step to a breakpoint other than the next one
    case Si => Smooth(s.cpu, s.mem, s.points, s.process.regs)
               && if s.placed >= 0 then !EntryAt(s.points, rip + 1) && StepsToNext(s)
                  else !(ActiveAt(s.points, rip) && StaysPut(s) && EntryAt(s.points, rip + 1))
    // the run stops, and does not start by staying put at a lifted breakpoint; at a breakpoint set just here, the
    // run ends the program
    case Cont => Stops(s)
                 && if s.placed >= 0 then Bare(s.cpu, s.mem, s.process, StepsToStop(s)).Dead?
                    else !(ActiveAt(s.points, rip) && StaysPut(s))
    // at most the eight bytes of the value, and not over the lifted breakpoint
    case Patch(at, value, len) => len <= 8 && !(ActiveAt(s.points, rip) && at <= LiftedAt(s) < at + len)
  }

  ghost predicate StepsToNext(s: Session)
    requires s.process.Live?
  {
    var p := Step(s.cpu, s.mem, s.process.regs).0;
    p.Live? && ActiveAt(s.points, p.regs.rip) ==> NextIs(s.points, s.placed, p.regs.rip)
  }

  ghost predicate DeletePermitted(s: Session, p: Point)
    requires s.process.Live?
  {
    p.addr + 8 <= |s.mem|
    && (if p.active then p.addr != LiftedAt(s) && Split(p.saved)[1..] == Raw(s)[p.addr + 1..p.addr + 8]
        else Split(p.saved) == Raw(s)[p.addr..p.addr + 8])
  }

  /** One step on the trapped code is one step on the program's own code, unless it starts on an armed trap. */
  lemma StepUnderOverlay(cpu: Cpu, mem: Memory, ps: seq<Point>, lifted: int, r: Regs)
    requires Smooth(cpu, mem, ps, r)
    requires r.rip == lifted || !ActiveAt(ps, r.rip)
    ensures Step(cpu, Overlay(mem, ps, lifted), r) == Step(cpu, mem, r)
    ensures Step(cpu, mem, r).1 != Trapped
  {
    hide Length, ActiveAt;
    var text := Overlay(mem, ps, lifted);
    if r.rip < |mem| {
      var n := Length(cpu, mem, r.rip, 1);
      LengthAgrees(cpu, mem, text, r.rip, 1);
      assert text[r.rip..r.rip + n] == mem[r.rip..r.rip + n];
    }
  }

  lemma {:induction false} ResumeUnique(cpu: Cpu, m: Memory, r: Regs, fuel: nat, more: nat)
    requires Resume(cpu, m, r, fuel) != Running && Resume(cpu, m, r, more) != Running
    ensures Resume(cpu, m, r, fuel) == Resume(cpu, m, r, more)
    decreases fuel
  {
    var (p, stop) := Step(cpu, m, r);
    if stop == Stepped {
      ResumeUnique(cpu, m, p.regs, fuel - 1, more - 1);
    }
  }

  lemma TrapUnderOverlay(cpu: Cpu, mem: Memory, ps: seq<Point>, r: Regs)
    requires r.rip < |mem| && ActiveAt(ps, r.rip)
    ensures Step(cpu, Armed(mem, ps), r) == (Live(r.(rip := r.rip + 1)), Trapped)
  {
  }

  /** PTRACE_CONT on the fully armed code follows the bare run and, at a breakpoint, traps one byte past it. */
  lemma {:induction false} ResumeUnderOverlay(cpu: Cpu, mem: Memory, ps: seq<Point>, r: Regs, n: nat)
    requires TableOk(mem, ps) && RunsTo(cpu, mem, ps, r, n) && !ActiveAt(ps, r.rip)
    ensures var p := Bare(cpu, mem, Live(r), n);
            Resume(cpu, Armed(mem, ps), r, n + 1) ==
            if p.Dead? then Stopped(p, Exited)
            else if ActiveAt(ps, p.regs.rip) then Stopped(Live(p.regs.(rip := p.regs.rip + 1)), Trapped)
            else Stopped(p, Signalled)
    decreases n
  {
    var (p, stop) := Step(cpu, mem, r);
    StepUnderOverlay(cpu, mem, ps, -1, r);
    assert Bare(cpu, mem, Live(r), n) == Bare(cpu, mem, p, n - 1);
    if n == 1 {
      if stop == Stepped {
        TrapUnderOverlay(cpu, mem, ps, p.regs);
        assert Resume(cpu, Armed(mem, ps), r, 2) == Resume(cpu, Armed(mem, ps), p.regs, 1);
      }
    } else {
      ResumeUnderOverlay(cpu, mem, ps, p.regs, n - 1);
    }
  }

  // `n` more steps, none if the place is a breakpoint.
  ghost predicate Settles(cpu: Cpu, mem: Memory, ps: seq<Point>, r: Regs, n: nat) {
    if n == 0 then ActiveAt(ps, r.rip) else RunsTo(cpu, mem, ps, r, n) && !ActiveAt(ps, r.rip)
  }

  lemma SettlesAfterStep(s: Session, n: nat)
    requires s.process.Live? && RunsTo(s.cpu, s.mem, s.points, s.process.regs, n) && !StaysPut(s)
    ensures var p := Step(s.cpu, s.mem, s.process.regs).0;
            && Bare(s.cpu, s.mem, s.process, n) == Bare(s.cpu, s.mem, p, n - 1)
            && (p.Live? ==> Settles(s.cpu, s.mem, s.points, p.regs, n - 1))
  {
  }

  /** The same from a place that may itself hold a planted trap, which then stops the run at once. */
  lemma ResumeArmed(cpu: Cpu, mem: Memory, ps: seq<Point>, r: Regs, n: nat)
    requires TableOk(mem, ps)
    requires Settles(cpu, mem, ps, r, n)
    ensures var p := Bare(cpu, mem, Live(r), n);
            Resume(cpu, Armed(mem, ps), r, n + 1) ==
            if p.Dead? then Stopped(p, Exited)
            else if ActiveAt(ps, p.regs.rip) then Stopped(Live(p.regs.(rip := p.regs.rip + 1)), Trapped)
            else Stopped(p, Signalled)
  {
    if n == 0 {
      TrapUnderOverlay(cpu, mem, ps, r);
    } else {
      ResumeUnderOverlay(cpu, mem, ps, r, n);
    }
  }

  /** Patching commutes with the breakpoints: whatever mix of them lies in or around the range, the program's own code
      gets exactly the patched bytes that lie in mapped words. */
  lemma {:induction false} PatchBytes(s: Session, lifted: int, at: nat, bytes: seq<Byte>, len: int, i: nat)
    requires len <= |bytes|
    ensures var m := PatchFrom(s, lifted, at, bytes, len, i).0.mem;
            && |m| == |s.mem|
            && forall a :: 0 <= a < |s.mem| ==>
                 m[a] == if at + i <= a < at + len && a + 8 <= |s.mem| then bytes[a - at] else s.mem[a]
    decreases len - i
  {
    var a := at + i;
    if i < len && a + 8 <= |s.mem| {
      PatchBytes(NextPatch(s, lifted, a, bytes[i]), NextLifted(s, lifted, a), at, bytes, len, i + 1);
    }
  }

  /** ... and no breakpoint moves, appears or goes; the debugger leaves exactly when the range runs off the mapped
      code. */
  lemma {:induction false} PatchKeeps(s: Session, lifted: int, at: nat, bytes: seq<Byte>, len: int, i: nat)
    requires len <= |bytes|
    ensures var t := PatchFrom(s, lifted, at, bytes, len, i).0;
            && (t.quit <==> s.quit || (i < len && at + len + 7 > |s.mem|))
            && t.(mem := s.mem, points := s.points, quit := s.quit) == s && |t.points| == |s.points|
            && forall j :: 0 <= j < |s.points| ==> t.points[j].(saved := 0) == s.points[j].(saved := 0)
    decreases len - i
  {
    var a := at + i;
    if i < len && a + 8 <= |s.mem| {
      PatchKeeps(NextPatch(s, lifted, a, bytes[i]), NextLifted(s, lifted, a), at, bytes, len, i + 1);
    }
  }

  /** The lifted breakpoint stays lifted exactly when the patch does not reach it. */
  lemma {:induction false} PatchLifted(s: Session, lifted: nat, at: nat, bytes: seq<Byte>, len: int, i: nat)
    requires len <= |bytes|
    ensures PatchFrom(s, lifted, at, bytes, len, i).1 ==
            if ActiveAt(s.points, lifted) && at + i <= lifted < at + len && lifted + 8 <= |s.mem| then -1 else lifted
    decreases len - i
  {
    var a := at + i;
    if i < len && a + 8 <= |s.mem| {
      NextKeeps(s, lifted, a, bytes[i], lifted);
      var t := NextPatch(s, lifted, a, bytes[i]);
      assert PatchFrom(s, lifted, at, bytes, len, i)
             == PatchFrom(t, NextLifted(s, lifted, a), at, bytes, len, i + 1) by {
        hide ActiveAt, NextPatch, NextLifted;
      }
      hide ActiveAt, NextPatch, PatchFrom;
      if NextLifted(s, lifted, a) == -1 {
        PatchUnlifted(t, at, bytes, len, i + 1);
      } else {
        PatchLifted(t, lifted, at, bytes, len, i + 1);
      }
    }
  }

  lemma NextKeeps(s: Session, lifted: int, a: nat, x: Byte, b: nat)
    requires a + 8 <= |s.mem|
    ensures var t := NextPatch(s, lifted, a, x);
            |t.mem| == |s.mem| && (ActiveAt(t.points, b) <==> ActiveAt(s.points, b))
  {
    SameActive(s.points, NextPatch(s, lifted, a, x).points, b);
  }

  lemma {:induction false} PatchUnlifted(s: Session, at: nat, bytes: seq<Byte>, len: int, i: nat)
    requires len <= |bytes|
    ensures PatchFrom(s, -1, at, bytes, len, i).1 == -1
    decreases len - i
  {
    if i < len && at + i + 8 <= |s.mem| {
      PatchUnlifted(NextPatch(s, -1, at + i, bytes[i]), at, bytes, len, i + 1);
    }
  }

  lemma SameActive(ps: seq<Point>, qs: seq<Point>, a: nat)
    requires |ps| == |qs|
    requires forall j :: 0 <= j < |ps| ==> qs[j].active == ps[j].active && qs[j].addr == ps[j].addr
    ensures ActiveAt(qs, a) <==> ActiveAt(ps, a)
  {
    if ActiveAt(ps, a) {
      var i :| 0 <= i < |ps| && ps[i].active && ps[i].addr == a;
      assert qs[i].active;
    }
  }

  lemma {:induction false} RunsToUnique(cpu: Cpu, mem: Memory, ps: seq<Point>, r: Regs, n: nat, k: nat)
    requires RunsTo(cpu, mem, ps, r, n) && RunsTo(cpu, mem, ps, r, k)
    ensures n == k
    decreases n
  {
    if n > 1 && k > 1 {
      RunsToUnique(cpu, mem, ps, Step(cpu, mem, r).0.regs, n - 1, k - 1);
    }
  }
}
