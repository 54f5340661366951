/** The debugger's own records, and why what it writes into the tracee keeps them in step with the session. */
module Table {
  import opened Words
  import opened Machine
  import opened Session

  datatype Breakpoint = Breakpoint(addr: nat, original: Word, trap: Word, active: bool, ignoreRip: bool)

  function PointOf(b: Breakpoint): Point {
    Point(b.addr, b.original, b.active)
  }

  function PointsOf(es: seq<Breakpoint>): (ps: seq<Point>)
    ensures |ps| == |es|
    ensures forall i :: 0 <= i < |es| ==> ps[i] == PointOf(es[i])
  {
    seq(|es|, i requires 0 <= i < |es| => PointOf(es[i]))
  }

  ghost predicate EntriesOk(mem: Memory, es: seq<Breakpoint>) {
    && |es| <= MAX_BREAKPOINTS
    && TableOk(mem, PointsOf(es))
    && forall i :: 0 <= i < |es| ==> Low(es[i].trap) == INT3
  }

  // No active entry but `k` was set where the tracee then stood.
  predicate OnlyFlagged(es: seq<Breakpoint>, k: int) {
    forall i :: 0 <= i < |es| && es[i].active && es[i].ignoreRip ==> i == k
  }

  // Entry `k` is active at `a` and was set while the tracee stood there.
  predicate FlaggedAt(es: seq<Breakpoint>, k: int, a: nat) {
    0 <= k < |es| && es[k].active && es[k].ignoreRip && es[k].addr == a
  }

  /** Between commands. As a rule the tracee is at an active breakpoint exactly when `bpAgain` is set; that breakpoint
      is `whichBp` and is lifted, and every other active one is planted. But a breakpoint set where the tracee stands,
      entry `placed`, is planted like the others, and its flag is the only one set. */
  ghost predicate Sound(mem: Memory, es: seq<Breakpoint>, text: Memory, p: Process, bpAgain: bool, whichBp: nat,
                        placed: int) {
    && EntriesOk(mem, es)
    && OnlyFlagged(es, placed)
    && p.Live?
    && text == Overlay(mem, PointsOf(es), if placed >= 0 then -1 else p.regs.rip)
    && if placed >= 0 then !bpAgain && FlaggedAt(es, placed, p.regs.rip)
       else
         && placed == -1
         && (bpAgain <==> ActiveAt(PointsOf(es), p.regs.rip))
         && (bpAgain ==> whichBp < |es| && es[whichBp].active && es[whichBp].addr == p.regs.rip)
  }

  /** The program's own code can be read off the tracee: the saved byte at an active breakpoint, the tracee's
      elsewhere. */
  lemma CleanMemory(mem: Memory, es: seq<Breakpoint>, text: Memory, p: Process, bpAgain: bool, whichBp: nat,
                    placed: int)
    requires Sound(mem, es, text, p, bpAgain, whichBp, placed)
    ensures |mem| == |text|
    ensures forall j :: 0 <= j < |es| && es[j].active ==> mem[es[j].addr] == Low(es[j].original)
    ensures forall a :: 0 <= a < |mem| && (forall j :: 0 <= j < |es| ==> !(es[j].active && es[j].addr == a)) ==>
        mem[a] == text[a]
  {
    forall j | 0 <= j < |es| && es[j].active ensures es[j].addr < |mem| && mem[es[j].addr] == Low(es[j].original) {
      assert PointsOf(es)[j] == PointOf(es[j]);
    }
    forall a | 0 <= a < |mem| && (forall j :: 0 <= j < |es| ==> !(es[j].active && es[j].addr == a))
      ensures mem[a] == text[a]
    {
      NoneActive(es, a);
    }
  }

  // Every active breakpoint is planted, wherever the tracee is.
  ghost predicate AllArmed(mem: Memory, es: seq<Breakpoint>, text: Memory) {
    EntriesOk(mem, es) && text == Armed(mem, PointsOf(es))
  }

  lemma NoneActive(es: seq<Breakpoint>, a: nat)
    requires forall j :: 0 <= j < |es| ==> !(es[j].active && es[j].addr == a)
    ensures !ActiveAt(PointsOf(es), a)
  {
  }

  lemma NoEntryNoneActive(ps: seq<Point>, a: nat)
    requires !EntryAt(ps, a)
    ensures !ActiveAt(ps, a)
  {
  }

  lemma OneActive(es: seq<Breakpoint>, j: nat)
    requires j < |es| && es[j].active
    ensures ActiveAt(PointsOf(es), es[j].addr)
  {
    assert PointsOf(es)[j].active;
  }

  lemma ActiveAppend(ps: seq<Point>, p: Point, a: nat)
    ensures ActiveAt(ps + [p], a) <==> ActiveAt(ps, a) || (p.active && p.addr == a)
  {
    var qs := ps + [p];
    assert qs[|ps|] == p;
    if ActiveAt(ps, a) {
      var i :| 0 <= i < |ps| && ps[i].active && ps[i].addr == a;
      assert qs[i] == ps[i];
    }
  }

  lemma ActiveDelete(mem: Memory, ps: seq<Point>, id: nat, a: nat)
    requires TableOk(mem, ps) && id < |ps|
    ensures ActiveAt(ps[id := ps[id].(active := false)], a)
            <==> ActiveAt(ps, a) && !(ps[id].active && ps[id].addr == a)
  {
    var qs := ps[id := ps[id].(active := false)];
    if ActiveAt(ps, a) && !(ps[id].active && ps[id].addr == a) {
      var i :| 0 <= i < |ps| && ps[i].active && ps[i].addr == a;
      assert qs[i] == ps[i];
    }
  }

  // The entry `set_breakpoints` makes.
  function NewEntry(text: Memory, a: nat, here: nat): Breakpoint
    requires a + 8 <= |text|
  {
    Breakpoint(a, Peek(text, a), WithLow(Peek(text, a), INT3), true, a == here)
  }

  /** Planting: one byte of the tracee changes, and the word saved is the one that was there. */
  lemma Plant(mem: Memory, es: seq<Breakpoint>, text: Memory, lifted: int, a: nat, here: nat)
    requires EntriesOk(mem, es) && |es| < MAX_BREAKPOINTS && text == Overlay(mem, PointsOf(es), lifted)
    requires a + 8 <= |mem| && !ActiveAt(PointsOf(es), a) && a != lifted
    ensures var b := NewEntry(text, a, here);
            && PointsOf(es + [b]) == PointsOf(es) + [Point(a, Peek(text, a), true)]
            && EntriesOk(mem, es + [b]) && Poke(text, a, b.trap) == Overlay(mem, PointsOf(es + [b]), lifted)
    ensures forall c :: ActiveAt(PointsOf(es + [NewEntry(text, a, here)]), c) <==> ActiveAt(PointsOf(es), c) || c == a
  {
    var b := NewEntry(text, a, here);
    var ps, q := PointsOf(es), PointOf(b);
    PokeLowByte(text, a, INT3);
    assert PointsOf(es + [b]) == ps + [q];
    forall c ensures ActiveAt(ps + [q], c) <==> ActiveAt(ps, c) || c == a {
      ActiveAppend(ps, q, c);
    }
    PlantTable(mem, ps, q);
    assert Overlay(mem, ps + [q], lifted) == text[a := INT3];
  }

  /** A breakpoint set anywhere keeps the state; one set where the tracee stands is `placed`. */
  lemma PlantKeeps(mem: Memory, es: seq<Breakpoint>, text: Memory, p: Process, bpAgain: bool, whichBp: nat, placed: int,
                   a: nat)
    requires |es| < MAX_BREAKPOINTS && a + 8 <= |mem| && !ActiveAt(PointsOf(es), a) && |text| == |mem|
    requires Sound(mem, es, text, p, bpAgain, whichBp, placed)
    ensures var fs := es + [NewEntry(text, a, p.regs.rip)];
            var text' := Poke(text, a, fs[|es|].trap);
            && PointsOf(fs) == PointsOf(es) + [Point(a, Peek(text, a), true)]
            && Sound(mem, fs, text', p, bpAgain, whichBp, if a == p.regs.rip then |es| else placed)
  {
    if placed >= 0 {
      OneActive(es, placed);
    } else if a == p.regs.rip {
      NothingLifted(mem, es, text, p, whichBp, placed);
    }
    hide ActiveAt, Overlay, TableOk, Peek, Poke, WithLow, Low, PointsOf;
    Plant(mem, es, text, if placed >= 0 || a == p.regs.rip then -1 else p.regs.rip, a, p.regs.rip);
  }

  lemma PlantTable(mem: Memory, ps: seq<Point>, q: Point)
    requires TableOk(mem, ps) && q.addr + 8 <= |mem| && Low(q.saved) == mem[q.addr]
    requires !ActiveAt(ps, q.addr)
    ensures TableOk(mem, ps + [q])
  {
  }

  /** Deleting under its condition: writing the saved word back turns the planted code into that of the smaller
      table. */
  lemma Unplant(mem: Memory, es: seq<Breakpoint>, text: Memory, p: Process, bpAgain: bool, whichBp: nat, placed: int,
                id: nat, s: Session)
    requires Sound(mem, es, text, p, bpAgain, whichBp, placed) && id < |es|
    requires s.mem == mem && s.process == p && s.points == PointsOf(es) && s.placed == placed
    requires DeletePermitted(s, s.points[id])
    ensures var fs := es[id := es[id].(active := false)];
            && Sound(mem, fs, Poke(text, es[id].addr, es[id].original), p, bpAgain, whichBp,
                     if id == placed then -1 else placed)
            && PointsOf(fs) == s.points[id := s.points[id].(active := false)]
  {
    hide Split, Poke, Overlay;
    var fs := es[id := es[id].(active := false)];
    var ps, qs := PointsOf(es), PointsOf(fs);
    assert ps[id].addr == es[id].addr && ps[id].active == es[id].active && ps[id].saved == es[id].original;
    DeleteTable(mem, es, id);
    forall a ensures ActiveAt(qs, a) <==> ActiveAt(ps, a) && !(ps[id].active && ps[id].addr == a) {
      ActiveDelete(mem, ps, id, a);
    }
    hide ActiveAt, TableOk, Low;
    UnplantText(mem, ps, qs, id, LiftedAt(s));
    if id == placed {
      SameWithout(mem, qs, p.regs.rip);
    }
  }

  lemma DeleteTable(mem: Memory, es: seq<Breakpoint>, id: nat)
    requires EntriesOk(mem, es) && id < |es|
    ensures var fs := es[id := es[id].(active := false)];
            EntriesOk(mem, fs) && PointsOf(fs) == PointsOf(es)[id := PointsOf(es)[id].(active := false)]
  {
    var fs := es[id := es[id].(active := false)];
    assert PointsOf(fs) == PointsOf(es)[id := PointsOf(es)[id].(active := false)];
  }

  lemma SameWithout(mem: Memory, ps: seq<Point>, a: nat)
    requires !ActiveAt(ps, a)
    ensures Overlay(mem, ps, a) == Armed(mem, ps)
  {
  }

  lemma UnplantText(mem: Memory, ps: seq<Point>, qs: seq<Point>, id: nat, lifted: int)
    requires TableOk(mem, ps) && id < |ps|
    requires forall a :: ActiveAt(qs, a) <==> ActiveAt(ps, a) && !(ps[id].active && ps[id].addr == a)
    requires var raw, a := Overlay(mem, ps, lifted), ps[id].addr;
             if ps[id].active then a != lifted && Split(ps[id].saved)[1..] == raw[a + 1..a + 8]
             else Split(ps[id].saved) == raw[a..a + 8]
    ensures Poke(Overlay(mem, ps, lifted), ps[id].addr, ps[id].saved) == Overlay(mem, qs, lifted)
  {
    var raw, a := Overlay(mem, ps, lifted), ps[id].addr;
    if ps[id].active {
      assert Split(ps[id].saved) == [mem[a]] + raw[a + 1..a + 8];
      assert Poke(raw, a, ps[id].saved) == raw[a := mem[a]];
    } else {
      assert Poke(raw, a, ps[id].saved) == raw;
    }
  }

  /** Putting the lifted trap back leaves every active breakpoint planted. */
  lemma Replant(mem: Memory, es: seq<Breakpoint>, text: Memory, i: nat)
    requires EntriesOk(mem, es) && i < |es| && es[i].active && text == Overlay(mem, PointsOf(es), es[i].addr)
    ensures es[i].addr + 8 <= |text|
    ensures AllArmed(mem, es, Poke(text, es[i].addr, WithLow(Peek(text, es[i].addr), Low(es[i].trap))))
  {
    assert PointsOf(es)[i].addr == es[i].addr;
    PokeLowByte(text, es[i].addr, INT3);
    OneActive(es, i);
    assert text[es[i].addr := INT3] == Armed(mem, PointsOf(es));
  }

  /** What a stop at `r` does to the records and to the code, whatever they are: at an active breakpoint the byte
      under the tracee becomes the program's own and the two globals name the breakpoint; elsewhere nothing changes. */
  ghost predicate Handled(mem: Memory, es: seq<Breakpoint>, r: Regs, text: Memory, bpAgain: bool, whichBp: nat,
                          text': Memory, bpAgain': bool, whichBp': nat) {
    if ActiveAt(PointsOf(es), r.rip) then
      && r.rip < |text| == |mem| && text' == text[r.rip := mem[r.rip]]
      && bpAgain' && whichBp' < |es| && es[whichBp'].active && es[whichBp'].addr == r.rip
    else text' == text && bpAgain' == bpAgain && whichBp' == whichBp
  }

  /** Lifting: the saved low byte is the program's own. */
  lemma Lift(mem: Memory, es: seq<Breakpoint>, text: Memory, i: nat)
    requires EntriesOk(mem, es) && i < |es| && es[i].active && |text| == |mem|
    ensures es[i].addr + 8 <= |text|
    ensures Poke(text, es[i].addr, WithLow(Peek(text, es[i].addr), Low(es[i].original)))
            == text[es[i].addr := mem[es[i].addr]]
    ensures ActiveAt(PointsOf(es), es[i].addr)
  {
    assert PointsOf(es)[i] == PointOf(es[i]);
    PokeLowByte(text, es[i].addr, mem[es[i].addr]);
    OneActive(es, i);
  }

  lemma LiftedText(mem: Memory, es: seq<Breakpoint>, text: Memory, i: nat)
    requires AllArmed(mem, es, text) && i < |es| && es[i].active
    ensures es[i].addr < |mem| && text[es[i].addr := mem[es[i].addr]] == Overlay(mem, PointsOf(es), es[i].addr)
  {
    assert PointsOf(es)[i].addr == es[i].addr;
  }

  lemma HandledSound(mem: Memory, es: seq<Breakpoint>, r: Regs, text: Memory, whichBp: nat,
                     text': Memory, bpAgain': bool, whichBp': nat)
    requires AllArmed(mem, es, text) && OnlyFlagged(es, -1)
    requires Handled(mem, es, r, text, false, whichBp, text', bpAgain', whichBp')
    ensures Sound(mem, es, text', Live(r), bpAgain', whichBp', -1)
  {
    if ActiveAt(PointsOf(es), r.rip) {
      LiftedText(mem, es, text, whichBp');
    } else {
      NothingToLift(mem, es, text, r, whichBp);
    }
  }

  lemma NothingToLift(mem: Memory, es: seq<Breakpoint>, text: Memory, r: Regs, whichBp: nat)
    requires AllArmed(mem, es, text) && OnlyFlagged(es, -1) && !ActiveAt(PointsOf(es), r.rip)
    ensures Sound(mem, es, text, Live(r), false, whichBp, -1)
  {
    SameWithout(mem, PointsOf(es), r.rip);
  }

  lemma TrapPlanted(cpu: Cpu, mem: Memory, es: seq<Breakpoint>, text: Memory, i: nat, r: Regs)
    requires AllArmed(mem, es, text) && i < |es| && es[i].active && es[i].addr == r.rip
    ensures Step(cpu, text, r) == (Live(r.(rip := r.rip + 1)), Trapped)
  {
    OneActive(es, i);
    assert PointsOf(es)[i].addr == r.rip;
    TrapUnderOverlay(cpu, mem, PointsOf(es), r);
  }

  lemma NothingLifted(mem: Memory, es: seq<Breakpoint>, text: Memory, p: Process, whichBp: nat, placed: int)
    requires Sound(mem, es, text, p, false, whichBp, placed)
    ensures AllArmed(mem, es, text)
  {
    if placed < 0 {
      SameWithout(mem, PointsOf(es), p.regs.rip);
    }
  }

  /** Patching one byte that no active breakpoint covers. */
  lemma PatchPlain(mem: Memory, es: seq<Breakpoint>, text: Memory, lifted: int, a: nat, x: Byte, text': Memory)
    requires EntriesOk(mem, es) && text == Overlay(mem, PointsOf(es), lifted)
    requires a + 8 <= |mem| && !ActiveAt(PointsOf(es), a)
    requires text' == Poke(text, a, WithLow(Peek(text, a), x))
    ensures EntriesOk(mem[a := x], es) && text' == Overlay(mem[a := x], PointsOf(es), lifted)
    ensures PatchPoints(PointsOf(es), text, a, x) == PointsOf(es)
  {
    var ps := PointsOf(es);
    PokeLowByte(text, a, x);
    assert text[a := x] == Overlay(mem[a := x], ps, lifted);
    forall j | 0 <= j < |es| ensures !(ps[j].active && ps[j].addr == a) { }
    assert TableOk(mem[a := x], ps);
  }

  lemma UnderPoints(mem: Memory, ps: seq<Point>, text: Memory, a: nat, x: Byte, j: nat)
    requires TableOk(mem, ps) && a + 8 <= |mem| == |text| && j < |ps| && ps[j].active && ps[j].addr == a
    ensures var qs := ps[j := ps[j].(saved := WithLow(Peek(text, a), x))];
            && TableOk(mem[a := x], qs) && PatchPoints(ps, text, a, x) == qs
            && forall b :: ActiveAt(qs, b) <==> ActiveAt(ps, b)
  {
    var qs := ps[j := ps[j].(saved := WithLow(Peek(text, a), x))];
    PokeLowByte(text, a, x);
    forall i | 0 <= i < |ps| && i != j ensures !(ps[i].active && ps[i].addr == a) { }
    forall b ensures ActiveAt(qs, b) <==> ActiveAt(ps, b) {
      if b >= 0 {
        SameActive(ps, qs, b);
      }
    }
  }

  /** Patching one byte under active breakpoint `j`: the record takes the new byte and the trap is planted again. */
  lemma PatchUnder(mem: Memory, es: seq<Breakpoint>, text: Memory, lifted: int, a: nat, x: Byte, j: nat,
                   newData: Word, text': Memory, trap: Word)
    requires EntriesOk(mem, es) && text == Overlay(mem, PointsOf(es), lifted)
    requires a + 8 <= |mem| && j < |es| && es[j].active && es[j].addr == a
    requires newData == WithLow(Peek(text, a), x) && text' == Poke(text, a, newData)
    requires trap == WithLow(Peek(text', a), INT3)
    ensures var fs := es[j := es[j].(original := newData, trap := trap)];
            && EntriesOk(mem[a := x], fs) && PatchPoints(PointsOf(es), text, a, x) == PointsOf(fs)
            && Poke(text', a, trap) == Overlay(mem[a := x], PointsOf(fs), if a == lifted then -1 else lifted)
  {
    var fs := es[j := es[j].(original := newData, trap := trap)];
    var ps := PointsOf(es);
    UnderPoints(mem, ps, text, a, x, j);
    assert PointsOf(fs) == ps[j := ps[j].(saved := newData)];
    PokeLowByte(text, a, x);
    PokeLowByte(text', a, INT3);
    OneActive(es, j);
    hide ActiveAt, TableOk, Peek, Poke, WithLow, Low, PatchPoints, PointsOf;
    UnderText(mem, ps, PointsOf(fs), lifted, a, x);
  }

  lemma UnderText(mem: Memory, ps: seq<Point>, qs: seq<Point>, lifted: int, a: nat, x: Byte)
    requires a < |mem| && ActiveAt(ps, a) && forall b :: ActiveAt(qs, b) <==> ActiveAt(ps, b)
    ensures Overlay(mem, ps, lifted)[a := x][a := INT3]
            == Overlay(mem[a := x], qs, if a == lifted then -1 else lifted)
  {
  }

  /** A patch that leaves the lifted breakpoint alone keeps the debugger's records sound. */
  lemma PatchSound(s: Session, es: seq<Breakpoint>, bpAgain: bool, whichBp: nat, at: nat, bytes: seq<Byte>, len: int,
                   fs: seq<Breakpoint>, text: Memory)
    requires s.process.Live? && len <= |bytes| && s.points == PointsOf(es)
    requires Sound(s.mem, es, Raw(s), s.process, bpAgain, whichBp, s.placed)
    requires !(ActiveAt(s.points, s.process.regs.rip) && at <= LiftedAt(s) < at + len)
    requires SameFlags(es, fs)
    requires var (t, lifted) := PatchFrom(s, LiftedAt(s), at, bytes, len, 0);
             t.points == PointsOf(fs) && EntriesOk(t.mem, fs) && text == Overlay(t.mem, t.points, lifted)
    ensures var t := PatchFrom(s, LiftedAt(s), at, bytes, len, 0).0;
            Sound(t.mem, fs, text, s.process, bpAgain, whichBp, s.placed)
  {
    var rip := s.process.regs.rip;
    var qs := PointsOf(fs);
    PatchKeeps(s, LiftedAt(s), at, bytes, len, 0);
    if s.placed >= 0 {
      PatchUnlifted(s, at, bytes, len, 0);
    } else {
      PatchLifted(s, rip, at, bytes, len, 0);
    }
    SameRecords(s.points, qs);
    SameActive(s.points, qs, rip);
    SameEntries(es, fs);
  }

  predicate SameFlags(es: seq<Breakpoint>, fs: seq<Breakpoint>) {
    |es| == |fs| && forall j :: 0 <= j < |es| ==> fs[j].ignoreRip == es[j].ignoreRip
  }

  lemma SameEntries(es: seq<Breakpoint>, fs: seq<Breakpoint>)
    requires |es| == |fs|
    requires forall j :: 0 <= j < |es| ==> PointsOf(fs)[j].(saved := 0) == PointsOf(es)[j].(saved := 0)
    ensures forall j :: 0 <= j < |es| ==> fs[j].active == es[j].active && fs[j].addr == es[j].addr
  {
    forall j | 0 <= j < |es| ensures fs[j].active == es[j].active && fs[j].addr == es[j].addr {
      assert PointsOf(fs)[j].(saved := 0) == PointsOf(es)[j].(saved := 0);
    }
  }

  lemma SameRecords(ps: seq<Point>, qs: seq<Point>)
    requires |ps| == |qs| && forall j :: 0 <= j < |ps| ==> qs[j].(saved := 0) == ps[j].(saved := 0)
    ensures forall j :: 0 <= j < |ps| ==> qs[j].active == ps[j].active && qs[j].addr == ps[j].addr
  {
    forall j | 0 <= j < |ps| ensures qs[j].active == ps[j].active && qs[j].addr == ps[j].addr {
      assert qs[j].(saved := 0) == ps[j].(saved := 0);
    }
  }
}
