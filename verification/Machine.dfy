/** The traced program: a machine with variable-length instructions whose decoder and semantics are arbitrary. */
module Machine {
  import opened Words

  // `rip`, the other registers, and everything else a program can change (its data memory and its surroundings).
  // The program's code is deliberately not here: instructions neither read nor write it.
  datatype Regs = Regs(rip: nat, gpr: seq<Word>, ram: map<nat, Byte>)

  datatype Effect = Next(regs: Regs) | Halt(status: int) | Fault

  // `complete(b)` says that the bytes `b` form a whole instruction; the processor reads bytes until they do,
  // so the length of an instruction depends on nothing beyond its own bytes.
  datatype Cpu = Cpu(complete: seq<Byte> -> bool, exec: (seq<Byte>, Regs) -> Effect)

  datatype Process = Live(regs: Regs) | Dead(status: int)

  // What waitpid reports: a finished single step, an executed int3, another signal, or the end of the process.
  datatype Stop = Stepped | Trapped | Signalled | Exited

  const MAX_LENGTH: nat := 15

  /** Length of the instruction at `a`, trying `k` bytes first; 0 when no prefix is an instruction. */
  function Length(cpu: Cpu, m: Memory, a: nat, k: nat): (n: nat)
    requires k >= 1
    ensures n != 0 ==> k <= n <= MAX_LENGTH && a + n <= |m|
    decreases MAX_LENGTH + 1 - k
  {
    if k > MAX_LENGTH || a + k > |m| then 0
    else if cpu.complete(m[a..a + k]) then k
    else Length(cpu, m, a, k + 1)
  }

  function Step(cpu: Cpu, m: Memory, r: Regs): (Process, Stop) {
    if r.rip >= |m| then (Live(r), Signalled)
    else if m[r.rip] == INT3 then (Live(r.(rip := r.rip + 1)), Trapped)
    else
      var n := Length(cpu, m, r.rip, 1);
      if n == 0 then (Live(r), Signalled)
      else
        match cpu.exec(m[r.rip..r.rip + n], r)
        case Next(q) => (Live(q), Stepped)
        case Halt(status) => (Dead(status), Exited)
        case Fault => (Live(r), Signalled)
  }

  /** `n` steps of the program on its own. */
  function Bare(cpu: Cpu, m: Memory, p: Process, n: nat): Process
    decreases n
  {
    if n == 0 || p.Dead? then p else Bare(cpu, m, Step(cpu, m, p.regs).0, n - 1)
  }

  /** PTRACE_CONT: keep stepping until something other than a plain step happens; `Running` if `fuel` steps do not
      suffice. */
  datatype Waited = Running | Stopped(process: Process, stop: Stop)

  function Resume(cpu: Cpu, m: Memory, r: Regs, fuel: nat): Waited
    decreases fuel
  {
    if fuel == 0 then Running
    else
      var (p, stop) := Step(cpu, m, r);
      if stop == Stepped then Resume(cpu, m, p.regs, fuel - 1) else Stopped(p, stop)
  }

  /** The first `n` steps are plain, and the next is not: it ends with `stop` in `p`. */
  ghost predicate FirstEvent(cpu: Cpu, m: Memory, r: Regs, n: nat, p: Process, stop: Stop) {
    && (forall i :: 0 <= i <= n ==> Bare(cpu, m, Live(r), i).Live?)
    && (forall i :: 0 <= i < n ==> Step(cpu, m, Bare(cpu, m, Live(r), i).regs).1 == Stepped)
    && Step(cpu, m, Bare(cpu, m, Live(r), n).regs) == (p, stop) && stop != Stepped
  }

  /** The wait said outright. */
  lemma {:induction false} ResumeIsFirst(cpu: Cpu, m: Memory, r: Regs, fuel: nat, p: Process, stop: Stop)
    ensures Resume(cpu, m, r, fuel) == Stopped(p, stop) <==>
            exists n: nat :: n < fuel && FirstEvent(cpu, m, r, n, p, stop)
    decreases fuel
  {
    assert Bare(cpu, m, Live(r), 0) == Live(r);
    hide Step;
    if fuel > 0 {
      var (q, how) := Step(cpu, m, r);
      if how != Stepped {
        if (p, stop) == (q, how) {
          assert FirstEvent(cpu, m, r, 0, p, stop);
        }
      } else {
        ResumeIsFirst(cpu, m, q.regs, fuel - 1, p, stop);
        forall n: nat | FirstEvent(cpu, m, q.regs, n, p, stop) ensures FirstEvent(cpu, m, r, n + 1, p, stop) {
          LaterEvent(cpu, m, r, n, p, stop);
        }
        forall n: nat | FirstEvent(cpu, m, r, n, p, stop) ensures n > 0 && FirstEvent(cpu, m, q.regs, n - 1, p, stop) {
          LaterEvent(cpu, m, r, n - 1, p, stop);
        }
      }
    }
  }

  lemma LaterEvent(cpu: Cpu, m: Memory, r: Regs, n: nat, p: Process, stop: Stop)
    requires Step(cpu, m, r).1 == Stepped
    ensures FirstEvent(cpu, m, r, n + 1, p, stop) <==> FirstEvent(cpu, m, Step(cpu, m, r).0.regs, n, p, stop)
  {
    var q := Step(cpu, m, r).0;
    assert q.Live? && q == Live(q.regs);
    hide Step;
    assert Bare(cpu, m, Live(r), 0) == Live(r);
    forall i | 0 < i <= n + 1 ensures Bare(cpu, m, Live(r), i) == Bare(cpu, m, q, i - 1) { }
    forall i | 0 <= i <= n ensures Bare(cpu, m, q, i) == Bare(cpu, m, Live(r), i + 1) { }
  }

  lemma {:induction false} LengthAgrees(cpu: Cpu, m: Memory, m': Memory, a: nat, k: nat)
    requires k >= 1 && |m| == |m'|
    requires forall i :: a <= i < a + Length(cpu, m, a, k) ==> m'[i] == m[i]
    requires Length(cpu, m, a, k) == 0 ==> forall i :: a <= i < a + MAX_LENGTH && i < |m| ==> m'[i] == m[i]
    ensures Length(cpu, m', a, k) == Length(cpu, m, a, k)
    decreases MAX_LENGTH + 1 - k
  {
    if k <= MAX_LENGTH && a + k <= |m| {
      assert m[a..a + k] == m'[a..a + k];
      if !cpu.complete(m[a..a + k]) {
        LengthAgrees(cpu, m, m', a, k + 1);
      }
    }
  }

  /** The ptrace requests the debugger makes on its child. */
  class Tracee {
    const cpu: Cpu
    var text: Memory
    var process: Process

    constructor (cpu: Cpu, text: Memory, regs: Regs)
      ensures this.cpu == cpu && this.text == text && process == Live(regs)
    {
      this.cpu, this.text, this.process := cpu, text, Live(regs);
    }

    predicate Mapped(a: nat)
      reads this
    {
      a + 8 <= |text|
    }

    method PeekText(a: nat) returns (w: Word)
      requires Mapped(a)
      ensures w == Peek(text, a)
    {
      w := Peek(text, a);
    }

    method PokeText(a: nat, w: Word)
      requires Mapped(a)
      modifies this`text
      ensures text == Poke(old(text), a, w)
    {
      text := Poke(text, a, w);
    }

    method SetRegs(r: Regs)
      requires process.Live?
      modifies this`process
      ensures process == Live(r)
    {
      process := Live(r);
    }

    method SingleStep() returns (stop: Stop)
      requires process.Live?
      modifies this`process
      ensures (process, stop) == Step(cpu, text, old(process.regs))
    {
      var (p, s) := Step(cpu, text, process.regs);
      process, stop := p, s;
    }

    // waitpid returns only if the process stops; `fuel` is a bound on the steps until it does.
    method Continue(ghost fuel: nat) returns (stop: Stop)
      requires process.Live? && Resume(cpu, text, process.regs, fuel) != Running
      modifies this`process
      ensures Resume(cpu, text, old(process.regs), fuel) == Stopped(process, stop)
    {
      ghost var left := fuel;
      stop := Stepped;
      while stop == Stepped
        invariant stop == Stepped ==> process.Live?
        invariant stop == Stepped ==>
            left > 0 && Resume(cpu, text, process.regs, left) == Resume(cpu, text, old(process.regs), fuel) != Running
        invariant stop != Stepped ==> Resume(cpu, text, old(process.regs), fuel) == Stopped(process, stop)
        decreases if stop == Stepped then left + 1 else 0
      {
        stop := SingleStep();
        left := left - 1;
      }
    }
  }
}
