/**
 * kernel/proc.c and kernel/spinlock.c: the scheduler as a step system over any number of CPUs and
 * process slots. Each step is one memory access of one CPU, so every interleaving is a run.
 *
 * Process code is over-approximated: while a process runs, and in any interrupt, a CPU may write any
 * value to any p->state (wakeup, proc_kill, yield, sleep, proc_exit, fork and kexec do so without
 * taking p->lock).
 */
module Scheduler {
  import opened Options
  import opened ProcState

  /** struct context: sp, x18 to x30. */
  type Regs = r: seq<int> | |r| == 14 witness seq(14, _ => 0)

  /** A slot of proc[]: lock.locked, lock.p, state and ctx; `left` records the registers of its last call of sched. */
  datatype Slot = Slot(locked: bool, owner: Option<nat>, state: PState, ctx: Regs, left: Regs)

  /** Where a CPU stands in scheduler, on slot `i`. */
  datatype Pc =
    | Spin(i: nat)          // acquire: test-and-set on locked
    | SetOwner(i: nat)      // acquire: lk->p = mycpu()
    | Check(i: nat)         // if (p->state == RUNNABLE)
    | Mark(i: nat)          // p->state = RUNNING
    | SetCur(i: nat)        // c->proc = p
    | Load(i: nat, k: nat)  // swtch: k registers loaded from p->ctx
    | Run(i: nat)           // the process runs
    | Save(i: nat, k: nat)  // sched, swtch: k registers saved to p->ctx
    | Back(i: nat)          // c->proc = 0
    | Disown(i: nat)        // release: lk->p = 0
    | Unlock(i: nat)        // release: locked = 0

  datatype Cpu = Cpu(pc: Pc, cur: Option<nat>, regs: Regs)

  datatype Sys = Sys(slots: seq<Slot>, cpus: seq<Cpu>)

  /** What a CPU may do next: go on, compute, give up the CPU, or write some p->state. */
  datatype Act = Advance | Compute(k: nat, v: int) | CallSched | WriteState(j: nat, st: PState)

  // ---------------------------------------------------------------- one step

  ghost function SetPc(s: Sys, c: nat, pc: Pc): Sys
    requires c < |s.cpus|
  { s.(cpus := s.cpus[c := s.cpus[c].(pc := pc)]) }

  ghost function Go(s: Sys, c: nat): Sys
    requires c < |s.cpus|
  {
    var cpu := s.cpus[c];
    var i := cpu.pc.i;
    if |s.slots| <= i then s
    else
      var p := s.slots[i];
      match cpu.pc
      case Spin(_) => if p.locked then s else SetPc(s.(slots := s.slots[i := p.(locked := true)]), c, SetOwner(i))
      case SetOwner(_) => SetPc(s.(slots := s.slots[i := p.(owner := Some(c))]), c, Check(i))
      case Check(_) => SetPc(s, c, if p.state.RUNNABLE? then Mark(i) else Disown(i))
      case Mark(_) => SetPc(s.(slots := s.slots[i := p.(state := RUNNING)]), c, SetCur(i))
      case SetCur(_) => s.(cpus := s.cpus[c := cpu.(cur := Some(i), pc := Load(i, 0))])
      case Load(_, k) =>
        if k < 14 then s.(cpus := s.cpus[c := cpu.(regs := cpu.regs[k := p.ctx[k]], pc := Load(i, k + 1))])
        else SetPc(s, c, Run(i))
      case Run(_) => s
      case Save(_, k) =>
        if k < 14 then SetPc(s.(slots := s.slots[i := p.(ctx := p.ctx[k := cpu.regs[k]])]), c, Save(i, k + 1))
        else SetPc(s, c, Back(i))
      case Back(_) => s.(cpus := s.cpus[c := cpu.(cur := None, pc := Disown(i))])
      case Disown(_) => SetPc(s.(slots := s.slots[i := p.(owner := None)]), c, Unlock(i))
      case Unlock(_) =>
        SetPc(s.(slots := s.slots[i := p.(locked := false)]), c, Spin(if i + 1 < |s.slots| then i + 1 else 0))
  }

  /** One step of CPU `c`; a number that is no CPU does nothing. */
  ghost function Step(s: Sys, c: nat, a: Act): Sys
  {
    if |s.cpus| <= c then s else StepOf(s, c, a)
  }

  ghost function StepOf(s: Sys, c: nat, a: Act): Sys
    requires c < |s.cpus|
  {
    var cpu := s.cpus[c];
    match a
    case Advance => Go(s, c)
    case Compute(k, v) =>
      if cpu.pc.Run? && k < 14 then s.(cpus := s.cpus[c := cpu.(regs := cpu.regs[k := v])]) else s
    case CallSched =>
      if cpu.pc.Run? && cpu.pc.i < |s.slots| then
        var i := cpu.pc.i;
        SetPc(s.(slots := s.slots[i := s.slots[i].(left := cpu.regs)]), c, Save(i, 0))
      else s
    case WriteState(j, st) =>
      if j < |s.slots| then s.(slots := s.slots[j := s.slots[j].(state := st)]) else s
  }

  ghost function Steps(s: Sys, run: seq<(nat, Act)>): Sys
    decreases |run|
  { if run == [] then s else Steps(Step(s, run[0].0, run[0].1), run[1..]) }

  lemma StepKeepsCpus(s: Sys, c: nat, a: Act)
    ensures |Step(s, c, a).cpus| == |s.cpus| && |Step(s, c, a).slots| == |s.slots|
  {}

  // ---------------------------------------------------------------- the invariant

  /** The CPU stands between winning the test-and-set on slot `i` and clearing it. */
  predicate Inside(cpu: Cpu, i: nat) { !cpu.pc.Spin? && cpu.pc.i == i }

  /** The CPU has slot `i` as its current process. */
  predicate Dispatched(pc: Pc) { pc.Load? || pc.Run? || pc.Save? || pc.Back? }

  /** The CPU may be using p->ctx. */
  predicate Switching(cpu: Cpu, i: nat) { cpu.pc.i == i && (cpu.pc.Load? || cpu.pc.Run? || cpu.pc.Save?) }

  ghost predicate CpuOk(s: Sys, c: nat)
    requires c < |s.cpus|
  {
    var cpu := s.cpus[c];
    && cpu.pc.i < |s.slots|
    && (cpu.cur == if Dispatched(cpu.pc) then Some(cpu.pc.i) else None)
    && var p := s.slots[cpu.pc.i];
    && (!cpu.pc.Spin? ==> p.locked)
    && (!cpu.pc.Spin? && !cpu.pc.SetOwner? && !cpu.pc.Unlock? ==> p.owner == Some(c))
    && (cpu.pc.Load? ==> cpu.pc.k <= 14 && p.ctx == p.left && forall w :: 0 <= w < cpu.pc.k ==> cpu.regs[w] == p.left[w])
    && (cpu.pc.Save? ==> cpu.pc.k <= 14 && p.left == cpu.regs && forall w :: 0 <= w < cpu.pc.k ==> p.ctx[w] == p.left[w])
  }

  /** At most one CPU is inside the critical section of a slot. */
  ghost predicate Exclusive(s: Sys)
  {
    forall c, d, i :: 0 <= c < |s.cpus| && 0 <= d < |s.cpus| && Inside(s.cpus[c], i) && Inside(s.cpus[d], i) ==> c == d
  }

  /** The context of a slot no CPU is switching is whole: all of it from the last call of sched. */
  ghost predicate WholeContexts(s: Sys)
  {
    forall i :: 0 <= i < |s.slots| && s.slots[i].ctx != s.slots[i].left ==>
      exists c :: 0 <= c < |s.cpus| && Switching(s.cpus[c], i)
  }

  ghost predicate Inv(s: Sys)
  {
    && |s.slots| > 0
    && (forall c :: 0 <= c < |s.cpus| ==> CpuOk(s, c))
    && Exclusive(s)
    && WholeContexts(s)
  }

  /** Boot: every lock free, every CPU about to scan slot 0, every context as procinit or copyproc left it. */
  ghost predicate Boot(s: Sys)
  {
    && |s.slots| > 0
    && (forall i :: 0 <= i < |s.slots| ==> !s.slots[i].locked && s.slots[i].ctx == s.slots[i].left)
    && (forall c :: 0 <= c < |s.cpus| ==> s.cpus[c].pc == Spin(0) && s.cpus[c].cur == None)
  }

  // ---------------------------------------------------------------- every step keeps it

  lemma BootInv(s: Sys)
    requires Boot(s)
    ensures Inv(s)
  {}

  lemma GoSelf(s: Sys, c: nat)
    requires Inv(s) && c < |s.cpus|
    ensures CpuOk(Go(s, c), c)
  {
    assert CpuOk(s, c);
    var s', cpu := Go(s, c), s.cpus[c];
    match cpu.pc
    case Load(i, k) =>
      assert s'.slots[i] == s.slots[i];
    case Save(i, k) =>
      if k < 14 { assert s'.slots[i].ctx == s.slots[i].ctx[k := cpu.regs[k]]; }
    case SetCur(i) =>
      // nobody else is inside, so nobody is switching this slot
      if s.slots[i].ctx != s.slots[i].left {
        var d :| 0 <= d < |s.cpus| && Switching(s.cpus[d], i);
        assert Inside(s.cpus[d], i) && Inside(s.cpus[c], i);
        assert false;
      }
    case _ =>
  }

  lemma SavedIsWhole(s: Sys, c: nat)
    requires c < |s.cpus| && CpuOk(s, c) && s.cpus[c].pc.Save? && s.cpus[c].pc.k == 14
    ensures s.slots[s.cpus[c].pc.i].ctx == s.slots[s.cpus[c].pc.i].left
  {}

  lemma GoOther(s: Sys, c: nat, d: nat)
    requires Inv(s) && c < |s.cpus| && d < |s.cpus| && d != c
    ensures CpuOk(Go(s, c), d)
  {
    assert CpuOk(s, c) && CpuOk(s, d);
    var i := s.cpus[c].pc.i;
    if s.cpus[d].pc.i == i && Inside(s.cpus[d], i) {
      assert !Inside(s.cpus[c], i);
    }
  }

  lemma StepCpuOk(s: Sys, c: nat, a: Act, d: nat)
    requires Inv(s) && c < |s.cpus| && d < |s.cpus|
    ensures CpuOk(Step(s, c, a), d)
  {
    assert CpuOk(s, c) && CpuOk(s, d);
    if a.Advance? {
      if d == c { GoSelf(s, c); } else { GoOther(s, c, d); }
    } else if a.CallSched? && d != c {
      var i := s.cpus[c].pc.i;
      if s.cpus[d].pc.i == i && Inside(s.cpus[d], i) { assert !Inside(s.cpus[c], i); }
    }
  }

  lemma StepExclusive(s: Sys, c: nat, a: Act)
    requires Inv(s) && c < |s.cpus|
    ensures Exclusive(Step(s, c, a))
  {
    var s' := Step(s, c, a);
    assert CpuOk(s, c);
    forall d, e, i | 0 <= d < |s'.cpus| && 0 <= e < |s'.cpus| && Inside(s'.cpus[d], i) && Inside(s'.cpus[e], i)
      ensures d == e
    {
      assert CpuOk(s, d) && CpuOk(s, e);
      // only the CPU that stepped can have entered, and only past a free lock
      if d != c { assert Inside(s.cpus[d], i); }
      if e != c { assert Inside(s.cpus[e], i); }
    }
  }

  lemma StepContexts(s: Sys, c: nat, a: Act)
    requires Inv(s) && c < |s.cpus|
    ensures WholeContexts(Step(s, c, a))
  {
    var s' := Step(s, c, a);
    assert CpuOk(s, c);
    forall i | 0 <= i < |s'.slots| && s'.slots[i].ctx != s'.slots[i].left
      ensures exists d :: 0 <= d < |s'.cpus| && Switching(s'.cpus[d], i)
    {
      if s'.slots[i].ctx == s.slots[i].ctx && s'.slots[i].left == s.slots[i].left {
        var d :| 0 <= d < |s.cpus| && Switching(s.cpus[d], i);
        // only the end of swtch leaves the slot, and then every register has been saved
        if s.cpus[c].pc.Save? && s.cpus[c].pc.k == 14 { SavedIsWhole(s, c); }
        assert Switching(s'.cpus[d], i);
      } else {
        assert Switching(s'.cpus[c], i);
      }
    }
  }

  lemma StepKeepsInv(s: Sys, c: nat, a: Act)
    requires Inv(s)
    ensures Inv(Step(s, c, a))
  {
    hide CpuOk, Exclusive, WholeContexts, StepOf;
    if c < |s.cpus| {
      StepKeepsCpus(s, c, a);
      forall d | 0 <= d < |s.cpus| ensures CpuOk(Step(s, c, a), d) { StepCpuOk(s, c, a, d); }
      StepExclusive(s, c, a);
      StepContexts(s, c, a);
    }
  }

  lemma {:induction false} RunKeepsInv(s: Sys, run: seq<(nat, Act)>)
    requires Inv(s)
    ensures Inv(Steps(s, run)) && |Steps(s, run).cpus| == |s.cpus|
    decreases |run|
  {
    hide Inv, Step;
    if run != [] {
      StepKeepsCpus(s, run[0].0, run[0].1);
      StepKeepsInv(s, run[0].0, run[0].1);
      RunKeepsInv(Step(s, run[0].0, run[0].1), run[1..]);
    }
  }

  // ---------------------------------------------------------------- what follows for every run

  /**
   * In every interleaving of any number of CPUs, no two CPUs have the same current process: a CPU with
   * current process p holds p->lock.
   */
  lemma NeverCurrentTwice(s: Sys, run: seq<(nat, Act)>, c: nat, d: nat, p: nat)
    requires Boot(s) && c < |s.cpus| && d < |s.cpus|
    ensures |Steps(s, run).cpus| == |s.cpus|
    ensures var t := Steps(s, run);
      && (t.cpus[c].cur == Some(p) ==>
            p < |t.slots| && t.slots[p].locked && t.slots[p].owner == Some(c))
      && (t.cpus[c].cur == Some(p) && t.cpus[d].cur == Some(p) ==> c == d)
  {
    BootInv(s);
    RunKeepsInv(s, run);
    var t := Steps(s, run);
    assert CpuOk(t, c) && CpuOk(t, d);
  }

  /**
   * A process resumes with exactly the registers it had when it last called sched, on whichever CPU
   * that was, although its state may be RUNNABLE long before its registers have all been saved.
   */
  lemma ResumesWhereItLeft(s: Sys, run: seq<(nat, Act)>, c: nat)
    requires Boot(s) && c < |s.cpus|
    ensures |Steps(s, run).cpus| == |s.cpus|
    ensures var t := Steps(s, run); t.cpus[c].pc.Load? && t.cpus[c].pc.k == 14 ==>
      var i := t.cpus[c].pc.i;
      && i < |t.slots| && t.cpus[c].regs == t.slots[i].left
      && |Step(t, c, Advance).cpus| == |t.cpus|
      && Step(t, c, Advance).cpus[c].pc == Run(i) && Step(t, c, Advance).cpus[c].regs == t.slots[i].left
  {
    BootInv(s);
    RunKeepsInv(s, run);
    assert CpuOk(Steps(s, run), c);
  }
}
