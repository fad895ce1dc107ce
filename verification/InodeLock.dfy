/**
 * kernel/fs.c: iget, ilock, iput, iunlock and iincref as processes call them around inode_table_lock. iget
 * and ilock sleep on a busy entry without giving the lock up, and only iput and iunlock, which need the lock,
 * clear a busy flag.
 */
module InodeLock {
  import opened Options
  import opened Layout
  import opened Kfs

  datatype Call = Get(i: nat) | Lock(k: nat) | Put(k: nat) | Unlock(k: nat) | Incref(k: nat)

  /** Where a process stands: outside, in the loop of acquire, inside the lock, asleep there on entry `k`, or stopped by a panic. */
  datatype Pc = Idle | Spinning(c: Call) | Inside(c: Call) | Asleep(c: Call, k: nat) | Panicked

  /** The file system, who holds inode_table_lock, and the processes. */
  datatype Sys = Sys(fs: Fs, holder: Option<nat>, procs: seq<Pc>)

  /** A process begins a call, tries test-and-set, goes on inside the lock, or is woken by proc_kill. */
  datatype Act = Begin(c: Call) | Try | GoOn | Wake

  /** How the body of a call ends: with a new inode table, in sleep on an entry, or in a panic. */
  datatype BodyEnd = Done(fs: Fs) | SleepOn(k: nat) | Panic

  function Body(fs: Fs, c: Call): BodyEnd
  {
    match c
    case Get(i) =>
      if |fs.disk| <= InodeSector(i) then Panic
      else
        (match Iget(fs, i)
         case Got(fs1, _) => Done(fs1)
         case MustWait => SleepOn(Find(fs.cache, i, 0))
         case NoEntry => Panic)
    case Lock(k) =>
      if |fs.cache| <= k then Panic
      else if fs.cache[k].busy then SleepOn(k)
      else Done(fs.(cache := fs.cache[k := fs.cache[k].(busy := true)]))
    case Put(k) => if |fs.cache| <= k || fs.cache[k].count == 0 then Panic else Done(Iput(fs, k))
    case Unlock(k) => if |fs.cache| <= k then Panic else Done(fs.(cache := fs.cache[k := fs.cache[k].(busy := false)]))
    case Incref(k) =>
      if |fs.cache| <= k then Panic else Done(fs.(cache := fs.cache[k := fs.cache[k].(count := fs.cache[k].count + 1)]))
  }

  /** wakeup(ip), by iput and iunlock: the sleepers on the entry go on in their loops. */
  function Wakened(procs: seq<Pc>, c: Call): seq<Pc>
  {
    if c.Put? || c.Unlock?
    then seq(|procs|, p requires 0 <= p < |procs| =>
               if procs[p].Asleep? && procs[p].k == c.k then Inside(procs[p].c) else procs[p])
    else procs
  }

  function Step(s: Sys, p: nat, a: Act): Sys
  {
    if |s.procs| <= p then s
    else
      match (a, s.procs[p])
      case (Begin(c), Idle) => s.(procs := s.procs[p := Spinning(c)])
      case (Try, Spinning(c)) =>
        if s.holder.Some? then s else s.(holder := Some(p), procs := s.procs[p := Inside(c)])
      case (GoOn, Inside(c)) =>
        (match Body(s.fs, c)
         case Done(fs1) => Sys(fs1, None, Wakened(s.procs[p := Idle], c))
         case SleepOn(k) => s.(procs := s.procs[p := Asleep(c, k)])
         case Panic => s.(procs := s.procs[p := Panicked]))
      case (Wake, Asleep(c, _)) => s.(procs := s.procs[p := Inside(c)])
      case _ => s
  }

  function Run(s: Sys, run: seq<(nat, Act)>): Sys
    decreases |run|
  { if run == [] then s else Run(Step(s, run[0].0, run[0].1), run[1..]) }

  /** Process `q` holds the lock and is in the loop of iget or ilock on a busy entry; nobody else is past acquire. */
  ghost predicate Stuck(s: Sys, q: nat, c: Call, k: nat)
  {
    && q < |s.procs| && s.holder == Some(q) && (s.procs[q] == Asleep(c, k) || s.procs[q] == Inside(c))
    && Body(s.fs, c) == SleepOn(k)
    && forall p :: 0 <= p < |s.procs| && p != q ==> s.procs[p].Idle? || s.procs[p].Spinning?
  }

  lemma StuckStays(s: Sys, q: nat, c: Call, k: nat, p: nat, a: Act)
    requires Stuck(s, q, c, k)
    ensures Stuck(Step(s, p, a), q, c, k) && Step(s, p, a).fs == s.fs
  { hide Body; }

  lemma SleepsOnBusy(fs: Fs, c: Call)
    requires Body(fs, c).SleepOn?
    ensures Body(fs, c).k < |fs.cache| && fs.cache[Body(fs, c).k].busy
  {}

  /** The lock is free and nobody is past acquire. */
  ghost predicate Quiet(s: Sys)
  { s.holder == None && forall p :: 0 <= p < |s.procs| ==> s.procs[p].Idle? || s.procs[p].Spinning? }

  lemma {:induction false} StuckForever(s: Sys, q: nat, c: Call, k: nat, run: seq<(nat, Act)>)
    requires Stuck(s, q, c, k)
    ensures Stuck(Run(s, run), q, c, k) && Run(s, run).fs == s.fs
    decreases |run|
  {
    hide Stuck, Step;
    if run != [] {
      StuckStays(s, q, c, k, run[0].0, run[0].1);
      StuckForever(Step(s, run[0].0, run[0].1), q, c, k, run[1..]);
    }
  }

  /**
   * The sleep of iget or ilock on a busy entry is never left, on any number of CPUs and whoever is killed: the
   * sleeper keeps inode_table_lock, so the entry stays busy, the inode table never changes again, and no
   * process ever gets past acquire in a call that needs the lock.
   */
  lemma SleepIsNeverLeft(s: Sys, q: nat, c: Call, run: seq<(nat, Act)>)
    requires Quiet(s) && q < |s.procs| && s.procs[q] == Spinning(c) && Body(s.fs, c).SleepOn?
    ensures var t := Run(Step(Step(s, q, Try), q, GoOn), run); var k := Body(s.fs, c).k;
      && t.fs == s.fs && k < |t.fs.cache| && t.fs.cache[k].busy && t.holder == Some(q) && |t.procs| == |s.procs|
      && (t.procs[q] == Asleep(c, k) || t.procs[q] == Inside(c))
      && forall p :: 0 <= p < |t.procs| && p != q ==> t.procs[p].Idle? || t.procs[p].Spinning?
  {
    hide Body;
    SleepsOnBusy(s.fs, c);
    var s2 := Step(Step(s, q, Try), q, GoOn);
    assert Stuck(s2, q, c, Body(s.fs, c).k);
    StuckForever(s2, q, c, Body(s.fs, c).k, run);
    SameProcs(s2, run);
  }

  lemma {:induction false} SameProcs(s: Sys, run: seq<(nat, Act)>)
    ensures |Run(s, run).procs| == |s.procs|
    decreases |run|
  {
    if run != [] {
      OneStepProcs(s, run[0].0, run[0].1);
      SameProcs(Step(s, run[0].0, run[0].1), run[1..]);
    }
  }

  lemma OneStepProcs(s: Sys, p: nat, a: Act)
    ensures |Step(s, p, a).procs| == |s.procs|
  { hide Body; }
}
