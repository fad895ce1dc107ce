/**
 * kernel/proc.c on one CPU: fork, exit, wait, sleep, wakeup, kill and the scanning scheduler. Kernel
 * code on one CPU runs from one call of sched to the next without another process in between, so each
 * step is a whole such stretch; interrupts may call wakeup on device channels at any time.
 */
module Processes {
  import opened Options
  import opened ProcState

  /** A sleep channel: the address of a slot of proc[] (used by wait), or of something else. */
  datatype Chan = SlotOf(i: nat) | Device(x: int)

  /** A slot of proc[]; `waiting` says that the process is inside the loop of proc_wait. */
  datatype Proc = Proc(pid: int, ppid: int, st: PState, chan: Option<Chan>, waiting: bool, killed: bool)

  /** proc[], c->proc, the position of the scheduler's scan, and nextpid. */
  datatype Sys = Sys(procs: seq<Proc>, cur: Option<nat>, scan: nat, nextpid: int)

  // ---------------------------------------------------------------- the loops over proc[]

  /** wakeup(chan) on one slot */
  function Woken(p: Proc, ch: Chan): Proc
  { if p.st.SLEEPING? && p.chan == Some(ch) then p.(st := RUNNABLE) else p }

  function Wakeup(ps: seq<Proc>, ch: Chan): seq<Proc>
  { seq(|ps|, i requires 0 <= i < |ps| => Woken(ps[i], ch)) }

  /** The loop of proc_exit: wakeup on every slot below `k` whose pid is `ppid`. */
  function WakeParents(ps: seq<Proc>, ppid: int, k: nat): (r: seq<Proc>)
    requires k <= |ps|
    ensures |r| == |ps|
  {
    if k == 0 then ps
    else
      var r := WakeParents(ps, ppid, k - 1);
      if ps[k - 1].pid == ppid then Wakeup(r, SlotOf(k - 1)) else r
  }

  /** The last loop of proc_exit of slot `i` below `k`: it rewrites pid, and reads cp->pid anew each time. */
  function Abandon(ps: seq<Proc>, i: nat, k: nat): (r: seq<Proc>)
    requires i < |ps| && k <= |ps|
    ensures |r| == |ps|
  {
    if k == 0 then ps
    else
      var r := Abandon(ps, i, k - 1);
      if r[k - 1].ppid == r[i].pid then r[k - 1 := r[k - 1].(pid := 1)] else r
  }

  predicate ZombieChild(ps: seq<Proc>, k: nat, pid: int)
    requires k < |ps|
  { ps[k].st.ZOMBIE? && ps[k].ppid == pid }

  /** How a round of proc_wait ends: a zombie child collected, -1, or sleep. */
  datatype WaitEnd = Collect(z: nat) | MinusOne | GoToSleep

  /** The scan of proc_wait from slot `k` on; havekids is set at every slot that is not collected. */
  function WaitScan(ps: seq<Proc>, pid: int, k: nat, havekids: bool): (r: WaitEnd)
    requires k <= |ps|
    ensures r.Collect? ==> k <= r.z < |ps| && ZombieChild(ps, r.z, pid)
    ensures forall j :: k <= j < (if r.Collect? then r.z else |ps|) ==> !ZombieChild(ps, j, pid)
    decreases |ps| - k
  {
    if k == |ps| then (if havekids then GoToSleep else MinusOne)
    else if ZombieChild(ps, k, pid) then Collect(k)
    else WaitScan(ps, pid, k + 1, true)
  }

  function FirstUnused(ps: seq<Proc>, k: nat): (r: nat)
    requires k <= |ps|
    ensures k <= r <= |ps| && (r < |ps| ==> ps[r].st.UNUSED?)
    ensures forall j :: k <= j < r ==> !ps[j].st.UNUSED?
    decreases |ps| - k
  { if k == |ps| || ps[k].st.UNUSED? then k else FirstUnused(ps, k + 1) }

  function FirstPid(ps: seq<Proc>, pid: int, k: nat): (r: nat)
    requires k <= |ps|
    ensures k <= r <= |ps| && (r < |ps| ==> ps[r].pid == pid && !ps[r].st.UNUSED?)
    ensures forall j :: k <= j < r ==> ps[j].pid != pid || ps[j].st.UNUSED?
    decreases |ps| - k
  { if k == |ps| || (ps[k].pid == pid && !ps[k].st.UNUSED?) then k else FirstPid(ps, pid, k + 1) }

  // ---------------------------------------------------------------- steps

  datatype Act =
    | Visit                 // the scheduler looks at one slot
    | Yield
    | Sleep(ch: int)        // sleep on a device channel
    | WaitRound             // one round of proc_wait
    | Exit
    | Fork
    | Exec                  // kexec writes RUNNABLE to its own state
    | Kill(pid: int)
    | Wake(ch: int)         // wakeup on a device channel, by the process or an interrupt

  function NextSlot(s: Sys): nat { if s.scan + 1 < |s.procs| then s.scan + 1 else 0 }

  /** swtch back to the scheduler, which clears c->proc and moves on. */
  function Leave(s: Sys, ps: seq<Proc>): Sys { Sys(ps, None, NextSlot(s), s.nextpid) }

  function DoExit(ps: seq<Proc>, i: nat): seq<Proc>
    requires i < |ps|
  {
    var zs := ps[i := ps[i].(st := ZOMBIE)];
    Abandon(WakeParents(zs, ps[i].ppid, |ps|), i, |ps|)
  }

  function DoFork(s: Sys, i: nat): Sys
    requires i < |s.procs|
  {
    var k := FirstUnused(s.procs, 0);
    if k == |s.procs| then s
    else s.(procs := s.procs[k := s.procs[k].(pid := s.nextpid, ppid := s.procs[i].pid, st := RUNNABLE, waiting := false)],
            nextpid := s.nextpid + 1)
  }

  function DoWait(s: Sys, i: nat): Sys
    requires i < |s.procs|
  {
    match WaitScan(s.procs, s.procs[i].pid, 0, false)
    case Collect(z) =>
      var ps := s.procs[z := s.procs[z].(st := UNUSED)];
      s.(procs := ps[i := ps[i].(waiting := false)])
    case MinusOne => s.(procs := s.procs[i := s.procs[i].(waiting := false)])
    case GoToSleep => Leave(s, s.procs[i := s.procs[i].(st := SLEEPING, chan := Some(SlotOf(i)), waiting := true)])
  }

  /** A step of the running process `i`. */
  function Act1(s: Sys, i: nat, a: Act): Sys
    requires i < |s.procs|
  {
    var p := s.procs[i];
    match a
    case Yield => Leave(s, s.procs[i := p.(st := RUNNABLE)])
    case Sleep(ch) => Leave(s, s.procs[i := p.(st := SLEEPING, chan := Some(Device(ch)))])
    case WaitRound => DoWait(s, i)
    case Exit => Leave(s, DoExit(s.procs, i))
    case Fork => DoFork(s, i)
    case Exec => s.(procs := s.procs[i := p.(st := RUNNABLE)])
    case Kill(pid) => s.(procs := DoKill(s.procs, pid))
    case Visit => s
    case Wake(_) => s
  }

  function DoKill(ps: seq<Proc>, pid: int): seq<Proc>
  {
    var k := FirstPid(ps, pid, 0);
    if k == |ps| then ps
    else ps[k := ps[k].(killed := true, st := if ps[k].st.SLEEPING? then RUNNABLE else ps[k].st)]
  }

  function DoVisit(s: Sys): Sys
    requires s.scan < |s.procs|
  {
    if s.procs[s.scan].st.RUNNABLE?
    then s.(procs := s.procs[s.scan := s.procs[s.scan].(st := RUNNING, chan := None)], cur := Some(s.scan))
    else s.(scan := NextSlot(s))
  }

  /** A step is possible: a process inside wait can only go on with wait. */
  predicate Enabled(s: Sys, a: Act)
  {
    if a.Visit? then s.cur.None? && s.scan < |s.procs|
    else if a.Wake? then true
    else s.cur.Some? && s.cur.value < |s.procs| && (s.procs[s.cur.value].waiting ==> a.WaitRound?)
  }

  function Step(s: Sys, a: Act): Sys
  {
    if !Enabled(s, a) then s
    else if a.Visit? then DoVisit(s)
    else if a.Wake? then s.(procs := Wakeup(s.procs, Device(a.ch)))
    else Act1(s, s.cur.value, a)
  }

  function Steps(s: Sys, run: seq<Act>): Sys
    decreases |run|
  { if run == [] then s else Steps(Step(s, run[0]), run[1..]) }

  // ---------------------------------------------------------------- invariants

  predicate Live(p: Proc) { p.st.RUNNABLE? || p.st.SLEEPING? || p.st.RUNNING? }

  predicate AsleepInWait(p: Proc) { p.st.SLEEPING? && p.waiting }

  /** No parent asleep in wait has an uncollected zombie child. */
  ghost predicate NoLostZombie(ps: seq<Proc>)
  {
    forall q, z :: 0 <= q < |ps| && 0 <= z < |ps| && AsleepInWait(ps[q]) ==> !ZombieChild(ps, z, ps[q].pid)
  }

  ghost predicate LivePidsDistinct(ps: seq<Proc>)
  { forall i, j :: 0 <= i < j < |ps| && Live(ps[i]) && Live(ps[j]) ==> ps[i].pid != ps[j].pid }

  /** A process asleep in wait sleeps on its own slot. */
  ghost predicate WaitChannels(ps: seq<Proc>)
  { forall q :: 0 <= q < |ps| && AsleepInWait(ps[q]) ==> ps[q].chan == Some(SlotOf(q)) }

  /** A live process is younger than its parent, or has the pid 1 that proc_exit gave it. */
  ghost predicate ParentsOlder(ps: seq<Proc>)
  { forall i :: 0 <= i < |ps| && Live(ps[i]) ==> ps[i].ppid < ps[i].pid || ps[i].pid == 1 }

  ghost predicate PidsBelow(ps: seq<Proc>, next: int) { forall i :: 0 <= i < |ps| ==> ps[i].pid < next }

  ghost predicate Inv(s: Sys)
  {
    && s.scan < |s.procs| && (s.cur.Some? ==> s.cur.value == s.scan && Live(s.procs[s.scan]) && !s.procs[s.scan].st.SLEEPING?)
    && 1 < s.nextpid && PidsBelow(s.procs, s.nextpid) && ParentsOlder(s.procs)
    && NoLostZombie(s.procs) && LivePidsDistinct(s.procs) && WaitChannels(s.procs)
  }

  /** The exiting process has no live child. */
  predicate NoLiveChild(s: Sys)
  {
    s.cur.Some? && s.cur.value < |s.procs| ==>
      forall k :: 0 <= k < |s.procs| && Live(s.procs[k]) && k != s.cur.value ==> s.procs[k].ppid != s.procs[s.cur.value].pid
  }

  /** Along the run, processes exit only without live children. */
  ghost predicate Orderly(s: Sys, run: seq<Act>)
    decreases |run|
  { run == [] || ((run[0].Exit? ==> NoLiveChild(s)) && Orderly(Step(s, run[0]), run[1..])) }

  // ---------------------------------------------------------------- what the loops do

  lemma {:induction false} WakeParentsAt(ps: seq<Proc>, ppid: int, k: nat, q: nat)
    requires k <= |ps| && q < |ps|
    ensures var r := WakeParents(ps, ppid, k)[q];
      r == if ps[q].st.SLEEPING? && ps[q].chan.Some? && ps[q].chan.value.SlotOf? && ps[q].chan.value.i < k
              && ps[ps[q].chan.value.i].pid == ppid
           then ps[q].(st := RUNNABLE) else ps[q]
  {
    if k > 0 { WakeParentsAt(ps, ppid, k - 1, q); }
  }

  lemma {:induction false} AbandonAt(ps: seq<Proc>, i: nat, k: nat, q: nat)
    requires i < |ps| && k <= |ps| && q < |ps| && (ps[i].ppid != ps[i].pid || ps[i].pid == 1)
    ensures Abandon(ps, i, k)[q] == if q < k && ps[q].ppid == ps[i].pid then ps[q].(pid := 1) else ps[q]
    ensures Abandon(ps, i, k)[i].pid == ps[i].pid
  {
    if k > 0 {
      AbandonAt(ps, i, k - 1, q);
      AbandonAt(ps, i, k - 1, k - 1);
    }
  }

  /** Slot q after an exit of slot i: woken if it sleeps on a slot whose pid is the parent's, renamed if a child. */
  lemma ExitAt(ps: seq<Proc>, i: nat, q: nat)
    requires i < |ps| && q < |ps| && !ps[i].st.SLEEPING? && (ps[i].ppid != ps[i].pid || ps[i].pid == 1)
    ensures |DoExit(ps, i)| == |ps|
    ensures var r, p := DoExit(ps, i)[q], ps[q];
      && r.ppid == p.ppid && r.chan == p.chan && r.waiting == p.waiting
      && r.pid == (if p.ppid == ps[i].pid then 1 else p.pid)
      && r.st == (if q == i then ZOMBIE
                  else if p.st.SLEEPING? && p.chan.Some? && p.chan.value.SlotOf? && p.chan.value.i < |ps|
                          && ps[p.chan.value.i].pid == ps[i].ppid then RUNNABLE
                  else p.st)
  {
    var zs := ps[i := ps[i].(st := ZOMBIE)];
    WakeParentsAt(zs, ps[i].ppid, |ps|, q);
    WakeParentsAt(zs, ps[i].ppid, |ps|, i);
    AbandonAt(WakeParents(zs, ps[i].ppid, |ps|), i, |ps|, q);
  }

  /** The same under the invariant, where a process asleep in wait sleeps on its own slot. */
  lemma ExitSlot(s: Sys, q: nat)
    requires Inv(s) && s.cur.Some? && q < |s.procs|
    ensures |DoExit(s.procs, s.cur.value)| == |s.procs|
    ensures var ps, i := s.procs, s.cur.value; var r := DoExit(ps, i)[q];
      && r.ppid == ps[q].ppid && r.chan == ps[q].chan && r.pid == (if ps[q].ppid == ps[i].pid then 1 else ps[q].pid)
      && (Live(r) <==> q != i && Live(ps[q]))
      && (r.st.ZOMBIE? <==> q == i || ps[q].st.ZOMBIE?)
      && (AsleepInWait(r) <==> AsleepInWait(ps[q]) && ps[q].pid != ps[i].ppid)
  { ExitAt(s.procs, s.cur.value, q); }

  // ---------------------------------------------------------------- what an exit with live children does

  /** Slots that bear pid 1 after the exit of slot `i`. */
  predicate BecomesOne(ps: seq<Proc>, i: nat, k: nat)
    requires i < |ps| && k < |ps|
  { k != i && Live(ps[k]) && (ps[k].ppid == ps[i].pid || ps[k].pid == 1) }

  /** At most one live process then bears pid 1. */
  predicate PidsStayDistinct(ps: seq<Proc>, i: nat)
    requires i < |ps|
  { forall j, k :: 0 <= j < k < |ps| ==> !(BecomesOne(ps, i, j) && BecomesOne(ps, i, k)) }

  /** A child asleep in wait that the exit of slot `i` does not wake, beside a zombie whose parent is pid 1. */
  predicate Strands(ps: seq<Proc>, i: nat, q: nat, z: nat)
    requires i < |ps| && q < |ps| && z < |ps|
  {
    && AsleepInWait(ps[q]) && ps[q].ppid == ps[i].pid && ps[q].pid != ps[i].ppid
    && (z == i || ps[z].st.ZOMBIE?) && ps[z].ppid == 1
  }

  predicate StrandsNone(ps: seq<Proc>, i: nat)
    requires i < |ps|
  { forall q, z :: 0 <= q < |ps| && 0 <= z < |ps| ==> !Strands(ps, i, q, z) }

  /**
   * proc_exit writes 1 to the pid, not the ppid, of every child: live pids stay distinct exactly when
   * at most one live process is a child of the exiting one or already has pid 1.
   */
  lemma ExitKeepsPidsExactly(s: Sys)
    requires Inv(s) && s.cur.Some?
    ensures LivePidsDistinct(DoExit(s.procs, s.cur.value)) <==> PidsStayDistinct(s.procs, s.cur.value)
  {
    var ps, i := s.procs, s.cur.value;
    var rs := DoExit(ps, i);
    ExitSlot(s, 0);
    forall q: nat | q < |ps| ensures (Live(rs[q]) <==> q != i && Live(ps[q]))
      && rs[q].pid == (if ps[q].ppid == ps[i].pid then 1 else ps[q].pid)
      && (Live(rs[q]) ==> (rs[q].pid == 1 <==> BecomesOne(ps, i, q)))
    {
      ExitSlot(s, q);
    }
    hide DoExit;
    if LivePidsDistinct(rs) {
      forall j, k | 0 <= j < k < |ps| ensures !(BecomesOne(ps, i, j) && BecomesOne(ps, i, k)) {
        assert Live(rs[j]) && Live(rs[k]) ==> rs[j].pid != rs[k].pid;
      }
    }
  }

  /**
   * A renamed child that stays asleep in wait becomes the parent of every zombie whose parent was pid 1: no
   * zombie is lost exactly when there is no such child or no such zombie, the exiting process included.
   */
  lemma ExitStrandsExactly(s: Sys)
    requires Inv(s) && s.cur.Some?
    ensures NoLostZombie(DoExit(s.procs, s.cur.value)) <==> StrandsNone(s.procs, s.cur.value)
  {
    var ps, i := s.procs, s.cur.value;
    var rs := DoExit(ps, i);
    ExitSlot(s, 0);
    forall q: nat | q < |ps| ensures rs[q].ppid == ps[q].ppid
      && rs[q].pid == (if ps[q].ppid == ps[i].pid then 1 else ps[q].pid)
      && (rs[q].st.ZOMBIE? <==> q == i || ps[q].st.ZOMBIE?)
      && (AsleepInWait(rs[q]) <==> AsleepInWait(ps[q]) && ps[q].pid != ps[i].ppid)
    {
      ExitSlot(s, q);
    }
    hide DoExit;
    forall q, z | 0 <= q < |ps| && 0 <= z < |ps|
      ensures AsleepInWait(rs[q]) && ZombieChild(rs, z, rs[q].pid) <==> Strands(ps, i, q, z)
    {
      assert AsleepInWait(ps[q]) ==> !ZombieChild(ps, z, ps[q].pid);
    }
  }

  // ---------------------------------------------------------------- steps keep the invariant

  lemma ExitKeeps(s: Sys)
    requires Inv(s) && s.cur.Some? && StrandsNone(s.procs, s.cur.value) && PidsStayDistinct(s.procs, s.cur.value)
    ensures Inv(Leave(s, DoExit(s.procs, s.cur.value)))
  {
    var i, ps := s.cur.value, s.procs;
    var rs := DoExit(ps, i);
    ExitStrandsExactly(s);
    ExitKeepsPidsExactly(s);
    ExitSlot(s, 0);
    forall q: nat | q < |ps| ensures rs[q].ppid == ps[q].ppid && rs[q].pid < s.nextpid
      && (Live(rs[q]) ==> rs[q].ppid < rs[q].pid || rs[q].pid == 1)
      && (AsleepInWait(rs[q]) ==> rs[q].chan == Some(SlotOf(q)))
    {
      ExitSlot(s, q);
    }
  }

  lemma ForkKeeps(s: Sys)
    requires Inv(s) && s.cur.Some?
    ensures Inv(DoFork(s, s.cur.value))
  {
    var k := FirstUnused(s.procs, 0);
    if k < |s.procs| {
      var ps := DoFork(s, s.cur.value).procs;
      forall q, z | 0 <= q < |ps| && 0 <= z < |ps| && AsleepInWait(ps[q]) ensures !ZombieChild(ps, z, ps[q].pid) {
        assert AsleepInWait(s.procs[q]) && !ZombieChild(s.procs, z, s.procs[q].pid);
      }
    }
  }

  /** What a round of wait changes: states of the slot collected and of the waiting process. */
  lemma WaitChanges(s: Sys)
    requires Inv(s) && s.cur.Some?
    ensures var ps := DoWait(s, s.cur.value).procs; |ps| == |s.procs| && forall q :: 0 <= q < |ps| ==>
      && ps[q].pid == s.procs[q].pid && ps[q].ppid == s.procs[q].ppid && (Live(ps[q]) <==> Live(s.procs[q]))
  { hide WaitScan; }

  lemma SameLiveKeeps(ps: seq<Proc>, rs: seq<Proc>)
    requires |rs| == |ps| && LivePidsDistinct(ps) && ParentsOlder(ps)
    requires forall q :: 0 <= q < |ps| ==> rs[q].pid == ps[q].pid && rs[q].ppid == ps[q].ppid && (Live(rs[q]) <==> Live(ps[q]))
    ensures LivePidsDistinct(rs) && ParentsOlder(rs)
  {}

  lemma WaitKeeps(s: Sys)
    requires Inv(s) && s.cur.Some?
    ensures Inv(DoWait(s, s.cur.value))
  {
    hide WaitScan, ParentsOlder, LivePidsDistinct;
    var i := s.cur.value;
    var r := WaitScan(s.procs, s.procs[i].pid, 0, false);
    var ps := DoWait(s, i).procs;
    WaitChanges(s);
    SameLiveKeeps(s.procs, ps);
    forall q, z | 0 <= q < |ps| && 0 <= z < |ps| && AsleepInWait(ps[q]) ensures !ZombieChild(ps, z, ps[q].pid) {
      assert q != i ==> !ZombieChild(s.procs, z, s.procs[q].pid);
      assert !r.Collect? ==> !ZombieChild(s.procs, z, s.procs[i].pid);
    }
  }

  /** Changing states among live ones, without putting anybody to sleep in wait, keeps the invariant. */
  lemma LiveChangeKeeps(s: Sys, ps: seq<Proc>)
    requires Inv(s) && |ps| == |s.procs|
    requires forall q :: 0 <= q < |ps| ==>
               && ps[q].pid == s.procs[q].pid && ps[q].ppid == s.procs[q].ppid
               && (Live(ps[q]) <==> Live(s.procs[q])) && (ps[q].st.ZOMBIE? <==> s.procs[q].st.ZOMBIE?)
               && (AsleepInWait(ps[q]) ==> AsleepInWait(s.procs[q]) && ps[q].chan == s.procs[q].chan)
    ensures PidsBelow(ps, s.nextpid) && NoLostZombie(ps) && LivePidsDistinct(ps) && WaitChannels(ps) && ParentsOlder(ps)
  {
    forall q, z | 0 <= q < |ps| && 0 <= z < |ps| && AsleepInWait(ps[q]) ensures !ZombieChild(ps, z, ps[q].pid) {
      assert !ZombieChild(s.procs, z, s.procs[q].pid);
    }
  }

  /** An exit, if it happens now, strands no child and keeps live pids distinct. */
  predicate SafeExit(s: Sys, a: Act)
  { a.Exit? && Enabled(s, a) ==> StrandsNone(s.procs, s.cur.value) && PidsStayDistinct(s.procs, s.cur.value) }

  lemma StepKeepsInv(s: Sys, a: Act)
    requires Inv(s) && SafeExit(s, a)
    ensures Inv(Step(s, a))
  {
    if Enabled(s, a) {
      hide NoLostZombie, LivePidsDistinct, WaitChannels, PidsBelow, ParentsOlder, DoExit, DoFork, DoWait;
      match a
      case Exit => ExitKeeps(s);
      case Fork => ForkKeeps(s);
      case WaitRound => WaitKeeps(s);
      case Visit => VisitKeeps(s, a);
      case Wake(_) => VisitKeeps(s, a);
      case _ => StateChangeKeeps(s, a);
    }
  }

  /** The scheduler's look at a slot, and wakeups of devices. */
  lemma VisitKeeps(s: Sys, a: Act)
    requires Inv(s) && Enabled(s, a) && (a.Visit? || a.Wake?)
    ensures Inv(Step(s, a))
  {
    hide NoLostZombie, LivePidsDistinct, WaitChannels, PidsBelow, ParentsOlder;
    LiveChangeKeeps(s, Step(s, a).procs);
  }

  /** Steps of the running process that only change states among live ones. */
  lemma StateChangeKeeps(s: Sys, a: Act)
    requires Inv(s) && Enabled(s, a) && (a.Yield? || a.Sleep? || a.Exec? || a.Kill?)
    ensures Inv(Step(s, a))
  {
    hide NoLostZombie, LivePidsDistinct, WaitChannels, PidsBelow, ParentsOlder, DoExit, DoFork, DoWait;
    LiveChangeKeeps(s, Step(s, a).procs);
  }

  predicate Careful(s: Sys, run: seq<Act>)
    decreases |run|
  { run == [] || (SafeExit(s, run[0]) && Careful(Step(s, run[0]), run[1..])) }

  /** In every state of the run no zombie is lost and live pids are distinct. */
  ghost predicate AllSafe(s: Sys, run: seq<Act>)
    decreases |run|
  {
    && NoLostZombie(s.procs) && LivePidsDistinct(s.procs)
    && (run == [] || AllSafe(Step(s, run[0]), run[1..]))
  }

  lemma UnsafeExit(s: Sys, a: Act)
    requires Inv(s) && !SafeExit(s, a)
    ensures !NoLostZombie(Step(s, a).procs) || !LivePidsDistinct(Step(s, a).procs)
  {
    ExitStrandsExactly(s);
    ExitKeepsPidsExactly(s);
  }

  lemma SafeNow(s: Sys, run: seq<Act>)
    requires AllSafe(s, run)
    ensures NoLostZombie(s.procs) && LivePidsDistinct(s.procs)
  {}

  /**
   * Over every run on one CPU: no parent asleep in wait ever has an uncollected zombie child, and live
   * processes always have distinct pids, exactly when no exit strands a child or gives pid 1 to a second one.
   */
  lemma {:induction false} RunsSafeExactly(s: Sys, run: seq<Act>)
    requires Inv(s)
    ensures AllSafe(s, run) <==> Careful(s, run)
    ensures Careful(s, run) ==> Inv(Steps(s, run))
    decreases |run|
  {
    hide Inv, Step, NoLostZombie, LivePidsDistinct, SafeExit;
    InvGives(s);
    if run != [] {
      if SafeExit(s, run[0]) {
        StepKeepsInv(s, run[0]);
        RunsSafeExactly(Step(s, run[0]), run[1..]);
      } else {
        UnsafeExit(s, run[0]);
        if AllSafe(Step(s, run[0]), run[1..]) { SafeNow(Step(s, run[0]), run[1..]); }
      }
    }
  }

  /** Exits without live children are safe. */
  lemma OrderlyIsSafe(s: Sys, a: Act)
    requires Inv(s) && (a.Exit? ==> NoLiveChild(s))
    ensures SafeExit(s, a)
  {}

  lemma {:induction false} OrderlyIsCareful(s: Sys, run: seq<Act>)
    requires Inv(s) && Orderly(s, run)
    ensures Careful(s, run)
    decreases |run|
  {
    hide Inv, Step, SafeExit, NoLiveChild;
    if run != [] {
      OrderlyIsSafe(s, run[0]);
      StepKeepsInv(s, run[0]);
      OrderlyIsCareful(Step(s, run[0]), run[1..]);
    }
  }

  /** In particular over every run in which processes exit without live children. */
  lemma RunsLoseNoZombie(s: Sys, run: seq<Act>)
    requires Inv(s) && Orderly(s, run)
    ensures Inv(Steps(s, run)) && AllSafe(s, run)
    ensures NoLostZombie(Steps(s, run).procs) && LivePidsDistinct(Steps(s, run).procs)
  {
    hide Inv;
    OrderlyIsCareful(s, run);
    RunsSafeExactly(s, run);
    InvGives(Steps(s, run));
  }

  lemma InvGives(s: Sys)
    requires Inv(s)
    ensures NoLostZombie(s.procs) && LivePidsDistinct(s.procs)
  {}

  // ---------------------------------------------------------------- proc_wait

  /**
   * The scan collects the first zombie child if there is one; it returns -1 exactly on an empty table, so
   * never, and sleeps otherwise: havekids is set by any slot.
   */
  lemma WaitEndsExactly(ps: seq<Proc>, pid: int)
    ensures var r := WaitScan(ps, pid, 0, false);
      && (r.Collect? <==> exists z :: 0 <= z < |ps| && ZombieChild(ps, z, pid))
      && (r.MinusOne? <==> ps == [])
      && (r.GoToSleep? <==> ps != [] && forall z :: 0 <= z < |ps| ==> !ZombieChild(ps, z, pid))
  {
    var r := WaitScan(ps, pid, 0, false);
    if ps != [] && !ZombieChild(ps, 0, pid) { WaitSawOne(ps, pid, 1); }
  }

  lemma {:induction false} WaitSawOne(ps: seq<Proc>, pid: int, k: nat)
    requires k <= |ps|
    ensures !WaitScan(ps, pid, k, true).MinusOne?
    decreases |ps| - k
  { if k < |ps| { WaitSawOne(ps, pid, k + 1); } }

  /** wait collects a zombie child whenever there is one, the first, and keeps the CPU. */
  lemma WaitCollects(s: Sys, z: nat)
    requires s.cur.Some? && s.cur.value < |s.procs| && z < |s.procs| && ZombieChild(s.procs, z, s.procs[s.cur.value].pid)
    ensures var i := s.cur.value; var r := WaitScan(s.procs, s.procs[i].pid, 0, false);
      && r.Collect? && r.z <= z && DoWait(s, i).cur == s.cur && |DoWait(s, i).procs| == |s.procs|
      && DoWait(s, i).procs[r.z].st.UNUSED?
      && forall j :: 0 <= j < |s.procs| && j != r.z && j != i ==> DoWait(s, i).procs[j] == s.procs[j]
  { WaitEndsExactly(s.procs, s.procs[s.cur.value].pid); }

  /** wait sleeps exactly when there is no zombie child, children or not. */
  lemma WaitSleepsExactly(s: Sys)
    requires s.cur.Some? && s.cur.value < |s.procs|
    ensures DoWait(s, s.cur.value).cur == None
       <==> forall z :: 0 <= z < |s.procs| ==> !ZombieChild(s.procs, z, s.procs[s.cur.value].pid)
    ensures DoWait(s, s.cur.value).cur == None ==>
      |DoWait(s, s.cur.value).procs| == |s.procs| && AsleepInWait(DoWait(s, s.cur.value).procs[s.cur.value])
  { WaitEndsExactly(s.procs, s.procs[s.cur.value].pid); }

  /** So wait without children does not return. */
  lemma WaitWithoutChildrenSleeps(s: Sys)
    requires s.cur.Some? && s.cur.value < |s.procs|
    requires forall k :: 0 <= k < |s.procs| ==> s.procs[k].st.UNUSED? || s.procs[k].ppid != s.procs[s.cur.value].pid
    ensures |DoWait(s, s.cur.value).procs| == |s.procs|
    ensures AsleepInWait(DoWait(s, s.cur.value).procs[s.cur.value]) && DoWait(s, s.cur.value).cur == None
  { WaitSleepsExactly(s); }

  // ---------------------------------------------------------------- round robin

  /** The step dispatches slot q. */
  predicate Dispatches(s: Sys, a: Act, q: nat)
  { a.Visit? && Enabled(s, a) && s.scan == q && s.procs[q].st.RUNNABLE? }

  predicate NeverDispatches(s: Sys, run: seq<Act>, q: nat)
    decreases |run|
  { run == [] || (!Dispatches(s, run[0], q) && NeverDispatches(Step(s, run[0]), run[1..], q)) }

  /** Slots the scan passes going from a to b. */
  function Ahead(a: nat, b: nat, n: nat): int { if a <= b then b - a else b - a + n }

  /** q has been RUNNABLE since p was dispatched, and the scan will come to q before it comes to p again. */
  predicate Waits(s: Sys, p: nat, q: nat)
  {
    var n := |s.procs|;
    && p < n && q < n && p != q && s.scan < n
    && s.procs[q].st.RUNNABLE? && (s.cur.Some? ==> s.cur.value == s.scan && s.scan != q)
    && (if s.scan == p then s.cur == Some(p) else Ahead(s.scan, q, n) < Ahead(s.scan, p, n))
  }

  lemma StepKeepsWaiting(s: Sys, a: Act, p: nat, q: nat)
    requires Waits(s, p, q) && !Dispatches(s, a, q)
    ensures Waits(Step(s, a), p, q)
  {
    if Enabled(s, a) && a.Exit? { ExitKeepsRunnable(s, q); }
  }

  lemma ExitKeepsRunnable(s: Sys, q: nat)
    requires s.cur.Some? && s.cur.value < |s.procs| && q < |s.procs| && q != s.cur.value && s.procs[q].st.RUNNABLE?
    ensures |DoExit(s.procs, s.cur.value)| == |s.procs| && DoExit(s.procs, s.cur.value)[q].st.RUNNABLE?
  {
    var zs := s.procs[s.cur.value := s.procs[s.cur.value].(st := ZOMBIE)];
    WakeParentsAt(zs, s.procs[s.cur.value].ppid, |zs|, q);
    AbandonKeepsState(WakeParents(zs, s.procs[s.cur.value].ppid, |zs|), s.cur.value, |zs|, q);
  }

  lemma {:induction false} AbandonKeepsState(ps: seq<Proc>, i: nat, k: nat, q: nat)
    requires i < |ps| && k <= |ps| && q < |ps|
    ensures Abandon(ps, i, k)[q].st == ps[q].st
  { if k > 0 { AbandonKeepsState(ps, i, k - 1, q); } }

  /**
   * Bounded waiting: while a process that was RUNNABLE when p was dispatched has not been dispatched
   * itself, p is not dispatched again, whatever the processes and interrupts do.
   */
  lemma {:induction false} BoundedWaiting(s: Sys, run: seq<Act>, p: nat, q: nat, a: Act)
    requires p < |s.procs| && q < |s.procs| && p != q
    requires s.cur == Some(p) && s.scan == p && s.procs[q].st.RUNNABLE?
    requires NeverDispatches(s, run, q)
    ensures !Dispatches(Steps(s, run), a, p)
  {
    WaitsThroughout(s, run, p, q);
  }

  lemma {:induction false} WaitsThroughout(s: Sys, run: seq<Act>, p: nat, q: nat)
    requires Waits(s, p, q) && NeverDispatches(s, run, q)
    ensures Waits(Steps(s, run), p, q)
    decreases |run|
  {
    hide Waits, Step, Dispatches;
    if run != [] {
      StepKeepsWaiting(s, run[0], p, q);
      WaitsThroughout(Step(s, run[0]), run[1..], p, q);
    }
  }

  // ---------------------------------------------------------------- proc.c

  /** After userinit: slot 0 is RUNNABLE with pid 1, every other slot is UNUSED. */
  predicate Booted(s: Sys)
  {
    && s.procs != [] && s.cur == None && s.scan == 0 && s.nextpid == 2
    && s.procs[0].st.RUNNABLE? && s.procs[0].pid == 1 && !s.procs[0].waiting
    && forall k :: 0 < k < |s.procs| ==> s.procs[k].st.UNUSED? && s.procs[k].pid == 0
  }

  lemma BootedInv(s: Sys)
    requires Booted(s)
    ensures Inv(s)
  {}

  // ---------------------------------------------------------------- a lost zombie

  lemma {:induction false} StepsAppend(s: Sys, a: seq<Act>, b: seq<Act>)
    ensures Steps(s, a + b) == Steps(Steps(s, a), b)
    decreases |a|
  {
    hide Step;
    if a == [] {
      assert a + b == b;
    } else {
      assert (a + b)[0] == a[0] && (a + b)[1..] == a[1..] + b;
      StepsAppend(Step(s, a[0]), a[1..], b);
    }
  }

  function Visits(n: nat): seq<Act> { if n == 0 then [] else [Visit] + Visits(n - 1) }

  /** The scan passes slots that are not RUNNABLE, back to slot 0. */
  lemma {:induction false} ScanPasses(s: Sys, n: nat)
    requires s.cur.None? && s.scan < |s.procs| && n == |s.procs| - s.scan
    requires forall k :: s.scan <= k < |s.procs| ==> !s.procs[k].st.RUNNABLE?
    ensures Steps(s, Visits(n)) == s.(scan := 0)
    decreases n
  {
    var s1 := Step(s, Visit);
    assert s1 == s.(scan := NextSlot(s));
    assert Visits(n)[0] == Visit && Visits(n)[1..] == Visits(n - 1);
    if n > 1 { ScanPasses(s1, n - 1); } else { assert Steps(s1, []) == s1; }
  }

  /** Process 1, its child 2, and the child 3 of that, which sleeps in wait; the scan is at slot `at`. */
  predicate ThreeGenerations(s: Sys, at: nat)
  {
    && 3 <= |s.procs| && s.cur == None && s.scan == at
    && s.procs[0].st.RUNNABLE? && s.procs[0].pid == 1 && !s.procs[0].waiting
    && s.procs[1].st.RUNNABLE? && s.procs[1].pid == 2 && s.procs[1].ppid == 1 && !s.procs[1].waiting
    && AsleepInWait(s.procs[2]) && s.procs[2].pid == 3 && s.procs[2].ppid == 2 && s.procs[2].chan == Some(SlotOf(2))
    && forall k :: 3 <= k < |s.procs| ==> s.procs[k].st.UNUSED?
  }

  /** Process 1 and its child 2, which is running. */
  predicate TwoGenerations(s: Sys)
  {
    && 3 <= |s.procs| && s.cur == Some(1) && s.scan == 1 && s.nextpid == 3
    && s.procs[0].st.RUNNABLE? && s.procs[0].pid == 1 && !s.procs[0].waiting
    && s.procs[1].st.RUNNING? && s.procs[1].pid == 2 && s.procs[1].ppid == 1 && !s.procs[1].waiting
    && forall k :: 2 <= k < |s.procs| ==> s.procs[k].st.UNUSED?
  }

  lemma FirstGeneration(s: Sys)
    requires Booted(s) && 3 <= |s.procs|
    ensures TwoGenerations(Steps(s, [Visit, Fork, Yield, Visit]))
  {
    var s1 := Step(s, Visit);
    var s2 := Step(s1, Fork);
    assert FirstUnused(s1.procs, 0) == 1;
    var s3 := Step(s2, Yield);
    StepsFour(s, Visit, Fork, Yield, Visit);
  }

  lemma StepsFour(s: Sys, a: Act, b: Act, c: Act, d: Act)
    ensures Steps(s, [a, b, c, d]) == Step(Step(Step(Step(s, a), b), c), d)
  {
    hide Step, Steps;
    var s1, s2, s3 := Step(s, a), Step(Step(s, a), b), Step(Step(Step(s, a), b), c);
    assert [a, b, c, d] == [a] + [b, c, d] && [b, c, d] == [b] + [c, d] && [c, d] == [c] + [d] && [d] == [d] + [];
    StepsCons(s, a, [b, c, d]);
    StepsCons(s1, b, [c, d]);
    StepsCons(s2, c, [d]);
    StepsCons(s3, d, []);
  }

  lemma StepsCons(s: Sys, a: Act, run: seq<Act>)
    ensures Steps(s, [a] + run) == Steps(Step(s, a), run)
    ensures Steps(s, []) == s && Steps(Step(s, a), []) == Step(s, a)
  {
    hide Step;
    assert ([a] + run)[0] == a && ([a] + run)[1..] == run;
  }

  lemma SecondGeneration(s: Sys)
    requires TwoGenerations(s)
    ensures |Steps(s, [Fork, Yield, Visit, WaitRound]).procs| == |s.procs|
    ensures ThreeGenerations(Steps(s, [Fork, Yield, Visit, WaitRound]), if |s.procs| == 3 then 0 else 3)
  {
    var s1 := Step(s, Fork);
    assert s.procs[2].st.UNUSED?;
    assert FirstUnused(s.procs, 0) == 2;
    var s2 := Step(s1, Yield);
    var s3 := Step(s2, Visit);
    assert s3.cur == Some(2) && s3.procs[2].pid == 3;
    WaitEndsExactly(s3.procs, 3);
    StepsFour(s, Fork, Yield, Visit, WaitRound);
  }

  lemma MiddleExits(s: Sys)
    requires ThreeGenerations(s, 0)
    ensures !NoLostZombie(Steps(s, [Visit, Yield, Visit, Exit]).procs)
    ensures !LivePidsDistinct(Steps(s, [Visit, Yield, Visit, Exit]).procs)
  {
    var s1 := Step(s, Visit);
    var s2 := Step(s1, Yield);
    var s3 := Step(s2, Visit);
    assert s3.cur == Some(1) && s3.procs[1].pid == 2 && s3.procs[1].st.RUNNING? && !s3.procs[1].waiting;
    ExitAt(s3.procs, 1, 0);
    ExitAt(s3.procs, 1, 1);
    ExitAt(s3.procs, 1, 2);
    var ps := DoExit(s3.procs, 1);
    assert AsleepInWait(ps[2]) && ps[2].pid == 1 && ZombieChild(ps, 1, 1);
    assert Live(ps[0]) && Live(ps[2]) && ps[0].pid == ps[2].pid;
    StepsFour(s, Visit, Yield, Visit, Exit);
  }

  /**
   * Such an exit is reachable from boot: process 1 forks 2, 2 forks 3, 3 waits, and 2 exits. Then 3 bears
   * pid 1 beside process 1, sleeps in wait, and has the zombie 2 for a child that it will not collect.
   */
  lemma BootLosesZombie(s: Sys)
    requires Booted(s) && 3 <= |s.procs|
    ensures exists run: seq<Act> :: !NoLostZombie(Steps(s, run).procs) && !LivePidsDistinct(Steps(s, run).procs)
  {
    hide Step, Booted, TwoGenerations, ThreeGenerations, NoLostZombie, LivePidsDistinct;
    var r1, r2 := [Visit, Fork, Yield, Visit], [Fork, Yield, Visit, WaitRound];
    FirstGeneration(s);
    var s1 := Steps(s, r1);
    SecondGeneration(s1);
    var s2 := Steps(s1, r2);
    AtLeastThree(s1);
    var r3 := BackToStart(s2, if |s1.procs| == 3 then 0 else 3);
    var s3 := Steps(s2, r3);
    MiddleExits(s3);
    var r4 := [Visit, Yield, Visit, Exit];
    StepsAppend(s, r1, r2);
    StepsAppend(s, r1 + r2, r3);
    StepsAppend(s, r1 + r2 + r3, r4);
    assert Steps(s, r1 + r2 + r3 + r4) == Steps(s3, r4);
  }

  lemma AtLeastThree(s: Sys)
    requires TwoGenerations(s)
    ensures 3 <= |s.procs|
  {}

  lemma BackToStart(s: Sys, at: nat) returns (run: seq<Act>)
    requires ThreeGenerations(s, at) && (at == 0 || at == 3 < |s.procs|)
    ensures ThreeGenerations(Steps(s, run), 0)
  {
    if at == 0 {
      run := [];
    } else {
      run := Visits(|s.procs| - 3);
      ScanPasses(s, |s.procs| - 3);
    }
  }

  class ProcTable {
    var procs: seq<Proc>
    var nextpid: int

    constructor (procs: seq<Proc>, nextpid: int)
      ensures this.procs == procs && this.nextpid == nextpid
    { this.procs, this.nextpid := procs, nextpid; }

    method WakeupOn(ch: Chan)
      modifies this`procs
      ensures procs == Wakeup(old(procs), ch)
    {
      var k := 0;
      while k < |procs|
        invariant 0 <= k <= |procs| == |old(procs)|
        invariant forall j :: 0 <= j < |procs| ==> procs[j] == if j < k then Woken(old(procs)[j], ch) else old(procs)[j]
      {
        if procs[k].st.SLEEPING? && procs[k].chan == Some(ch) {
          procs := procs[k := procs[k].(st := RUNNABLE)];
        }
        k := k + 1;
      }
    }

    /** proc_exit of slot `i`, up to its call of sched; closing descriptors is left out. */
    method ProcExit(i: nat)
      requires i < |procs|
      modifies this`procs
      ensures procs == DoExit(old(procs), i)
    {
      var ppid := procs[i].ppid;
      procs := procs[i := procs[i].(st := ZOMBIE)];
      ghost var zs := procs;
      var k := 0;
      while k < |procs|
        invariant 0 <= k <= |zs| == |procs| && procs == WakeParents(zs, ppid, k)
      {
        WakeParentsPid(zs, ppid, k, k);
        if procs[k].pid == ppid { WakeupOn(SlotOf(k)); }
        k := k + 1;
      }
      ghost var ws := procs;
      k := 0;
      while k < |procs|
        invariant 0 <= k <= |procs| == |ws| && i < |ws| && procs == Abandon(ws, i, k)
      {
        if procs[k].ppid == procs[i].pid { procs := procs[k := procs[k].(pid := 1)]; }
        k := k + 1;
      }
    }

    /** The scan of proc_wait, which collects what it finds. */
    method CollectZombie(i: nat) returns (r: WaitEnd)
      requires i < |procs|
      modifies this`procs
      ensures r == WaitScan(old(procs), old(procs)[i].pid, 0, false)
      ensures procs == if r.Collect? then old(procs)[r.z := old(procs)[r.z].(st := UNUSED)] else old(procs)
    {
      var havekids, z := false, 0;
      while z < |procs|
        invariant 0 <= z <= |procs| && procs == old(procs)
        invariant WaitScan(procs, procs[i].pid, z, havekids) == WaitScan(procs, procs[i].pid, 0, false)
      {
        if procs[z].st.ZOMBIE? && procs[z].ppid == procs[i].pid {
          procs := procs[z := procs[z].(st := UNUSED)];
          return Collect(z);
        }
        havekids := true;
        z := z + 1;
      }
      r := if havekids then GoToSleep else MinusOne;
    }

    method ProcKill(pid: int) returns (r: int)
      modifies this`procs
      ensures procs == DoKill(old(procs), pid)
      ensures r == if exists k :: 0 <= k < |old(procs)| && old(procs)[k].pid == pid && !old(procs)[k].st.UNUSED? then 0 else -1
    {
      var k := 0;
      while k < |procs|
        invariant 0 <= k <= |procs| && procs == old(procs) && FirstPid(procs, pid, k) == FirstPid(procs, pid, 0)
        invariant forall j :: 0 <= j < k ==> procs[j].pid != pid || procs[j].st.UNUSED?
      {
        if procs[k].pid == pid && !procs[k].st.UNUSED? {
          procs := procs[k := procs[k].(killed := true)];
          if procs[k].st.SLEEPING? { procs := procs[k := procs[k].(st := RUNNABLE)]; }
          assert procs == DoKill(old(procs), pid);
          return 0;
        }
        k := k + 1;
      }
      r := -1;
    }

    /** allocproc, copyproc and sys_fork on the process table; false is the null pointer of allocproc. */
    method ForkFrom(i: nat) returns (ok: bool)
      requires i < |procs|
      modifies this
      ensures forall cur, scan :: var s := Sys(old(procs), cur, scan, old(nextpid));
        DoFork(s, i) == Sys(procs, cur, scan, nextpid)
    {
      var k := 0;
      while k < |procs|
        invariant 0 <= k <= |procs| && procs == old(procs) && nextpid == old(nextpid)
        invariant FirstUnused(procs, k) == FirstUnused(procs, 0)
      {
        if procs[k].st.UNUSED? {
          procs := procs[k := procs[k].(pid := nextpid, ppid := procs[i].pid, st := RUNNABLE, waiting := false)];
          nextpid := nextpid + 1;
          return true;
        }
        k := k + 1;
      }
      ok := false;
    }
  }

  lemma {:induction false} WakeParentsPid(ps: seq<Proc>, ppid: int, k: nat, q: nat)
    requires k <= |ps| && q < |ps|
    ensures WakeParents(ps, ppid, k)[q].pid == ps[q].pid
  { WakeParentsAt(ps, ppid, k, q); }
}
