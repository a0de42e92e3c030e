module ProcTable {

  /* The process table of proc.c as a state machine.

     Every action is one critical section under ptable.lock, one of the unlocked
     stores fork makes in an EMBRYO slot, or one timer interrupt.  A run is any
     sequence of enabled actions, so it covers every interleaving of processes and
     processors.  A slot number stands for a struct proc pointer, -1 for null. */

  import opened Policies

  datatype Action =
    | AllocProc(p: nat, np: nat)      // fork by p: allocproc
    | ForkFail(np: nat)               // no memory for the child
    | ForkSetParent(np: nat)
    | ForkDone(np: nat)
    | Exit(p: nat)
    | Wait(p: nat)                    // one pass of the loop in wait
    | Sleep(p: nat, id: int)          // sleep on anything but a process
    | Wakeup(id: int)
    | Kill(pid: int)
    | Yield(p: nat)
    | Dispatch(p: nat, seen: nat)     // the scheduler, having read `seen` from ticks
    | Timer(cur: int)                 // cpu 0 is interrupted while running cur
    | TimerElsewhere(p: nat)          // another cpu is interrupted
    | Nice(p: nat)
    | ExecImage(p: nat)               // exec commits to the new image

  datatype System = System(
    strategy: nat,
    smp: bool,
    ticks: nat,
    nextpid: int,
    procs: seq<Proc>,
    exited: set<int>,   // pids that have called exit
    reaped: seq<int>)   // pids returned by wait, in order

  const INIT: int := 0

  function Init(strategy: nat, smp: bool, n: nat): System
    requires n > 0
  {
    System(strategy, smp, 0, 2, seq(n, i => if i == INIT then FreshProc(1, 0).(state := RUNNABLE) else EmptyProc),
           {}, [])
  }

  predicate Slot(s: System, p: int) {
    0 <= p < |s.procs|
  }

  predicate Running(s: System, p: int) {
    Slot(s, p) && s.procs[p].state.RUNNING?
  }

  /** p is inside fork, which neither exits nor waits. */
  ghost predicate Forking(s: System, p: int) {
    exists np :: 0 <= np < |s.procs| && s.procs[np].state.EMBRYO? && s.procs[np].maker == p
  }

  ghost predicate Enabled(s: System, a: Action) {
    match a
    case AllocProc(p, np) => Running(s, p) && !Forking(s, p) && Slot(s, np) && np == FirstUnused(s.procs)
    case ForkFail(np) =>
      Slot(s, np) && s.procs[np].state.EMBRYO? && Running(s, s.procs[np].maker) && s.procs[np].parent == -1
    case ForkSetParent(np) =>
      Slot(s, np) && s.procs[np].state.EMBRYO? && Running(s, s.procs[np].maker)
    case ForkDone(np) =>
      && Slot(s, np) && s.procs[np].state.EMBRYO? && Running(s, s.procs[np].maker)
      && s.procs[np].parent == s.procs[np].maker
    case Exit(p) => Running(s, p) && p != INIT && !Forking(s, p)
    case Wait(p) => Running(s, p) && !Forking(s, p)
    case Sleep(p, id) => Running(s, p)
    case Wakeup(id) => true
    case Kill(pid) => true
    case Yield(p) => Running(s, p)
    case Dispatch(p, seen) =>
      && Slot(s, p) && s.procs[p].state.RUNNABLE? && seen <= s.ticks
      && (s.smp || forall q :: 0 <= q < |s.procs| ==> !s.procs[q].state.RUNNING?)
      && MayDispatch(s.strategy, s.procs, s.ticks, seen, p)
    case Timer(cur) =>
      if cur == -1 then s.smp || forall q :: 0 <= q < |s.procs| ==> !s.procs[q].state.RUNNING?
      else Running(s, cur)
    case TimerElsewhere(p) => s.smp && Running(s, p)
    case Nice(p) => Running(s, p)
    case ExecImage(p) => Running(s, p)
  }

  ghost function Do(s: System, a: Action): System
    requires Enabled(s, a)
  {
    match a
    case AllocProc(p, np) =>
      s.(nextpid := s.nextpid + 1,
         procs := s.procs[np := FreshProc(s.nextpid, s.ticks).(maker := p, killed := s.procs[np].killed)])
    case ForkFail(np) => s.(procs := s.procs[np := s.procs[np].(state := UNUSED)])
    case ForkSetParent(np) => s.(procs := s.procs[np := s.procs[np].(parent := s.procs[np].maker)])
    case ForkDone(np) => s.(procs := s.procs[np := Enqueued(s.procs[np], s.ticks)])
    case Exit(p) => s.(procs := AfterExit(s.procs, p, INIT, s.ticks), exited := s.exited + {s.procs[p].pid})
    case Wait(p) =>
      var z := ZombieChild(s.procs, p);
      if z >= 0 then s.(procs := s.procs[z := Freed(s.procs[z])], reaped := s.reaped + [s.procs[z].pid])
      else if !HasKids(s.procs, p) || s.procs[p].killed then s
      else s.(procs := s.procs[p := s.procs[p].(state := SLEEPING, chan := ProcChan(p))])
    case Sleep(p, id) => s.(procs := s.procs[p := s.procs[p].(state := SLEEPING, chan := Other(id))])
    case Wakeup(id) => s.(procs := Woken(s.procs, Other(id), s.ticks))
    case Kill(pid) => s.(procs := Killed(s.procs, pid, s.ticks))
    case Yield(p) => s.(procs := s.procs[p := Enqueued(s.procs[p], s.ticks)])
    case Dispatch(p, seen) => s.(procs := s.procs[p := Dispatched(s.strategy, s.procs[p], s.ticks)])
    case Timer(cur) =>
      s.(ticks := s.ticks + 1, procs := if cur == -1 then s.procs else s.procs[cur := Charged(s.procs[cur])])
    case TimerElsewhere(p) => s.(procs := s.procs[p := Charged(s.procs[p])])
    case Nice(p) => s.(procs := s.procs[p := Lowered(s.procs[p], s.ticks)])
    case ExecImage(p) => s.(procs := s.procs[p := s.procs[p].(ctime := s.ticks)])
  }

  ghost predicate Feasible(s: System, run: seq<Action>)
    decreases |run|
  {
    run == [] || (Enabled(s, run[0]) && Feasible(Do(s, run[0]), run[1..]))
  }

  ghost function Exec(s: System, run: seq<Action>): System
    requires Feasible(s, run)
    decreases |run|
  {
    if run == [] then s else Exec(Do(s, run[0]), run[1..])
  }

  // ----- Invariants -----------------------------------------------------------

  /** Past fork and before exit. */
  predicate Live(p: Proc) {
    p.state.SLEEPING? || p.state.RUNNABLE? || p.state.RUNNING?
  }

  predicate LiveSlot(procs: seq<Proc>, p: int) {
    0 <= p < |procs| && Live(procs[p])
  }

  /** A process that has left fork has a live parent; one still in fork is being
      made by a live process. */
  predicate Family(procs: seq<Proc>, i: nat)
    requires i < |procs|
  {
    var p := procs[i];
    match p.state
    case UNUSED => p.parent == -1
    case EMBRYO => LiveSlot(procs, p.maker) && (p.parent == -1 || p.parent == p.maker)
    case _ => if i == INIT then p.parent == -1 else LiveSlot(procs, p.parent) && p.parent != i
  }

  ghost predicate FamilyInv(procs: seq<Proc>) {
    LiveSlot(procs, INIT) && forall i: nat :: i < |procs| ==> Family(procs, i)
  }

  predicate AsleepInWait(procs: seq<Proc>, p: int) {
    0 <= p < |procs| && procs[p].state.SLEEPING? && procs[p].chan == ProcChan(p)
  }

  /** Nobody sleeps in wait on behalf of another, or with a zombie to reap. */
  ghost predicate WaitInv(procs: seq<Proc>) {
    && (forall i: nat :: i < |procs| && procs[i].state.SLEEPING? && procs[i].chan.ProcChan? ==> procs[i].chan.p == i)
    && (forall c: nat :: c < |procs| && procs[c].state.ZOMBIE? ==> !AsleepInWait(procs, procs[c].parent))
  }

  ghost predicate PidInv(s: System) {
    && (forall i: nat :: i < |s.procs| && !s.procs[i].state.UNUSED? ==> s.procs[i].pid < s.nextpid)
    && (forall i: nat, j: nat :: i < j < |s.procs| && !s.procs[i].state.UNUSED? && !s.procs[j].state.UNUSED? ==>
          s.procs[i].pid != s.procs[j].pid)
    && (forall pid :: pid in s.exited ==> pid < s.nextpid)
  }

  /** Every pid that exited is a zombie's or has been returned by wait, never both,
      and none is returned twice. */
  ghost predicate ReapInv(s: System) {
    && (forall i: nat :: i < |s.procs| && s.procs[i].state.ZOMBIE? ==>
          s.procs[i].pid in s.exited && s.procs[i].pid !in s.reaped)
    && (forall i: nat :: i < |s.procs| && (Live(s.procs[i]) || s.procs[i].state.EMBRYO?) ==> s.procs[i].pid !in s.exited)
    && (forall i: nat, j: nat :: i < j < |s.reaped| ==> s.reaped[i] != s.reaped[j])
    && (forall i: nat :: i < |s.reaped| ==> s.reaped[i] in s.exited)
    && (forall pid :: pid in s.exited && pid !in s.reaped ==> HasZombie(s.procs, pid))
  }

  ghost predicate HasZombie(procs: seq<Proc>, pid: int) {
    exists i :: 0 <= i < |procs| && procs[i].state.ZOMBIE? && procs[i].pid == pid
  }

  /** Same pid, parent and maker, and the same stage of life. */
  predicate SameKin(p: Proc, q: Proc) {
    && p.pid == q.pid && p.parent == q.parent && p.maker == q.maker
    && (Live(p) <==> Live(q)) && (p.state == q.state || Live(p))
  }

  ghost predicate Quiet(procs: seq<Proc>, procs': seq<Proc>) {
    |procs'| == |procs| && forall i: nat :: i < |procs| ==> SameKin(procs[i], procs'[i])
  }

  lemma QuietKeepsFamily(procs: seq<Proc>, procs': seq<Proc>)
    requires FamilyInv(procs) && Quiet(procs, procs')
    ensures FamilyInv(procs')
  {
    assert SameKin(procs[INIT], procs'[INIT]);
    forall i: nat | i < |procs|
      ensures Family(procs', i)
    {
      assert Family(procs, i) && SameKin(procs[i], procs'[i]);
      var m, q := procs[i].maker, procs[i].parent;
      assert LiveSlot(procs, m) ==> SameKin(procs[m], procs'[m]);
      assert LiveSlot(procs, q) ==> SameKin(procs[q], procs'[q]);
    }
  }

  predicate IsQuiet(s: System, a: Action) {
    match a
    case AllocProc(_, _) => false
    case ForkFail(_) => false
    case ForkSetParent(_) => false
    case ForkDone(_) => false
    case Exit(_) => false
    case Wait(p) => ZombieChild(s.procs, p) < 0
    case _ => true
  }

  lemma QuietAt(s: System, a: Action, i: nat)
    requires Enabled(s, a) && IsQuiet(s, a) && i < |s.procs|
    ensures |Do(s, a).procs| == |s.procs| && SameKin(s.procs[i], Do(s, a).procs[i])
  {
  }

  lemma QuietStep(s: System, a: Action)
    requires Enabled(s, a) && IsQuiet(s, a)
    ensures var t := Do(s, a);
            Quiet(s.procs, t.procs) && t.nextpid == s.nextpid && t.exited == s.exited && t.reaped == s.reaped
  {
    var t := Do(s, a);
    assert |t.procs| == |s.procs|;
    forall i: nat | i < |s.procs|
      ensures SameKin(s.procs[i], t.procs[i])
    {
      QuietAt(s, a, i);
    }
  }

  /** A change to one slot whose process is nobody's parent or maker. */
  lemma FamilyUpdate(procs: seq<Proc>, k: nat, r: Proc)
    requires FamilyInv(procs) && k < |procs| && !Live(procs[k]) && Family(procs[k := r], k)
    ensures FamilyInv(procs[k := r])
  {
    var procs' := procs[k := r];
    forall i: nat | i < |procs|
      ensures Family(procs', i)
    {
      assert Family(procs, i);
    }
  }

  lemma FamilyStep(s: System, a: Action)
    requires FamilyInv(s.procs) && Enabled(s, a)
    ensures FamilyInv(Do(s, a).procs)
  {
    if IsQuiet(s, a) {
      QuietStep(s, a);
      QuietKeepsFamily(s.procs, Do(s, a).procs);
    } else if a.Exit? {
      FamilyExit(s, a.p);
    } else {
      FamilyOne(s, a);
    }
  }

  lemma FamilyOne(s: System, a: Action)
    requires FamilyInv(s.procs) && Enabled(s, a) && !IsQuiet(s, a) && !a.Exit?
    ensures FamilyInv(Do(s, a).procs)
  {
    var t := Do(s, a);
    var k := if a.Wait? then ZombieChild(s.procs, a.p) else a.np;
    assert Family(s.procs, k);
    assert t.procs == s.procs[k := t.procs[k]];
    FamilyUpdate(s.procs, k, t.procs[k]);
  }

  /** What exit does to slot i, besides waking up. */
  lemma ExitAt(procs: seq<Proc>, p: nat, ticks: nat, i: nat)
    requires p < |procs| && i < |procs|
    ensures var q, r := procs[i], AfterExit(procs, p, INIT, ticks)[i];
            && r.pid == q.pid && r.maker == q.maker
            && r.parent == (if q.parent == p then INIT else q.parent)
            && (if i == p then r.state.ZOMBIE? else (Live(r) <==> Live(q)) && (r.state == q.state || Live(q)))
            && (AsleepInWait(AfterExit(procs, p, INIT, ticks), i) ==> AsleepInWait(procs, i) && i != p)
            && (r.state.SLEEPING? ==> r.chan == q.chan && q.state.SLEEPING?)
  {
  }

  /** exit hands every child to init, so that nobody is left with a dead parent. */
  lemma FamilyExit(s: System, p: nat)
    requires FamilyInv(s.procs) && Enabled(s, Exit(p))
    ensures FamilyInv(Do(s, Exit(p)).procs)
  {
    var procs, procs' := s.procs, Do(s, Exit(p)).procs;
    ExitAt(procs, p, s.ticks, INIT);
    forall i: nat | i < |procs|
      ensures Family(procs', i)
    {
      assert Family(procs, i);
      ExitAt(procs, p, s.ticks, i);
      var m, q := procs[i].maker, procs[i].parent;
      if 0 <= m < |procs| {
        ExitAt(procs, p, s.ticks, m);
      }
      if 0 <= q < |procs| {
        ExitAt(procs, p, s.ticks, q);
      }
    }
  }

  /** Only allocproc gives a slot a new pid. */
  lemma PidsKept(s: System, a: Action, i: nat)
    requires Enabled(s, a) && !a.AllocProc? && i < |s.procs|
    ensures |Do(s, a).procs| == |s.procs|
    ensures var q, r := s.procs[i], Do(s, a).procs[i];
            !r.state.UNUSED? ==> !q.state.UNUSED? && r.pid == q.pid
  {
    if IsQuiet(s, a) {
      QuietStep(s, a);
      assert SameKin(s.procs[i], Do(s, a).procs[i]);
    } else if a.Exit? {
      ExitAt(s.procs, a.p, s.ticks, i);
    }
  }

  lemma PidStep(s: System, a: Action)
    requires PidInv(s) && Enabled(s, a)
    ensures PidInv(Do(s, a))
  {
    if !a.AllocProc? {
      forall i: nat | i < |s.procs|
        ensures !Do(s, a).procs[i].state.UNUSED? ==>
                  !s.procs[i].state.UNUSED? && Do(s, a).procs[i].pid == s.procs[i].pid
      {
        PidsKept(s, a, i);
      }
    }
  }

  /** A step that moves no process into or out of the zombies. */
  lemma ReapOther(s: System, t: System)
    requires PidInv(s) && ReapInv(s) && |t.procs| == |s.procs| && t.exited == s.exited && t.reaped == s.reaped
    requires forall i: nat :: i < |s.procs| ==> ReapQuiet(s, s.procs[i], t.procs[i])
    ensures ReapInv(t)
  {
  }

  predicate ReapQuiet(s: System, q: Proc, r: Proc) {
    && (r.state.ZOMBIE? <==> q.state.ZOMBIE?)
    && (r.state.UNUSED? || (r.pid == q.pid && !q.state.UNUSED?) || r.pid == s.nextpid)
    && (r.state.ZOMBIE? ==> r.pid == q.pid)
  }

  lemma OtherIsReapQuiet(s: System, a: Action, i: nat)
    requires Enabled(s, a) && !a.Exit? && (IsQuiet(s, a) || !a.Wait?) && i < |s.procs|
    ensures |Do(s, a).procs| == |s.procs| && Do(s, a).exited == s.exited && Do(s, a).reaped == s.reaped
    ensures ReapQuiet(s, s.procs[i], Do(s, a).procs[i])
  {
    if IsQuiet(s, a) {
      QuietStep(s, a);
      assert SameKin(s.procs[i], Do(s, a).procs[i]);
    }
  }

  lemma ReapExit(s: System, p: nat)
    requires PidInv(s) && ReapInv(s) && Enabled(s, Exit(p))
    ensures ReapInv(Do(s, Exit(p)))
  {
    var t := Do(s, Exit(p));
    forall i: nat | i < |s.procs|
      ensures ExitQuiet(s.procs[i], t.procs[i], i == p)
    {
      ExitAt(s.procs, p, s.ticks, i);
    }
    ReapNew(s, t, p);
  }

  predicate ExitQuiet(q: Proc, r: Proc, exits: bool) {
    && r.pid == q.pid && (r.state.ZOMBIE? <==> q.state.ZOMBIE? || exits)
    && (!exits ==> (Live(r) <==> Live(q)) && (r.state.EMBRYO? <==> q.state.EMBRYO?))
  }

  lemma ReapNew(s: System, t: System, p: nat)
    requires PidInv(s) && ReapInv(s) && p < |s.procs| == |t.procs| && Live(s.procs[p])
    requires t.reaped == s.reaped && t.exited == s.exited + {s.procs[p].pid}
    requires forall i: nat :: i < |s.procs| ==> ExitQuiet(s.procs[i], t.procs[i], i == p)
    ensures ReapInv(t)
  {
  }

  lemma ReapWait(s: System, p: nat)
    requires PidInv(s) && ReapInv(s) && Enabled(s, Wait(p)) && ZombieChild(s.procs, p) >= 0
    ensures ReapInv(Do(s, Wait(p)))
  {
    var t := Do(s, Wait(p));
    var z := ZombieChild(s.procs, p);
    forall pid | HasZombie(s.procs, pid) && pid != s.procs[z].pid
      ensures HasZombie(t.procs, pid)
    {
      var i :| 0 <= i < |s.procs| && s.procs[i].state.ZOMBIE? && s.procs[i].pid == pid;
      assert t.procs[i].state.ZOMBIE?;
    }
  }

  /** r is no zombie that q is not, and does not sleep in wait unless q does. */
  predicate WaitQuiet(q: Proc, r: Proc) {
    && (r.state.ZOMBIE? ==> q.state.ZOMBIE? && r.parent == q.parent)
    && (r.state.SLEEPING? && r.chan.ProcChan? ==> q.state.SLEEPING? && r.chan == q.chan)
  }

  lemma WaitKept(procs: seq<Proc>, procs': seq<Proc>)
    requires WaitInv(procs) && |procs'| == |procs|
    requires forall i: nat :: i < |procs| ==> WaitQuiet(procs[i], procs'[i])
    ensures WaitInv(procs')
  {
    forall c: nat | c < |procs| && procs'[c].state.ZOMBIE?
      ensures !AsleepInWait(procs', procs'[c].parent)
    {
      assert WaitQuiet(procs[c], procs'[c]);
      var q := procs[c].parent;
      if 0 <= q < |procs| {
        assert WaitQuiet(procs[q], procs'[q]);
      }
    }
  }

  lemma OtherIsWaitQuiet(s: System, a: Action, i: nat)
    requires Enabled(s, a) && !a.Exit? && !a.Wait? && i < |s.procs|
    ensures |Do(s, a).procs| == |s.procs| && WaitQuiet(s.procs[i], Do(s, a).procs[i])
  {
  }

  /** wait sleeps only when it has found no zombie. */
  lemma WaitWait(s: System, p: nat)
    requires WaitInv(s.procs) && Enabled(s, Wait(p))
    ensures WaitInv(Do(s, Wait(p)).procs)
  {
    var t := Do(s, Wait(p));
    if ZombieChild(s.procs, p) >= 0 {
      WaitKept(s.procs, t.procs);
    }
  }

  /** A zombie appears only when the process it belongs to is awake. */
  lemma WaitStep(s: System, a: Action)
    requires FamilyInv(s.procs) && WaitInv(s.procs) && Enabled(s, a)
    ensures WaitInv(Do(s, a).procs)
  {
    if a.Exit? {
      WaitExit(s, a.p);
    } else if a.Wait? {
      WaitWait(s, a.p);
    } else {
      var t := Do(s, a);
      forall i: nat | i < |s.procs|
        ensures |t.procs| == |s.procs| && WaitQuiet(s.procs[i], t.procs[i])
      {
        OtherIsWaitQuiet(s, a, i);
      }
      WaitKept(s.procs, t.procs);
    }
  }

  lemma WaitExit(s: System, p: nat)
    requires FamilyInv(s.procs) && WaitInv(s.procs) && Enabled(s, Exit(p))
    ensures WaitInv(Do(s, Exit(p)).procs)
  {
    var procs, procs' := s.procs, Do(s, Exit(p)).procs;
    forall i: nat | i < |procs|
      ensures procs'[i].state.SLEEPING? && procs'[i].chan.ProcChan? ==> procs'[i].chan.p == i
      ensures procs'[i].state.ZOMBIE? ==> !AsleepInWait(procs', procs'[i].parent)
    {
      ExitAt(procs, p, s.ticks, i);
      assert Family(procs, i) && Family(procs, p);
      var q := procs'[i].parent;
      if 0 <= q < |procs| {
        ExitAt(procs, p, s.ticks, q);
      }
    }
  }

  ghost predicate Inv(s: System) {
    FamilyInv(s.procs) && WaitInv(s.procs) && PidInv(s) && ReapInv(s)
  }

  lemma InvStep(s: System, a: Action)
    requires Inv(s) && Enabled(s, a)
    ensures Inv(Do(s, a))
  {
    FamilyStep(s, a);
    WaitStep(s, a);
    PidStep(s, a);
    if a.Exit? {
      ReapExit(s, a.p);
    } else if a.Wait? && !IsQuiet(s, a) {
      ReapWait(s, a.p);
    } else {
      assert |s.procs| > 0;
      OtherIsReapQuiet(s, a, INIT);
      forall i: nat | i < |s.procs|
        ensures ReapQuiet(s, s.procs[i], Do(s, a).procs[i])
      {
        OtherIsReapQuiet(s, a, i);
      }
      ReapOther(s, Do(s, a));
    }
  }

  lemma {:induction false} InvRun(s: System, run: seq<Action>)
    requires Inv(s) && Feasible(s, run)
    ensures Inv(Exec(s, run))
    decreases |run|
  {
    if run != [] {
      InvStep(s, run[0]);
      InvRun(Do(s, run[0]), run[1..]);
    }
  }

  // ----- Theorems -------------------------------------------------------------

  /** In every run, whenever ptable.lock is free: no process asleep in wait has a
      zombie child, and every process past fork except init, zombies included,
      has a live parent. */
  lemma NoZombieIsForgotten(strategy: nat, smp: bool, n: nat, run: seq<Action>, c: nat)
    requires n > 0 && Feasible(Init(strategy, smp, n), run)
    requires c < |Exec(Init(strategy, smp, n), run).procs|
    ensures var procs := Exec(Init(strategy, smp, n), run).procs;
            && (procs[c].state.ZOMBIE? ==> c != INIT && !AsleepInWait(procs, procs[c].parent))
            && (c != INIT && (Live(procs[c]) || procs[c].state.ZOMBIE?) ==> LiveSlot(procs, procs[c].parent))
  {
    InvRun(Init(strategy, smp, n), run);
    assert Family(Exec(Init(strategy, smp, n), run).procs, c);
  }

  /** In every run, wait returns no pid twice and returns only pids that exited;
      an exited pid that it has not returned belongs to exactly one zombie. */
  lemma EachExitIsReapedOnce(strategy: nat, smp: bool, n: nat, run: seq<Action>)
    requires n > 0 && Feasible(Init(strategy, smp, n), run)
    ensures var s := Exec(Init(strategy, smp, n), run);
            && (forall i: nat, j: nat :: i < j < |s.reaped| ==> s.reaped[i] != s.reaped[j])
            && (forall i: nat :: i < |s.reaped| ==> s.reaped[i] in s.exited)
            && (forall pid :: pid in s.exited ==> (pid in s.reaped <==> !HasZombie(s.procs, pid)))
            && (forall i: nat, j: nat :: i < j < |s.procs| && s.procs[i].state.ZOMBIE? && s.procs[j].state.ZOMBIE? ==>
                  s.procs[i].pid != s.procs[j].pid)
  {
    InvRun(Init(strategy, smp, n), run);
  }
}
