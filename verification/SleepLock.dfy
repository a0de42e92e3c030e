module SleepLock {

  /* Sleep locks: acquiresleep and releasesleep of sleeplock.c over sleep and
     wakeup of proc.c, run by any number of processes in any interleaving.

     The state is one sleep lock, its spinlock and ptable.lock.  Each action is what
     one process does between two points at which another may run: taking a
     spinlock, giving one up, or touching memory that a spinlock protects. */

  datatype Pc =
    | Idle
    // acquiresleep
    | Test            // holds lk.lk, at the while test
    | SleepEnter      // in sleep, holds lk.lk, about to take ptable.lock
    | SleepHandOver   // holds both, about to release lk.lk
    | SleepSet        // holds ptable.lock, about to become SLEEPING
    | Asleep          // has switched away
    | Awake           // running again, holds ptable.lock
    | Retake          // holds nothing, about to retake lk.lk
    | Taken           // has set locked, holds lk.lk
    | Holding         // owns the sleep lock
    // releasesleep
    | Clear           // holds lk.lk, about to clear locked
    | WakeEnter       // holds lk.lk, in wakeup, about to take ptable.lock
    | WakeScan        // holds both, about to run wakeup1
    | WakeExit        // holds both, about to release ptable.lock
    | Leave           // holds lk.lk, about to release it

  datatype PState = SLEEPING | RUNNABLE | RUNNING

  // The channel a process sleeps on; sleeplock.c uses the lock's address.
  datatype Chan = NoChan | ThisLock | OtherChan(id: int)

  datatype Process = Process(pc: Pc, state: PState, chan: Chan)

  // Who holds a spinlock.  sched() passes ptable.lock to the scheduler.
  datatype Holder = Free | Held(p: nat) | Scheduler

  datatype System = System(
    locked: bool,
    owner: int, // lk.pid, with process numbers for pids and -1 for none
    lk: Holder,
    ptable: Holder,
    procs: seq<Process>)

  datatype Action =
    | Acquire(p: nat)          // calls acquiresleep
    | Release(p: nat)          // calls releasesleep
    | Continue(p: nat)
    | SchedulerRelease         // the scheduler lets go of ptable.lock
    | Dispatch(p: nat)         // the scheduler runs a RUNNABLE sleeper
    | SleepElsewhere(p: nat, c: int)  // any sleep on another channel
    | WakeElsewhere(c: int)
    | Kill(p: nat)

  function Init(n: nat): System {
    System(false, -1, Free, Free, seq(n, _ => Process(Idle, RUNNING, NoChan)))
  }

  predicate HoldsLk(pc: Pc) {
    || pc.Test? || pc.SleepEnter? || pc.SleepHandOver? || pc.Taken? || pc.Clear?
    || pc.WakeEnter? || pc.WakeScan? || pc.WakeExit? || pc.Leave?
  }

  predicate HoldsPtable(pc: Pc) {
    pc.SleepHandOver? || pc.SleepSet? || pc.Awake? || pc.WakeScan? || pc.WakeExit?
  }

  /** Between setting and clearing `locked`. */
  predicate Owns(pc: Pc) {
    pc.Taken? || pc.Holding? || pc.Clear?
  }

  predicate Enabled(s: System, a: Action) {
    match a
    case Acquire(p) => p < |s.procs| && s.procs[p].pc.Idle? && s.procs[p].state.RUNNING? && s.lk.Free?
    case Release(p) => p < |s.procs| && s.procs[p].pc.Holding? && s.procs[p].state.RUNNING? && s.lk.Free?
    case Continue(p) => CanContinue(s, p)
    case SchedulerRelease => s.ptable.Scheduler?
    case Dispatch(p) => p < |s.procs| && s.procs[p].pc.Asleep? && s.procs[p].state.RUNNABLE? && s.ptable.Free?
    case SleepElsewhere(p, c) =>
      p < |s.procs| && (s.procs[p].pc.Idle? || s.procs[p].pc.Holding?) && s.procs[p].state.RUNNING? && s.ptable.Free?
    case WakeElsewhere(c) => s.ptable.Free?
    case Kill(p) => p < |s.procs| && s.ptable.Free?
  }

  /** wakeup1: every process sleeping on the channel becomes RUNNABLE. */
  function Woken(procs: seq<Process>, c: Chan): (r: seq<Process>)
    ensures |r| == |procs|
  {
    seq(|procs|, i requires 0 <= i < |procs| =>
      if procs[i].state == SLEEPING && procs[i].chan == c then procs[i].(state := RUNNABLE) else procs[i])
  }

  function Goto(s: System, p: nat, pc: Pc): System
    requires p < |s.procs|
  {
    s.(procs := s.procs[p := s.procs[p].(pc := pc)])
  }

  predicate CanContinue(s: System, p: nat) {
    && p < |s.procs| && s.procs[p].state.RUNNING?
    && !s.procs[p].pc.Idle? && !s.procs[p].pc.Asleep? && !s.procs[p].pc.Holding?
    && (s.procs[p].pc.SleepEnter? || s.procs[p].pc.WakeEnter? ==> s.ptable.Free?)
    && (s.procs[p].pc.Retake? ==> s.lk.Free?)
  }

  function Continued(s: System, p: nat): System
    requires CanContinue(s, p)
  {
    match s.procs[p].pc
    case Test => if s.locked then Goto(s, p, SleepEnter) else Goto(s, p, Taken).(locked := true, owner := p)
    case SleepEnter => Goto(s, p, SleepHandOver).(ptable := Held(p))
    case SleepHandOver => Goto(s, p, SleepSet).(lk := Free)
    case SleepSet => s.(ptable := Scheduler, procs := s.procs[p := Process(Asleep, SLEEPING, ThisLock)])
    case Awake => s.(ptable := Free, procs := s.procs[p := Process(Retake, RUNNING, NoChan)])
    case Retake => Goto(s, p, Test).(lk := Held(p))
    case Taken => Goto(s, p, Holding).(lk := Free)
    case Clear => Goto(s, p, WakeEnter).(locked := false, owner := -1)
    case WakeEnter => Goto(s, p, WakeScan).(ptable := Held(p))
    case WakeScan => Goto(s.(procs := Woken(s.procs, ThisLock)), p, WakeExit)
    case WakeExit => Goto(s, p, Leave).(ptable := Free)
    case Leave => Goto(s, p, Idle).(lk := Free)
  }

  function Do(s: System, a: Action): System
    requires Enabled(s, a)
  {
    match a
    case Acquire(p) => Goto(s, p, Test).(lk := Held(p))
    case Release(p) => Goto(s, p, Clear).(lk := Held(p))
    case Continue(p) => Continued(s, p)
    case SchedulerRelease => s.(ptable := Free)
    case Dispatch(p) => s.(ptable := Held(p), procs := s.procs[p := s.procs[p].(pc := Awake, state := RUNNING)])
    case SleepElsewhere(p, c) => s.(procs := s.procs[p := s.procs[p].(state := SLEEPING, chan := OtherChan(c))])
    case WakeElsewhere(c) =>
      // The woken process runs again at once: nothing it does before its next
      // action here concerns this lock.
      s.(procs := seq(|s.procs|, i requires 0 <= i < |s.procs| =>
        if s.procs[i].state == SLEEPING && s.procs[i].chan == OtherChan(c)
        then s.procs[i].(state := RUNNING, chan := NoChan) else s.procs[i]))
    case Kill(p) =>
      if s.procs[p].state == SLEEPING && s.procs[p].chan == ThisLock
      then s.(procs := s.procs[p := s.procs[p].(state := RUNNABLE)])
      else if s.procs[p].state == SLEEPING
      then s.(procs := s.procs[p := s.procs[p].(state := RUNNING, chan := NoChan)])
      else s
  }

  predicate Feasible(s: System, run: seq<Action>)
    decreases |run|
  {
    run == [] || (Enabled(s, run[0]) && Feasible(Do(s, run[0]), run[1..]))
  }

  function Exec(s: System, run: seq<Action>): System
    requires Feasible(s, run)
    decreases |run|
  {
    if run == [] then s else Exec(Do(s, run[0]), run[1..])
  }

  // ----- Invariant ------------------------------------------------------------

  /** On the way into sleep, or asleep on this lock: only a wakeup can help. */
  predicate Waiting(q: Process) {
    (q.pc.SleepEnter? || q.pc.SleepHandOver? || q.pc.SleepSet?) || (q.state == SLEEPING && q.chan == ThisLock)
  }

  /** A release has cleared `locked` and has yet to scan the table. */
  predicate WillWake(q: Process) {
    (q.pc.WakeEnter? || q.pc.WakeScan?)
  }

  ghost predicate LkAgrees(s: System) {
    && !s.lk.Scheduler? && (s.lk.Held? ==> s.lk.p < |s.procs|)
    && forall p: nat :: p < |s.procs| ==> (HoldsLk(s.procs[p].pc) <==> s.lk == Held(p))
  }

  ghost predicate PtableAgrees(s: System) {
    && (s.ptable.Held? ==> s.ptable.p < |s.procs|)
    && forall p: nat :: p < |s.procs| ==> (HoldsPtable(s.procs[p].pc) <==> s.ptable == Held(p))
  }

  ghost predicate StatesAgree(s: System) {
    forall p: nat :: p < |s.procs| ==> StateAgrees(s.procs[p])
  }

  predicate StateAgrees(q: Process) {
    && (q.pc.Asleep? ==> !q.state.RUNNING? && q.chan == ThisLock)
    && (q.state.RUNNABLE? ==> q.pc.Asleep?)
    && (q.state.SLEEPING? && q.chan == ThisLock ==> q.pc.Asleep?)
    && (q.state.SLEEPING? ==> q.pc.Idle? || q.pc.Holding? || q.pc.Asleep?)
  }

  ghost predicate OwnerAgrees(s: System) {
    && (if s.locked then 0 <= s.owner < |s.procs| else s.owner == -1)
    && forall p: nat :: p < |s.procs| ==> (Owns(s.procs[p].pc) <==> s.locked && s.owner == p)
  }

  /** No lost wakeup. */
  ghost predicate WaitersAreSafe(s: System) {
    forall p :: 0 <= p < |s.procs| && Waiting(s.procs[p]) ==>
      s.locked || (s.lk.Held? && s.lk.p < |s.procs| && WillWake(s.procs[s.lk.p]))
  }

  ghost predicate Inv(s: System) {
    LkAgrees(s) && PtableAgrees(s) && StatesAgree(s) && OwnerAgrees(s) && WaitersAreSafe(s)
  }

  lemma LkAgreesContinue(s: System, p: nat)
    requires LkAgrees(s) && StatesAgree(s) && CanContinue(s, p)
    ensures LkAgrees(Continued(s, p))
  {
    var t := Continued(s, p);
    forall q: nat | q < |s.procs|
      ensures HoldsLk(t.procs[q].pc) <==> t.lk == Held(q)
    {
      assert q != p ==> t.procs[q].pc == s.procs[q].pc;
      assert HoldsLk(s.procs[q].pc) <==> s.lk == Held(q);
    }
  }

  lemma LkAgreesOther(s: System, a: Action)
    requires LkAgrees(s) && StatesAgree(s) && Enabled(s, a) && !a.Continue?
    ensures LkAgrees(Do(s, a))
  {
    var t := Do(s, a);
    forall q: nat | q < |s.procs|
      ensures HoldsLk(t.procs[q].pc) <==> t.lk == Held(q)
    {
      assert HoldsLk(s.procs[q].pc) <==> s.lk == Held(q);
    }
  }

  lemma PtableAgreesScan(s: System, p: nat)
    requires PtableAgrees(s) && StatesAgree(s) && CanContinue(s, p) && s.procs[p].pc.WakeScan?
    ensures PtableAgrees(Continued(s, p))
  {
    var t := Continued(s, p);
    forall q: nat | q < |s.procs|
      ensures HoldsPtable(t.procs[q].pc) <==> t.ptable == Held(q)
    {
      assert q != p ==> t.procs[q].pc == s.procs[q].pc;
      assert HoldsPtable(s.procs[q].pc) <==> s.ptable == Held(q);
    }
  }

  lemma PtableAgreesContinue(s: System, p: nat)
    requires PtableAgrees(s) && StatesAgree(s) && CanContinue(s, p)
    ensures PtableAgrees(Continued(s, p))
  {
    if s.procs[p].pc.WakeScan? {
      PtableAgreesScan(s, p);
      return;
    }
    var t := Continued(s, p);
    forall q: nat | q < |s.procs|
      ensures HoldsPtable(t.procs[q].pc) <==> t.ptable == Held(q)
    {
      assert q != p ==> t.procs[q].pc == s.procs[q].pc;
      assert HoldsPtable(s.procs[q].pc) <==> s.ptable == Held(q);
    }
  }

  lemma PtableAgreesOther(s: System, a: Action)
    requires PtableAgrees(s) && StatesAgree(s) && Enabled(s, a) && !a.Continue?
    ensures PtableAgrees(Do(s, a))
  {
    var t := Do(s, a);
    forall q: nat | q < |s.procs|
      ensures HoldsPtable(t.procs[q].pc) <==> t.ptable == Held(q)
    {
      assert HoldsPtable(s.procs[q].pc) <==> s.ptable == Held(q);
    }
  }

  lemma StatesAgreeScan(s: System, p: nat)
    requires StatesAgree(s) && CanContinue(s, p) && s.procs[p].pc.WakeScan?
    ensures StatesAgree(Continued(s, p))
  {
    var t := Continued(s, p);
    forall q: nat | q < |s.procs|
      ensures StateAgrees(t.procs[q])
    {
      assert StateAgrees(s.procs[q]);
    }
  }

  lemma StatesAgreeContinue(s: System, p: nat)
    requires StatesAgree(s) && CanContinue(s, p)
    ensures StatesAgree(Continued(s, p))
  {
    if s.procs[p].pc.WakeScan? {
      StatesAgreeScan(s, p);
      return;
    }
    var t := Continued(s, p);
    forall q: nat | q < |s.procs|
      ensures StateAgrees(t.procs[q])
    {
      assert StateAgrees(s.procs[q]);
    }
  }

  lemma StatesAgreeOther(s: System, a: Action)
    requires StatesAgree(s) && Enabled(s, a) && !a.Continue?
    ensures StatesAgree(Do(s, a))
  {
  }

  lemma OwnerAgreesContinue(s: System, p: nat)
    requires LkAgrees(s) && StatesAgree(s) && OwnerAgrees(s) && CanContinue(s, p)
    ensures OwnerAgrees(Continued(s, p))
  {
    var t := Continued(s, p);
    forall q: nat | q < |s.procs|
      ensures Owns(t.procs[q].pc) <==> t.locked && t.owner == q
    {
      assert Owns(s.procs[q].pc) <==> s.locked && s.owner == q;
    }
  }

  lemma OwnerAgreesOther(s: System, a: Action)
    requires LkAgrees(s) && StatesAgree(s) && OwnerAgrees(s) && Enabled(s, a) && !a.Continue?
    ensures OwnerAgrees(Do(s, a))
  {
    var t := Do(s, a);
    forall q: nat | q < |s.procs|
      ensures Owns(t.procs[q].pc) <==> t.locked && t.owner == q
    {
      assert Owns(s.procs[q].pc) <==> s.locked && s.owner == q;
    }
  }

  lemma WaitersAreSafeContinue(s: System, p: nat)
    requires Inv(s) && CanContinue(s, p)
    ensures WaitersAreSafe(Continued(s, p))
  {
  }

  lemma WaitersAreSafeOther(s: System, a: Action)
    requires Inv(s) && Enabled(s, a) && !a.Continue?
    ensures WaitersAreSafe(Do(s, a))
  {
  }

  lemma InvStep(s: System, a: Action)
    requires Inv(s) && Enabled(s, a)
    ensures Inv(Do(s, a))
  {
    if a.Continue? {
      LkAgreesContinue(s, a.p);
      PtableAgreesContinue(s, a.p);
      StatesAgreeContinue(s, a.p);
      OwnerAgreesContinue(s, a.p);
      WaitersAreSafeContinue(s, a.p);
    } else {
      LkAgreesOther(s, a);
      PtableAgreesOther(s, a);
      StatesAgreeOther(s, a);
      OwnerAgreesOther(s, a);
      WaitersAreSafeOther(s, a);
    }
  }

  lemma {:induction false} InvRun(s: System, run: seq<Action>)
    requires Inv(s) && Feasible(s, run)
    ensures Inv(Exec(s, run))
    decreases |run|
  {
    if run != [] {
      InvStep(s, run[0]);
      InvRun(Do(s, run[0]), run[1..]);
    }
  }

  // ----- Theorems -------------------------------------------------------------

  /** In every interleaving the sleep lock has at most one holder, recorded in
      lk.pid, and it is locked exactly when it has one. */
  lemma MutualExclusion(n: nat, run: seq<Action>, p: nat, q: nat)
    requires Feasible(Init(n), run)
    ensures var s := Exec(Init(n), run);
            && (p < |s.procs| && q < |s.procs| && s.procs[p].pc.Holding? && s.procs[q].pc.Holding? ==> p == q)
            && (p < |s.procs| && s.procs[p].pc.Holding? ==> s.locked && s.owner == p)
            && (if s.locked then exists h :: 0 <= h < |s.procs| && Owns(s.procs[h].pc) else s.owner == -1)
  {
    InvRun(Init(n), run);
    var s := Exec(Init(n), run);
    if s.locked {
      assert Owns(s.procs[s.owner].pc);
    }
  }

  /** In every interleaving, whenever both spinlocks are free, nobody sleeps on a
      sleep lock that is unlocked. */
  lemma NoLostWakeup(n: nat, run: seq<Action>, p: nat)
    requires Feasible(Init(n), run)
    requires var s := Exec(Init(n), run);
             s.lk.Free? && s.ptable.Free? && !s.locked && p < |s.procs|
    ensures var q := Exec(Init(n), run).procs[p]; !(q.state == SLEEPING && q.chan == ThisLock)
  {
    InvRun(Init(n), run);
    var s := Exec(Init(n), run);
    if Waiting(s.procs[p]) {
      assert false;
    }
  }

  // ----- Calls end with and without the lock ----------------------------------

  /** Inside acquiresleep. */
  predicate InAcquire(pc: Pc) {
    || pc.Test? || pc.SleepEnter? || pc.SleepHandOver? || pc.SleepSet?
    || pc.Asleep? || pc.Awake? || pc.Retake? || pc.Taken?
  }

  /** Inside releasesleep. */
  predicate InRelease(pc: Pc) {
    pc.Clear? || pc.WakeEnter? || pc.WakeScan? || pc.WakeExit? || pc.Leave?
  }

  predicate HasLock(s: System, p: nat) {
    p < |s.procs| && s.procs[p].pc.Holding? && s.locked && s.owner == p
  }

  /** A process enters acquiresleep and releasesleep by calling them, leaves the first for
      Holding and the second for Idle, and stays put at both. */
  lemma PcStep(s: System, a: Action, p: nat)
    requires Enabled(s, a) && p < |s.procs|
    ensures |Do(s, a).procs| == |s.procs|
    ensures var x, y := s.procs[p].pc, Do(s, a).procs[p].pc;
            if a == Acquire(p) then InAcquire(y) else if a == Release(p) then x.Holding? && InRelease(y)
            else if InAcquire(x) then InAcquire(y) || y.Holding?
            else if InRelease(x) then InRelease(y) || y.Idle?
            else y == x
  {
    if a.Continue? {
      ContinuePc(s, a.p, p);
    }
  }

  lemma ContinuePc(s: System, q: nat, p: nat)
    requires CanContinue(s, q) && p < |s.procs|
    ensures |Continued(s, q).procs| == |s.procs|
    ensures var x, y := s.procs[p].pc, Continued(s, q).procs[p].pc;
            if InAcquire(x) then InAcquire(y) || y.Holding?
            else if InRelease(x) then InRelease(y) || y.Idle?
            else y == x
  {
  }

  lemma CallStep(s: System, a: Action, p: nat)
    requires Inv(s) && Enabled(s, a) && p < |s.procs|
    ensures Inv(Do(s, a)) && |Do(s, a).procs| == |s.procs|
    ensures var t := Do(s, a);
            && (InAcquire(s.procs[p].pc) ==> InAcquire(t.procs[p].pc) || HasLock(t, p))
            && (InRelease(s.procs[p].pc) ==> InRelease(t.procs[p].pc) || (t.procs[p].pc.Idle? && !(t.locked && t.owner == p)))
            && (a == Acquire(p) ==> InAcquire(t.procs[p].pc))
            && (a == Release(p) ==> HasLock(s, p) && InRelease(t.procs[p].pc))
            && (HasLock(s, p) && a != Release(p) ==> HasLock(t, p))
  {
    InvStep(s, a);
    PcStep(s, a, p);
    OwnerIs(s, p);
    OwnerIs(Do(s, a), p);
  }

  lemma OwnerIs(s: System, p: nat)
    requires Inv(s) && p < |s.procs|
    ensures Owns(s.procs[p].pc) <==> s.locked && s.owner == p
  {
  }

  /** A run of n processes after k of its actions. */
  ghost predicate Reaches(n: nat, run: seq<Action>, k: nat, s: System) {
    k <= |run| && Feasible(Init(n), run[..k]) && Exec(Init(n), run[..k]) == s
  }

  lemma {:induction false} ExecLast(s: System, run: seq<Action>)
    requires Feasible(s, run) && run != []
    ensures var front, a := run[..|run| - 1], run[|run| - 1];
            Feasible(s, front) && Enabled(Exec(s, front), a) && Exec(s, run) == Do(Exec(s, front), a)
    decreases |run|
  {
    if |run| == 1 {
      assert run == [run[0]] && Feasible(Do(s, run[0]), []);
    } else {
      ExecLast(Do(s, run[0]), run[1..]);
      assert run[1..][..|run| - 2] == run[..|run| - 1][1..];
    }
  }

  /** The steps of a run one after the other, and the invariant of each state. */
  lemma ReachesStep(n: nat, run: seq<Action>, k: nat, t: System) returns (s: System)
    requires k < |run| && Reaches(n, run, k + 1, t)
    ensures Reaches(n, run, k, s) && Inv(s) && Enabled(s, run[k]) && t == Do(s, run[k])
  {
    ExecLast(Init(n), run[..k + 1]);
    assert run[..k + 1][..k] == run[..k];
    s := Exec(Init(n), run[..k]);
    InvRun(Init(n), run[..k]);
  }

  lemma DoKeepsProcs(s: System, a: Action)
    requires Enabled(s, a)
    ensures |Do(s, a).procs| == |s.procs|
  {
  }

  lemma {:induction false} ProcsKept(s: System, run: seq<Action>)
    requires Inv(s) && Feasible(s, run)
    ensures |Exec(s, run).procs| == |s.procs|
    decreases |run|
  {
    if run != [] {
      InvStep(s, run[0]);
      DoKeepsProcs(s, run[0]);
      ProcsKept(Do(s, run[0]), run[1..]);
    }
  }

  /** In every interleaving, a process that has called acquiresleep stays in it until it
      has the lock: at some state of the run it has it, if it is not in the call still. */
  lemma {:induction false} AcquireEndsWithTheLock(n: nat, run: seq<Action>, i: nat, k: nat, t: System, p: nat)
    requires i < k && Reaches(n, run, k, t) && run[i] == Acquire(p) && p < n
    ensures |t.procs| == n
    ensures InAcquire(t.procs[p].pc) || exists j: nat, u: System :: i < j <= k && Reaches(n, run, j, u) && HasLock(u, p)
    decreases k
  {
    InvRun(Init(n), run[..k]);
    ProcsKept(Init(n), run[..k]);
    var s := ReachesStep(n, run, k - 1, t);
    ProcsKept(Init(n), run[..k - 1]);
    CallStep(s, run[k - 1], p);
    if i < k - 1 {
      AcquireEndsWithTheLock(n, run, i, k - 1, s, p);
    }
  }

  /** A process that has called releasesleep had the lock, and leaves the call at a state
      in which it does not have it. */
  lemma {:induction false} ReleaseEndsWithoutTheLock(n: nat, run: seq<Action>, i: nat, k: nat, t: System, p: nat)
    requires i < k && Reaches(n, run, k, t) && run[i] == Release(p) && p < n
    ensures |t.procs| == n && exists u: System :: Reaches(n, run, i, u) && HasLock(u, p)
    ensures || InRelease(t.procs[p].pc)
            || exists j: nat, u: System :: i < j <= k && Reaches(n, run, j, u) && p < |u.procs| && u.procs[p].pc.Idle? &&
                                           !(u.locked && u.owner == p)
    decreases k
  {
    InvRun(Init(n), run[..k]);
    ProcsKept(Init(n), run[..k]);
    var s := ReachesStep(n, run, k - 1, t);
    ProcsKept(Init(n), run[..k - 1]);
    CallStep(s, run[k - 1], p);
    if i < k - 1 {
      ReleaseEndsWithoutTheLock(n, run, i, k - 1, s, p);
    }
  }

  // ----- Who sleeps, and until when -------------------------------------------

  predicate SleepsOn(q: Process, c: Chan) {
    q.state == SLEEPING && q.chan == c
  }

  /** A process sleeps on the lock from sleep on, until a wakeup of releasesleep or a kill. */
  lemma SleepsUntilWoken(s: System, a: Action, p: nat)
    requires Inv(s) && Enabled(s, a) && p < |s.procs|
    ensures |Do(s, a).procs| == |s.procs|
    ensures SleepsOn(Do(s, a).procs[p], ThisLock) <==>
            || (a == Continue(p) && s.procs[p].pc.SleepSet?)
            || (SleepsOn(s.procs[p], ThisLock) && a != Kill(p) && !(a.Continue? && s.procs[a.p].pc.WakeScan?))
  {
    assert StateAgrees(s.procs[p]);
  }

  /** Process p has gone to sleep on c, and neither a wakeup on c nor a kill has come since. */
  predicate Slept(run: seq<Action>, p: nat, c: int) {
    run != [] &&
    var a := run[|run| - 1];
    a == SleepElsewhere(p, c) || (a != Kill(p) && a != WakeElsewhere(c) && Slept(run[..|run| - 1], p, c))
  }

  /** Likewise on any other channel, over every run. */
  lemma {:induction false} SleepsElsewhereIff(n: nat, run: seq<Action>, p: nat, c: int)
    requires Feasible(Init(n), run) && p < n
    ensures |Exec(Init(n), run).procs| == n && (SleepsOn(Exec(Init(n), run).procs[p], OtherChan(c)) <==> Slept(run, p, c))
    decreases |run|
  {
    ProcsKept(Init(n), run);
    if run != [] {
      var front, a := run[..|run| - 1], run[|run| - 1];
      ExecLast(Init(n), run);
      InvRun(Init(n), front);
      ProcsKept(Init(n), front);
      SleepsElsewhereIff(n, front, p, c);
      ElsewhereStep(Exec(Init(n), front), a, p, c);
    }
  }

  lemma ElsewhereStep(s: System, a: Action, p: nat, c: int)
    requires Inv(s) && Enabled(s, a) && p < |s.procs|
    ensures |Do(s, a).procs| == |s.procs|
    ensures SleepsOn(Do(s, a).procs[p], OtherChan(c)) <==>
            a == SleepElsewhere(p, c) || (SleepsOn(s.procs[p], OtherChan(c)) && a != Kill(p) && a != WakeElsewhere(c))
  {
    assert StateAgrees(s.procs[p]);
    if a.Continue? {
      ElsewhereContinue(s, a.p, p, c);
    }
  }

  lemma ElsewhereContinue(s: System, q: nat, p: nat, c: int)
    requires CanContinue(s, q) && p < |s.procs|
    ensures |Continued(s, q).procs| == |s.procs|
    ensures SleepsOn(Continued(s, q).procs[p], OtherChan(c)) <==> SleepsOn(s.procs[p], OtherChan(c))
  {
  }

  // ----- Every waiter can get the lock ----------------------------------------

  predicate Settled(s: System) {
    s.lk.Free? && s.ptable.Free?
  }

  /** How many steps a process is from holding no spinlock. */
  function ToGo(pc: Pc): nat {
    match pc
    case Test => 5
    case SleepEnter => 4
    case SleepHandOver => 3
    case SleepSet => 2
    case Clear => 5
    case WakeEnter => 4
    case WakeScan => 3
    case WakeExit => 2
    case Leave => 1
    case Taken => 1
    case Awake => 1
    case _ => 0
  }

  function Unsettled(s: System): nat {
    (if s.lk.Held? && s.lk.p < |s.procs| then ToGo(s.procs[s.lk.p].pc) else 0)
    + (if s.ptable.Held? && s.ptable.p < |s.procs| && s.ptable != s.lk then ToGo(s.procs[s.ptable.p].pc) else 0)
    + (if s.ptable.Scheduler? then 1 else 0)
  }

  lemma OneStep(s: System, a: Action, run: seq<Action>)
    requires Enabled(s, a) && Feasible(Do(s, a), run)
    ensures Feasible(s, [a] + run) && Exec(s, [a] + run) == Exec(Do(s, a), run)
  {
    assert ([a] + run)[1..] == run;
  }

  lemma {:induction false} ExecConcat(s: System, run: seq<Action>, more: seq<Action>)
    requires Feasible(s, run) && Feasible(Exec(s, run), more)
    ensures Feasible(s, run + more) && Exec(s, run + more) == Exec(Exec(s, run), more)
    decreases |run|
  {
    if run == [] {
      assert run + more == more;
    } else {
      ExecConcat(Do(s, run[0]), run[1..], more);
      assert (run + more)[1..] == run[1..] + more;
    }
  }

  /** Who holds a spinlock can go on, and comes nearer to letting go of it. */
  lemma SettleStep(s: System) returns (a: Action)
    requires Inv(s) && !Settled(s)
    ensures Enabled(s, a) && Unsettled(Do(s, a)) < Unsettled(s)
    ensures a.SchedulerRelease? || a.Continue?
  {
    if s.ptable.Scheduler? {
      a := SchedulerRelease;
    } else {
      var q := if s.ptable.Held? then s.ptable.p else s.lk.p;
      assert s.ptable.Held? ==> HoldsPtable(s.procs[q].pc);
      assert s.ptable.Free? ==> HoldsLk(s.procs[q].pc) && !HoldsPtable(s.procs[q].pc);
      assert StateAgrees(s.procs[q]);
      a := Continue(q);
    }
  }

  /** A process that is in neither call, or waits in acquiresleep, stays where it is while
      others go on. */
  lemma {:induction false} Settle(s: System, p: nat) returns (run: seq<Action>)
    requires Inv(s) && p < |s.procs| && InAcquire(s.procs[p].pc)
    ensures Feasible(s, run) && Inv(Exec(s, run)) && |Exec(s, run).procs| == |s.procs| && Settled(Exec(s, run))
    ensures InAcquire(Exec(s, run).procs[p].pc) || HasLock(Exec(s, run), p)
    decreases Unsettled(s)
  {
    if Settled(s) {
      run := [];
    } else {
      var a := SettleStep(s);
      CallStep(s, a, p);
      if InAcquire(Do(s, a).procs[p].pc) {
        var more := Settle(Do(s, a), p);
        OneStep(s, a, more);
        run := [a] + more;
      } else {
        var more := SettleWith(Do(s, a), p);
        OneStep(s, a, more);
        run := [a] + more;
      }
    }
  }

  /** The same when p has the lock already. */
  lemma {:induction false} SettleWith(s: System, p: nat) returns (run: seq<Action>)
    requires Inv(s) && HasLock(s, p)
    ensures Feasible(s, run) && Inv(Exec(s, run)) && |Exec(s, run).procs| == |s.procs| && Settled(Exec(s, run))
    ensures HasLock(Exec(s, run), p)
    decreases Unsettled(s)
  {
    if Settled(s) {
      run := [];
    } else {
      var a := SettleStep(s);
      CallStep(s, a, p);
      var more := SettleWith(Do(s, a), p);
      OneStep(s, a, more);
      run := [a] + more;
    }
  }

  /** p holds no spinlock, waits for the lock, and is next to take it. */
  predicate AtRetake(s: System, p: nat) {
    p < |s.procs| && s.procs[p].pc.Retake? && s.procs[p].state.RUNNING? && s.lk.Free? && !s.locked
  }

  /** Going round the loop of acquiresleep once more, a process finds the lock free and
      takes it. */
  lemma TakeIt(s: System, p: nat) returns (run: seq<Action>)
    requires AtRetake(s, p)
    ensures run == [Continue(p)] + ([Continue(p)] + ([Continue(p)] + []))
    ensures Feasible(s, run) && HasLock(Exec(s, run), p)
  {
    var c := Continue(p);
    var s1 := Do(s, c);
    var s2 := Do(s1, c);
    OneStep(s2, c, []);
    OneStep(s1, c, [c] + []);
    OneStep(s, c, [c] + ([c] + []));
    run := [c] + ([c] + ([c] + []));
  }

  /** A sleeper that has been woken gets the lock if it is dispatched now. */
  lemma WakeAndTake(s: System, p: nat) returns (run: seq<Action>)
    requires Inv(s) && Settled(s) && !s.locked && p < |s.procs| && InAcquire(s.procs[p].pc)
    ensures Feasible(s, run) && HasLock(Exec(s, run), p)
  {
    assert !HoldsLk(s.procs[p].pc) && !HoldsPtable(s.procs[p].pc) && StateAgrees(s.procs[p]);
    if s.procs[p].pc.Asleep? {
      assert !Waiting(s.procs[p]);
      var s1 := Do(s, Dispatch(p));
      var s2 := Do(s1, Continue(p));
      run := TakeIt(s2, p);
      OneStep(s1, Continue(p), run);
      OneStep(s, Dispatch(p), [Continue(p)] + run);
      run := [Dispatch(p)] + ([Continue(p)] + run);
    } else {
      run := TakeIt(s, p);
    }
  }

  /** The second half of releasesleep: wakeup, and giving up lk.lk. */
  lemma WakeAll(s: System, h: nat) returns (run: seq<Action>)
    requires h < |s.procs| && s.procs[h] == Process(WakeScan, RUNNING, s.procs[h].chan)
    ensures Feasible(s, run) && Settled(Exec(s, run)) && Exec(s, run).locked == s.locked
    ensures |Exec(s, run).procs| == |s.procs|
    ensures forall q: nat :: q < |s.procs| && q != h ==> Exec(s, run).procs[q] == Woken(s.procs, ThisLock)[q]
  {
    var c := Continue(h);
    var s1 := Do(s, c);
    var s2 := Do(s1, c);
    OneStep(s2, c, []);
    OneStep(s1, c, [c] + []);
    OneStep(s, c, [c] + ([c] + []));
    run := [c] + ([c] + ([c] + []));
  }

  /** releasesleep from start to end: it unlocks the lock and wakes all who sleep on it. */
  lemma GiveUp(s: System, h: nat) returns (run: seq<Action>)
    requires Inv(s) && Settled(s) && HasLock(s, h) && s.procs[h].state.RUNNING?
    ensures Feasible(s, run) && Inv(Exec(s, run)) && Settled(Exec(s, run)) && !Exec(s, run).locked
    ensures |Exec(s, run).procs| == |s.procs|
    ensures forall q: nat :: q < |s.procs| && q != h ==> Exec(s, run).procs[q] == Woken(s.procs, ThisLock)[q]
  {
    var c := Continue(h);
    var s1 := Do(s, Release(h));
    var s2 := Do(s1, c);
    var s3 := Do(s2, c);
    run := WakeAll(s3, h);
    OneStep(s2, c, run);
    OneStep(s1, c, [c] + run);
    OneStep(s, Release(h), [c] + ([c] + run));
    run := [Release(h)] + ([c] + ([c] + run));
    InvRun(s, run);
  }

  /** acquiresleep of a locked lock, while the others stand still: the process goes to sleep
      on it and gives up both spinlocks, and the lock stays with its owner. */
  lemma GoToSleep(s: System, p: nat) returns (run: seq<Action>)
    requires Settled(s) && s.locked && p < |s.procs| && s.procs[p].pc.Idle? && s.procs[p].state.RUNNING?
    ensures run == [Acquire(p), Continue(p), Continue(p), Continue(p), Continue(p), SchedulerRelease]
    ensures Feasible(s, run) && Exec(s, run) == s.(procs := s.procs[p := Process(Asleep, SLEEPING, ThisLock)])
  {
    var c, r := Continue(p), SchedulerRelease;
    var s1 := Do(s, Acquire(p));
    var s2 := Do(s1, c);
    var s3 := Do(s2, c);
    var s4 := Do(s3, c);
    var s5 := Do(s4, c);
    OneStep(s5, r, []);
    OneStep(s4, c, [r] + []);
    OneStep(s3, c, [c] + ([r] + []));
    OneStep(s2, c, [c] + ([c] + ([r] + [])));
    OneStep(s1, c, [c] + ([c] + ([c] + ([r] + []))));
    OneStep(s, Acquire(p), [c] + ([c] + ([c] + ([c] + ([r] + [])))));
    run := [Acquire(p)] + ([c] + ([c] + ([c] + ([c] + ([r] + [])))));
  }

  /** In every reachable state, the lock can still come to every process that waits for
      it: some run brings it there. */
  lemma WaiterCanGetIt(s: System, p: nat) returns (run: seq<Action>)
    requires Inv(s) && p < |s.procs| && InAcquire(s.procs[p].pc)
    ensures Feasible(s, run) && HasLock(Exec(s, run), p)
  {
    run := Settle(s, p);
    var t := Exec(s, run);
    if !HasLock(t, p) {
      var free := FreeTheLock(t, p);
      ExecConcat(s, run, free);
      run := run + free;
      var take := WakeAndTake(Exec(s, run), p);
      ExecConcat(s, run, take);
      run := run + take;
    }
  }

  lemma FreeTheLock(s: System, p: nat) returns (run: seq<Action>)
    requires Inv(s) && Settled(s) && p < |s.procs| && InAcquire(s.procs[p].pc)
    ensures Feasible(s, run) && Inv(Exec(s, run)) && Settled(Exec(s, run)) && !Exec(s, run).locked
    ensures |Exec(s, run).procs| == |s.procs| && InAcquire(Exec(s, run).procs[p].pc)
  {
    run := [];
    if s.locked {
      var h := s.owner;
      OwnerIs(s, h);
      assert !HoldsLk(s.procs[h].pc) && StateAgrees(s.procs[h]) && h != p by {
        OwnerIs(s, p);
        assert !HoldsLk(s.procs[p].pc);
      }
      if s.procs[h].state.RUNNING? {
        run := GiveUp(s, h);
      } else {
        var s1 := Do(s, Kill(h));
        CallStep(s, Kill(h), h);
        PcStep(s, Kill(h), p);
        run := GiveUp(s1, h);
        OneStep(s, Kill(h), run);
        run := [Kill(h)] + run;
      }
    }
  }

  lemma EveryWaiterCanGetTheLock(n: nat, run: seq<Action>, p: nat) returns (more: seq<Action>)
    requires Feasible(Init(n), run) && p < |Exec(Init(n), run).procs| && InAcquire(Exec(Init(n), run).procs[p].pc)
    ensures Feasible(Init(n), run + more) && HasLock(Exec(Init(n), run + more), p)
  {
    InvRun(Init(n), run);
    more := WaiterCanGetIt(Exec(Init(n), run), p);
    ExecConcat(Init(n), run, more);
  }

  // ----- holdingsleep ---------------------------------------------------------

  /** What holdingsleep returns, to whichever process calls it. */
  predicate HoldingSleep(s: System) {
    s.locked
  }

  /** bwrite, brelse and iunlock use holdingsleep to check that the caller holds the
      lock.  In every interleaving it answers that question rightly exactly when the
      lock is free or its pid field names the caller, a test that holdingsleep could
      make and does not. */
  lemma HoldingSleepIsRightIff(n: nat, run: seq<Action>, p: nat)
    requires Feasible(Init(n), run) && p < |Exec(Init(n), run).procs|
    ensures var s := Exec(Init(n), run);
            (HoldingSleep(s) <==> Owns(s.procs[p].pc)) <==> (s.locked ==> s.owner == p)
  {
    InvRun(Init(n), run);
  }

  /** Process 1 is told that it holds the lock that process 0 took. */
  lemma HoldingSleepMisleads() returns (run: seq<Action>)
    ensures Feasible(Init(2), run)
    ensures var s := Exec(Init(2), run);
            |s.procs| == 2 && HoldingSleep(s) && s.procs[0].pc.Holding? && s.procs[1].pc.Idle?
  {
    var s0 := Init(2);
    var s1 := Do(s0, Acquire(0));
    var s2 := Do(s1, Continue(0));
    var s3 := Do(s2, Continue(0));
    run := [Acquire(0), Continue(0), Continue(0)];
    assert run[1..] == [Continue(0), Continue(0)] && run[1..][1..] == [Continue(0)];
    assert Feasible(s2, [Continue(0)]) && Exec(s2, [Continue(0)]) == s3;
    assert Feasible(s1, run[1..]) && Exec(s1, run[1..]) == s3;
  }
}
