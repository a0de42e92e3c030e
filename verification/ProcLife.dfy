module ProcLife {

  /* The life of a process: the state diagram that the critical sections of proc.c draw
     together, and what fork, exit, wait, sleep, wakeup and kill do to everyone. */

  import opened Policies
  import opened ProcTable

  // ----- Wakeups and kills on the whole table ---------------------------------

  /** After a wakeup nobody sleeps on the channel; who did is RUNNABLE, stamped with the
      present tick, and nobody else has changed. */
  lemma WakeupEffect(procs: seq<Proc>, c: Chan, ticks: nat, i: nat)
    requires i < |procs|
    ensures var r := Woken(procs, c, ticks)[i];
            && !(r.state.SLEEPING? && r.chan == c)
            && (procs[i].state.SLEEPING? && procs[i].chan == c ==> r.state.RUNNABLE? && r.priority == ticks)
            && r == procs[i].(state := r.state, priority := r.priority)
            && (!(procs[i].state.SLEEPING? && procs[i].chan == c) ==> r == procs[i])
  {
  }

  /** After a kill the first process with the pid is killed and does not sleep, and nobody
      else has changed. */
  lemma KillEffect(procs: seq<Proc>, pid: int, ticks: nat, i: nat)
    requires i < |procs|
    ensures var r := Killed(procs, pid, ticks)[i];
            if procs[i].pid == pid && forall j :: 0 <= j < i ==> procs[j].pid != pid then
              && r.killed && !r.state.SLEEPING? && r == procs[i].(killed := true, state := r.state, priority := r.priority)
              && (if procs[i].state.SLEEPING? then r.state.RUNNABLE? && r.priority == ticks
                  else r.state == procs[i].state && r.priority == procs[i].priority)
            else r == procs[i]
  {
    var k := FirstPid(procs, pid);
    if procs[i].pid == pid && forall j :: 0 <= j < i ==> procs[j].pid != pid {
      assert k == i;
    } else {
      assert k != i;
    }
  }

  /** After an exit the process is a zombie that remembers the tick, its children are
      init's, and its parent no longer sleeps in wait, nor does init if it has become the
      parent of a zombie. */
  lemma ExitEffect(procs: seq<Proc>, p: nat, ticks: nat, i: nat)
    requires p < |procs| && i < |procs| && procs[p].state.RUNNING?
    ensures var q, r := procs[i], AfterExit(procs, p, INIT, ticks)[i];
            && r.parent == (if q.parent == p then INIT else q.parent)
            && (if i == p then r.state.ZOMBIE? && r.etime == ticks
                else if q.state.SLEEPING? && (q.chan == ProcChan(procs[p].parent) || (q.chan == ProcChan(INIT) && OrphansZombie(procs, p)))
                then r.state.RUNNABLE? && r.priority == ticks
                else r.state == q.state && r.priority == q.priority)
            && r == q.(parent := r.parent, state := r.state, priority := r.priority, etime := r.etime)
            && (i != p ==> r.etime == q.etime)
  {
    assert OrphansZombie(procs, p) <==> ZombieChild(procs, p) >= 0;
  }

  /** Some child of p is a zombie. */
  predicate OrphansZombie(procs: seq<Proc>, p: int) {
    exists c :: 0 <= c < |procs| && procs[c].parent == p && procs[c].state.ZOMBIE?
  }

  // ----- The state diagram ----------------------------------------------------

  /** A step that wakes slot i: a wakeup on its channel, a kill that finds it first, or
      an exit that leaves it a zombie child. */
  predicate WokenBy(s: System, a: Action, i: nat)
    requires i < |s.procs|
  {
    var q := s.procs[i];
    match a
    case Wakeup(id) => q.chan == Other(id)
    case Kill(pid) => q.pid == pid && forall j :: 0 <= j < i ==> s.procs[j].pid != pid
    case Exit(p) =>
      p < |s.procs| && (q.chan == ProcChan(s.procs[p].parent) || (q.chan == ProcChan(INIT) && OrphansZombie(s.procs, p)))
    case _ => false
  }

  /** wait of p takes slot i: its first zombie child. */
  predicate ReapedBy(s: System, p: int, i: nat)
    requires i < |s.procs|
  {
    && s.procs[i].parent == p && s.procs[i].state.ZOMBIE?
    && forall j :: 0 <= j < i ==> !(s.procs[j].parent == p && s.procs[j].state.ZOMBIE?)
  }

  /** wait of p has to wait: there are children, none of them a zombie, and p is not killed. */
  predicate MustSleep(s: System, p: nat)
    requires p < |s.procs|
  {
    HasKids(s.procs, p) && !OrphansZombie(s.procs, p) && !s.procs[p].killed
  }

  function NextState(s: System, a: Action, i: nat): PState
    requires i < |s.procs|
  {
    match s.procs[i].state
    case UNUSED => if a.AllocProc? && a.np == i then EMBRYO else UNUSED
    case EMBRYO => if a == ForkDone(i) then RUNNABLE else if a == ForkFail(i) then UNUSED else EMBRYO
    case RUNNABLE => if a.Dispatch? && a.p == i then RUNNING else RUNNABLE
    case RUNNING =>
      if a == Exit(i) then ZOMBIE
      else if a == Yield(i) then RUNNABLE
      else if (a.Sleep? && a.p == i) || (a == Wait(i) && MustSleep(s, i)) then SLEEPING
      else RUNNING
    case SLEEPING => if WokenBy(s, a, i) then RUNNABLE else SLEEPING
    case ZOMBIE => if a.Wait? && ReapedBy(s, a.p, i) then UNUSED else ZOMBIE
  }

  lemma DiagramOfTable(s: System, a: Action, i: nat)
    requires Enabled(s, a) && i < |s.procs| && (a.Exit? || a.Kill? || a.Wakeup?)
    ensures |Do(s, a).procs| == |s.procs| && Do(s, a).procs[i].state == NextState(s, a, i)
  {
    match a
    case Exit(p) =>
      ExitEffect(s.procs, p, s.ticks, i);
    case Kill(pid) =>
      KillEffect(s.procs, pid, s.ticks, i);
    case Wakeup(id) =>
      WakeupEffect(s.procs, Other(id), s.ticks, i);
  }

  lemma DiagramOfWait(s: System, p: nat, i: nat)
    requires Enabled(s, Wait(p)) && i < |s.procs|
    ensures |Do(s, Wait(p)).procs| == |s.procs| && Do(s, Wait(p)).procs[i].state == NextState(s, Wait(p), i)
  {
    ZombieIs(s, p, i);
  }

  lemma DiagramOfOne(s: System, a: Action, i: nat)
    requires Enabled(s, a) && i < |s.procs| && !a.Exit? && !a.Kill? && !a.Wakeup? && !a.Wait?
    ensures |Do(s, a).procs| == |s.procs| && Do(s, a).procs[i].state == NextState(s, a, i)
  {
  }

  /** Every step moves every process along the diagram. */
  lemma StateDiagram(s: System, a: Action, i: nat)
    requires Enabled(s, a) && i < |s.procs|
    ensures |Do(s, a).procs| == |s.procs| && Do(s, a).procs[i].state == NextState(s, a, i)
  {
    if a.Wait? {
      DiagramOfWait(s, a.p, i);
    } else if a.Exit? || a.Kill? || a.Wakeup? {
      DiagramOfTable(s, a, i);
    } else {
      DiagramOfOne(s, a, i);
    }
  }

  lemma ZombieIs(s: System, p: int, i: nat)
    requires i < |s.procs|
    ensures ReapedBy(s, p, i) <==> ZombieChild(s.procs, p) == i
    ensures OrphansZombie(s.procs, p) <==> ZombieChild(s.procs, p) >= 0
  {
  }

  /** Who a process is, whose child it is, whether it has been killed, and what it sleeps
      on, change with these steps only. */
  predicate SamePerson(s: System, a: Action, i: nat, q: Proc, r: Proc)
    requires i < |s.procs|
  {
    var made, gone := a.AllocProc? && a.np == i, a.Wait? && ReapedBy(s, a.p, i);
    && r.pid == (if made then s.nextpid else if gone then 0 else q.pid)
    && r.parent == (if made || gone then -1
                    else if a == ForkSetParent(i) then q.maker
                    else if a.Exit? && q.parent == a.p then INIT else q.parent)
    && (r.killed <==> !gone && (q.killed || (a.Kill? && WokenBy(s, a, i))))
    && (r.state.SLEEPING? ==>
          r.chan == (if q.state.SLEEPING? then q.chan else if a.Sleep? then Other(a.id) else ProcChan(i)))
  }

  lemma IdentityOfTable(s: System, a: Action, i: nat)
    requires Enabled(s, a) && i < |s.procs| && (a.Exit? || a.Kill? || a.Wakeup?)
    ensures |Do(s, a).procs| == |s.procs| && SamePerson(s, a, i, s.procs[i], Do(s, a).procs[i])
  {
    match a
    case Exit(p) =>
      ExitEffect(s.procs, p, s.ticks, i);
    case Kill(pid) =>
      KillEffect(s.procs, pid, s.ticks, i);
    case Wakeup(id) =>
      WakeupEffect(s.procs, Other(id), s.ticks, i);
  }

  lemma Identity(s: System, a: Action, i: nat)
    requires Enabled(s, a) && i < |s.procs|
    ensures |Do(s, a).procs| == |s.procs| && SamePerson(s, a, i, s.procs[i], Do(s, a).procs[i])
  {
    if a.Exit? || a.Kill? || a.Wakeup? {
      IdentityOfTable(s, a, i);
    } else if a.Wait? {
      ZombieIs(s, a.p, i);
    }
  }

  /** wait returns the pid of its first zombie child, if it has one, and takes no other;
      exit, and nothing else, adds the pid of its caller to those that have exited. */
  lemma WaitReturns(s: System, a: Action, i: nat)
    requires Enabled(s, a) && i < |s.procs|
    ensures var t := Do(s, a);
            && (a.Wait? && ReapedBy(s, a.p, i) ==> t.reaped == s.reaped + [s.procs[i].pid])
            && (!a.Wait? || !OrphansZombie(s.procs, a.p) ==> t.reaped == s.reaped)
            && (a == Exit(i) ==> t.exited == s.exited + {s.procs[i].pid})
            && (!a.Exit? ==> t.exited == s.exited)
            && t.nextpid == s.nextpid + (if a.AllocProc? then 1 else 0)
            && t.ticks == s.ticks + (if a.Timer? then 1 else 0)
  {
    if a.Wait? {
      ZombieIs(s, a.p, i);
    }
  }

  /** What the step of its own turn a process may take is up to itself: any that fork,
      which neither exits nor waits, does not rule out. */
  lemma RunningMay(s: System, p: nat, id: int)
    requires Running(s, p)
    ensures Enabled(s, Sleep(p, id)) && Enabled(s, Yield(p)) && Enabled(s, Nice(p)) && Enabled(s, ExecImage(p)) && Enabled(s, Timer(p))
    ensures !Forking(s, p) ==> Enabled(s, Wait(p)) && (p != INIT ==> Enabled(s, Exit(p)))
    ensures !Forking(s, p) && FirstUnused(s.procs) >= 0 ==> Enabled(s, AllocProc(p, FirstUnused(s.procs)))
    ensures Enabled(s, Wakeup(id)) && Enabled(s, Kill(id))
  {
  }

  // ----- Runs -----------------------------------------------------------------

  lemma {:induction false} ExecLast(s: System, run: seq<Action>)
    requires Feasible(s, run) && run != []
    ensures var front, a := run[..|run| - 1], run[|run| - 1];
            Feasible(s, front) && Enabled(Exec(s, front), a) && Exec(s, run) == Do(Exec(s, front), a)
    decreases |run|
  {
    if |run| == 1 {
      assert run == [run[0]] && Feasible(Do(s, run[0]), []);
    } else {
      ExecLast(Do(s, run[0]), run[1..]);
      assert run[1..][..|run| - 2] == run[..|run| - 1][1..];
    }
  }

  /** How many of a run's actions are forks, and timer interrupts of cpu 0. */
  function Forks(run: seq<Action>): nat {
    if run == [] then 0 else Forks(run[..|run| - 1]) + if run[|run| - 1].AllocProc? then 1 else 0
  }

  function Ticks(run: seq<Action>): nat {
    if run == [] then 0 else Ticks(run[..|run| - 1]) + if run[|run| - 1].Timer? then 1 else 0
  }

  /** The pid that the last fork into slot i gave out. */
  function PidOf(run: seq<Action>, i: nat): int {
    if run == [] then 1
    else
      var a := run[|run| - 1];
      if a.AllocProc? && a.np == i then 1 + Forks(run) else PidOf(run[..|run| - 1], i)
  }

  /** In every run the pids given out are 2, 3, 4 and so on, none of them twice, a process
      has the one of its fork for life, and ticks counts the timer interrupts of cpu 0. */
  lemma {:induction false} PidsInOrder(strategy: nat, smp: bool, n: nat, run: seq<Action>, i: nat)
    requires n > 0 && Feasible(Init(strategy, smp, n), run) && i < n
    ensures var s := Exec(Init(strategy, smp, n), run);
            && |s.procs| == n && s.nextpid == 2 + Forks(run) && s.ticks == Ticks(run)
            && (!s.procs[i].state.UNUSED? ==> s.procs[i].pid == PidOf(run, i))
    decreases |run|
  {
    var s := Init(strategy, smp, n);
    if run != [] {
      var front, a := run[..|run| - 1], run[|run| - 1];
      ExecLast(s, run);
      PidsInOrder(strategy, smp, n, front, i);
      StateDiagram(Exec(s, front), a, i);
      Identity(Exec(s, front), a, i);
      WaitReturns(Exec(s, front), a, i);
    }
  }

  /** Timer interrupts that found slot i running since the scheduler last picked it. */
  function Quantum(run: seq<Action>, i: nat): nat {
    if run == [] then 0
    else
      var a, before := run[|run| - 1], Quantum(run[..|run| - 1], i);
      if a.Dispatch? && a.p == i then 0 else if a == Timer(i) || a == TimerElsewhere(i) then before + 1 else before
  }

  lemma QuantumStep(s: System, a: Action, i: nat)
    requires Enabled(s, a) && i < |s.procs| && Do(s, a).procs[i].state.RUNNING?
    ensures |Do(s, a).procs| == |s.procs|
    ensures var q, r := s.procs[i], Do(s, a).procs[i];
            if a.Dispatch? && a.p == i
            then r.myquantum == 0 && (s.strategy in {2, 3} || (s.strategy == 4 && q.queuelevel != 1) ==> r.priority == s.ticks)
            else q.state.RUNNING? && r.priority == q.priority &&
                 r.myquantum == q.myquantum + if a == Timer(i) || a == TimerElsewhere(i) then 1 else 0
  {
    StateDiagram(s, a, i);
  }

  /** In every run the quantum of a running process is the number of timer interrupts since
      it was last picked. */
  lemma {:induction false} QuantumIsHistory(strategy: nat, smp: bool, n: nat, run: seq<Action>, i: nat)
    requires n > 0 && Feasible(Init(strategy, smp, n), run) && i < n
    ensures var s := Exec(Init(strategy, smp, n), run);
            |s.procs| == n && (s.procs[i].state.RUNNING? ==> s.procs[i].myquantum == Quantum(run, i))
    decreases |run|
  {
    var s := Init(strategy, smp, n);
    PidsInOrder(strategy, smp, n, run, i);
    if run != [] {
      var front, a := run[..|run| - 1], run[|run| - 1];
      ExecLast(s, run);
      QuantumIsHistory(strategy, smp, n, front, i);
      if Exec(s, run).procs[i].state.RUNNING? {
        QuantumStep(Exec(s, front), a, i);
      }
    }
  }

  // ----- fork, exit and wait together -----------------------------------------

  lemma OneStep(s: System, a: Action, run: seq<Action>)
    requires Enabled(s, a) && Feasible(Do(s, a), run)
    ensures Feasible(s, [a] + run) && Exec(s, [a] + run) == Exec(Do(s, a), run)
  {
    assert ([a] + run)[1..] == run;
  }

  /** p runs, and is the parent of the RUNNABLE process np, but of no zombie. */
  ghost predicate HasChild(s: System, p: nat, np: nat) {
    && Running(s, p) && !Forking(s, p) && !s.procs[p].killed && np < |s.procs| && np != p && np != INIT
    && s.procs[np].state.RUNNABLE? && s.procs[np].parent == p && !OrphansZombie(s.procs, p)
    && !OrphansZombie(s.procs, np) && !Forking(s, np)
  }

  /** fork: p makes the child in the first free slot. */
  lemma ForkChild(s: System, p: nat, np: nat) returns (s1: System, s2: System, t: System)
    requires FamilyInv(s.procs) && Running(s, p) && !Forking(s, p) && !s.procs[p].killed
    requires np < |s.procs| && np == FirstUnused(s.procs) && !OrphansZombie(s.procs, p)
    ensures Enabled(s, AllocProc(p, np)) && s1 == Do(s, AllocProc(p, np))
    ensures Enabled(s1, ForkSetParent(np)) && s2 == Do(s1, ForkSetParent(np))
    ensures Enabled(s2, ForkDone(np)) && t == Do(s2, ForkDone(np)) && HasChild(t, p, np)
    ensures |t.procs| == |s.procs| && t.procs[np].pid == s.nextpid
    ensures t.reaped == s.reaped && t.strategy == s.strategy && t.smp == s.smp
  {
    s1 := Do(s, AllocProc(p, np));
    s2 := Do(s1, ForkSetParent(np));
    t := Do(s2, ForkDone(np));
    assert t.procs == s.procs[np := t.procs[np]];
    forall q | 0 <= q < |t.procs|
      ensures !(t.procs[q].state.EMBRYO? && t.procs[q].maker in {p, np})
      ensures !(t.procs[q].parent in {p, np} && t.procs[q].state.ZOMBIE?)
    {
      assert t.procs[q] == if q == np then t.procs[np] else s.procs[q];
      assert Family(s.procs, q);
    }
  }

  /** The exit of np wakes its parent p, which sleeps in wait. */
  lemma Exited(s: System, p: nat, np: nat) returns (t: System)
    requires p < |s.procs| && Running(s, np) && np != INIT && np != p && !Forking(s, np) && s.procs[np].parent == p
    requires s.procs[p].state.SLEEPING? && s.procs[p].chan == ProcChan(p) && !Forking(s, p) && !OrphansZombie(s.procs, p)
    requires !OrphansZombie(s.procs, np)
    ensures Enabled(s, Exit(np)) && t == Do(s, Exit(np)) && |t.procs| == |s.procs|
    ensures t.procs[p].state.RUNNABLE? && !Forking(t, p) && ReapedBy(t, p, np) && t.reaped == s.reaped
    ensures t.procs[np].pid == s.procs[np].pid && t.strategy == s.strategy && t.smp == s.smp
  {
    t := Do(s, Exit(np));
    ExitEffect(s.procs, np, s.ticks, p);
    ExitEffect(s.procs, np, s.ticks, np);
    forall q | 0 <= q < |s.procs|
      ensures q != np && t.procs[q].state.ZOMBIE? ==> t.procs[q].parent != p
      ensures !(t.procs[q].state.EMBRYO? && t.procs[q].maker == p)
    {
      ExitEffect(s.procs, np, s.ticks, q);
    }
  }

  /** p waits for its child, which has yet to exit, and so goes to sleep. */
  lemma SleepInWait(s: System, p: nat, np: nat) returns (t: System)
    requires s.strategy == 1 && s.smp && HasChild(s, p, np)
    ensures Enabled(s, Wait(p)) && Enabled(Do(s, Wait(p)), Dispatch(np, 0)) && t == Do(Do(s, Wait(p)), Dispatch(np, 0))
    ensures |t.procs| == |s.procs| && Running(t, np) && !Forking(t, np) && t.procs[np].parent == p
    ensures t.procs[p].state.SLEEPING? && t.procs[p].chan == ProcChan(p) && !Forking(t, p)
    ensures !OrphansZombie(t.procs, p) && !OrphansZombie(t.procs, np)
    ensures t.reaped == s.reaped && t.procs[np].pid == s.procs[np].pid && t.strategy == 1 && t.smp
  {
    ZombieIs(s, p, np);
    assert HasKids(s.procs, p);
    t := Do(Do(s, Wait(p)), Dispatch(np, 0));
    assert forall q :: 0 <= q < |t.procs| && q != p && q != np ==> t.procs[q] == s.procs[q];
  }

  /** The steps of a whole life: fork, wait, and the child's exit, after which the
      parent's wait returns the pid that fork gave out. */
  function WholeLife(p: nat, np: nat): seq<Action> {
    [AllocProc(p, np), ForkSetParent(np), ForkDone(np), Wait(p), Dispatch(np, 0), Exit(np), Dispatch(p, 0), Wait(p)]
  }

  /** p runs again, and its wait finds the zombie. */
  lemma Reap(s: System, p: nat, np: nat) returns (t: System)
    requires s.strategy == 1 && s.smp && p < |s.procs| && np < |s.procs| && p != np
    requires s.procs[p].state.RUNNABLE? && !Forking(s, p) && ReapedBy(s, p, np)
    ensures Enabled(s, Dispatch(p, 0)) && Enabled(Do(s, Dispatch(p, 0)), Wait(p)) && t == Do(Do(s, Dispatch(p, 0)), Wait(p))
    ensures |t.procs| == |s.procs| && t.reaped == s.reaped + [s.procs[np].pid] && t.procs[np].state.UNUSED? && Running(t, p)
  {
    var u := Do(s, Dispatch(p, 0));
    assert forall q :: 0 <= q < |u.procs| && q != p ==> u.procs[q] == s.procs[q];
    assert ReapedBy(u, p, np);
    ZombieIs(u, p, np);
    t := Do(u, Wait(p));
  }

  lemma WaitTwice(s: System, p: nat, np: nat) returns (run: seq<Action>, t: System)
    requires s.strategy == 1 && s.smp && HasChild(s, p, np)
    ensures run == [Wait(p), Dispatch(np, 0), Exit(np), Dispatch(p, 0), Wait(p)]
    ensures Feasible(s, run) && t == Exec(s, run) && |t.procs| == |s.procs|
    ensures t.reaped == s.reaped + [s.procs[np].pid] && t.procs[np].state.UNUSED? && Running(t, p)
  {
    var a, b, c, d := Wait(p), Dispatch(np, 0), Exit(np), Dispatch(p, 0);
    var s2 := SleepInWait(s, p, np);
    var s3 := Exited(s2, p, np);
    t := Reap(s3, p, np);
    OneStep(Do(s3, d), a, []);
    OneStep(s3, d, [a] + []);
    OneStep(s2, c, [d] + ([a] + []));
    OneStep(Do(s, a), b, [c] + ([d] + ([a] + [])));
    OneStep(s, a, [b] + ([c] + ([d] + ([a] + []))));
    run := [a] + ([b] + ([c] + ([d] + ([a] + []))));
  }

  /** From every reachable state in which a process runs with a free slot, no zombie child
      and no kill against it, it can fork, wait for the child and be given its pid. */
  lemma ForkThenWait(s: System, p: nat, np: nat) returns (t: System)
    requires FamilyInv(s.procs) && s.strategy == 1 && s.smp && Running(s, p) && !Forking(s, p) && !s.procs[p].killed
    requires np < |s.procs| && np == FirstUnused(s.procs) && !OrphansZombie(s.procs, p)
    ensures Feasible(s, WholeLife(p, np)) && t == Exec(s, WholeLife(p, np))
    ensures t.reaped == s.reaped + [s.nextpid] && |t.procs| == |s.procs| && t.procs[np].state.UNUSED? && Running(t, p)
  {
    var s1, s2, s3 := ForkChild(s, p, np);
    var run;
    run, t := WaitTwice(s3, p, np);
    OneStep(s2, ForkDone(np), run);
    OneStep(s1, ForkSetParent(np), [ForkDone(np)] + run);
    OneStep(s, AllocProc(p, np), [ForkSetParent(np)] + ([ForkDone(np)] + run));
    assert [AllocProc(p, np)] + ([ForkSetParent(np)] + ([ForkDone(np)] + run)) == WholeLife(p, np);
  }
}
