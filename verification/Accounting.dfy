/** Run-time accounting: ctime, rtime, etime, and the per-queue times that nice
records, over every run of the process table. */
module Accounting {

  import opened Policies
  import opened ProcTable
  import ProcLife

  predicate InUse(p: Proc) {
    !p.state.UNUSED?
  }

  /** How long the process has lived: until now, or until it exited. */
  function Life(p: Proc, ticks: nat): int {
    (if p.state.ZOMBIE? then p.etime else ticks) - p.ctime
  }

  /** It has not been charged for more ticks than it has lived. */
  predicate Fair(p: Proc, ticks: nat) {
    InUse(p) ==> p.rtime <= Life(p, ticks)
  }

  ghost predicate AllFair(s: System) {
    forall i: nat :: i < |s.procs| ==> Fair(s.procs[i], s.ticks)
  }

  /** exec happens before the process is charged its first tick. */
  predicate ExecIsEarly(s: System, a: Action) {
    a.ExecImage? && Slot(s, a.p) ==> s.procs[a.p].rtime == 0
  }

  /** One process over one step: nothing but a timer interrupt charges it, and a
      timer interrupt moves the clock as well, unless another processor takes it. */
  lemma ChargedByClock(s: System, a: Action, i: nat)
    requires Enabled(s, a) && i < |s.procs|
    ensures var q, r, t := s.procs[i], Do(s, a).procs[i], Do(s, a);
            && |t.procs| == |s.procs| && t.ticks >= s.ticks
            && (a.AllocProc? && a.np == i ==> r.rtime == 0 && r.ctime == s.ticks == t.ticks)
            && (!(a.AllocProc? && a.np == i) && InUse(r) ==> InUse(q))
            && (!(a.AllocProc? && a.np == i) && InUse(r) && !(a.TimerElsewhere? && a.p == i) ==>
                  r.rtime - q.rtime <= t.ticks - s.ticks)
            && (a.TimerElsewhere? && a.p == i ==> r == Charged(q) && t.ticks == s.ticks && q.state.RUNNING?)
            && (!(a.AllocProc? && a.np == i) && !(a.ExecImage? && a.p == i) ==> r.ctime == q.ctime)
            && (r.state.ZOMBIE? && !q.state.ZOMBIE? ==> r.etime == s.ticks == t.ticks && r.rtime == q.rtime)
            && (q.state.ZOMBIE? && InUse(r) ==> r.state.ZOMBIE? && r.rtime == q.rtime && r.etime == q.etime)
            && (a.ExecImage? && a.p == i ==>
                  r.rtime == q.rtime && r.ctime == s.ticks == t.ticks && InUse(r) && !r.state.ZOMBIE?)
  {
    if a.Exit? {
      ExitTimes(s.procs, a.p, s.ticks, i);
    }
  }

  lemma ExitTimes(procs: seq<Proc>, p: nat, ticks: nat, i: nat)
    requires p < |procs| && i < |procs|
    ensures var q, r := procs[i], AfterExit(procs, p, INIT, ticks)[i];
            && r.ctime == q.ctime && r.rtime == q.rtime && r.etime == (if i == p then ticks else q.etime)
            && (if i == p then r.state.ZOMBIE? else (InUse(r) <==> InUse(q)) && (r.state.ZOMBIE? <==> q.state.ZOMBIE?))
            && r.queuelevel == q.queuelevel && r.q3rtime == q.q3rtime && r.q3tatime == q.q3tatime
            && r.q2rtime == q.q2rtime && r.q2tatime == q.q2tatime
  {
  }

  /** A processor other than cpu 0 charges a process only for time that it has lived. */
  predicate ChargeHasRoom(s: System, a: Action) {
    a.TimerElsewhere? && Slot(s, a.p) ==> s.procs[a.p].rtime < s.ticks - s.procs[a.p].ctime
  }

  predicate StepIsFair(s: System, a: Action) {
    ExecIsEarly(s, a) && ChargeHasRoom(s, a)
  }

  lemma FairStep(s: System, a: Action)
    requires AllFair(s) && Enabled(s, a)
    ensures StepIsFair(s, a) <==> AllFair(Do(s, a))
  {
    var t := Do(s, a);
    forall i: nat | i < |s.procs|
      ensures !(a.ExecImage? && a.p == i) && !(a.TimerElsewhere? && a.p == i) ==> Fair(t.procs[i], t.ticks)
      ensures (a.ExecImage? || a.TimerElsewhere?) && a.p == i ==> (Fair(t.procs[i], t.ticks) <==> StepIsFair(s, a))
    {
      assert Fair(s.procs[i], s.ticks);
      ChargedByClock(s, a, i);
    }
    if a.ExecImage? || a.TimerElsewhere? {
      assert AllFair(t) ==> Fair(t.procs[a.p], t.ticks);
    }
  }

  // ----- Whole runs -----------------------------------------------------------

  ghost predicate AlwaysFair(s: System, run: seq<Action>)
    requires Feasible(s, run)
    decreases |run|
  {
    AllFair(s) && (run != [] ==> AlwaysFair(Do(s, run[0]), run[1..]))
  }

  ghost predicate StepsAreFair(s: System, run: seq<Action>)
    requires Feasible(s, run)
    decreases |run|
  {
    run != [] ==> StepIsFair(s, run[0]) && StepsAreFair(Do(s, run[0]), run[1..])
  }

  ghost predicate ExecsAreEarly(s: System, run: seq<Action>)
    requires Feasible(s, run)
    decreases |run|
  {
    run != [] ==> ExecIsEarly(s, run[0]) && ExecsAreEarly(Do(s, run[0]), run[1..])
  }

  lemma {:induction false} FairRun(s: System, run: seq<Action>)
    requires AllFair(s) && Feasible(s, run)
    ensures AlwaysFair(s, run) <==> StepsAreFair(s, run)
    decreases |run|
  {
    if run != [] {
      var t := Do(s, run[0]);
      FairStep(s, run[0]);
      if AllFair(t) {
        FairRun(t, run[1..]);
      }
    }
  }

  /** No process is ever charged for more ticks than it has lived if and only if every
      exec comes before the first charged tick and no other processor charges a
      process that has run all its life: exec restarts ctime but not rtime, and only
      cpu 0 moves the clock. */
  lemma AccountingIsFairIff(strategy: nat, smp: bool, n: nat, run: seq<Action>)
    requires n > 0 && Feasible(Init(strategy, smp, n), run)
    ensures AlwaysFair(Init(strategy, smp, n), run) <==> StepsAreFair(Init(strategy, smp, n), run)
  {
    FairRun(Init(strategy, smp, n), run);
  }

  lemma {:induction false} OneProcessorRun(s: System, run: seq<Action>)
    requires !s.smp && Feasible(s, run)
    ensures StepsAreFair(s, run) <==> ExecsAreEarly(s, run)
    decreases |run|
  {
    if run != [] {
      assert !Do(s, run[0]).smp;
      OneProcessorRun(Do(s, run[0]), run[1..]);
    }
  }

  /** On one processor the first of the two conditions is enough. */
  lemma OneProcessorIsFairIff(strategy: nat, n: nat, run: seq<Action>)
    requires n > 0 && Feasible(Init(strategy, false, n), run)
    ensures AlwaysFair(Init(strategy, false, n), run) <==> ExecsAreEarly(Init(strategy, false, n), run)
  {
    AccountingIsFairIff(strategy, false, n, run);
    OneProcessorRun(Init(strategy, false, n), run);
  }

  /** What wait22 computes in uint arithmetic for the process it reaps. */
  function WaitingTime(p: Proc): int {
    (p.etime - p.ctime - p.rtime) % 0x1_0000_0000
  }

  /** Waiting and running times of a reaped process add up to its life. */
  lemma TimesAddUp(p: Proc, ticks: nat)
    requires p.state.ZOMBIE? && p.etime < 0x1_0000_0000
    ensures Fair(p, ticks) <==> p.ctime <= p.etime && WaitingTime(p) + p.rtime == p.etime - p.ctime
  {
  }

  /** The state in which cpu 0 has just picked init. */
  lemma FirstDispatch(smp: bool, n: nat)
    requires n > 0
    ensures var s, a := Init(1, smp, n), Dispatch(0, 0);
            && Enabled(s, a) && |Do(s, a).procs| == n && Do(s, a).ticks == 0 && Do(s, a).smp == smp
            && Do(s, a).procs[0].state.RUNNING? && Do(s, a).procs[0].rtime == 0 == Do(s, a).procs[0].ctime
  {
    var s := Init(1, smp, n);
    assert s.procs[0].state.RUNNABLE?;
    assert forall q :: 0 <= q < |s.procs| ==> !s.procs[q].state.RUNNING?;
  }

  lemma TwoSteps(s: System, a: Action, b: Action)
    requires Enabled(s, a) && Enabled(Do(s, a), b)
    ensures Feasible(s, [a, b]) && Exec(s, [a, b]) == Do(Do(s, a), b)
  {
    var t := Do(s, a);
    assert [a, b][1..] == [b] && [b][1..] == [];
    assert Feasible(Do(t, b), []) && Feasible(t, [b]);
    assert Exec(t, [b]) == Do(t, b);
  }

  lemma ThreeSteps(s: System, a: Action, b: Action, c: Action)
    requires Enabled(s, a) && Enabled(Do(s, a), b) && Enabled(Do(Do(s, a), b), c)
    ensures Feasible(s, [a, b, c]) && Exec(s, [a, b, c]) == Do(Do(Do(s, a), b), c)
  {
    TwoSteps(Do(s, a), b, c);
    assert [a, b, c][1..] == [b, c];
  }

  /** With a second processor the charge can outrun the clock of cpu 0. */
  lemma UnfairWithTwoProcessors(n: nat)
    requires n > 0
    ensures var run := [Dispatch(0, 0), TimerElsewhere(0)];
            Feasible(Init(1, true, n), run) && !AllFair(Exec(Init(1, true, n), run))
  {
    var s := Init(1, true, n);
    FirstDispatch(true, n);
    TwoSteps(s, Dispatch(0, 0), TimerElsewhere(0));
    assert !StepIsFair(Do(s, Dispatch(0, 0)), TimerElsewhere(0));
    var t := Do(Do(s, Dispatch(0, 0)), TimerElsewhere(0));
    assert t.procs[0].rtime == 1 && !Fair(t.procs[0], t.ticks);
  }

  /** On one processor a program that execs after it has run is charged more than it
      has lived since. */
  lemma UnfairAfterLateExec(n: nat)
    requires n > 0
    ensures var run := [Dispatch(0, 0), Timer(0), ExecImage(0)];
            Feasible(Init(1, false, n), run) && !AllFair(Exec(Init(1, false, n), run))
  {
    var s := Init(1, false, n);
    FirstDispatch(false, n);
    ThreeSteps(s, Dispatch(0, 0), Timer(0), ExecImage(0));
    var t := Do(Do(Do(s, Dispatch(0, 0)), Timer(0)), ExecImage(0));
    assert t.procs[0].rtime == 1 && !Fair(t.procs[0], t.ticks);
  }

  ghost predicate OneRunning(s: System) {
    forall i, j :: 0 <= i < j < |s.procs| ==> !(s.procs[i].state.RUNNING? && s.procs[j].state.RUNNING?)
  }

  lemma OneRunningStep(s: System, a: Action)
    requires !s.smp && OneRunning(s) && Enabled(s, a)
    ensures OneRunning(Do(s, a)) && !Do(s, a).smp
  {
    var t := Do(s, a);
    forall i: nat | i < |s.procs|
      ensures t.procs[i].state.RUNNING? ==> s.procs[i].state.RUNNING? || (a.Dispatch? && a.p == i)
    {
    }
  }

  /** On one processor at most one process runs, in every run. */
  lemma {:induction false} OneRunningRun(s: System, run: seq<Action>)
    requires !s.smp && OneRunning(s) && Feasible(s, run)
    ensures OneRunning(Exec(s, run))
    decreases |run|
  {
    if run != [] {
      OneRunningStep(s, run[0]);
      OneRunningRun(Do(s, run[0]), run[1..]);
    }
  }

  // ----- Times are history ----------------------------------------------------

  /** Timer interrupts, on whatever processor, that found slot i running since its fork. */
  function Charges(run: seq<Action>, i: nat): nat {
    if run == [] then 0
    else
      var a, before := run[|run| - 1], Charges(run[..|run| - 1], i);
      if a.AllocProc? && a.np == i then 0
      else if a == Timer(i) || a == TimerElsewhere(i) then before + 1
      else before
  }

  /** The tick of the last fork into slot i, or of its last exec. */
  function Born(run: seq<Action>, i: nat): nat {
    if run == [] then 0
    else
      var a, front := run[|run| - 1], run[..|run| - 1];
      if (a.AllocProc? && a.np == i) || a == ExecImage(i) then ProcLife.Ticks(front) else Born(front, i)
  }

  /** The tick of the last exit from slot i. */
  function Ended(run: seq<Action>, i: nat): nat {
    if run == [] then 0
    else
      var a, front := run[|run| - 1], run[..|run| - 1];
      if a == Exit(i) then ProcLife.Ticks(front) else Ended(front, i)
  }

  /** One step of the three times of slot i. */
  lemma TimesStep(s: System, a: Action, i: nat)
    requires Enabled(s, a) && i < |s.procs|
    ensures |Do(s, a).procs| == |s.procs|
    ensures var q, r := s.procs[i], Do(s, a).procs[i];
            if a.AllocProc? && a.np == i then r.rtime == 0 && r.ctime == s.ticks
            else
              && (InUse(r) ==> InUse(q)) && (r.state.ZOMBIE? ==> q.state.ZOMBIE? || a == Exit(i))
              && r.rtime == q.rtime + (if a == Timer(i) || a == TimerElsewhere(i) then 1 else 0)
              && r.ctime == (if a == ExecImage(i) then s.ticks else q.ctime)
              && r.etime == (if a == Exit(i) then s.ticks else q.etime)
  {
    if a.Exit? {
      ExitTimes(s.procs, a.p, s.ticks, i);
    } else {
      ProcLife.StateDiagram(s, a, i);
    }
  }

  /** In every run rtime is exactly the number of timer interrupts that found the process
      running, ctime the tick of its fork or last exec, and etime that of its exit. */
  lemma {:induction false} TimesAreHistory(strategy: nat, smp: bool, n: nat, run: seq<Action>, i: nat)
    requires n > 0 && Feasible(Init(strategy, smp, n), run) && i < n
    ensures var s := Exec(Init(strategy, smp, n), run);
            && |s.procs| == n
            && (InUse(s.procs[i]) ==> s.procs[i].rtime == Charges(run, i) && s.procs[i].ctime == Born(run, i))
            && (s.procs[i].state.ZOMBIE? ==> s.procs[i].etime == Ended(run, i))
    decreases |run|
  {
    var s := Init(strategy, smp, n);
    if run != [] {
      var front, a := run[..|run| - 1], run[|run| - 1];
      ProcLife.ExecLast(s, run);
      TimesAreHistory(strategy, smp, n, front, i);
      ProcLife.PidsInOrder(strategy, smp, n, front, i);
      TimesStep(Exec(s, front), a, i);
    }
  }

  // ----- The times nice records -----------------------------------------------

  /** The times recorded for the queues that the process has left. */
  function RanBefore(p: Proc): int {
    if p.queuelevel >= 3 then 0 else if p.queuelevel == 2 then p.q3rtime else p.q3rtime + p.q2rtime
  }

  function StayedBefore(p: Proc): int {
    if p.queuelevel >= 3 then 0 else if p.queuelevel == 2 then p.q3tatime else p.q3tatime + p.q2tatime
  }

  /** In each queue the process has left it ran no longer than it stayed there, and
      the same holds of what remains for the queue it is in. */
  predicate QueueTimesFair(p: Proc, ticks: nat) {
    InUse(p) ==>
      && 1 <= p.queuelevel <= 3
      && (p.queuelevel <= 2 ==> 0 <= p.q3rtime <= p.q3tatime)
      && (p.queuelevel <= 1 ==> 0 <= p.q2rtime <= p.q2tatime)
      && RanBefore(p) <= p.rtime && p.rtime - RanBefore(p) <= Life(p, ticks) - StayedBefore(p)
  }

  /** nice moves a process down one queue, but not from the lowest, and closes the books of
      the queue it leaves: all that it has run and lived is then recorded for the queues
      it has left. */
  lemma NiceClosesTheBooks(s: System, p: nat)
    requires Enabled(s, Nice(p)) && 1 <= s.procs[p].queuelevel <= 3
    ensures var q, r := s.procs[p], Do(s, Nice(p)).procs[p];
            if q.queuelevel == 1 then r == q
            else r.queuelevel == q.queuelevel - 1 && RanBefore(r) == q.rtime && StayedBefore(r) == s.ticks - q.ctime
    ensures forall i: nat :: i < |s.procs| && i != p ==> Do(s, Nice(p)).procs[i] == s.procs[i]
  {
  }

  ghost predicate AllQueueTimesFair(s: System) {
    forall i: nat :: i < |s.procs| ==> QueueTimesFair(s.procs[i], s.ticks)
  }

  /** exec comes before the process has run or has spent a tick in a queue it left, and
      a processor other than cpu 0 charges it only for time spent in its queue. */
  predicate QueueStepIsFair(s: System, a: Action) {
    && (a.ExecImage? && Slot(s, a.p) ==> s.procs[a.p].rtime == 0 && StayedBefore(s.procs[a.p]) == 0)
    && (a.TimerElsewhere? && Slot(s, a.p) ==>
          var p := s.procs[a.p]; p.rtime - RanBefore(p) < s.ticks - p.ctime - StayedBefore(p))
  }

  predicate SameQueueTimes(q: Proc, r: Proc) {
    && r.queuelevel == q.queuelevel && r.q3rtime == q.q3rtime && r.q3tatime == q.q3tatime
    && r.q2rtime == q.q2rtime && r.q2tatime == q.q2tatime
  }

  lemma OnlyNiceRecords(s: System, a: Action, i: nat)
    requires Enabled(s, a) && i < |s.procs| && !(a.AllocProc? && a.np == i) && !(a.Nice? && a.p == i)
    ensures |Do(s, a).procs| == |s.procs| && SameQueueTimes(s.procs[i], Do(s, a).procs[i])
    ensures Do(s, a).procs[i].rtime >= s.procs[i].rtime
  {
    if a.Exit? {
      ExitTimes(s.procs, a.p, s.ticks, i);
    }
  }

  lemma QueueTimesStep(s: System, a: Action)
    requires AllQueueTimesFair(s) && Enabled(s, a)
    ensures QueueStepIsFair(s, a) <==> AllQueueTimesFair(Do(s, a))
  {
    var t := Do(s, a);
    forall i: nat | i < |s.procs|
      ensures !(a.ExecImage? && a.p == i) && !(a.TimerElsewhere? && a.p == i) ==> QueueTimesFair(t.procs[i], t.ticks)
      ensures (a.ExecImage? || a.TimerElsewhere?) && a.p == i ==>
                (QueueTimesFair(t.procs[i], t.ticks) <==> QueueStepIsFair(s, a))
    {
      QueueTimesOf(s, a, i);
    }
    if a.ExecImage? || a.TimerElsewhere? {
      assert AllQueueTimesFair(t) ==> QueueTimesFair(t.procs[a.p], t.ticks);
    }
  }

  lemma QueueTimesOf(s: System, a: Action, i: nat)
    requires AllQueueTimesFair(s) && Enabled(s, a) && i < |s.procs|
    ensures var q, t := Do(s, a).procs[i], Do(s, a);
            if (a.ExecImage? || a.TimerElsewhere?) && a.p == i then QueueTimesFair(q, t.ticks) <==> QueueStepIsFair(s, a)
            else QueueTimesFair(q, t.ticks)
  {
    assert QueueTimesFair(s.procs[i], s.ticks);
    ChargedByClock(s, a, i);
    if !(a.AllocProc? && a.np == i) && !(a.Nice? && a.p == i) {
      OnlyNiceRecords(s, a, i);
    }
  }

  ghost predicate AlwaysQueueTimesFair(s: System, run: seq<Action>)
    requires Feasible(s, run)
    decreases |run|
  {
    AllQueueTimesFair(s) && (run != [] ==> AlwaysQueueTimesFair(Do(s, run[0]), run[1..]))
  }

  ghost predicate QueueStepsAreFair(s: System, run: seq<Action>)
    requires Feasible(s, run)
    decreases |run|
  {
    run != [] ==> QueueStepIsFair(s, run[0]) && QueueStepsAreFair(Do(s, run[0]), run[1..])
  }

  lemma {:induction false} QueueTimesRun(s: System, run: seq<Action>)
    requires AllQueueTimesFair(s) && Feasible(s, run)
    ensures AlwaysQueueTimesFair(s, run) <==> QueueStepsAreFair(s, run)
    ensures QueueStepsAreFair(s, run) ==> AllQueueTimesFair(Exec(s, run))
    decreases |run|
  {
    if run != [] {
      QueueTimesStep(s, run[0]);
      if AllQueueTimesFair(Do(s, run[0])) {
        QueueTimesRun(Do(s, run[0]), run[1..]);
      }
    }
  }

  lemma QueueTimesInit(strategy: nat, smp: bool, n: nat)
    requires n > 0
    ensures AllQueueTimesFair(Init(strategy, smp, n))
  {
    var s := Init(strategy, smp, n);
    assert forall j: nat :: j < |s.procs| ==> QueueTimesFair(s.procs[j], s.ticks);
  }

  /** In every run the times recorded for the queues, and what remains for the present
      one, are fair throughout if and only if every exec and every charge is. */
  lemma QueueTimesAreFairIff(strategy: nat, smp: bool, n: nat, run: seq<Action>)
    requires n > 0 && Feasible(Init(strategy, smp, n), run)
    ensures AlwaysQueueTimesFair(Init(strategy, smp, n), run) <==> QueueStepsAreFair(Init(strategy, smp, n), run)
  {
    QueueTimesInit(strategy, smp, n);
    QueueTimesRun(Init(strategy, smp, n), run);
  }

  /** The times recorded for the queues that the process has left: it ran no longer
      than it stayed there, and they add up to no more than its totals. */
  predicate NiceTimesFit(p: Proc, ticks: nat) {
    && (p.queuelevel <= 2 ==> 0 <= p.q3rtime <= p.q3tatime)
    && (p.queuelevel <= 1 ==> 0 <= p.q2rtime <= p.q2tatime)
    && (p.queuelevel == 2 ==> p.q3rtime <= p.rtime && p.q3tatime <= Life(p, ticks))
    && (p.queuelevel == 1 ==> p.q3rtime + p.q2rtime <= p.rtime && p.q3tatime + p.q2tatime <= Life(p, ticks))
  }

  /** Then per-queue run times never exceed the time spent in the queue, nor add up to
      more than the totals wait33 reports. */
  lemma NiceTimesNeverExceedTotals(strategy: nat, smp: bool, n: nat, run: seq<Action>)
    requires n > 0 && Feasible(Init(strategy, smp, n), run) && QueueStepsAreFair(Init(strategy, smp, n), run)
    ensures var s := Exec(Init(strategy, smp, n), run);
            forall i: nat :: i < |s.procs| && InUse(s.procs[i]) ==> NiceTimesFit(s.procs[i], s.ticks)
  {
    QueueTimesInit(strategy, smp, n);
    QueueTimesRun(Init(strategy, smp, n), run);
    var s := Exec(Init(strategy, smp, n), run);
    assert forall i: nat :: i < |s.procs| ==> QueueTimesFair(s.procs[i], s.ticks);
  }

  // ----- The share policy -----------------------------------------------------

  /** It has waited for at least one tick of its life. */
  predicate HasWaited(p: Proc, ticks: nat) {
    p.rtime < ticks - p.ctime || ticks <= p.ctime
  }

  /** Strategy 3 ranks processes by the integer quotient of run time and life.  A
      fair quotient is 0 for every process that has waited, whatever its share, so
      the scan takes the first of those in table order. */
  lemma GuaranteedIsTableOrder(procs: seq<Proc>, ticks: nat, first: nat, c: int)
    requires forall i: nat :: i < |procs| ==> Fair(procs[i], ticks)
    requires first < |procs| && procs[first].state.RUNNABLE? && HasWaited(procs[first], ticks) && ticks > 0
    requires forall i: nat :: i < first && procs[i].state.RUNNABLE? ==> !HasWaited(procs[i], ticks)
    ensures Choice(Share, 0, procs, ticks, ticks, c) <==> c == first
  {
    forall i: nat | i < |procs| && procs[i].state.RUNNABLE?
      ensures Score(Share, procs[i], ticks) == if HasWaited(procs[i], ticks) then 0 else 1
    {
      assert Fair(procs[i], ticks);
      var p := procs[i];
      if ticks > p.ctime {
        Quotient(p.rtime, ticks - p.ctime);
      }
    }
    if Choice(Share, 0, procs, ticks, ticks, c) {
      assert Score(Share, procs[c], ticks) <= Score(Share, procs[first], ticks);
    }
  }

  lemma Quotient(a: nat, b: nat)
    requires 0 < b && a <= b
    ensures a / b == if a == b then 1 else 0
  {
  }

  /** So a process that has hardly run is passed over for one that has run for
      nearly all its life. */
  lemma GuaranteedIgnoresShares(ran: nat, life: nat)
    requires 0 < ran < life
    ensures var greedy := FreshProc(1, 0).(state := RUNNABLE, rtime := ran);
            var starved := FreshProc(2, 0).(state := RUNNABLE, rtime := 0);
            Choice(Share, 0, [greedy, starved], life, life, 0) && !Choice(Share, 0, [greedy, starved], life, life, 1)
  {
  }
}
