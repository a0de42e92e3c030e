/** Bounded waiting under strategy 2, the FIFO policy. */
module FifoFairness {

  import opened Policies
  import opened ProcTable
  import opened Counting

  /** The slots a run dispatches, in order. */
  function Dispatches(run: seq<Action>): seq<int>
    decreases |run|
  {
    if run == [] then []
    else (if run[0].Dispatch? then [run[0].p] else []) + Dispatches(run[1..])
  }

  /** A process that a step leaves RUNNABLE either was waiting already, with the
      same stamp, or is stamped with the current tick. */
  predicate Stamped(q: Proc, r: Proc, ticks: nat) {
    r.state.RUNNABLE? ==> (q.state.RUNNABLE? && r.priority == q.priority) || r.priority == ticks
  }

  predicate StillWaits(q: Proc, r: Proc) {
    q.state.RUNNABLE? ==> r.state.RUNNABLE? && r.priority == q.priority
  }

  lemma StepStamps(s: System, a: Action, i: nat)
    requires Enabled(s, a) && i < |s.procs|
    ensures |Do(s, a).procs| == |s.procs| && Do(s, a).strategy == s.strategy && Do(s, a).ticks >= s.ticks
    ensures Stamped(s.procs[i], Do(s, a).procs[i], s.ticks)
    ensures !(a.Dispatch? && a.p == i) ==> StillWaits(s.procs[i], Do(s, a).procs[i])
  {
    if a.Exit? {
      ExitStamps(s.procs, a.p, s.ticks, i);
    }
  }

  lemma ExitStamps(procs: seq<Proc>, p: nat, ticks: nat, i: nat)
    requires p < |procs| && procs[p].state.RUNNING? && i < |procs|
    ensures var r := AfterExit(procs, p, INIT, ticks)[i]; Stamped(procs[i], r, ticks) && StillWaits(procs[i], r)
  {
  }

  /** p is waiting, the clock has moved since it was enqueued, and every process
      in `served` that waits as well was enqueued later. */
  ghost predicate Overtaken(s: System, p: nat, served: set<int>) {
    && p < |s.procs| && s.procs[p].state.RUNNABLE? && s.procs[p].priority < s.ticks
    && forall q :: q in served ==>
         && 0 <= q < |s.procs| && q != p
         && (s.procs[q].state.RUNNABLE? ==> s.procs[q].priority > s.procs[p].priority)
  }

  lemma OvertakenStep(s: System, a: Action, p: nat, served: set<int>)
    requires s.strategy == 2 && Overtaken(s, p, served) && Enabled(s, a) && !(a.Dispatch? && a.p == p)
    ensures a.Dispatch? ==> a.p !in served && 0 <= a.p < |s.procs|
    ensures Overtaken(Do(s, a), p, if a.Dispatch? then served + {a.p} else served)
  {
    StepStamps(s, a, p);
    forall q | q in served
      ensures Stamped(s.procs[q], Do(s, a).procs[q], s.ticks)
    {
      StepStamps(s, a, q);
    }
  }

  lemma {:induction false} ServedOnlyOnce(s: System, p: nat, served: set<int>, run: seq<Action>)
    requires s.strategy == 2 && Overtaken(s, p, served) && Feasible(s, run) && p !in Dispatches(run)
    ensures AllDifferent(Dispatches(run))
    ensures forall i :: 0 <= i < |Dispatches(run)| ==>
                          Dispatches(run)[i] !in served && 0 <= Dispatches(run)[i] < |s.procs|
    decreases |run|
  {
    if run != [] {
      var a := run[0];
      assert a.Dispatch? ==> Dispatches(run)[0] == a.p;
      assert forall x :: x in Dispatches(run[1..]) ==> x in Dispatches(run);
      OvertakenStep(s, a, p, served);
      StepStamps(s, a, p);
      ServedOnlyOnce(Do(s, a), p, if a.Dispatch? then served + {a.p} else served, run[1..]);
    }
  }

  /** FIFO has bounded waiting.  Once ticks has passed the tick at which a process
      became RUNNABLE, every run that has not dispatched it has dispatched every
      other slot at most once, so at most NPROC - 1 dispatches come before it. */
  lemma FifoBoundedWaiting(s: System, p: nat, run: seq<Action>)
    requires s.strategy == 2 && p < |s.procs| && s.procs[p].state.RUNNABLE? && s.procs[p].priority < s.ticks
    requires Feasible(s, run) && p !in Dispatches(run)
    ensures AllDifferent(Dispatches(run)) && |Dispatches(run)| <= |s.procs| - 1
  {
    ServedOnlyOnce(s, p, {}, run);
    Pigeonhole(Dispatches(run), |s.procs|, p);
  }

  /** While such a process waits, no scan comes up empty. */
  lemma FifoNeverIdles(procs: seq<Proc>, ticks: nat, p: nat) returns (c: nat)
    requires p < |procs| && procs[p].state.RUNNABLE? && procs[p].priority < ticks
    ensures Choice(Fifo, 0, procs, ticks, ticks, c)
  {
    c := p;
    for i := 0 to |procs|
      invariant c < |procs| && procs[c].state.RUNNABLE? && procs[c].priority <= procs[p].priority
      invariant forall j :: 0 <= j < i && procs[j].state.RUNNABLE? ==>
                              procs[c].priority < procs[j].priority || (procs[c].priority == procs[j].priority && c <= j)
    {
      if procs[i].state.RUNNABLE? &&
         (procs[i].priority < procs[c].priority || (procs[i].priority == procs[c].priority && i < c)) {
        c := i;
      }
    }
  }
}
