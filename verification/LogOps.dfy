module LogOps {

  /* Group commit: begin_op, log_write and end_op of log.c, run by any number of
     processes at once.

     Every action below is one critical section under log.lock, or the unlocked test
     at the head of log_write.  A run is any sequence of enabled actions. */

  const MAXOPBLOCKS: nat := 10
  const LOGSIZE: nat := 30

  /** Where a process is.  `left` is how many more blocks its operation may log. */
  datatype Process =
    | Outside
    | Asleep // in begin_op
    | Inside(left: nat)
    | Writing(left: nat, b: int) // past the unlocked size test of log_write(b)
  {
    predicate Active() {
      Inside? || Writing?
    }

    function Left(): nat {
      if Active() then left else 0
    }
  }

  /** Every operation may log `limit` blocks; begin_op reserves MAXOPBLOCKS. */
  datatype Log = Log(
    size: nat,
    limit: nat,
    outstanding: int,
    committing: bool,
    hdr: seq<int>, // lh.block[0..lh.n)
    procs: seq<Process>)

  datatype Action =
    | BeginWait(p: nat)
    | BeginOp(p: nat)
    | LogWriteTest(p: nat, b: int)
    | LogWriteAppend(p: nat)
    | EndOp(p: nat)
    | ClearHeader // commit() sets lh.n to 0
    | CommitDone

  function Init(size: nat, limit: nat, nproc: nat): Log {
    Log(size, limit, 0, false, [], seq(nproc, _ => Outside))
  }

  /** wakeup(&log): begin_op tests again. */
  function Woken(procs: seq<Process>): (r: seq<Process>)
    ensures |r| == |procs| && forall i :: 0 <= i < |r| ==> r[i] == if procs[i].Asleep? then Outside else procs[i]
  {
    seq(|procs|, i requires 0 <= i < |procs| => if procs[i].Asleep? then Outside else procs[i])
  }

  /** The size test of log_write, made before log.lock is taken. */
  predicate TooBig(s: Log) {
    |s.hdr| >= LOGSIZE || |s.hdr| >= s.size - 1
  }

  predicate MustWait(s: Log) {
    s.committing || |s.hdr| + (s.outstanding + 1) * MAXOPBLOCKS > LOGSIZE
  }

  predicate MayLog(s: Log, p: nat, b: int)
    requires p < |s.procs|
  {
    b in s.hdr || s.procs[p].Left() > 0
  }

  predicate Enabled(s: Log, a: Action) {
    match a
    case BeginWait(p) => p < |s.procs| && s.procs[p].Outside? && MustWait(s)
    case BeginOp(p) => p < |s.procs| && s.procs[p].Outside? && !MustWait(s)
    case LogWriteTest(p, b) =>
      // An operation appends at most limit new entries.
      p < |s.procs| && s.procs[p].Inside? && MayLog(s, p, b) && !TooBig(s) && s.outstanding >= 1
    case LogWriteAppend(p) => p < |s.procs| && s.procs[p].Writing? && MayLog(s, p, s.procs[p].b)
    case EndOp(p) => p < |s.procs| && s.procs[p].Inside?
    case ClearHeader => s.committing
    case CommitDone => s.committing && s.hdr == []
  }

  function Do(s: Log, a: Action): Log
    requires Enabled(s, a)
  {
    match a
    case BeginWait(p) => s.(procs := s.procs[p := Asleep])
    case BeginOp(p) => s.(outstanding := s.outstanding + 1, procs := s.procs[p := Inside(s.limit)])
    case LogWriteTest(p, b) => s.(procs := s.procs[p := Writing(s.procs[p].left, b)])
    case LogWriteAppend(p) =>
      var Writing(left, b) := s.procs[p];
      if b in s.hdr then s.(procs := s.procs[p := Inside(left)])
      else s.(hdr := s.hdr + [b], procs := s.procs[p := Inside(left - 1)])
    case EndOp(p) =>
      var o, procs := s.outstanding - 1, s.procs[p := Outside];
      if o == 0 then s.(outstanding := o, committing := true, procs := procs)
      else s.(outstanding := o, procs := Woken(procs))
    case ClearHeader => s.(hdr := [])
    case CommitDone => s.(committing := false, procs := Woken(s.procs))
  }

  predicate Feasible(s: Log, run: seq<Action>)
    decreases |run|
  {
    run == [] || (Enabled(s, run[0]) && Feasible(Do(s, run[0]), run[1..]))
  }

  function Exec(s: Log, run: seq<Action>): Log
    requires Feasible(s, run)
    decreases |run|
  {
    if run == [] then s else Exec(Do(s, run[0]), run[1..])
  }

  // ----- Budgets --------------------------------------------------------------

  function Unspent(procs: seq<Process>): nat {
    if procs == [] then 0 else procs[0].Left() + Unspent(procs[1..])
  }

  function Ops(procs: seq<Process>): nat {
    if procs == [] then 0 else (if procs[0].Active() then 1 else 0) + Ops(procs[1..])
  }

  lemma {:induction false} Update(procs: seq<Process>, p: nat, q: Process)
    requires p < |procs|
    ensures Unspent(procs[p := q]) == Unspent(procs) - procs[p].Left() + q.Left()
    ensures Ops(procs[p := q]) ==
            Ops(procs) - (if procs[p].Active() then 1 else 0) + (if q.Active() then 1 else 0)
  {
    if p > 0 {
      Update(procs[1..], p - 1, q);
      assert procs[p := q][1..] == procs[1..][p - 1 := q];
    } else {
      assert procs[p := q][1..] == procs[1..];
    }
  }

  lemma {:induction false} Bounds(procs: seq<Process>)
    requires forall i :: 0 <= i < |procs| ==> procs[i].Left() <= MAXOPBLOCKS
    ensures Unspent(procs) <= MAXOPBLOCKS * Ops(procs)
    ensures forall i :: 0 <= i < |procs| ==> procs[i].Left() <= Unspent(procs)
    ensures Ops(procs) == 0 <==> forall i :: 0 <= i < |procs| ==> !procs[i].Active()
  {
    if procs != [] {
      Bounds(procs[1..]);
      forall i | 0 <= i < |procs|
        ensures procs[i].Left() <= Unspent(procs)
        ensures Ops(procs) == 0 ==> !procs[i].Active()
      {
        if i > 0 {
          assert procs[i] == procs[1..][i - 1];
        }
      }
    }
  }

  lemma {:induction false} Waking(procs: seq<Process>)
    ensures Unspent(Woken(procs)) == Unspent(procs) && Ops(Woken(procs)) == Ops(procs)
  {
    if procs != [] {
      Waking(procs[1..]);
      assert Woken(procs)[1..] == Woken(procs[1..]);
    }
  }

  ghost predicate Distinct(hdr: seq<int>) {
    forall i, j :: 0 <= i < j < |hdr| ==> hdr[i] != hdr[j]
  }

  /** What every reachable state satisfies if no operation logs more than begin_op
      reserves for it. */
  ghost predicate Inv(s: Log) {
    && s.limit <= MAXOPBLOCKS && s.outstanding == Ops(s.procs)
    && |s.hdr| + Unspent(s.procs) <= LOGSIZE
    && Distinct(s.hdr)
    && (s.committing ==> s.outstanding == 0)
    && (s.outstanding == 0 && !s.committing ==> s.hdr == [])
    && (forall i :: 0 <= i < |s.procs| ==> s.procs[i].Left() <= MAXOPBLOCKS)
    && (forall i: nat :: i < |s.procs| && s.procs[i].Writing? ==> MayLog(s, i, s.procs[i].b))
  }

  /** Nobody sleeps in begin_op who could go on. */
  ghost predicate NoneLeftAsleep(s: Log) {
    forall i :: 0 <= i < |s.procs| && s.procs[i].Asleep? ==> MustWait(s)
  }

  lemma InvInit(size: nat, limit: nat, nproc: nat)
    requires limit <= MAXOPBLOCKS
    ensures Inv(Init(size, limit, nproc))
  {
    Bounds(Init(size, limit, nproc).procs);
  }

  lemma BeginFits(s: Log, p: nat)
    requires Inv(s) && Enabled(s, BeginOp(p))
    ensures Inv(Do(s, BeginOp(p)))
  {
    Bounds(s.procs);
    Update(s.procs, p, Inside(s.limit));
    assert |s.hdr| + 10 * Ops(s.procs) + 10 <= LOGSIZE;
  }

  lemma AppendFits(s: Log, p: nat)
    requires Inv(s) && Enabled(s, LogWriteAppend(p))
    ensures Inv(Do(s, LogWriteAppend(p)))
  {
    var Writing(left, b) := s.procs[p];
    Bounds(s.procs);
    Update(s.procs, p, Inside(if b in s.hdr then left else left - 1));
  }

  lemma EndFits(s: Log, p: nat)
    requires Inv(s) && Enabled(s, EndOp(p))
    ensures Inv(Do(s, EndOp(p)))
  {
    Bounds(s.procs);
    Update(s.procs, p, Outside);
    Waking(s.procs[p := Outside]);
  }

  lemma InvStep(s: Log, a: Action)
    requires Inv(s) && Enabled(s, a)
    ensures Inv(Do(s, a))
  {
    Bounds(s.procs);
    match a
    case BeginWait(p) =>
      Update(s.procs, p, Asleep);
    case BeginOp(p) =>
      BeginFits(s, p);
    case LogWriteTest(p, b) =>
      Update(s.procs, p, Writing(s.procs[p].left, b));
    case LogWriteAppend(p) =>
      AppendFits(s, p);
    case EndOp(p) =>
      EndFits(s, p);
    case ClearHeader =>
    case CommitDone =>
      Waking(s.procs);
  }

  /** In every reachable state the logged blocks and all unspent budgets fit in
      the log together, no block is logged twice, and a commit runs only when no
      operation is in progress. */
  lemma {:induction false} LogFitsInEveryRun(s: Log, run: seq<Action>)
    requires Inv(s) && Feasible(s, run)
    ensures Inv(Exec(s, run))
    decreases |run|
  {
    if run != [] {
      InvStep(s, run[0]);
      LogFitsInEveryRun(Do(s, run[0]), run[1..]);
    }
  }

  lemma AsleepStep(s: Log, a: Action)
    requires NoneLeftAsleep(s) && Enabled(s, a)
    ensures NoneLeftAsleep(Do(s, a))
  {
  }

  /** Whatever the budgets, no wakeup is lost: in every reachable state who sleeps in
      begin_op has to. */
  lemma {:induction false} NoneLeftAsleepInAnyRun(size: nat, limit: nat, nproc: nat, run: seq<Action>)
    requires Feasible(Init(size, limit, nproc), run)
    ensures NoneLeftAsleep(Exec(Init(size, limit, nproc), run))
  {
    NoneLeftAsleepRun(Init(size, limit, nproc), run);
  }

  lemma {:induction false} NoneLeftAsleepRun(s: Log, run: seq<Action>)
    requires NoneLeftAsleep(s) && Feasible(s, run)
    ensures NoneLeftAsleep(Exec(s, run))
    decreases |run|
  {
    if run != [] {
      AsleepStep(s, run[0]);
      NoneLeftAsleepRun(Do(s, run[0]), run[1..]);
    }
  }

  /** The append after the unlocked test never overruns lh.block, whatever other
      operations appended in between. */
  lemma AppendInBounds(s: Log, p: nat)
    requires Inv(s) && Enabled(s, LogWriteAppend(p)) && s.procs[p].b !in s.hdr
    ensures |s.hdr| < LOGSIZE
  {
    Bounds(s.procs);
  }

  /** end_op never finds a commit already running. */
  lemma EndOpNeverPanics(s: Log, p: nat)
    requires Inv(s) && Enabled(s, EndOp(p))
    ensures !s.committing
  {
    Bounds(s.procs);
  }

  /** begin_op waits only while someone else is bound to wake it up. */
  lemma WaitersHaveAWaker(s: Log)
    requires Inv(s) && MustWait(s)
    ensures s.committing || exists p :: 0 <= p < |s.procs| && s.procs[p].Active()
  {
    Bounds(s.procs);
  }

  // ----- Every operation can finish -------------------------------------------

  ghost predicate AllOutside(s: Log) {
    forall p :: 0 <= p < |s.procs| ==> s.procs[p].Outside?
  }

  lemma {:induction false} ExecConcat(s: Log, run: seq<Action>, more: seq<Action>)
    requires Feasible(s, run) && Feasible(Exec(s, run), more)
    ensures Feasible(s, run + more) && Exec(s, run + more) == Exec(Exec(s, run), more)
    decreases |run|
  {
    if run == [] {
      assert run + more == more;
    } else {
      ExecConcat(Do(s, run[0]), run[1..], more);
      assert (run + more)[1..] == run[1..] + more;
    }
  }

  lemma OneStep(s: Log, a: Action, run: seq<Action>)
    requires Enabled(s, a) && Feasible(Do(s, a), run)
    ensures Feasible(s, [a] + run) && Exec(s, [a] + run) == Exec(Do(s, a), run)
  {
    assert ([a] + run)[1..] == run;
  }

  /** An operation stores the block it is logging, and ends. */
  lemma FinishOne(s: Log, p: nat) returns (run: seq<Action>)
    requires Inv(s) && NoneLeftAsleep(s) && p < |s.procs| && s.procs[p].Active()
    ensures Feasible(s, run) && Inv(Exec(s, run)) && NoneLeftAsleep(Exec(s, run))
    ensures Exec(s, run).outstanding == s.outstanding - 1
  {
    var t := s;
    if s.procs[p].Writing? {
      t := Do(s, LogWriteAppend(p));
      InvStep(s, LogWriteAppend(p));
      AsleepStep(s, LogWriteAppend(p));
    }
    InvStep(t, EndOp(p));
    AsleepStep(t, EndOp(p));
    OneStep(t, EndOp(p), []);
    run := [EndOp(p)] + [];
    if s.procs[p].Writing? {
      OneStep(s, LogWriteAppend(p), run);
      run := [LogWriteAppend(p)] + run;
    }
  }

  /** From every reachable state all operations can end, the last one with a commit that
      empties the header, and then nobody is left waiting in begin_op. */
  lemma {:induction false} AllCanFinish(s: Log) returns (run: seq<Action>)
    requires Inv(s) && NoneLeftAsleep(s)
    ensures Feasible(s, run) && AllOutside(Exec(s, run))
    ensures Exec(s, run).outstanding == 0 && !Exec(s, run).committing && Exec(s, run).hdr == []
    decreases s.outstanding
  {
    Bounds(s.procs);
    if s.outstanding > 0 {
      var p: nat :| p < |s.procs| && s.procs[p].Active();
      var first := FinishOne(s, p);
      var rest := AllCanFinish(Exec(s, first));
      ExecConcat(s, first, rest);
      run := first + rest;
    } else if s.committing {
      var t := Do(s, ClearHeader);
      OneStep(t, CommitDone, []);
      OneStep(s, ClearHeader, [CommitDone] + []);
      run := [ClearHeader] + ([CommitDone] + []);
    } else {
      run := [];
    }
  }

  lemma EveryRunCanFinish(size: nat, limit: nat, nproc: nat, run: seq<Action>) returns (more: seq<Action>)
    requires limit <= MAXOPBLOCKS && Feasible(Init(size, limit, nproc), run)
    ensures Feasible(Init(size, limit, nproc), run + more)
    ensures var t := Exec(Init(size, limit, nproc), run + more);
            AllOutside(t) && t.outstanding == 0 && !t.committing && t.hdr == []
  {
    var s := Init(size, limit, nproc);
    InvInit(size, limit, nproc);
    LogFitsInEveryRun(s, run);
    NoneLeftAsleepInAnyRun(size, limit, nproc, run);
    more := AllCanFinish(Exec(s, run));
    ExecConcat(s, run, more);
  }

  // ----- The log is the history of its operations -----------------------------

  /** The block that the last log_write of p in the run is for. */
  function Tested(run: seq<Action>, p: nat): int {
    if run == [] then 0
    else
      var a := run[|run| - 1];
      if a.LogWriteTest? && a.p == p then a.b else Tested(run[..|run| - 1], p)
  }

  /** The blocks logged since the header was last cleared, each once, in order. */
  function Entries(run: seq<Action>): seq<int> {
    if run == [] then []
    else
      var a, before := run[|run| - 1], Entries(run[..|run| - 1]);
      if a.ClearHeader? then []
      else if a.LogWriteAppend? && Tested(run, a.p) !in before then before + [Tested(run, a.p)]
      else before
  }

  /** Operations begun and not yet ended. */
  function Open(run: seq<Action>): int {
    if run == [] then 0
    else
      var a, before := run[|run| - 1], Open(run[..|run| - 1]);
      if a.BeginOp? then before + 1 else if a.EndOp? then before - 1 else before
  }

  /** The last operation has ended, and the commit that its end_op makes has not. */
  predicate InCommit(run: seq<Action>) {
    run != [] &&
    var a := run[|run| - 1];
    (a.EndOp? && Open(run) == 0) || (!a.CommitDone? && InCommit(run[..|run| - 1]))
  }

  lemma {:induction false} ExecLast(s: Log, run: seq<Action>)
    requires Feasible(s, run) && run != []
    ensures var front, a := run[..|run| - 1], run[|run| - 1];
            Feasible(s, front) && Enabled(Exec(s, front), a) && Exec(s, run) == Do(Exec(s, front), a)
    decreases |run|
  {
    if |run| == 1 {
      assert run == [run[0]] && Feasible(Do(s, run[0]), []);
    } else {
      ExecLast(Do(s, run[0]), run[1..]);
      assert run[1..][..|run| - 2] == run[..|run| - 1][1..];
    }
  }

  lemma {:induction false} TestedBlock(s: Log, run: seq<Action>, p: nat)
    requires Feasible(s, run) && p < |Exec(s, run).procs| && Exec(s, run).procs[p].Writing?
    requires forall q :: 0 <= q < |s.procs| ==> !s.procs[q].Writing?
    ensures Exec(s, run).procs[p].b == Tested(run, p)
    decreases |run|
  {
    if run != [] {
      ExecLast(s, run);
      var front := run[..|run| - 1];
      if p < |Exec(s, front).procs| && Exec(s, front).procs[p].Writing? {
        TestedBlock(s, front, p);
      }
    }
  }

  /** Whatever the budgets, after every run the header holds exactly the blocks logged
      since it was last cleared, outstanding is the number of operations under way, and
      a commit is under way exactly from the end of the last operation on. */
  lemma {:induction false} LogIsItsHistory(size: nat, limit: nat, nproc: nat, run: seq<Action>)
    requires Feasible(Init(size, limit, nproc), run)
    ensures var s := Exec(Init(size, limit, nproc), run);
            s.hdr == Entries(run) && s.outstanding == Open(run) && (s.committing <==> InCommit(run))
    decreases |run|
  {
    var s := Init(size, limit, nproc);
    if run != [] {
      ExecLast(s, run);
      var front, a := run[..|run| - 1], run[|run| - 1];
      LogIsItsHistory(size, limit, nproc, front);
      if a.LogWriteAppend? {
        TestedBlock(s, front, a.p);
      }
    }
  }

  /** The last action of the run ends in wakeup(&log). */
  predicate Wakes(run: seq<Action>) {
    run != [] && (run[|run| - 1].CommitDone? || (run[|run| - 1].EndOp? && Open(run) != 0))
  }

  /** Process p has gone to sleep in begin_op, and no wakeup has come since. */
  predicate Sleeps(run: seq<Action>, p: nat) {
    run != [] && (run[|run| - 1] == BeginWait(p) || (!Wakes(run) && Sleeps(run[..|run| - 1], p)))
  }

  /** Process p has begun an operation and not ended it. */
  predicate InOp(run: seq<Action>, p: nat) {
    run != [] &&
    (run[|run| - 1] == BeginOp(p) || (run[|run| - 1] != EndOp(p) && InOp(run[..|run| - 1], p)))
  }

  /** Likewise the run says who sleeps, who has an operation under way, and who has
      neither and may call begin_op. */
  lemma {:induction false} PlacesAreHistory(size: nat, limit: nat, nproc: nat, run: seq<Action>, p: nat)
    requires Feasible(Init(size, limit, nproc), run) && p < nproc
    ensures var s := Exec(Init(size, limit, nproc), run);
            && |s.procs| == nproc
            && (s.procs[p].Asleep? <==> Sleeps(run, p)) && (s.procs[p].Active() <==> InOp(run, p))
    decreases |run|
  {
    if run != [] {
      var front := run[..|run| - 1];
      ExecLast(Init(size, limit, nproc), run);
      LogIsItsHistory(size, limit, nproc, run);
      PlacesAreHistory(size, limit, nproc, front, p);
    }
  }

  /** So a block that log_write has entered stays in the header until a commit clears it. */
  lemma {:induction false} LoggedUntilCleared(size: nat, limit: nat, nproc: nat, run: seq<Action>, j: nat)
    requires Feasible(Init(size, limit, nproc), run) && j < |run| && run[j].LogWriteAppend?
    requires forall k :: j < k < |run| ==> !run[k].ClearHeader?
    ensures Tested(run[..j], run[j].p) in Exec(Init(size, limit, nproc), run).hdr
    decreases |run|
  {
    var s := Init(size, limit, nproc);
    LogIsItsHistory(size, limit, nproc, run);
    var front := run[..|run| - 1];
    ExecLast(s, run);
    if j < |front| {
      LoggedUntilCleared(size, limit, nproc, front, j);
      LogIsItsHistory(size, limit, nproc, front);
      assert front[..j] == run[..j];
    } else {
      assert front == run[..j];
    }
  }

  /** In every run, when the last operation ends with blocks logged, a commit of exactly
      those blocks begins with it: no step brings outstanding to 0 but an end_op that
      sets committing, and it leaves the header as it is. */
  lemma LastEndOpCommits(size: nat, limit: nat, nproc: nat, run: seq<Action>, a: Action)
    requires limit <= MAXOPBLOCKS && Feasible(Init(size, limit, nproc), run) && Enabled(Exec(Init(size, limit, nproc), run), a)
    ensures var s := Exec(Init(size, limit, nproc), run);
            var t := Do(s, a);
            && (t.outstanding == 0 && s.outstanding != 0 ==> a.EndOp? && t.committing && !s.committing && t.hdr == s.hdr)
            && (t.outstanding == 0 && t.hdr != [] ==> t.committing)
            && (t.hdr != s.hdr ==> a.LogWriteAppend? || (a.ClearHeader? && s.committing))
            && (s.committing && !t.committing ==> a.CommitDone? && s.hdr == [])
  {
    var s := Exec(Init(size, limit, nproc), run);
    InvInit(size, limit, nproc);
    LogFitsInEveryRun(Init(size, limit, nproc), run);
    InvStep(s, a);
    if a.EndOp? {
      EndOpNeverPanics(s, a.p);
    }
  }

  // ----- The size panic -------------------------------------------------------

  /** Some run brings an operation with budget left to the size panic. */
  ghost predicate CanPanicWithBudget(size: nat, limit: nat, nproc: nat) {
    exists run: seq<Action>, p: nat ::
      Feasible(Init(size, limit, nproc), run) && PanicsWithBudget(Exec(Init(size, limit, nproc), run), p)
  }

  predicate PanicsWithBudget(s: Log, p: nat) {
    p < |s.procs| && s.procs[p].Inside? && s.procs[p].left > 0 && TooBig(s)
  }

  lemma NoPanicWithRoom(s: Log, p: nat)
    requires Inv(s) && s.size > LOGSIZE
    ensures !PanicsWithBudget(s, p)
  {
    Bounds(s.procs);
  }

  lemma {:induction false} ExecKeepsSize(s: Log, run: seq<Action>)
    requires Feasible(s, run)
    ensures Exec(s, run).size == s.size && Exec(s, run).limit == s.limit
    decreases |run|
  {
    if run != [] {
      ExecKeepsSize(Do(s, run[0]), run[1..]);
    }
  }

  lemma {:induction false} ExecAppend(s: Log, run: seq<Action>, a: Action)
    requires Feasible(s, run) && Enabled(Exec(s, run), a)
    ensures Feasible(s, run + [a]) && Exec(s, run + [a]) == Do(Exec(s, run), a)
    decreases |run|
  {
    if run == [] {
      assert run + [a] == [a];
      assert Feasible(Do(s, a), []);
    } else {
      ExecAppend(Do(s, run[0]), run[1..], a);
      assert (run + [a])[1..] == run[1..] + [a];
    }
  }

  /** Two processes have logged k blocks, and their present operations i and j. */
  ghost predicate Two(s: Log, k: nat, i: nat, j: nat) {
    && s.limit >= MAXOPBLOCKS && !s.committing && s.outstanding == 2 && |s.procs| >= 2
    && |s.hdr| == k && (forall l :: 0 <= l < k ==> s.hdr[l] < k)
    && i <= s.limit && j <= s.limit
    && s.procs[0] == Inside(s.limit - i) && s.procs[1] == Inside(s.limit - j)
    && forall l :: 2 <= l < |s.procs| ==> s.procs[l] == Outside
  }

  lemma LogOne(s: Log, run: seq<Action>, p: nat, k: nat, i: nat, j: nat) returns (r: seq<Action>)
    requires Feasible(s, run) && Two(Exec(s, run), k, i, j) && p < 2 && (if p == 0 then i else j) < Exec(s, run).limit
    requires k < LOGSIZE && k < Exec(s, run).size - 1
    ensures r == run + [LogWriteTest(p, k)] + [LogWriteAppend(p)]
    ensures Feasible(s, r) && (if p == 0 then Two(Exec(s, r), k + 1, i + 1, j) else Two(Exec(s, r), k + 1, i, j + 1))
  {
    ExecAppend(s, run, LogWriteTest(p, k));
    r := run + [LogWriteTest(p, k)];
    ExecAppend(s, r, LogWriteAppend(p));
    r := r + [LogWriteAppend(p)];
  }

  lemma Reopen(s: Log, run: seq<Action>) returns (r: seq<Action>)
    requires Feasible(s, run) && Two(Exec(s, run), 10, 10, 0)
    ensures Feasible(s, r) && Two(Exec(s, r), 10, 0, 0)
  {
    ExecAppend(s, run, EndOp(0));
    r := run + [EndOp(0)];
    ExecAppend(s, r, BeginOp(0));
    r := r + [BeginOp(0)];
  }

  lemma OpenTwo(size: nat, limit: nat, nproc: nat) returns (run: seq<Action>)
    requires nproc >= 2 && limit >= MAXOPBLOCKS
    ensures run == [BeginOp(0), BeginOp(1)]
    ensures Feasible(Init(size, limit, nproc), run) && Two(Exec(Init(size, limit, nproc), run), 0, 0, 0)
  {
    var s := Init(size, limit, nproc);
    assert Feasible(s, []);
    ExecAppend(s, [], BeginOp(0));
    ExecAppend(s, [] + [BeginOp(0)], BeginOp(1));
    run := [] + [BeginOp(0)] + [BeginOp(1)];
  }

  /** Process 0 logs ten blocks in each of two operations, process 1 ten in another. */
  lemma {:induction false} FillingRun(size: nat, limit: nat, nproc: nat, k: nat) returns (run: seq<Action>)
    requires nproc >= 2 && limit >= MAXOPBLOCKS && k <= LOGSIZE && (k == 0 || k < size)
    ensures Feasible(Init(size, limit, nproc), run)
    ensures Two(Exec(Init(size, limit, nproc), run), k, if k <= 10 then k else if k <= 20 then k - 10 else 10,
                if k <= 20 then 0 else k - 20)
    decreases k
  {
    var s := Init(size, limit, nproc);
    if k == 0 {
      run := OpenTwo(size, limit, nproc);
    } else {
      run := FillingRun(size, limit, nproc, k - 1);
      if k == 11 {
        run := Reopen(s, run);
      }
      ExecKeepsSize(s, run);
      if k <= 20 {
        run := LogOne(s, run, 0, k - 1, if k <= 10 then k - 1 else k - 11, 0);
      } else {
        run := LogOne(s, run, 1, k - 1, 10, k - 21);
      }
    }
  }

  /** An operation within its budget never panics, whatever else runs, exactly when the
      log area is larger than LOGSIZE blocks and the budget is what begin_op reserves.
      mkfs makes the area LOGSIZE blocks, and filewrite exceeds the budget. */
  lemma BudgetIsHonestIff(size: nat, limit: nat, nproc: nat)
    requires nproc >= 2 && limit >= MAXOPBLOCKS
    ensures !CanPanicWithBudget(size, limit, nproc) <==> size > LOGSIZE && limit == MAXOPBLOCKS
  {
    var s := Init(size, limit, nproc);
    if size > LOGSIZE && limit == MAXOPBLOCKS {
      forall run: seq<Action>, p: nat | Feasible(s, run)
        ensures !PanicsWithBudget(Exec(s, run), p)
      {
        InvInit(size, limit, nproc);
        LogFitsInEveryRun(s, run);
        ExecKeepsSize(s, run);
        NoPanicWithRoom(Exec(s, run), p);
      }
    } else {
      var k := if size == 0 then 0 else if size > LOGSIZE then LOGSIZE else size - 1;
      var run := FillingRun(size, limit, nproc, k);
      ExecKeepsSize(s, run);
      assert PanicsWithBudget(Exec(s, run), 1);
    }
  }

  /** Two operations that log half of the log each. */
  lemma {:induction false} TwoFill(size: nat, limit: nat, nproc: nat, k: nat) returns (run: seq<Action>)
    requires nproc >= 2 && limit >= LOGSIZE / 2 && k <= LOGSIZE && (k == 0 || k < size)
    ensures Feasible(Init(size, limit, nproc), run)
    ensures Two(Exec(Init(size, limit, nproc), run), k, if k <= 15 then k else 15, if k <= 15 then 0 else k - 15)
    ensures |run| >= 2 && run[..2] == [BeginOp(0), BeginOp(1)]
    ensures forall i :: 2 <= i < |run| ==> run[i].LogWriteTest? || run[i].LogWriteAppend?
    decreases k
  {
    var s := Init(size, limit, nproc);
    if k == 0 {
      run := OpenTwo(size, limit, nproc);
    } else {
      run := TwoFill(size, limit, nproc, k - 1);
      ExecKeepsSize(s, run);
      if k <= 15 {
        run := LogOne(s, run, 0, k - 1, k - 1, 0);
      } else {
        run := LogOne(s, run, 1, k - 1, 15, k - 16);
      }
    }
  }

  /** Two operations alone, begun one after the other, reach the size panic when each
      may log 16 blocks, as full chunks of filewrite do. */
  lemma TwoOperationsPanic(size: nat, limit: nat, nproc: nat) returns (run: seq<Action>)
    requires nproc >= 2 && limit > LOGSIZE / 2
    ensures Feasible(Init(size, limit, nproc), run)
    ensures PanicsWithBudget(Exec(Init(size, limit, nproc), run), 1)
    ensures |run| >= 2 && run[..2] == [BeginOp(0), BeginOp(1)]
    ensures forall i :: 2 <= i < |run| ==> run[i].LogWriteTest? || run[i].LogWriteAppend?
  {
    run := TwoFill(size, limit, nproc, if size == 0 then 0 else if size > LOGSIZE then LOGSIZE else size - 1);
    ExecKeepsSize(Init(size, limit, nproc), run);
  }

  /** Some run brings log_write to store an entry behind the end of lh.block. */
  ghost predicate CanOverrun(size: nat, limit: nat, nproc: nat) {
    exists run: seq<Action>, p: nat ::
      Feasible(Init(size, limit, nproc), run) && Overruns(Exec(Init(size, limit, nproc), run), p)
  }

  predicate Overruns(s: Log, p: nat) {
    Enabled(s, LogWriteAppend(p)) && s.procs[p].b !in s.hdr && |s.hdr| >= LOGSIZE
  }

  /** Two processes past the size test at once, with one entry left. */
  lemma OverrunningRun(size: nat, limit: nat, nproc: nat) returns (run: seq<Action>)
    requires nproc >= 2 && limit > MAXOPBLOCKS && size > LOGSIZE
    ensures Feasible(Init(size, limit, nproc), run) && Overruns(Exec(Init(size, limit, nproc), run), 1)
  {
    var s := Init(size, limit, nproc);
    run := FillingRun(size, limit, nproc, LOGSIZE - 1);
    ExecKeepsSize(s, run);
    ExecAppend(s, run, LogWriteTest(0, LOGSIZE));
    run := run + [LogWriteTest(0, LOGSIZE)];
    ExecAppend(s, run, LogWriteTest(1, LOGSIZE + 1));
    run := run + [LogWriteTest(1, LOGSIZE + 1)];
    ExecAppend(s, run, LogWriteAppend(0));
    run := run + [LogWriteAppend(0)];
  }

  /** With room for LOGSIZE blocks in the log area, log_write stays within lh.block in
      every run exactly when no operation logs more than begin_op reserves. */
  lemma AppendsStayInBoundsIff(size: nat, limit: nat, nproc: nat)
    requires nproc >= 2 && limit >= MAXOPBLOCKS && size > LOGSIZE
    ensures !CanOverrun(size, limit, nproc) <==> limit == MAXOPBLOCKS
  {
    var s := Init(size, limit, nproc);
    if limit == MAXOPBLOCKS {
      forall run: seq<Action>, p: nat | Feasible(s, run)
        ensures !Overruns(Exec(s, run), p)
      {
        InvInit(size, limit, nproc);
        LogFitsInEveryRun(s, run);
        Bounds(Exec(s, run).procs);
      }
    } else {
      var run := OverrunningRun(size, limit, nproc);
    }
  }
}
