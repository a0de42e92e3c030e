/** struct proc, and what the scans of proc.c over the process table compute. */
module Policies {

  const NPROC: nat := 64
  const UINT_MAX: int := 0xffff_ffff

  datatype PState = UNUSED | EMBRYO | SLEEPING | RUNNABLE | RUNNING | ZOMBIE

  // What a process sleeps on: wait() sleeps on the process itself.
  datatype Chan = NoChan | ProcChan(p: int) | Other(id: int)

  datatype Proc = Proc(
    state: PState,
    pid: int,
    parent: int,
    chan: Chan,
    killed: bool,
    priority: nat,
    ctime: nat, rtime: nat, etime: nat,
    queuelevel: int,
    q3rtime: int, q3tatime: int, q2rtime: int, q2tatime: int,
    myquantum: nat,
    maker: int) // who is forking this EMBRYO

  const EmptyProc := Proc(UNUSED, 0, -1, NoChan, false, 0, 0, 0, 0, 0, 0, 0, 0, 0, 0, -1)

  // ----- One process ----------------------------------------------------------

  /** The stores of allocproc; q3rtime and its kin start as (uint)-1. */
  function FreshProc(pid: int, ticks: nat): Proc {
    Proc(EMBRYO, pid, -1, NoChan, false, ticks, ticks, 0, 0, 3, UINT_MAX, UINT_MAX, UINT_MAX, UINT_MAX, 0, -1)
  }

  function Enqueued(p: Proc, ticks: nat): Proc {
    p.(state := RUNNABLE, priority := ticks)
  }

  /** The stores of wait when it reaps a zombie. */
  function Freed(p: Proc): Proc {
    p.(state := UNUSED, pid := 0, parent := -1, killed := false)
  }

  /** The scheduler's stores in the process it picked, up to the tidying up that
      sleep does before ptable.lock is released. */
  function Dispatched(strategy: nat, p: Proc, ticks: nat): Proc {
    var q := p.(state := RUNNING, chan := NoChan, myquantum := 0);
    if strategy == 1 || (strategy == 4 && p.queuelevel == 1) then q else q.(priority := ticks)
  }

  /** The timer interrupt charges the running process. */
  function Charged(p: Proc): Proc {
    p.(rtime := p.rtime + 1, myquantum := p.myquantum + 1)
  }

  /** sys_nice. */
  function Lowered(p: Proc, ticks: nat): Proc {
    if p.queuelevel <= 1 then p
    else if p.queuelevel == 3
    then p.(q3rtime := p.rtime, q3tatime := ticks - p.ctime, queuelevel := 2)
    else if p.queuelevel == 2
    then p.(q2rtime := p.rtime - p.q3rtime, q2tatime := ticks - p.ctime - p.q3tatime, queuelevel := 1)
    else p.(queuelevel := p.queuelevel - 1)
  }

  // ----- The whole table ------------------------------------------------------

  function WokenProc(p: Proc, c: Chan, ticks: nat): Proc {
    if p.state.SLEEPING? && p.chan == c then Enqueued(p, ticks) else p
  }

  /** wakeup1. */
  function Woken(procs: seq<Proc>, c: Chan, ticks: nat): (r: seq<Proc>)
    ensures |r| == |procs|
    ensures forall i :: 0 <= i < |r| ==> r[i] == WokenProc(procs[i], c, ticks)
  {
    seq(|procs|, i requires 0 <= i < |procs| => WokenProc(procs[i], c, ticks))
  }

  /** What exit() of slot p does to one process q of the table: wake it if it waits
      for p's parent, hand it to init if it is a child of p, and wake init if some
      child of p is a zombie. */
  function ExitedProc(q: Proc, p: int, parent: int, orphans: bool, init: int, ticks: nat): Proc {
    var woken := WokenProc(q, ProcChan(parent), ticks);
    var moved := if woken.parent == p then woken.(parent := init) else woken;
    if orphans then WokenProc(moved, ProcChan(init), ticks) else moved
  }

  /** The table when exit() calls sched(). */
  function AfterExit(procs: seq<Proc>, p: nat, init: int, ticks: nat): (r: seq<Proc>)
    requires p < |procs|
    ensures |r| == |procs|
    ensures forall i :: 0 <= i < |r| ==>
              var q := ExitedProc(procs[i], p, procs[p].parent, ZombieChild(procs, p) >= 0, init, ticks);
              r[i] == if i == p then q.(state := ZOMBIE, etime := ticks) else q
  {
    var all := seq(|procs|, i requires 0 <= i < |procs| =>
      ExitedProc(procs[i], p, procs[p].parent, ZombieChild(procs, p) >= 0, init, ticks));
    all[p := all[p].(state := ZOMBIE, etime := ticks)]
  }

  /** The first zombie child of p in table order, -1 if there is none. */
  function ZombieChild(procs: seq<Proc>, p: int): (z: int)
    ensures z == -1 || 0 <= z < |procs|
    ensures z >= 0 ==> procs[z].parent == p && procs[z].state.ZOMBIE?
    ensures forall i :: 0 <= i < (if z >= 0 then z else |procs|) ==> !(procs[i].parent == p && procs[i].state.ZOMBIE?)
  {
    if procs == [] then -1
    else
      var before := ZombieChild(procs[..|procs| - 1], p);
      if before >= 0 then before
      else if procs[|procs| - 1].parent == p && procs[|procs| - 1].state.ZOMBIE? then |procs| - 1
      else -1
  }

  predicate HasKids(procs: seq<Proc>, p: int) {
    exists i :: 0 <= i < |procs| && procs[i].parent == p
  }

  /** The first UNUSED slot, -1 if there is none. */
  function FirstUnused(procs: seq<Proc>): (k: int)
    ensures k == -1 || 0 <= k < |procs|
    ensures k >= 0 ==> procs[k].state.UNUSED?
    ensures forall i :: 0 <= i < (if k >= 0 then k else |procs|) ==> !procs[i].state.UNUSED?
  {
    if procs == [] then -1
    else
      var before := FirstUnused(procs[..|procs| - 1]);
      if before >= 0 then before
      else if procs[|procs| - 1].state.UNUSED? then |procs| - 1
      else -1
  }

  function FirstPid(procs: seq<Proc>, pid: int): (k: int)
    ensures k == -1 || 0 <= k < |procs|
    ensures k >= 0 ==> procs[k].pid == pid
    ensures forall i :: 0 <= i < (if k >= 0 then k else |procs|) ==> procs[i].pid != pid
  {
    if procs == [] then -1
    else
      var before := FirstPid(procs[..|procs| - 1], pid);
      if before >= 0 then before
      else if procs[|procs| - 1].pid == pid then |procs| - 1
      else -1
  }

  /** kill. */
  function Killed(procs: seq<Proc>, pid: int, ticks: nat): (r: seq<Proc>)
    ensures |r| == |procs|
  {
    var k := FirstPid(procs, pid);
    if k < 0 then procs
    else
      var q := procs[k].(killed := true);
      procs[k := if q.state.SLEEPING? then Enqueued(q, ticks) else q]
  }

  // ----- The four policies ----------------------------------------------------

  /** What a scan minimises: the time of enqueuing, or the share of its life that
      a process has run, in integer division. */
  datatype Policy = Fifo | Share

  function Score(pol: Policy, p: Proc, ticks: nat): nat {
    match pol
    case Fifo => p.priority
    case Share => if ticks <= p.ctime then 0 else p.rtime / (ticks - p.ctime)
  }

  /** RUNNABLE and, for a multi-level scan, in that queue; 0 is every queue. */
  predicate Candidate(p: Proc, level: int) {
    p.state.RUNNABLE? && (level == 0 || p.queuelevel == level)
  }

  /** p has the least score below `seen` of all candidates, and the lowest slot
      among those. */
  ghost predicate Choice(pol: Policy, level: int, procs: seq<Proc>, ticks: nat, seen: nat, p: int) {
    && 0 <= p < |procs| && Candidate(procs[p], level) && Score(pol, procs[p], ticks) < seen
    && (forall i :: 0 <= i < |procs| && Candidate(procs[i], level) ==>
          Score(pol, procs[p], ticks) <= Score(pol, procs[i], ticks))
    && (forall i :: 0 <= i < p && Candidate(procs[i], level) ==>
          Score(pol, procs[p], ticks) < Score(pol, procs[i], ticks))
  }

  ghost predicate NoChoice(pol: Policy, level: int, procs: seq<Proc>, ticks: nat, seen: nat) {
    forall i :: 0 <= i < |procs| && Candidate(procs[i], level) ==> Score(pol, procs[i], ticks) >= seen
  }

  /** The scheduler, having read `seen` from ticks, may pick p.  Round robin and
      the lowest queue run every RUNNABLE process they pass, without looking at
      the higher queues again. */
  ghost predicate MayDispatch(strategy: nat, procs: seq<Proc>, ticks: nat, seen: nat, p: nat) {
    match strategy
    case 1 => p < |procs| && procs[p].state.RUNNABLE?
    case 2 => Choice(Fifo, 0, procs, ticks, seen, p)
    case 3 => Choice(Share, 0, procs, ticks, seen, p)
    case 4 =>
      || Choice(Share, 3, procs, ticks, seen, p)
      || (NoChoice(Share, 3, procs, ticks, seen) && Choice(Fifo, 2, procs, ticks, seen, p))
      || (p < |procs| && Candidate(procs[p], 1))
    case _ => false
  }

  // ----- The scans ------------------------------------------------------------

  /** The scan of strategies 2, 3 and the upper queues of 4.  `proc` is null, that
      is -1, unless the scan lowers the bound. */
  method Pick(pol: Policy, level: int, table: array<Proc>, ticks: nat) returns (proc: int)
    ensures proc >= 0 ==> Choice(pol, level, table[..], ticks, ticks, proc)
    ensures proc < 0 ==> proc == -1 && NoChoice(pol, level, table[..], ticks, ticks)
  {
    var min := ticks;
    proc := -1;
    for i := 0 to table.Length
      invariant proc == -1 || 0 <= proc < i
      invariant proc == -1 ==> min == ticks
      invariant proc >= 0 ==> Candidate(table[proc], level) && min == Score(pol, table[proc], ticks) && min < ticks
      invariant forall j :: 0 <= j < i && Candidate(table[j], level) ==> min <= Score(pol, table[j], ticks)
      invariant forall j :: 0 <= j < proc && Candidate(table[j], level) ==> min < Score(pol, table[j], ticks)
    {
      if Candidate(table[i], level) && Score(pol, table[i], ticks) < min {
        proc := i;
        min := Score(pol, table[i], ticks);
      }
    }
  }

  /** Strategy 4, up to the first switch: the best of the highest queue, or else of the
      second, or else the first process of the lowest.  It finds one whenever there is one
      that may be dispatched. */
  method PickFromQueues(table: array<Proc>, ticks: nat) returns (proc: int)
    ensures proc >= 0 ==> MayDispatch(4, table[..], ticks, ticks, proc)
    ensures proc >= 0 && table[..][proc].queuelevel <= 2 ==> NoChoice(Share, 3, table[..], ticks, ticks)
    ensures proc >= 0 && table[..][proc].queuelevel <= 1 ==> NoChoice(Fifo, 2, table[..], ticks, ticks)
    ensures proc < 0 ==> forall p: nat :: !MayDispatch(4, table[..], ticks, ticks, p)
  {
    proc := Pick(Share, 3, table, ticks);
    if proc >= 0 {
      return;
    }
    proc := Pick(Fifo, 2, table, ticks);
    if proc >= 0 {
      return;
    }
    for i := 0 to table.Length
      invariant forall j :: 0 <= j < i ==> !Candidate(table[j], 1)
    {
      if table[i].state == RUNNABLE && table[i].queuelevel == 1 {
        return i;
      }
    }
  }

  method Wakeup1(table: array<Proc>, c: Chan, ticks: nat)
    modifies table
    ensures table[..] == Woken(old(table[..]), c, ticks)
  {
    for i := 0 to table.Length
      invariant forall j :: 0 <= j < i ==> table[j] == WokenProc(old(table[j]), c, ticks)
      invariant forall j :: i <= j < table.Length ==> table[j] == old(table[j])
    {
      if table[i].state == SLEEPING && table[i].chan == c {
        table[i] := table[i].(state := RUNNABLE, priority := ticks);
      }
    }
  }

  /** kill; false is its return value -1. */
  method KillPid(table: array<Proc>, pid: int, ticks: nat) returns (found: bool)
    modifies table
    ensures table[..] == Killed(old(table[..]), pid, ticks)
    ensures found <==> exists i :: 0 <= i < table.Length && old(table[i].pid) == pid
  {
    for i := 0 to table.Length
      invariant unchanged(table)
      invariant forall j :: 0 <= j < i ==> table[j].pid != pid
    {
      if table[i].pid == pid {
        assert FirstPid(table[..], pid) == i;
        table[i] := table[i].(killed := true);
        if table[i].state == SLEEPING {
          table[i] := table[i].(state := RUNNABLE, priority := ticks);
        }
        assert table[..] == old(table[..])[i := table[i]];
        return true;
      }
    }
    return false;
  }

  /** exit() from the point where it takes ptable.lock. */
  method ExitProc(table: array<Proc>, p: nat, init: int, ticks: nat)
    requires p < table.Length
    modifies table
    ensures table[..] == AfterExit(old(table[..]), p, init, ticks)
  {
    ghost var t0, parent := table[..], table[p].parent;
    Wakeup1(table, ProcChan(table[p].parent), ticks);
    ghost var orphans := false;
    for i := 0 to table.Length
      invariant orphans <==> exists j :: 0 <= j < i && t0[j].parent == p && t0[j].state.ZOMBIE?
      invariant forall j :: 0 <= j < i ==> table[j] == ExitedProc(t0[j], p, parent, orphans, init, ticks)
      invariant forall j :: i <= j < table.Length ==>
                  var q := WokenProc(t0[j], ProcChan(parent), ticks);
                  table[j] == if orphans then WokenProc(q, ProcChan(init), ticks) else q
    {
      if table[i].parent == p {
        table[i] := table[i].(parent := init);
        if table[i].state == ZOMBIE {
          Wakeup1(table, ProcChan(init), ticks);
          orphans := true;
        }
      }
    }
    table[p] := table[p].(state := ZOMBIE, etime := ticks);
  }

  /** One pass of the loop in wait: the slot to reap, or -1, and whether there is
      any child at all. */
  method WaitScan(table: array<Proc>, p: int) returns (zombie: int, havekids: bool)
    ensures zombie == ZombieChild(table[..], p)
    ensures zombie == -1 ==> (havekids <==> HasKids(table[..], p))
  {
    havekids := false;
    for i := 0 to table.Length
      invariant havekids <==> exists j :: 0 <= j < i && table[j].parent == p
      invariant forall j :: 0 <= j < i ==> !(table[j].parent == p && table[j].state.ZOMBIE?)
    {
      if table[i].parent == p {
        havekids := true;
        if table[i].state == ZOMBIE {
          return i, havekids;
        }
      }
    }
    return -1, havekids;
  }
}
