/** Pipes: the ring buffer of pipe.c with its wrapping 32-bit counters, and the
readers and writers that sleep on it. */
module Pipe {

  const PIPESIZE: nat := 512
  const UINT: nat := 0x1_0000_0000

  type Byte = int

  // ----- The ring buffer ------------------------------------------------------

  class Ring {
    const data: array<Byte>
    // Bytes read and written so far, modulo 2^32.
    var nread: nat
    var nwrite: nat
    // The bytes in the pipe, oldest first.
    ghost var queue: seq<Byte>

    ghost predicate Valid()
      reads this, data
    {
      && data.Length == PIPESIZE && nread < UINT && nwrite < UINT
      && |queue| <= PIPESIZE && nwrite == (nread + |queue|) % UINT
      && forall k :: 0 <= k < |queue| ==> queue[k] == data[Slot(nread, k)]
    }

    constructor ()
      ensures Valid() && queue == [] && fresh(data)
    {
      data := new Byte[PIPESIZE](_ => 0);
      nread, nwrite, queue := 0, 0, [];
    }

    /** The test of pipewrite, with the wrap-around of uint addition. */
    predicate Full()
      reads this
    {
      nwrite == (nread + PIPESIZE) % UINT
    }

    lemma FullIffFull()
      requires Valid()
      ensures Full() <==> |queue| == PIPESIZE
      ensures nread == nwrite <==> queue == []
    {
    }

    method Put(b: Byte)
      requires Valid() && |queue| < PIPESIZE
      modifies this, data
      ensures Valid() && queue == old(queue) + [b]
    {
      ghost var n := |queue|;
      NextSlot(nread, nwrite, n);
      var slot := nwrite % PIPESIZE;
      data[slot] := b;
      nwrite := (nwrite + 1) % UINT;
      queue := queue + [b];
      assert forall k :: 0 <= k < n ==> data[Slot(nread, k)] == old(data[Slot(nread, k)]);
    }

    method Get() returns (b: Byte)
      requires Valid() && queue != []
      modifies this
      ensures Valid() && b == old(queue)[0] && queue == old(queue)[1..]
    {
      b := data[nread % PIPESIZE];
      ghost var was := nread;
      nread := (nread + 1) % UINT;
      forall k | 0 <= k < |queue| - 1
        ensures Slot(was, k + 1) == Slot(nread, k)
      {
        Rotated(was, k);
      }
      queue := queue[1..];
    }

    /** The stores pipewrite makes before it finishes or finds the pipe full. */
    method Fill(addr: seq<Byte>, start: nat) returns (i: nat)
      requires Valid() && start <= |addr|
      modifies this, data
      ensures Valid() && start <= i <= |addr|
      ensures (queue, addr[i..]) == Stored(old(queue), addr[start..])
    {
      i := start;
      while i < |addr| && !Full()
        invariant Valid() && start <= i <= |addr|
        invariant queue == old(queue) + addr[start..i]
      {
        FullIffFull();
        FillMore(old(queue), addr, start, i);
        Put(addr[i]);
        i := i + 1;
      }
      FullIffFull();
      FillDone(old(queue), addr, start, i, queue);
    }

    /** The copy loop of piperead. */
    method Drain(n: nat) returns (out: seq<Byte>)
      requires Valid()
      modifies this
      ensures Valid() && (out, queue) == Taken(old(queue), n)
    {
      out := [];
      while |out| < n && nread != nwrite
        invariant Valid() && |out| <= n && |out| <= |old(queue)|
        invariant out == old(queue)[..|out|] && queue == old(queue)[|out|..]
      {
        FullIffFull();
        var b := Get();
        out := out + [b];
      }
      FullIffFull();
    }
  }

  lemma FillMore(queue: seq<Byte>, addr: seq<Byte>, start: nat, i: nat)
    requires start <= i < |addr|
    ensures queue + addr[start..i] + [addr[i]] == queue + addr[start..i + 1]
  {
    assert addr[start..i + 1] == addr[start..i] + [addr[i]];
  }

  lemma FillDone(before: seq<Byte>, addr: seq<Byte>, start: nat, i: nat, queue: seq<Byte>)
    requires start <= i <= |addr| && queue == before + addr[start..i] && |queue| <= PIPESIZE
    requires i == |addr| || |queue| == PIPESIZE
    ensures (queue, addr[i..]) == Stored(before, addr[start..])
  {
    assert addr[start..i] == addr[start..][..i - start] && addr[i..] == addr[start..][i - start..];
  }

  /** Where the k-th byte of the pipe is stored. */
  function Slot(nread: nat, k: nat): (r: nat)
    ensures r < PIPESIZE
  {
    (nread + k) % PIPESIZE
  }

  /** Slots do not jump where the counters wrap, because PIPESIZE divides 2^32. */
  lemma SlotOf(nread: nat, k: nat)
    requires nread < UINT && k <= PIPESIZE
    ensures (nread + k) % UINT % PIPESIZE == Slot(nread, k)
  {
  }

  /** The byte stored next goes to a slot of its own. */
  lemma NextSlot(nread: nat, nwrite: nat, n: nat)
    requires nread < UINT && n < PIPESIZE && nwrite == (nread + n) % UINT
    ensures nwrite % PIPESIZE == Slot(nread, n) && (nwrite + 1) % UINT == (nread + (n + 1)) % UINT
    ensures forall k: nat :: k < n ==> Slot(nread, k) != Slot(nread, n)
  {
    SlotOf(nread, n);
    forall k: nat | k < n
      ensures Slot(nread, k) != Slot(nread, n)
    {
      Different(nread, k, n);
    }
  }

  lemma Different(nread: nat, k: nat, n: nat)
    requires k < n < PIPESIZE
    ensures Slot(nread, k) != Slot(nread, n)
  {
  }

  lemma Rotated(was: nat, k: nat)
    requires was < UINT && k < PIPESIZE
    ensures Slot(was, k + 1) == Slot((was + 1) % UINT, k)
  {
  }

  function Min(a: nat, b: nat): nat {
    if a < b then a else b
  }

  /** As many bytes as fit go into the pipe; the rest stay. */
  function Stored(queue: seq<Byte>, bytes: seq<Byte>): (r: (seq<Byte>, seq<Byte>))
    requires |queue| <= PIPESIZE
    ensures |r.0| <= PIPESIZE && r.0 + r.1 == queue + bytes
    ensures r.1 == [] || |r.0| == PIPESIZE
  {
    var room := Min(PIPESIZE - |queue|, |bytes|);
    (queue + bytes[..room], bytes[room..])
  }

  /** The first n bytes, or all there are. */
  function Taken(queue: seq<Byte>, n: nat): (r: (seq<Byte>, seq<Byte>))
    ensures r.0 + r.1 == queue && |r.0| == Min(n, |queue|)
  {
    (queue[..Min(n, |queue|)], queue[Min(n, |queue|)..])
  }

  // ----- Readers and writers --------------------------------------------------

  /** What a process is doing with the pipe.  Between actions nobody holds p->lock.  A
      writer has stored the bytes in `done` and has those in `rest` to go. */
  datatype Activity =
    | Elsewhere
    | Writing(done: seq<Byte>, rest: seq<Byte>)      // wants p->lock to go on writing
    | WriterAsleep(done: seq<Byte>, rest: seq<Byte>) // on &p->nwrite
    | Reading(n: nat)
    | ReaderAsleep(n: nat)                           // on &p->nread

  /** ret is what the last pipewrite or piperead returned. */
  datatype Process = Process(act: Activity, killed: bool, ret: int)

  datatype System = System(
    queue: seq<Byte>,
    readopen: bool,
    writeopen: bool,
    procs: seq<Process>,
    written: seq<Byte>, // all bytes ever stored
    read: seq<Byte>)    // all bytes ever returned

  datatype Action =
    | StartWrite(p: nat, bytes: seq<Byte>)
    | StartRead(p: nat, n: nat)
    | WriteSection(p: nat)  // pipewrite, from taking p->lock to sleep or return
    | ReadSection(p: nat)   // piperead, likewise
    | CloseWrite
    | CloseRead
    | Kill(p: nat)

  function Init(nproc: nat): System {
    System([], true, true, seq(nproc, _ => Process(Elsewhere, false, 0)), [], [])
  }

  predicate Is(s: System, p: nat) {
    p < |s.procs|
  }

  predicate Enabled(s: System, a: Action) {
    match a
    case StartWrite(p, bytes) => Is(s, p) && s.procs[p].act.Elsewhere? && s.writeopen
    case StartRead(p, n) => Is(s, p) && s.procs[p].act.Elsewhere? && s.readopen
    case WriteSection(p) => Is(s, p) && s.procs[p].act.Writing?
    case ReadSection(p) => Is(s, p) && s.procs[p].act.Reading?
    // The last descriptor of an end is not closed while someone uses it.
    case CloseWrite => s.writeopen && forall p: nat :: p < |s.procs| ==> !UsesWriteEnd(s.procs[p].act)
    case CloseRead => s.readopen && forall p: nat :: p < |s.procs| ==> !UsesReadEnd(s.procs[p].act)
    case Kill(p) => Is(s, p)
  }

  predicate UsesWriteEnd(a: Activity) {
    a.Writing? || a.WriterAsleep?
  }

  predicate UsesReadEnd(a: Activity) {
    a.Reading? || a.ReaderAsleep?
  }

  function WokenReader(p: Process): Process {
    if p.act.ReaderAsleep? then p.(act := Reading(p.act.n)) else p
  }

  function WokenWriter(p: Process): Process {
    if p.act.WriterAsleep? then p.(act := Writing(p.act.done, p.act.rest)) else p
  }

  /** wakeup(&p->nread) and wakeup(&p->nwrite). */
  function WakeReaders(procs: seq<Process>): (r: seq<Process>)
    ensures |r| == |procs| && forall i :: 0 <= i < |r| ==> r[i] == WokenReader(procs[i])
  {
    seq(|procs|, i requires 0 <= i < |procs| => WokenReader(procs[i]))
  }

  function WakeWriters(procs: seq<Process>): (r: seq<Process>)
    ensures |r| == |procs| && forall i :: 0 <= i < |r| ==> r[i] == WokenWriter(procs[i])
  {
    seq(|procs|, i requires 0 <= i < |procs| => WokenWriter(procs[i]))
  }

  function Returns(p: Process, r: int): Process {
    p.(act := Elsewhere, ret := r)
  }

  function AfterWrite(s: System, p: nat): System
    requires Enabled(s, WriteSection(p)) && |s.queue| <= PIPESIZE
  {
    var Writing(done, bytes) := s.procs[p].act;
    var (queue, rest) := Stored(s.queue, bytes);
    var more := bytes[..|queue| - |s.queue|];
    var t := s.(queue := queue, written := s.written + more);
    if rest == [] then t.(procs := WakeReaders(s.procs)[p := Returns(s.procs[p], |done| + |bytes|)])
    else if !s.readopen || s.procs[p].killed then t.(procs := s.procs[p := Returns(s.procs[p], -1)])
    else t.(procs := WakeReaders(s.procs)[p := s.procs[p].(act := WriterAsleep(done + more, rest))])
  }

  function AfterRead(s: System, p: nat): System
    requires Enabled(s, ReadSection(p))
  {
    if s.queue == [] && s.writeopen then
      if s.procs[p].killed then s.(procs := s.procs[p := Returns(s.procs[p], -1)])
      else s.(procs := s.procs[p := s.procs[p].(act := ReaderAsleep(s.procs[p].act.n))])
    else
      var (out, queue) := Taken(s.queue, s.procs[p].act.n);
      s.(queue := queue, read := s.read + out, procs := WakeWriters(s.procs)[p := Returns(s.procs[p], |out|)])
  }

  function Do(s: System, a: Action): System
    requires Enabled(s, a) && |s.queue| <= PIPESIZE
  {
    match a
    case StartWrite(p, bytes) => s.(procs := s.procs[p := s.procs[p].(act := Writing([], bytes))])
    case StartRead(p, n) => s.(procs := s.procs[p := s.procs[p].(act := Reading(n))])
    case WriteSection(p) => AfterWrite(s, p)
    case ReadSection(p) => AfterRead(s, p)
    case CloseWrite => s.(writeopen := false, procs := WakeReaders(s.procs))
    case CloseRead => s.(readopen := false, procs := WakeWriters(s.procs))
    case Kill(p) => s.(procs := s.procs[p := WokenReader(WokenWriter(s.procs[p])).(killed := true)])
  }

  // ----- Nothing is lost ------------------------------------------------------

  /** The bytes read and the bytes in the pipe are the bytes written. */
  ghost predicate InOrder(s: System) {
    |s.queue| <= PIPESIZE && s.written == s.read + s.queue
  }

  predicate SleepsRightly(s: System, a: Activity) {
    && (a.ReaderAsleep? ==> s.queue == [] && s.writeopen)
    && (a.WriterAsleep? ==> |s.queue| == PIPESIZE && s.readopen)
    && (UsesReadEnd(a) ==> s.readopen)
    && (UsesWriteEnd(a) ==> s.writeopen)
  }

  /** Nobody sleeps with reason to be awake. */
  ghost predicate NoneForgotten(s: System) {
    forall i: nat :: i < |s.procs| ==> SleepsRightly(s, s.procs[i].act)
  }

  /** A killed writer fills the pipe and leaves without waking a sleeping reader. */
  ghost predicate LeavesReaderAsleep(s: System, a: Action) {
    && a.WriteSection? && Is(s, a.p) && s.procs[a.p].act.Writing? && s.procs[a.p].killed && s.readopen
    && |s.procs[a.p].act.rest| > PIPESIZE
    && exists i: nat :: i < |s.procs| && s.procs[i].act.ReaderAsleep?
  }

  lemma ConcatIsAssociative(a: seq<Byte>, b: seq<Byte>, c: seq<Byte>)
    ensures a + b + c == a + (b + c)
  {
  }

  lemma InOrderStep(s: System, a: Action)
    requires InOrder(s) && Enabled(s, a)
    ensures InOrder(Do(s, a))
  {
    match a
    case WriteSection(p) => InOrderWrite(s, p);
    case ReadSection(p) => InOrderRead(s, p);
    case _ =>
  }

  lemma InOrderWrite(s: System, p: nat)
    requires InOrder(s) && Enabled(s, WriteSection(p))
    ensures InOrder(AfterWrite(s, p))
  {
    var bytes := s.procs[p].act.rest;
    var queue := Stored(s.queue, bytes).0;
    var more := bytes[..|queue| - |s.queue|];
    assert queue == s.queue + more;
    ConcatIsAssociative(s.read, s.queue, more);
  }

  lemma InOrderRead(s: System, p: nat)
    requires InOrder(s) && Enabled(s, ReadSection(p))
    ensures InOrder(AfterRead(s, p))
  {
    var (out, queue) := Taken(s.queue, s.procs[p].act.n);
    ConcatIsAssociative(s.read, out, queue);
  }

  /** A step forgets a sleeper exactly when it is the exit of a killed writer that
      returns without its wakeup. */
  lemma NoneForgottenStep(s: System, a: Action)
    requires InOrder(s) && NoneForgotten(s) && Enabled(s, a)
    ensures NoneForgotten(Do(s, a)) <==> !LeavesReaderAsleep(s, a)
  {
    var t := Do(s, a);
    if LeavesReaderAsleep(s, a) {
      var i: nat :| i < |s.procs| && s.procs[i].act.ReaderAsleep?;
      assert SleepsRightly(s, s.procs[i].act);
      assert t.procs[i] == s.procs[i] && !SleepsRightly(t, t.procs[i].act);
    } else {
      forall i: nat | i < |s.procs|
        ensures SleepsRightly(t, t.procs[i].act)
      {
        assert SleepsRightly(s, s.procs[i].act);
      }
    }
  }

  // ----- Whole runs -----------------------------------------------------------

  ghost predicate Feasible(s: System, run: seq<Action>)
    decreases |run|
  {
    |s.queue| <= PIPESIZE && (run == [] || (Enabled(s, run[0]) && Feasible(Do(s, run[0]), run[1..])))
  }

  ghost function Exec(s: System, run: seq<Action>): System
    requires Feasible(s, run)
    decreases |run|
  {
    if run == [] then s else Exec(Do(s, run[0]), run[1..])
  }

  predicate KillFree(run: seq<Action>) {
    forall i :: 0 <= i < |run| ==> !run[i].Kill?
  }

  ghost predicate NoneKilled(s: System) {
    forall i: nat :: i < |s.procs| ==> !s.procs[i].killed
  }

  lemma {:induction false} InOrderRun(s: System, run: seq<Action>)
    requires InOrder(s) && Feasible(s, run)
    ensures InOrder(Exec(s, run))
    decreases |run|
  {
    if run != [] {
      InOrderStep(s, run[0]);
      InOrderRun(Do(s, run[0]), run[1..]);
    }
  }

  ghost predicate NeverForgotten(s: System, run: seq<Action>)
    requires Feasible(s, run)
    decreases |run|
  {
    NoneForgotten(s) && (run != [] ==> NeverForgotten(Do(s, run[0]), run[1..]))
  }

  ghost predicate AllWake(s: System, run: seq<Action>)
    requires Feasible(s, run)
    decreases |run|
  {
    run != [] ==> !LeavesReaderAsleep(s, run[0]) && AllWake(Do(s, run[0]), run[1..])
  }

  /** Over a whole run, kills included, nobody is ever forgotten if and only if no
      killed writer leaves a reader asleep. */
  lemma {:induction false} NeverForgottenIff(s: System, run: seq<Action>)
    requires InOrder(s) && NoneForgotten(s) && Feasible(s, run)
    ensures NeverForgotten(s, run) <==> AllWake(s, run)
    ensures AllWake(s, run) ==> NoneForgotten(Exec(s, run))
    decreases |run|
  {
    if run != [] {
      InOrderStep(s, run[0]);
      NoneForgottenStep(s, run[0]);
      if NoneForgotten(Do(s, run[0])) {
        NeverForgottenIff(Do(s, run[0]), run[1..]);
      }
    }
  }

  lemma {:induction false} KillFreeWakes(s: System, run: seq<Action>)
    requires NoneKilled(s) && Feasible(s, run) && KillFree(run)
    ensures AllWake(s, run)
    decreases |run|
  {
    if run != [] {
      assert NoneKilled(Do(s, run[0]));
      KillFreeWakes(Do(s, run[0]), run[1..]);
    }
  }

  /** In every run the bytes read are a prefix of the bytes written, and the pipe
      holds exactly the rest. */
  lemma BytesArriveInOrder(nproc: nat, run: seq<Action>)
    requires Feasible(Init(nproc), run)
    ensures var s := Exec(Init(nproc), run); s.read <= s.written && s.queue == s.written[|s.read|..]
  {
    InOrderRun(Init(nproc), run);
  }

  /** In every run without kill, no reader sleeps while there is data or the write
      end is closed, and no writer while there is room or the read end is closed. */
  lemma NobodyIsForgotten(nproc: nat, run: seq<Action>, p: nat)
    requires Feasible(Init(nproc), run) && KillFree(run) && p < |Exec(Init(nproc), run).procs|
    ensures var s := Exec(Init(nproc), run);
            && (s.procs[p].act.ReaderAsleep? ==> s.queue == [] && s.writeopen)
            && (s.procs[p].act.WriterAsleep? ==> |s.queue| == PIPESIZE && s.readopen)
  {
    KillFreeWakes(Init(nproc), run);
    NeverForgottenIff(Init(nproc), run);
    assert SleepsRightly(Exec(Init(nproc), run), Exec(Init(nproc), run).procs[p].act);
  }

  // ----- What a call of pipewrite and of piperead does ------------------------

  /** p starts no other call in the run. */
  predicate OneCall(run: seq<Action>, p: nat) {
    forall i :: 0 <= i < |run| ==> !((run[i].StartWrite? || run[i].StartRead?) && run[i].p == p)
  }

  function Rest(now: seq<Byte>, before: seq<Byte>): seq<Byte> {
    if |before| <= |now| then now[|before|..] else []
  }

  /** What p puts into the pipe in the course of the run. */
  ghost function StoredBy(s: System, run: seq<Action>, p: nat): seq<Byte>
    requires Feasible(s, run)
    decreases |run|
  {
    if run == [] then []
    else
      var t := Do(s, run[0]);
      (if run[0] == WriteSection(p) then Rest(t.written, s.written) else []) + StoredBy(t, run[1..], p)
  }

  /** What p takes out of the pipe in the course of the run. */
  ghost function TakenBy(s: System, run: seq<Action>, p: nat): seq<Byte>
    requires Feasible(s, run)
    decreases |run|
  {
    if run == [] then []
    else
      var t := Do(s, run[0]);
      (if run[0] == ReadSection(p) then Rest(t.read, s.read) else []) + TakenBy(t, run[1..], p)
  }

  /** A call of pipewrite of these bytes has stored the first of them; it returns when it
      has stored all, or with -1 when the read end is closed or the caller killed. */
  ghost predicate WriteSoFar(t: System, p: nat, bytes: seq<Byte>, stored: seq<Byte>) {
    && p < |t.procs| && stored <= bytes
    && var q := t.procs[p];
       if UsesWriteEnd(q.act) then q.act.done == stored && q.act.done + q.act.rest == bytes
       else
         && q.act.Elsewhere?
         && (if q.ret == -1 then stored != bytes && (!t.readopen || q.killed) else q.ret == |bytes| && stored == bytes)
  }

  lemma NowAndLater(before: seq<Byte>, bytes: seq<Byte>)
    requires |before| <= PIPESIZE
    ensures var (queue, rest) := Stored(before, bytes); bytes[..|queue| - |before|] + rest == bytes
  {
  }

  lemma WriteCallSection(s: System, p: nat, bytes: seq<Byte>)
    requires InOrder(s) && Enabled(s, WriteSection(p)) && s.procs[p].act.done + s.procs[p].act.rest == bytes
    ensures var t := Do(s, WriteSection(p)); WriteSoFar(t, p, bytes, s.procs[p].act.done + Rest(t.written, s.written))
    ensures UsesWriteEnd(Do(s, WriteSection(p)).procs[p].act) ==> Do(s, WriteSection(p)).procs[p].act.WriterAsleep?
  {
    var Writing(done, more) := s.procs[p].act;
    var t := Do(s, WriteSection(p));
    var (queue, rest) := Stored(s.queue, more);
    var now := more[..|queue| - |s.queue|];
    assert Rest(t.written, s.written) == now;
    NowAndLater(s.queue, more);
    ConcatIsAssociative(done, now, rest);
  }

  /** Other actions leave a call alone, but for waking it. */
  lemma WriteCallOther(s: System, a: Action, p: nat, bytes: seq<Byte>, stored: seq<Byte>)
    requires InOrder(s) && Enabled(s, a) && a != WriteSection(p) && OneCall([a], p) && WriteSoFar(s, p, bytes, stored)
    ensures WriteSoFar(Do(s, a), p, bytes, stored)
  {
    assert [a][0] == a;
  }

  lemma {:induction false} WriteCallRun(s: System, run: seq<Action>, p: nat, bytes: seq<Byte>, stored: seq<Byte>)
    requires InOrder(s) && Feasible(s, run) && OneCall(run, p) && WriteSoFar(s, p, bytes, stored)
    ensures WriteSoFar(Exec(s, run), p, bytes, stored + StoredBy(s, run, p))
    decreases |run|
  {
    if run == [] {
      assert stored + [] == stored;
    } else {
      var a := run[0];
      var t := Do(s, a);
      InOrderStep(s, a);
      assert OneCall([a], p) && OneCall(run[1..], p);
      if a == WriteSection(p) {
        WriteCallSection(s, p, bytes);
        WriteCallRun(t, run[1..], p, bytes, stored + Rest(t.written, s.written));
        ConcatIsAssociative(stored, Rest(t.written, s.written), StoredBy(t, run[1..], p));
      } else {
        WriteCallOther(s, a, p, bytes, stored);
        WriteCallRun(t, run[1..], p, bytes, stored);
        assert StoredBy(s, run, p) == StoredBy(t, run[1..], p);
      }
    }
  }

  /** In every run a call of pipewrite puts the bytes it was given into the pipe, in order
      and each once: what it has stored and what it has to go are those bytes throughout.
      It returns their number once all are stored, and otherwise -1, which it does only
      when the read end is closed or the caller has been killed. */
  lemma WritesAreWhole(nproc: nat, before: seq<Action>, p: nat, bytes: seq<Byte>, run: seq<Action>)
    requires Feasible(Init(nproc), before) && Enabled(Exec(Init(nproc), before), StartWrite(p, bytes))
    requires |Exec(Init(nproc), before).queue| <= PIPESIZE
    requires Feasible(Do(Exec(Init(nproc), before), StartWrite(p, bytes)), run) && OneCall(run, p)
    ensures var s := Do(Exec(Init(nproc), before), StartWrite(p, bytes));
            WriteSoFar(Exec(s, run), p, bytes, StoredBy(s, run, p))
  {
    InOrderRun(Init(nproc), before);
    var s := Exec(Init(nproc), before);
    var t := Do(s, StartWrite(p, bytes));
    assert [] + bytes == bytes;
    assert WriteSoFar(t, p, bytes, []);
    WriteCallRun(t, run, p, bytes, []);
    assert [] + StoredBy(t, run, p) == StoredBy(t, run, p);
  }

  /** A call of piperead for n bytes has taken nothing yet, or has returned the number of
      bytes it took, none of n > 0 only if the write end is closed, or -1 for a kill. */
  ghost predicate ReadSoFar(t: System, p: nat, n: nat, taken: seq<Byte>) {
    && p < |t.procs| && |taken| <= n
    && var q := t.procs[p];
       if UsesReadEnd(q.act) then q.act.n == n && taken == []
       else
         && q.act.Elsewhere?
         && (if q.ret == -1 then q.killed && taken == [] else q.ret == |taken|)
         && (q.ret == 0 && n > 0 ==> !t.writeopen)
  }

  /** piperead takes fewer than n bytes only if it leaves the pipe empty. */
  lemma ReadCallSection(s: System, p: nat, n: nat)
    requires InOrder(s) && Enabled(s, ReadSection(p)) && s.procs[p].act.n == n
    ensures var t := Do(s, ReadSection(p));
            && ReadSoFar(t, p, n, Rest(t.read, s.read)) && Rest(t.read, s.read) + t.queue == s.queue
            && (t.procs[p].act.Elsewhere? && t.procs[p].ret != -1 ==> t.procs[p].ret == n || t.queue == [])
            && (UsesReadEnd(t.procs[p].act) ==> t.procs[p].act.ReaderAsleep? && s.queue == [] && s.writeopen && !s.procs[p].killed)
  {
    var t := Do(s, ReadSection(p));
    var (out, queue) := Taken(s.queue, n);
    assert Rest(t.read, s.read) == if s.queue == [] && s.writeopen then [] else out;
  }

  lemma ReadCallOther(s: System, a: Action, p: nat, n: nat, taken: seq<Byte>)
    requires InOrder(s) && Enabled(s, a) && a != ReadSection(p) && OneCall([a], p) && ReadSoFar(s, p, n, taken)
    ensures ReadSoFar(Do(s, a), p, n, taken)
  {
    assert [a][0] == a;
  }

  lemma {:induction false} ReadCallRun(s: System, run: seq<Action>, p: nat, n: nat, taken: seq<Byte>)
    requires InOrder(s) && Feasible(s, run) && OneCall(run, p) && ReadSoFar(s, p, n, taken)
    ensures ReadSoFar(Exec(s, run), p, n, taken + TakenBy(s, run, p))
    decreases |run|
  {
    if run == [] {
      assert taken + [] == taken;
    } else {
      var a := run[0];
      var t := Do(s, a);
      InOrderStep(s, a);
      assert OneCall([a], p) && OneCall(run[1..], p);
      if a == ReadSection(p) {
        ReadCallSection(s, p, n);
        ReadCallRun(t, run[1..], p, n, Rest(t.read, s.read));
        assert taken + TakenBy(s, run, p) == Rest(t.read, s.read) + TakenBy(t, run[1..], p);
      } else {
        ReadCallOther(s, a, p, n, taken);
        ReadCallRun(t, run[1..], p, n, taken);
        assert TakenBy(s, run, p) == TakenBy(t, run[1..], p);
      }
    }
  }

  /** In every run a call of piperead for n bytes sleeps until there is a byte, the write
      end is closed, or it is killed; it then returns the number of bytes it takes, at most
      n, and 0 for n > 0 only when the write end is closed. */
  lemma ReadsAreWhole(nproc: nat, before: seq<Action>, p: nat, n: nat, run: seq<Action>)
    requires Feasible(Init(nproc), before) && Enabled(Exec(Init(nproc), before), StartRead(p, n))
    requires |Exec(Init(nproc), before).queue| <= PIPESIZE
    requires Feasible(Do(Exec(Init(nproc), before), StartRead(p, n)), run) && OneCall(run, p)
    ensures var s := Do(Exec(Init(nproc), before), StartRead(p, n));
            ReadSoFar(Exec(s, run), p, n, TakenBy(s, run, p))
  {
    InOrderRun(Init(nproc), before);
    var s := Exec(Init(nproc), before);
    var t := Do(s, StartRead(p, n));
    assert ReadSoFar(t, p, n, []);
    ReadCallRun(t, run, p, n, []);
    assert [] + TakenBy(t, run, p) == TakenBy(t, run, p);
  }

  // ----- Ends and kills -------------------------------------------------------

  lemma FlagsStep(s: System, a: Action, p: nat)
    requires InOrder(s) && Enabled(s, a) && p < |s.procs|
    ensures var t := Do(s, a);
            && |t.procs| == |s.procs|
            && (t.readopen <==> s.readopen && !a.CloseRead?) && (t.writeopen <==> s.writeopen && !a.CloseWrite?)
            && (t.procs[p].killed <==> s.procs[p].killed || a == Kill(p))
            && (Awake(s.procs[p]) ==> Awake(t.procs[p]))
  {
  }

  /** Who has been killed does not sleep on the pipe. */
  predicate Awake(p: Process) {
    p.killed ==> !p.act.WriterAsleep? && !p.act.ReaderAsleep?
  }

  lemma {:induction false} FlagsRun(s: System, run: seq<Action>, p: nat)
    requires InOrder(s) && Feasible(s, run) && p < |s.procs| && Awake(s.procs[p])
    ensures var t := Exec(s, run);
            && |t.procs| == |s.procs|
            && (t.readopen <==> s.readopen && CloseRead !in run) && (t.writeopen <==> s.writeopen && CloseWrite !in run)
            && (t.procs[p].killed <==> s.procs[p].killed || Kill(p) in run) && Awake(t.procs[p])
    decreases |run|
  {
    if run != [] {
      var a, rest := run[0], run[1..];
      InOrderStep(s, a);
      FlagsStep(s, a, p);
      FlagsRun(Do(s, a), rest, p);
      assert run == [a] + rest;
      assert (CloseRead in run <==> a.CloseRead? || CloseRead in rest) && (CloseWrite in run <==> a.CloseWrite? || CloseWrite in rest);
      assert Kill(p) in run <==> a == Kill(p) || Kill(p) in rest;
    }
  }

  /** In every run an end is open until it is closed, a process is killed from its kill on,
      and no killed process sleeps on the pipe. */
  lemma ClosedAndKilledIff(nproc: nat, run: seq<Action>, p: nat)
    requires Feasible(Init(nproc), run) && p < nproc
    ensures var s := Exec(Init(nproc), run);
            && |s.procs| == nproc && (s.readopen <==> CloseRead !in run) && (s.writeopen <==> CloseWrite !in run)
            && (s.procs[p].killed <==> Kill(p) in run)
            && (s.procs[p].killed ==> !s.procs[p].act.WriterAsleep? && !s.procs[p].act.ReaderAsleep?)
  {
    FlagsRun(Init(nproc), run, p);
  }

  /** s goes to t by the run. */
  ghost predicate Leads(s: System, run: seq<Action>, t: System) {
    Feasible(s, run) && Exec(s, run) == t
  }

  predicate Steps(s: System, a: Action, t: System) {
    |s.queue| <= PIPESIZE && Enabled(s, a) && Do(s, a) == t
  }

  lemma OneMore(s: System, a: Action, t: System, run: seq<Action>, u: System)
    requires Steps(s, a, t) && Leads(t, run, u)
    ensures Leads(s, [a] + run, u)
  {
    assert ([a] + run)[1..] == run;
  }

  lemma {:induction false} LeadsOn(s: System, run: seq<Action>, t: System, more: seq<Action>, u: System)
    requires Leads(s, run, t) && Leads(t, more, u)
    ensures Leads(s, run + more, u)
    decreases |run|
  {
    if run == [] {
      assert run + more == more;
    } else {
      LeadsOn(Do(s, run[0]), run[1..], t, more, u);
      assert (run + more)[1..] == run[1..] + more;
    }
  }

  // ----- Every write can finish -----------------------------------------------

  /** q reads all there is in a full pipe; the writer is awake then. */
  lemma DrainFull(s: System, p: nat, q: nat) returns (u: System)
    requires |s.queue| == PIPESIZE && s.readopen && p < |s.procs| && q < |s.procs| && p != q
    requires s.procs[q].act.Elsewhere? && UsesWriteEnd(s.procs[p].act)
    ensures Leads(s, [StartRead(q, PIPESIZE), ReadSection(q)], u)
    ensures u.queue == [] && u.readopen && u.writeopen == s.writeopen && |u.procs| == |s.procs| && u.procs[q].act.Elsewhere?
    ensures u.procs[p] == s.procs[p].(act := Writing(s.procs[p].act.done, s.procs[p].act.rest))
  {
    var t := Do(s, StartRead(q, PIPESIZE));
    u := Do(t, ReadSection(q));
    assert Leads(u, [], u);
    OneMore(t, ReadSection(q), u, [], u);
    OneMore(s, StartRead(q, PIPESIZE), t, [ReadSection(q)] + [], u);
    assert [StartRead(q, PIPESIZE)] + ([ReadSection(q)] + []) == [StartRead(q, PIPESIZE), ReadSection(q)];
  }

  /** A writer that has not been killed stores all its bytes, however many, if another
      process reads the pipe. */
  lemma {:induction false} WriterCanFinish(s: System, p: nat, q: nat) returns (run: seq<Action>, u: System)
    requires |s.queue| <= PIPESIZE && s.readopen && p < |s.procs| && q < |s.procs| && p != q
    requires UsesWriteEnd(s.procs[p].act) && SleepsRightly(s, s.procs[p].act) && !s.procs[p].killed
    requires s.procs[q].act.Elsewhere?
    ensures Leads(s, run, u) && p < |u.procs| && u.procs[p].act.Elsewhere?
    ensures u.procs[p].ret == |s.procs[p].act.done| + |s.procs[p].act.rest|
    decreases |s.procs[p].act.rest|, |s.queue|, if s.procs[p].act.Writing? then 1 else 0
  {
    if s.procs[p].act.WriterAsleep? {
      var t := DrainFull(s, p, q);
      run, u := WriterCanFinish(t, p, q);
      LeadsOn(s, [StartRead(q, PIPESIZE), ReadSection(q)], t, run, u);
      run := [StartRead(q, PIPESIZE), ReadSection(q)] + run;
    } else {
      var t := Do(s, WriteSection(p));
      if t.procs[p].act.Elsewhere? {
        assert Leads(t, [], t);
        run, u := [], t;
      } else {
        var (queue, rest) := Stored(s.queue, s.procs[p].act.rest);
        assert |queue| + |rest| == |s.queue| + |s.procs[p].act.rest| by {
          assert |queue + rest| == |s.queue + s.procs[p].act.rest|;
        }
        run, u := WriterCanFinish(t, p, q);
      }
      OneMore(s, WriteSection(p), t, run, u);
      run := [WriteSection(p)] + run;
    }
  }

  /** A reader goes to sleep on the empty pipe. */
  lemma ReaderSleeps(t: System)
    requires t == Init(2).(procs := [Process(ReaderAsleep(1), false, 0), Process(Elsewhere, false, 0)])
    ensures Leads(Init(2), [StartRead(0, 1), ReadSection(0)], t)
  {
    var s := Init(2).(procs := [Process(Reading(1), false, 0), Process(Elsewhere, false, 0)]);
    assert Init(2).procs[0 := Process(Reading(1), false, 0)] == s.procs;
    assert Steps(Init(2), StartRead(0, 1), s);
    assert s.procs[0 := Process(ReaderAsleep(1), false, 0)] == t.procs;
    assert Steps(s, ReadSection(0), t);
    assert Leads(t, [], t);
    OneMore(s, ReadSection(0), t, [], t);
    OneMore(Init(2), StartRead(0, 1), s, [ReadSection(0)] + [], t);
    assert [StartRead(0, 1)] + ([ReadSection(0)] + []) == [StartRead(0, 1), ReadSection(0)];
  }

  /** A writer that has been killed fills the pipe and leaves. */
  lemma KilledWriterFills(s: System, bytes: seq<Byte>) returns (u: System)
    requires s == Init(2).(procs := [Process(ReaderAsleep(1), false, 0), Process(Elsewhere, false, 0)])
    requires |bytes| == PIPESIZE + 1
    ensures Leads(s, [StartWrite(1, bytes), Kill(1), WriteSection(1)], u)
    ensures |u.procs| == 2 && u.procs[0].act.ReaderAsleep? && |u.queue| == PIPESIZE
  {
    var t := s.(procs := s.procs[1 := Process(Writing([], bytes), false, 0)]);
    assert Steps(s, StartWrite(1, bytes), t);
    var k := t.(procs := t.procs[1 := Process(Writing([], bytes), true, 0)]);
    assert Steps(t, Kill(1), k);
    u := Do(k, WriteSection(1));
    assert Steps(k, WriteSection(1), u);
    assert Leads(u, [], u);
    OneMore(k, WriteSection(1), u, [], u);
    OneMore(t, Kill(1), k, [WriteSection(1)] + [], u);
    OneMore(s, StartWrite(1, bytes), t, [Kill(1)] + ([WriteSection(1)] + []), u);
    assert [StartWrite(1, bytes)] + ([Kill(1)] + ([WriteSection(1)] + [])) == [StartWrite(1, bytes), Kill(1), WriteSection(1)];
  }

  /** So a run with one kill can leave a reader asleep on a full pipe. */
  lemma ReaderSleepsOnFullPipe(bytes: seq<Byte>)
    requires |bytes| == PIPESIZE + 1
    ensures var run := [StartRead(0, 1), ReadSection(0), StartWrite(1, bytes), Kill(1), WriteSection(1)];
            && Feasible(Init(2), run) && |Exec(Init(2), run).procs| == 2
            && Exec(Init(2), run).procs[0].act.ReaderAsleep? && |Exec(Init(2), run).queue| == PIPESIZE
  {
    var s := Init(2).(procs := [Process(ReaderAsleep(1), false, 0), Process(Elsewhere, false, 0)]);
    ReaderSleeps(s);
    var u := KilledWriterFills(s, bytes);
    var first, more := [StartRead(0, 1), ReadSection(0)], [StartWrite(1, bytes), Kill(1), WriteSection(1)];
    LeadsOn(Init(2), first, s, more, u);
    assert first + more == [StartRead(0, 1), ReadSection(0), StartWrite(1, bytes), Kill(1), WriteSection(1)];
  }
}
