module CrashSafeLog {

  /* The redo log of log.c over the block disk of memide.c.

     A crash may strike between any two single-block writes.  The class at the end
     is log.c itself, updating the disk in place; it records every disk image a crash
     could leave behind.  The functions before it name those images by the number of
     blocks written so far, and the theorems speak about every such number. */

  const LOGSIZE: nat := 30
  const BLOCK_WORDS: nat := 128 // BSIZE / sizeof(int)

  // A disk block, seen as the array of ints that log.c casts it to.
  type Block = b: seq<int> | |b| == BLOCK_WORDS witness seq(BLOCK_WORDS, _ => 0)
  type Disk = seq<Block>

  /** Where the log lies: its header at `start`, its data blocks behind it. */
  datatype Layout = Layout(start: nat, size: nat) {
    predicate Fits(blocks: nat) {
      1 <= size && start + size <= blocks
    }

    predicate Home(b: int) {
      b < start || start + size <= b
    }

    /** The in-memory header can be logged: every entry names a home block and
        the log has room for all of them. */
    predicate Loggable(blocks: nat, hdr: seq<int>) {
      && |hdr| <= LOGSIZE && |hdr| < size
      && forall i :: 0 <= i < |hdr| ==> 0 <= hdr[i] < blocks && Home(hdr[i])
    }
  }

  // ----- The images on disk ---------------------------------------------------

  /** What write_head leaves in the header block: the count, the block numbers,
      and whatever an older header had behind them. */
  function HeadBlock(old_: Block, hdr: seq<int>): Block
    requires |hdr| <= LOGSIZE
  {
    [|hdr|] + hdr + old_[1 + |hdr|..]
  }

  predicate HasHeader(lay: Layout, d: Disk, hdr: seq<int>)
    requires lay.Fits(|d|)
  {
    |hdr| <= LOGSIZE && d[lay.start][0] == |hdr| && d[lay.start][1..1 + |hdr|] == hdr
  }

  function WithHeader(lay: Layout, d: Disk, hdr: seq<int>): (r: Disk)
    requires lay.Fits(|d|) && |hdr| <= LOGSIZE
    ensures |r| == |d| && HasHeader(lay, r, hdr)
  {
    d[lay.start := HeadBlock(d[lay.start], hdr)]
  }

  /** The disk after the first `k` blocks of write_log. */
  function Logged(lay: Layout, d: Disk, view: Disk, hdr: seq<int>, k: nat): (r: Disk)
    requires lay.Fits(|d|) && |view| == |d| && lay.Loggable(|d|, hdr) && k <= |hdr|
    ensures |r| == |d|
  {
    if k == 0 then d else Logged(lay, d, view, hdr, k - 1)[lay.start + k := view[hdr[k - 1]]]
  }

  /** The disk after the first `k` blocks of install_trans. */
  function Installed(lay: Layout, d: Disk, hdr: seq<int>, k: nat): (r: Disk)
    requires lay.Fits(|d|) && lay.Loggable(|d|, hdr) && k <= |hdr|
    ensures |r| == |d|
  {
    if k == 0 then d
    else
      var before := Installed(lay, d, hdr, k - 1);
      before[hdr[k - 1] := before[lay.start + k]]
  }

  /** The images write_log and install_trans pass through, one per block written. */
  function LoggedImages(lay: Layout, d: Disk, view: Disk, hdr: seq<int>, k: nat): seq<Disk>
    requires lay.Fits(|d|) && |view| == |d| && lay.Loggable(|d|, hdr) && k <= |hdr|
  {
    if k == 0 then [] else LoggedImages(lay, d, view, hdr, k - 1) + [Logged(lay, d, view, hdr, k)]
  }

  function InstalledImages(lay: Layout, d: Disk, hdr: seq<int>, k: nat): seq<Disk>
    requires lay.Fits(|d|) && lay.Loggable(|d|, hdr) && k <= |hdr|
  {
    if k == 0 then [] else InstalledImages(lay, d, hdr, k - 1) + [Installed(lay, d, hdr, k)]
  }

  /** The disk right after the first write_head: the commit point. */
  function CommitPoint(lay: Layout, d: Disk, view: Disk, hdr: seq<int>): (r: Disk)
    requires lay.Fits(|d|) && |view| == |d| && lay.Loggable(|d|, hdr)
    ensures |r| == |d|
  {
    WithHeader(lay, Logged(lay, d, view, hdr, |hdr|), hdr)
  }

  /** The disk once a committed transaction is installed and erased. */
  function Cleared(lay: Layout, d: Disk, hdr: seq<int>): (r: Disk)
    requires lay.Fits(|d|) && lay.Loggable(|d|, hdr)
    ensures |r| == |d|
  {
    WithHeader(lay, Installed(lay, d, hdr, |hdr|), [])
  }

  /** The disk after `w` single-block writes of commit(), when the buffer cache
      shows `view` and the in-memory header is `hdr`. */
  function CommitImage(lay: Layout, d: Disk, view: Disk, hdr: seq<int>, w: nat): (r: Disk)
    requires lay.Fits(|d|) && |view| == |d| && lay.Loggable(|d|, hdr)
    ensures |r| == |d|
  {
    var n := |hdr|;
    if n == 0 then d
    else if w <= n then Logged(lay, d, view, hdr, w)
    else
      var committed := CommitPoint(lay, d, view, hdr);
      if w <= 2 * n + 1 then Installed(lay, committed, hdr, w - n - 1)
      else Cleared(lay, committed, hdr)
  }

  /** The number of blocks commit() writes. */
  function CommitWrites(hdr: seq<int>): nat {
    if |hdr| == 0 then 0 else 2 * |hdr| + 2
  }

  /** read_head: the block numbers found in the header block. */
  function ReadHeader(lay: Layout, d: Disk): (hdr: seq<int>)
    requires lay.Fits(|d|) && 0 <= d[lay.start][0] <= LOGSIZE
    ensures HasHeader(lay, d, hdr)
  {
    d[lay.start][1..1 + d[lay.start][0]]
  }

  /** The header found on disk can be replayed. */
  predicate Recoverable(lay: Layout, d: Disk) {
    lay.Fits(|d|) && 0 <= d[lay.start][0] <= LOGSIZE && lay.Loggable(|d|, ReadHeader(lay, d))
  }

  /** The disk after `w` single-block writes of recover_from_log(). */
  function RecoverImage(lay: Layout, d: Disk, w: nat): (r: Disk)
    requires Recoverable(lay, d)
    ensures |r| == |d|
  {
    var hdr := ReadHeader(lay, d);
    if w <= |hdr| then Installed(lay, d, hdr, w)
    else Cleared(lay, d, hdr)
  }

  function Recovered(lay: Layout, d: Disk): (r: Disk)
    requires Recoverable(lay, d)
    ensures |r| == |d|
  {
    RecoverImage(lay, d, |ReadHeader(lay, d)| + 1)
  }

  /** The images of write_log and the write_head after it. */
  function LogTrace(lay: Layout, d: Disk, view: Disk, hdr: seq<int>): seq<Disk>
    requires lay.Fits(|d|) && |view| == |d| && lay.Loggable(|d|, hdr)
  {
    LoggedImages(lay, d, view, hdr, |hdr|) + [CommitPoint(lay, d, view, hdr)]
  }

  /** The images of install_trans and the write_head after it. */
  function InstallTrace(lay: Layout, d: Disk, hdr: seq<int>): seq<Disk>
    requires lay.Fits(|d|) && lay.Loggable(|d|, hdr)
  {
    InstalledImages(lay, d, hdr, |hdr|) + [Cleared(lay, d, hdr)]
  }

  /** Every image commit() leaves, in order. */
  function CommitTrace(lay: Layout, d: Disk, view: Disk, hdr: seq<int>): seq<Disk>
    requires lay.Fits(|d|) && |view| == |d| && lay.Loggable(|d|, hdr)
  {
    if hdr == [] then []
    else LogTrace(lay, d, view, hdr) + InstallTrace(lay, CommitPoint(lay, d, view, hdr), hdr)
  }

  /** Every image recover_from_log() leaves, in order. */
  function RecoverTrace(lay: Layout, d: Disk): seq<Disk>
    requires Recoverable(lay, d)
  {
    InstallTrace(lay, d, ReadHeader(lay, d))
  }

  lemma ConcatIsAssociative(a: seq<Disk>, b: seq<Disk>, c: seq<Disk>)
    ensures a + b + c == a + (b + c)
  {
  }

  lemma {:induction false} LoggedImagesAt(lay: Layout, d: Disk, view: Disk, hdr: seq<int>, k: nat)
    requires lay.Fits(|d|) && |view| == |d| && lay.Loggable(|d|, hdr) && k <= |hdr|
    ensures |LoggedImages(lay, d, view, hdr, k)| == k
    ensures forall w :: 0 <= w < k ==> LoggedImages(lay, d, view, hdr, k)[w] == Logged(lay, d, view, hdr, w + 1)
  {
    if k > 0 {
      LoggedImagesAt(lay, d, view, hdr, k - 1);
    }
  }

  lemma {:induction false} InstalledImagesAt(lay: Layout, d: Disk, hdr: seq<int>, k: nat)
    requires lay.Fits(|d|) && lay.Loggable(|d|, hdr) && k <= |hdr|
    ensures |InstalledImages(lay, d, hdr, k)| == k
    ensures forall w :: 0 <= w < k ==> InstalledImages(lay, d, hdr, k)[w] == Installed(lay, d, hdr, w + 1)
  {
    if k > 0 {
      InstalledImagesAt(lay, d, hdr, k - 1);
    }
  }

  lemma CommitTraceAt(lay: Layout, d: Disk, view: Disk, hdr: seq<int>, w: nat)
    requires lay.Fits(|d|) && |view| == |d| && lay.Loggable(|d|, hdr) && w < CommitWrites(hdr)
    ensures |CommitTrace(lay, d, view, hdr)| == CommitWrites(hdr)
    ensures CommitTrace(lay, d, view, hdr)[w] == CommitImage(lay, d, view, hdr, w + 1)
  {
    var n := |hdr|;
    var committed := CommitPoint(lay, d, view, hdr);
    LoggedImagesAt(lay, d, view, hdr, n);
    InstalledImagesAt(lay, committed, hdr, n);
    if n < w <= 2 * n {
      assert CommitTrace(lay, d, view, hdr)[w] == InstalledImages(lay, committed, hdr, n)[w - n - 1];
    }
  }

  lemma RecoverTraceAt(lay: Layout, d: Disk, w: nat)
    requires Recoverable(lay, d) && w <= |ReadHeader(lay, d)|
    ensures |RecoverTrace(lay, d)| == |ReadHeader(lay, d)| + 1
    ensures RecoverTrace(lay, d)[w] == RecoverImage(lay, d, w + 1)
  {
    var hdr := ReadHeader(lay, d);
    InstalledImagesAt(lay, d, hdr, |hdr|);
  }

  // ----- The two kinds of disk a crash can leave ------------------------------

  /** No transaction is pending and the home blocks are those of `home`. */
  ghost predicate Idle(lay: Layout, d: Disk, home: Disk) {
    && lay.Fits(|d|) && |home| == |d|
    && HasHeader(lay, d, [])
    && forall b :: 0 <= b < |d| && lay.Home(b) ==> d[b] == home[b]
  }

  /** A transaction is committed: its blocks are in the log, and every home block
      it does not name already has its final contents. */
  ghost predicate Committed(lay: Layout, d: Disk, home: Disk, hdr: seq<int>) {
    && lay.Fits(|d|) && |home| == |d|
    && lay.Loggable(|d|, hdr) && HasHeader(lay, d, hdr)
    && (forall i :: 0 <= i < |hdr| ==> d[lay.start + 1 + i] == home[hdr[i]])
    && (forall b :: 0 <= b < |d| && lay.Home(b) && b !in hdr ==> d[b] == home[b])
  }

  /** All home blocks of the transaction, and only those, take the cached contents. */
  function Applied(home: Disk, view: Disk, hdr: seq<int>): (r: Disk)
    requires |view| == |home|
    ensures |r| == |home|
  {
    seq(|home|, b requires 0 <= b < |home| => if b in hdr then view[b] else home[b])
  }

  lemma {:induction false} LoggedContents(lay: Layout, d: Disk, view: Disk, hdr: seq<int>, k: nat)
    requires lay.Fits(|d|) && |view| == |d| && lay.Loggable(|d|, hdr) && k <= |hdr|
    ensures var r := Logged(lay, d, view, hdr, k);
            && (forall i :: 0 <= i < k ==> r[lay.start + 1 + i] == view[hdr[i]])
            && (forall b :: 0 <= b < |d| && !(lay.start < b <= lay.start + k) ==> r[b] == d[b])
  {
    if k > 0 {
      LoggedContents(lay, d, view, hdr, k - 1);
    }
  }

  /** Installing copies logged blocks home, and changes nothing else. */
  lemma {:induction false} InstalledAt(lay: Layout, d: Disk, home: Disk, hdr: seq<int>, k: nat, b: int)
    requires lay.Fits(|d|) && |home| == |d| && lay.Loggable(|d|, hdr) && k <= |hdr| && 0 <= b < |d|
    requires forall i :: 0 <= i < |hdr| ==> d[lay.start + 1 + i] == home[hdr[i]]
    ensures Installed(lay, d, hdr, k)[b] == if b in hdr[..k] then home[b] else d[b]
  {
    if k > 0 {
      InstalledAt(lay, d, home, hdr, k - 1, b);
      InstalledKeepsLog(lay, d, hdr, k - 1);
      var before := Installed(lay, d, hdr, k - 1);
      assert before[lay.start + k] == d[lay.start + 1 + (k - 1)] == home[hdr[k - 1]];
      assert Installed(lay, d, hdr, k) == before[hdr[k - 1] := home[hdr[k - 1]]];
      assert hdr[..k] == hdr[..k - 1] + [hdr[k - 1]];
    }
  }

  lemma InstalledContents(lay: Layout, d: Disk, home: Disk, hdr: seq<int>, k: nat)
    requires Committed(lay, d, home, hdr) && k <= |hdr|
    ensures Committed(lay, Installed(lay, d, hdr, k), home, hdr)
    ensures k == |hdr| ==> forall b :: 0 <= b < |d| && lay.Home(b) ==> Installed(lay, d, hdr, k)[b] == home[b]
  {
    var r := Installed(lay, d, hdr, k);
    InstalledKeepsLog(lay, d, hdr, k);
    assert HasHeader(lay, r, hdr);
    forall b | 0 <= b < |d| && lay.Home(b) && (b !in hdr || k == |hdr|)
      ensures r[b] == home[b]
    {
      InstalledAt(lay, d, home, hdr, k, b);
      assert k == |hdr| ==> hdr[..k] == hdr;
    }
  }

  lemma ClearedIsIdle(lay: Layout, d: Disk, home: Disk, hdr: seq<int>)
    requires Committed(lay, d, home, hdr)
    ensures Idle(lay, Cleared(lay, d, hdr), home)
  {
    InstalledContents(lay, d, home, hdr, |hdr|);
  }

  /** Every image of a commit is idle with the old home blocks up to the last
      block of write_log, committed from the first write_head on, and idle with
      the new home blocks once the header is cleared. */
  lemma CommitImages(lay: Layout, d: Disk, home: Disk, view: Disk, hdr: seq<int>, w: nat)
    requires Idle(lay, d, home) && |view| == |d| && lay.Loggable(|d|, hdr)
    ensures var r, after := CommitImage(lay, d, view, hdr, w), Applied(home, view, hdr);
            if w <= |hdr| || |hdr| == 0 then Idle(lay, r, home)
            else if w <= 2 * |hdr| + 1 then Committed(lay, r, after, hdr)
            else Idle(lay, r, after)
  {
    var n := |hdr|;
    if n == 0 {
    } else if w <= n {
      LoggedContents(lay, d, view, hdr, w);
    } else {
      LoggedContents(lay, d, view, hdr, n);
      var after := Applied(home, view, hdr);
      var committed := CommitPoint(lay, d, view, hdr);
      assert Committed(lay, committed, after, hdr);
      if w <= 2 * n + 1 {
        InstalledContents(lay, committed, after, hdr, w - n - 1);
      } else {
        ClearedIsIdle(lay, committed, after, hdr);
      }
    }
  }

  // ----- Crashes during recovery ----------------------------------------------

  /** The disk left by a series of interrupted recoveries, where `crashes[i]` is
      the number of blocks the i-th one wrote before it crashed. */
  ghost function AfterCrashes(lay: Layout, d: Disk, crashes: seq<nat>): (r: Disk)
    requires Recoverable(lay, d)
    ensures Recoverable(lay, r)
    decreases |crashes|
  {
    if crashes == [] then d
    else
      RecoverImageRecoverable(lay, d, crashes[0]);
      AfterCrashes(lay, RecoverImage(lay, d, crashes[0]), crashes[1..])
  }

  lemma HeaderUnique(lay: Layout, d: Disk, hdr: seq<int>)
    requires lay.Fits(|d|) && HasHeader(lay, d, hdr)
    ensures ReadHeader(lay, d) == hdr
  {
  }

  /** Interrupting a recovery never damages the log it replays. */
  lemma RecoverImageRecoverable(lay: Layout, d: Disk, w: nat)
    requires Recoverable(lay, d)
    ensures Recoverable(lay, RecoverImage(lay, d, w))
  {
    var hdr := ReadHeader(lay, d);
    var k := if w <= |hdr| then w else |hdr|;
    InstalledKeepsLog(lay, d, hdr, k);
    var r := Installed(lay, d, hdr, k);
    assert ReadHeader(lay, r) == hdr;
    if w > |hdr| {
      HeaderUnique(lay, WithHeader(lay, r, []), []);
    }
  }

  lemma {:induction false} InstalledKeepsLog(lay: Layout, d: Disk, hdr: seq<int>, k: nat)
    requires lay.Fits(|d|) && lay.Loggable(|d|, hdr) && k <= |hdr|
    ensures forall b :: lay.start <= b < lay.start + lay.size ==> Installed(lay, d, hdr, k)[b] == d[b]
  {
    if k > 0 {
      InstalledKeepsLog(lay, d, hdr, k - 1);
    }
  }

  lemma IdleRecovery(lay: Layout, d: Disk, home: Disk, w: nat)
    requires Idle(lay, d, home)
    ensures Recoverable(lay, d) && Idle(lay, RecoverImage(lay, d, w), home)
    ensures Idle(lay, Recovered(lay, d), home)
  {
  }

  lemma CommittedRecovery(lay: Layout, d: Disk, home: Disk, hdr: seq<int>, w: nat)
    requires Committed(lay, d, home, hdr)
    ensures Recoverable(lay, d)
    ensures Committed(lay, RecoverImage(lay, d, w), home, hdr) || Idle(lay, RecoverImage(lay, d, w), home)
    ensures Idle(lay, Recovered(lay, d), home)
  {
    HeaderUnique(lay, d, hdr);
    ClearedIsIdle(lay, d, home, hdr);
    InstalledContents(lay, d, home, hdr, if w <= |hdr| then w else |hdr|);
  }

  /** Replay is idempotent: however often recovery is interrupted, and wherever,
      the first one that completes leaves the same home blocks. */
  lemma {:induction false} ReplayIsIdempotent(lay: Layout, d: Disk, home: Disk, hdr: seq<int>, crashes: seq<nat>)
    requires Idle(lay, d, home) || Committed(lay, d, home, hdr)
    ensures Recoverable(lay, d)
    ensures Idle(lay, Recovered(lay, AfterCrashes(lay, d, crashes)), home)
    decreases |crashes|
  {
    var w := if crashes == [] then 0 else crashes[0];
    if Idle(lay, d, home) {
      IdleRecovery(lay, d, home, w);
    } else {
      CommittedRecovery(lay, d, home, hdr, w);
    }
    if crashes != [] {
      ReplayIsIdempotent(lay, RecoverImage(lay, d, w), home, hdr, crashes[1..]);
    }
  }

  /** Atomicity: crash commit() after any number of block writes, then crash any
      number of recoveries after any number of their block writes.  The first
      complete recovery shows all of the transaction if the first write_head had
      been reached, and none of it otherwise. */
  lemma CrashAtomicity(lay: Layout, d: Disk, home: Disk, view: Disk, hdr: seq<int>, w: nat, crashes: seq<nat>)
    requires Idle(lay, d, home) && |view| == |d| && lay.Loggable(|d|, hdr)
    ensures Recoverable(lay, CommitImage(lay, d, view, hdr, w))
    ensures var left := AfterCrashes(lay, CommitImage(lay, d, view, hdr, w), crashes);
            Idle(lay, Recovered(lay, left), if w <= |hdr| then home else Applied(home, view, hdr))
  {
    CommitImages(lay, d, home, view, hdr, w);
    var outcome := if w <= |hdr| then home else Applied(home, view, hdr);
    if |hdr| == 0 {
      assert Applied(home, view, hdr) == home;
    }
    ReplayIsIdempotent(lay, CommitImage(lay, d, view, hdr, w), outcome, hdr, crashes);
  }

  // ----- Whole runs -----------------------------------------------------------

  /** One transaction: what the cache shows, the header, and how far its commit
      got before a crash (CommitWrites or more when it finished), followed by the
      interrupted recoveries of the next boot. */
  datatype Transaction = Transaction(view: Disk, hdr: seq<int>, written: nat, crashes: seq<nat>) {
    ghost predicate Valid(lay: Layout, blocks: nat) {
      |view| == blocks && lay.Loggable(blocks, hdr)
    }

    ghost function Outcome(home: Disk): (r: Disk)
      requires |view| == |home|
      ensures |r| == |home|
    {
      if written <= |hdr| then home else Applied(home, view, hdr)
    }
  }

  /** What the file system should show after the run: the transactions whose
      first write_head was reached, whole and in order, and nothing else. */
  ghost function RunSpec(lay: Layout, home: Disk, txs: seq<Transaction>): (r: Disk)
    requires ValidRun(lay, |home|, txs)
    ensures |r| == |home|
    decreases |txs|
  {
    if txs == [] then home
    else
      assert txs[0].Valid(lay, |home|);
      RunSpec(lay, txs[0].Outcome(home), txs[1..])
  }

  ghost predicate ValidRun(lay: Layout, blocks: nat, txs: seq<Transaction>) {
    forall i :: 0 <= i < |txs| ==> txs[i].Valid(lay, blocks)
  }

  /** The disk after one transaction: as commit() leaves it, or as the first
      complete recovery does if commit() crashed. */
  ghost function After(lay: Layout, d: Disk, home: Disk, t: Transaction): (r: Disk)
    requires Idle(lay, d, home) && t.Valid(lay, |d|)
    ensures Idle(lay, r, t.Outcome(home))
  {
    CrashAtomicity(lay, d, home, t.view, t.hdr, t.written, t.crashes);
    CommitImages(lay, d, home, t.view, t.hdr, t.written);
    var image := CommitImage(lay, d, t.view, t.hdr, t.written);
    if t.written < CommitWrites(t.hdr) then Recovered(lay, AfterCrashes(lay, image, t.crashes))
    else
      assert |t.hdr| == 0 ==> Applied(home, t.view, t.hdr) == home;
      image
  }

  /** A run in which every commit and every recovery may crash shows exactly the
      transactions whose first write_head was reached, whole and in order. */
  ghost function Run(lay: Layout, d: Disk, home: Disk, txs: seq<Transaction>): (r: Disk)
    requires Idle(lay, d, home) && ValidRun(lay, |d|, txs)
    ensures Idle(lay, r, RunSpec(lay, home, txs))
    decreases |txs|
  {
    if txs == [] then d
    else
      assert txs[0].Valid(lay, |d|);
      Run(lay, After(lay, d, home, txs[0]), txs[0].Outcome(home), txs[1..])
  }

  // ----- log.c ----------------------------------------------------------------

  /** view is what bread shows of every block of the disk through the cache. */
  ghost predicate Shows(disk: Disk, cache: map<int, Block>, view: Disk) {
    && |view| == |disk| && (forall b :: b in cache ==> 0 <= b < |disk|)
    && (forall b :: 0 <= b < |disk| ==> view[b] == if b in cache then cache[b] else disk[b])
  }

  /** Every cached block outside `hdr` equals the disk. */
  ghost predicate Clean(disk: Disk, cache: map<int, Block>, hdr: seq<int>) {
    forall b :: b in cache && b !in hdr ==> 0 <= b < |disk| && cache[b] == disk[b]
  }

  lemma ShowsRead(disk: Disk, cache: map<int, Block>, view: Disk, hdr: seq<int>, b: int)
    requires Shows(disk, cache, view) && Clean(disk, cache, hdr) && 0 <= b < |disk|
    ensures Shows(disk, cache[b := view[b]], view) && Clean(disk, cache[b := view[b]], hdr)
  {
  }

  lemma ShowsWrite(disk: Disk, cache: map<int, Block>, view: Disk, hdr: seq<int>, b: int, data: Block)
    requires Shows(disk, cache, view) && Clean(disk, cache, hdr) && 0 <= b < |disk|
    ensures Shows(disk[b := data], cache[b := data], view[b := data]) && Clean(disk[b := data], cache[b := data], hdr)
  {
  }

  class Log {
    const lay: Layout
    var disk: Disk
    // Buffer contents, cached by block number; lost in a crash.
    var cache: map<int, Block>
    // Operations between begin_op and end_op.
    var outstanding: nat
    // The in-memory header: n, and block[0..LOGSIZE).
    var n: nat
    const block: array<int>
    // block[..n].
    ghost var hdr: seq<int>
    // What bread() shows of every block.
    ghost var view: Disk
    // Every image the disk has had, oldest first.
    ghost var images: seq<Disk>

    ghost predicate Stored()
      reads `n, `hdr, block
    {
      block.Length == LOGSIZE && n <= LOGSIZE && hdr == block[..n]
    }

    /** The geometry, and that only logged blocks are newer in the cache than on
        disk: bget never recycles a dirty buffer, and every other buffer that
        was modified has been written. */
    ghost predicate Valid()
      reads this, block
    {
      lay.Fits(|disk|) && Stored() && lay.Loggable(|disk|, hdr) && Shows(disk, cache, view) && Clean(disk, cache, hdr)
    }

    constructor (lay: Layout, disk: Disk)
      requires lay.Fits(|disk|)
      ensures Valid() && fresh(block)
      ensures this.lay == lay && this.disk == disk && n == 0 && cache == map[] && images == [disk]
      ensures outstanding == 0
    {
      this.lay, this.disk := lay, disk;
      cache, n, hdr, images, view, outstanding := map[], 0, [], [disk], disk, 0;
      block := new int[LOGSIZE];
    }

    /** initlog, at boot with the geometry of the super block: whatever was committed is
        installed and nothing else is. */
    static method Initlog(lay: Layout, disk: Disk) returns (log: Log)
      requires Recoverable(lay, disk)
      ensures fresh(log) && log.Valid() && log.lay == lay && log.n == 0 && log.outstanding == 0
      ensures log.disk == Recovered(lay, disk) && log.images == [disk] + RecoverTrace(lay, disk)
      ensures ReadHeader(lay, log.disk) == []
    {
      log := new Log(lay, disk);
      log.RecoverFromLog();
    }

    method Bread(b: int) returns (data: Block)
      requires Valid() && 0 <= b < |disk|
      modifies `cache
      ensures Valid()
      ensures data == view[b] && cache == old(cache)[b := data]
    {
      if b !in cache {
        cache := cache[b := disk[b]];
      }
      data := cache[b];
    }

    /** Writes one block to disk and records the image. */
    method Bwrite(b: int, data: Block)
      requires Valid() && 0 <= b < |disk|
      modifies `cache, `disk, `images, `view
      ensures Valid()
      ensures disk == old(disk)[b := data] && cache == old(cache)[b := data]
      ensures view == old(view)[b := data]
      ensures images == old(images) + [disk]
    {
      cache := cache[b := data];
      disk := disk[b := data];
      images := images + [disk];
      view := view[b := data];
    }

    /** The caller holds block `b` and has changed its contents to `data`; log_write
        records and pins it.  False is the panic of a transaction too big, or of a call
        outside of one. */
    method LogWrite(b: int, data: Block) returns (ok: bool)
      requires Valid() && 0 <= b < |disk| && lay.Home(b)
      modifies `cache, `n, `hdr, `view, block
      ensures ok <==> old(n) < LOGSIZE && old(n) < lay.size - 1 && outstanding >= 1
      ensures !ok ==> unchanged(this) && unchanged(block)
      ensures ok ==> Valid() && view == old(view)[b := data]
      ensures ok ==> hdr == if b in old(hdr) then old(hdr) else old(hdr) + [b]
    {
      if n >= LOGSIZE || n >= lay.size - 1 {
        return false;
      }
      if outstanding < 1 {
        return false;
      }
      var i := 0;
      while i < n && block[i] != b
        invariant 0 <= i <= n
        invariant b !in block[..i]
      {
        i := i + 1;
      }
      assert i < n ==> hdr[i] == b;
      block[i] := b;
      if i == n {
        n := n + 1;
      }
      cache := cache[b := data];
      ok := true;
      hdr := if b in hdr then hdr else hdr + [b];
      assert block[..n] == hdr;
      view := view[b := data];
    }

    /** One turn of the loop of write_log. */
    method LogBlock(tail: nat)
      requires Valid() && tail < n
      modifies `cache, `disk, `images, `view
      ensures Valid()
      ensures disk == old(disk)[lay.start + tail + 1 := old(view)[hdr[tail]]]
      ensures view == old(view)[lay.start + tail + 1 := old(view)[hdr[tail]]]
      ensures images == old(images) + [disk]
    {
      var to := Bread(lay.start + tail + 1);
      var from := Bread(block[tail]);
      Bwrite(lay.start + tail + 1, from);
    }

    method WriteLog()
      requires Valid()
      modifies `cache, `disk, `images, `view
      ensures Valid()
      ensures disk == Logged(lay, old(disk), old(view), hdr, n)
      ensures images == old(images) + LoggedImages(lay, old(disk), old(view), hdr, n)
      ensures forall b :: 0 <= b < |disk| && lay.Home(b) ==> view[b] == old(view)[b]
    {
      ghost var d0, v0 := disk, view;
      assert lay.Loggable(|d0|, hdr);
      var tail := 0;
      while tail < n
        invariant 0 <= tail <= n && Valid()
        invariant disk == Logged(lay, d0, v0, hdr, tail)
        invariant images == old(images) + LoggedImages(lay, d0, v0, hdr, tail)
        invariant forall b :: 0 <= b < |disk| && lay.Home(b) ==> view[b] == v0[b]
      {
        assert view[hdr[tail]] == v0[hdr[tail]];
        LogBlock(tail);
        ConcatIsAssociative(old(images), LoggedImages(lay, d0, v0, hdr, tail), [disk]);
        tail := tail + 1;
        assert disk == Logged(lay, d0, v0, hdr, tail);
      }
    }

    method WriteHead()
      requires Valid()
      modifies `cache, `disk, `images, `view
      ensures Valid()
      ensures disk == WithHeader(lay, old(disk), hdr)
      ensures images == old(images) + [disk]
      ensures forall b :: 0 <= b < |disk| && b != lay.start ==> view[b] == old(view)[b]
    {
      var hb := Bread(lay.start);
      ghost var was := hb;
      assert was == disk[lay.start];
      hb := hb[0 := n];
      for i := 0 to n
        invariant |hb| == BLOCK_WORDS
        invariant hb == [n as int] + hdr[..i] + was[1 + i..]
      {
        assert was[1 + i..] == [was[1 + i]] + was[2 + i..] && hdr[..i + 1] == hdr[..i] + [block[i]];
        hb := hb[1 + i := block[i]];
      }
      assert hb == HeadBlock(was, hdr);
      Bwrite(lay.start, hb);
    }

    /** Reads both blocks and writes the contents of one over the other. */
    method CopyBlock(from: int, to: int, ghost rest: seq<int>)
      requires Valid() && 0 <= from < |disk| && 0 <= to < |disk|
      requires Clean(disk, cache, [to] + rest) && from !in [to] + rest
      modifies `cache, `disk, `images, `view
      ensures Valid() && Clean(disk, cache, rest)
      ensures disk == old(disk)[to := old(disk)[from]]
      ensures images == old(images) + [disk]
    {
      var lbuf := Bread(from);
      var dbuf := Bread(to);
      assert lbuf == disk[from];
      Bwrite(to, lbuf);
    }

    /** One turn of the loop of install_trans. */
    method InstallBlock(tail: nat)
      requires Valid() && tail < n && Clean(disk, cache, hdr[tail..])
      modifies `cache, `disk, `images, `view
      ensures Valid() && Clean(disk, cache, hdr[tail + 1..])
      ensures disk == old(disk)[hdr[tail] := old(disk)[lay.start + tail + 1]]
      ensures images == old(images) + [disk]
    {
      assert hdr[tail..] == [hdr[tail]] + hdr[tail + 1..];
      CopyBlock(lay.start + tail + 1, block[tail], hdr[tail + 1..]);
    }

    /** The same, when the first tail blocks of d0 have been installed since images was im0. */
    method InstallNext(ghost d0: Disk, ghost im0: seq<Disk>, tail: nat)
      requires Valid() && tail < n && Clean(disk, cache, hdr[tail..]) && lay.Fits(|d0|) && lay.Loggable(|d0|, hdr)
      requires disk == Installed(lay, d0, hdr, tail) && images == im0 + InstalledImages(lay, d0, hdr, tail)
      modifies `cache, `disk, `images, `view
      ensures Valid() && Clean(disk, cache, hdr[tail + 1..])
      ensures disk == Installed(lay, d0, hdr, tail + 1) && images == im0 + InstalledImages(lay, d0, hdr, tail + 1)
    {
      InstallBlock(tail);
      ConcatIsAssociative(im0, InstalledImages(lay, d0, hdr, tail), [disk]);
      assert disk == Installed(lay, d0, hdr, tail + 1);
    }

    method InstallTrans()
      requires Valid()
      modifies `cache, `disk, `images, `view
      ensures Valid() && Clean(disk, cache, [])
      ensures disk == Installed(lay, old(disk), hdr, n)
      ensures images == old(images) + InstalledImages(lay, old(disk), hdr, n)
    {
      ghost var d0 := disk;
      assert lay.Loggable(|d0|, hdr) && hdr[0..] == hdr && images == images + [];
      var tail := 0;
      while tail < n
        invariant 0 <= tail <= n && Valid() && Clean(disk, cache, hdr[tail..])
        invariant disk == Installed(lay, d0, hdr, tail)
        invariant images == old(images) + InstalledImages(lay, d0, hdr, tail)
      {
        InstallNext(d0, old(images), tail);
        tail := tail + 1;
      }
      assert hdr[tail..] == [];
    }

    method ReadHead()
      requires Valid() && Recoverable(lay, disk)
      requires Clean(disk, cache, [])
      modifies `cache, `n, `hdr, block
      ensures Valid() && hdr == ReadHeader(lay, disk)
      ensures Clean(disk, cache, [])
    {
      var lh := Bread(lay.start);
      n := lh[0];
      for i := 0 to n
        invariant unchanged(`disk) && unchanged(`view) && n == lh[0] && block[..i] == lh[1..1 + i]
        invariant forall b :: b in cache ==> 0 <= b < |disk| && cache[b] == disk[b]
      {
        block[i] := lh[1 + i];
        assert block[..i + 1] == block[..i] + [lh[1 + i]];
      }
      hdr := block[..n];
      assert hdr == ReadHeader(lay, disk);
    }

    /** install_trans, then the write_head that erases the transaction: the tail
        that commit() and recover_from_log() share. */
    method InstallAndClear()
      requires Valid()
      modifies `cache, `disk, `images, `view, `n, `hdr
      ensures Valid() && n == 0
      ensures disk == Cleared(lay, old(disk), old(hdr))
      ensures images == old(images) + InstallTrace(lay, old(disk), old(hdr))
    {
      InstallTrans();
      n, hdr := 0, [];
      WriteHead();
    }

    /** write_log, then the write_head that commits the transaction. */
    method LogAndCommit()
      requires Valid()
      modifies `cache, `disk, `images, `view
      ensures Valid()
      ensures disk == CommitPoint(lay, old(disk), old(view), hdr)
      ensures images == old(images) + LogTrace(lay, old(disk), old(view), hdr)
    {
      WriteLog();
      WriteHead();
    }

    /** The body of commit() when something was logged. */
    method WriteTransaction()
      requires Valid() && n > 0
      modifies `cache, `disk, `images, `view, `n, `hdr
      ensures Valid() && n == 0
      ensures disk == Cleared(lay, CommitPoint(lay, old(disk), old(view), old(hdr)), old(hdr))
      ensures images == old(images) + CommitTrace(lay, old(disk), old(view), old(hdr))
    {
      ghost var d0, v0, h := disk, view, hdr;
      LogAndCommit();
      ghost var d2 := disk;
      InstallAndClear();
      ConcatIsAssociative(old(images), LogTrace(lay, d0, v0, h), InstallTrace(lay, d2, h));
    }

    /** recover_from_log, on a machine that has just booted. */
    method RecoverFromLog()
      requires Valid() && Recoverable(lay, disk)
      requires Clean(disk, cache, [])
      modifies `cache, `disk, `images, `view, `n, `hdr, block
      ensures Valid() && n == 0
      ensures disk == Recovered(lay, old(disk))
      ensures images == old(images) + RecoverTrace(lay, old(disk))
    {
      ReadHead();
      InstallAndClear();
    }

    /** commit(): the cached contents of the logged blocks reach their home blocks
        through exactly the images CommitTrace lists, and nothing else changes. */
    method Commit()
      requires Valid() && Idle(lay, disk, disk)
      modifies `cache, `disk, `images, `view, `n, `hdr
      ensures Valid() && n == 0
      ensures images == old(images) + CommitTrace(lay, old(disk), old(view), old(hdr))
      ensures Idle(lay, disk, old(view))
      ensures forall b :: 0 <= b < |disk| && lay.Home(b) ==> view[b] == old(view)[b]
    {
      ghost var d0, v0 := disk, view;
      CommitImages(lay, d0, d0, v0, hdr, CommitWrites(hdr));
      assert Applied(d0, v0, hdr) == v0;
      if n > 0 {
        WriteTransaction();
      }
    }
  }
}
