/** Whole writes and whole runs of calls on the file layer: filewrite of file.c with
its chunks, and any sequence of reads, writes and truncations. */
module FileCalls {

  import opened FileLayout
  import opened Extents
  import opened FileSystem
  import opened Mkfs

  const MAXOPBLOCKS: nat := 10

  /** What filewrite takes for the largest write that fits the log. */
  const CHUNK: nat := (LOGSIZE - 1 - 1 - 2) / 2 * 512

  /** The blocks that a chunk logs fit the log wherever it starts, in a file without
      holes or on a disk with at most 14 bitmap blocks; mkfs makes one. */
  lemma ChunkFits(bmap: nat, iblock: nat, f: Fs, g: Fs, i: nat, off: nat, n: nat, logged: set<nat>)
    requires LogsAre(bmap, iblock, f, g, i, off, n, {}, logged) && Owned(g) && Writable(f, i, off, n) && n <= CHUNK
    ensures NoHoles(f, i) || BitmapBlocks(|f.blocks|) <= 14 ==> |logged| <= LOGSIZE
  {
    WriteLogs(bmap, iblock, f, g, i, off, n, {}, logged);
    ChunkTouches(off, n);
    if NoHoles(f, i) && n > 0 && off % BSIZE != 0 {
      assert off / BSIZE * BSIZE < f.inodes[i].size;
      assert Ref(f, i, SlotOf(off / BSIZE)) != 0;
      MissingRest(f, i, off / BSIZE, End(off, n));
    }
  }

  lemma ChunkTouches(off: nat, n: nat)
    requires n <= CHUNK
    ensures Touched(off, n) <= 14 && (off % BSIZE == 0 ==> Touched(off, n) <= 13)
    ensures off / BSIZE <= End(off, n) && End(off, n) - off / BSIZE == Touched(off, n)
  {
  }

  /** How many blocks a write of n bytes at off logs on a disk with one bitmap block: the
      blocks touched, the bitmap if one of them is new, the indirect block if one of those
      behind it is, and the inode's block if the file grows. */
  ghost function LogCount(f: Fs, i: nat, off: nat, n: nat): nat
    requires Shape(f) && i < |f.inodes| && End(off, n) <= MAXFILE
  {
    Touched(off, n) + (if AllThere(f, i, off, n) then 0 else 1)
    + (if ListsNew(f, i, off / BSIZE, End(off, n)) then 1 else 0) + (if Grows(f, i, off, n) then 1 else 0)
  }

  /** begin_op reserves MAXOPBLOCKS blocks of the log for an operation, and a write keeps
      to that exactly when LogCount does. */
  lemma ReservationIsKeptIff(inodestart: nat, bmap: nat, f: Fs, g: Fs, i: nat, off: nat, n: nat, logged: set<nat>)
    requires LogsAre(bmap, i / IPB + inodestart, f, g, i, off, n, {}, logged) && Owned(g) && g.nmeta == f.nmeta
    requires LaidOut(f, inodestart, bmap) && BitmapBlocks(|f.blocks|) == 1 && Writable(f, i, off, n)
    ensures |logged| == LogCount(f, i, off, n)
    ensures |logged| <= MAXOPBLOCKS <==> LogCount(f, i, off, n) <= MAXOPBLOCKS
  {
    NeedsNothing(f, i, off, n);
    LogsCount(inodestart, bmap, f, g, i, off, n, logged);
    OneBitmapBlock(bmap, f, g, i, off / BSIZE, End(off, n));
  }

  /** What that comes to in a file of exactly the blocks that its bytes take. */
  lemma LogCountOfDense(f: Fs, i: nat, off: nat, n: nat)
    requires Shape(f) && i < |f.inodes| && Writable(f, i, off, n) && Dense(f, i)
    ensures var have, end := BlocksIn(f.inodes[i].size), End(off, n);
            LogCount(f, i, off, n) == Touched(off, n) + (if n > 0 && have < end then 1 else 0)
              + (if n > 0 && Max(have, NDIRECT) < end then 1 else 0) + (if n > 0 && f.inodes[i].size < off + n then 1 else 0)
  {
    var lo, hi := off / BSIZE, End(off, n);
    NeedsNothing(f, i, off, n);
    var from := Max(lo, NDIRECT);
    if from <= hi {
      MissingNone(f, i, from, hi);
      DenseMissing(f, i, from, hi);
    }
    DenseMissing(f, i, lo, hi);
    MissingNone(f, i, lo, hi);
  }

  lemma WriteTwice(f: Fs, g: Fs, h: Fs, i: nat, off: nat, s: seq<Byte>, t: seq<Byte>)
    requires WriteDone(f, g, i, off, s) && WriteDone(g, h, i, off + |s|, t)
    ensures WriteDone(f, h, i, off, s + t)
  {
  }

  /** What filewrite has done after its first chunks: the first n bytes of src are in. */
  ghost predicate Progress(f: Fs, g: Fs, i: nat, off: nat, src: seq<Byte>, n: nat) {
    && Owned(g) && SizesFit(g) && i < |g.inodes| && n <= |src|
    && (n == 0 ==> g == f)
    && (n > 0 ==> WriteDone(f, g, i, off, src[..n]))
  }

  lemma MoreProgress(f: Fs, g: Fs, h: Fs, i: nat, off: nat, src: seq<Byte>, lo: nat, hi: nat, at: nat, chunk: seq<Byte>)
    requires lo < hi <= |src| && Progress(f, g, i, off, src, lo)
    requires at == off + lo && chunk == src[lo..hi] && WriteDone(g, h, i, at, chunk)
    ensures Progress(f, h, i, off, src, hi)
  {
    var head, whole := src[..lo], src[..hi];
    HeadMore(src, lo, hi);
    if lo > 0 {
      WriteTwice(f, g, h, i, off, head, chunk);
    } else {
      assert whole == chunk;
    }
  }

  /** The next chunk passes the guards of writei if the whole write does, and if it
      does not pass them neither does the whole write. */
  lemma NextChunk(f: Fs, g: Fs, i: nat, off: nat, src: seq<Byte>, lo: nat, n1: nat, n: nat)
    requires SizesFit(f) && i < |f.inodes| && lo < lo + n1 <= n <= |src| < UINT && Progress(f, g, i, off, src, lo)
    ensures Writable(f, i, off, n) ==> Writable(g, i, off + lo, n1)
    ensures lo + n1 == n ==> (Writable(f, i, off, n) <==> Writable(g, i, off + lo, n1))
    ensures !Writable(g, i, off + lo, n1) ==> !Writable(f, i, off, n)
  {
  }

  /** n bytes have gone in since f, for which there were blocks enough. */
  ghost predicate Grown(f: Fs, g: Fs, i: nat, off: nat, n: nat) {
    Extended(f, g, i, off / BSIZE, End(off, n)) && Enough(true, f, i, off, n)
  }

  lemma GrownNone(f: Fs, i: nat, off: nat)
    requires Shape(f) && i < |f.inodes| && off <= MAXFILE * BSIZE
    ensures Grown(f, f, i, off, 0)
  {
    ExtendedNone(f, i, off / BSIZE);
  }

  lemma ChunkEnds(off: nat, lo: nat, hi: nat)
    requires lo < hi && off + hi <= MAXFILE * BSIZE
    ensures var a, mid, end := (off + lo) / BSIZE, End(off, lo), End(off, hi);
            && off / BSIZE <= a <= mid <= end <= MAXFILE && End(off + lo, hi - lo) == end
            && (off / BSIZE < mid || a == mid) && (lo == 0 ==> a == mid)
  {
  }

  /** There are blocks enough for the next chunk exactly when there were for all so far and
      for it. */
  lemma ChunkEnough(f: Fs, g: Fs, i: nat, off: nat, lo: nat, hi: nat)
    requires Grown(f, g, i, off, lo) && lo < hi && off + hi <= MAXFILE * BSIZE
    ensures Enough(true, g, i, off + lo, hi - lo) <==> Enough(true, f, i, off, hi)
  {
    ChunkEnds(off, lo, hi);
    var a, mid, end := (off + lo) / BSIZE, End(off, lo), End(off, hi);
    ThereAfter(f, g, i, off / BSIZE, mid);
    NeedsRange(f, g, i, off / BSIZE, mid, end);
    NeedsAgain(g, i, a, mid, end);
  }

  lemma ChunkGrown(f: Fs, g: Fs, h: Fs, i: nat, off: nat, lo: nat, hi: nat)
    requires Grown(f, g, i, off, lo) && lo < hi && off + hi <= MAXFILE * BSIZE && Enough(true, g, i, off + lo, hi - lo)
    requires Extended(g, h, i, (off + lo) / BSIZE, End(off + lo, hi - lo))
    ensures Grown(f, h, i, off, hi)
  {
    ChunkEnough(f, g, i, off, lo, hi);
    ChunkEnds(off, lo, hi);
    ExtendedRange(f, g, h, i, off / BSIZE, End(off, lo), (off + lo) / BSIZE, End(off, hi));
  }

  /** What chunks of filewrite keep: each logs no more than the log takes, and a file
      without holes gets none and stays up to date on disk. */
  ghost predicate ChunkKept(f: Fs, g: Fs, i: nat, d: seq<Inode>, e: seq<Inode>, logs: nat) {
    && |g.blocks| == |f.blocks|
    && (BitmapBlocks(|f.blocks|) <= 14 ==> logs <= LOGSIZE)
    && (NoHoles(f, i) ==> NoHoles(g, i) && logs <= LOGSIZE && (d == f.inodes ==> e == g.inodes))
  }

  /** One chunk of filewrite: if writei refuses it nothing changes; otherwise it is written, and
      just the blocks this takes are logged, if there are free blocks enough. */
  ghost predicate ChunkResult(bmap: nat, iblock: nat, g: Fs, h: Fs, i: nat, off: nat, chunk: seq<Byte>, d: seq<Inode>,
                              e: seq<Inode>, used: seq<bool>, logged: set<nat>, r: int, ok: bool, off': nat)
  {
    && i < |g.inodes|
    && if !Writable(g, i, off, |chunk|) then
         ok && r == -1 && h == g && off' == off && logged == {} && e == d
       else if Enough(true, g, i, off, |chunk|) then
         && ok && r == |chunk| && off' == off + r && WriteDone(g, h, i, off, chunk) && |e| == |h.inodes|
         && LogsAre(bmap, iblock, g, h, i, off, |chunk|, {}, logged) && ChunkKept(g, h, i, d, e, |logged|)
       else !ok && Full(used)
  }

  /** The transaction of one chunk: the files before it, how many bytes had been taken then,
      and what it logged. */
  datatype Trans = Trans(before: Fs, lo: nat, log: set<nat>)

  /** What the chunks of one filewrite keep. */
  ghost predicate AllKept(f: Fs, g: Fs, i: nat, d: seq<Inode>, e: seq<Inode>, ts: seq<Trans>) {
    && |g.blocks| == |f.blocks|
    && (BitmapBlocks(|f.blocks|) <= 14 || NoHoles(f, i) ==> forall k :: 0 <= k < |ts| ==> |ts[k].log| <= LOGSIZE)
    && (NoHoles(f, i) ==> NoHoles(g, i) && (d == f.inodes ==> e == g.inodes))
  }

  lemma AllKeptMore(f: Fs, g: Fs, h: Fs, i: nat, d: seq<Inode>, e: seq<Inode>, e': seq<Inode>, ts: seq<Trans>, t: Trans)
    requires AllKept(f, g, i, d, e, ts) && ChunkKept(g, h, i, e, e', |t.log|)
    ensures AllKept(f, h, i, d, e', ts + [t])
  {
  }

  /** filewrite has taken n bytes in chunks, each of them one transaction, which logs exactly
      the blocks that its chunk takes. */
  ghost predicate InChunks(bmap: nat, iblock: nat, f: Fs, h: Fs, ts: seq<Trans>, i: nat, off: nat, n: nat)
    decreases |ts|
  {
    if ts == [] then n == 0 && h == f
    else
      var t := ts[|ts| - 1];
      && t.lo < n <= t.lo + CHUNK && LogsAre(bmap, iblock, t.before, h, i, off + t.lo, n - t.lo, {}, t.log)
      && InChunks(bmap, iblock, f, t.before, ts[..|ts| - 1], i, off, t.lo)
  }

  lemma InChunksMore(bmap: nat, iblock: nat, f: Fs, g: Fs, h: Fs, ts: seq<Trans>, i: nat, off: nat, lo: nat, hi: nat, log: set<nat>)
    requires InChunks(bmap, iblock, f, g, ts, i, off, lo) && lo < hi <= lo + CHUNK
    requires LogsAre(bmap, iblock, g, h, i, off + lo, hi - lo, {}, log)
    ensures InChunks(bmap, iblock, f, h, ts + [Trans(g, lo, log)], i, off, hi)
  {
    hide LogsAre;
    assert (ts + [Trans(g, lo, log)])[..|ts|] == ts;
  }

  /** What the loop of filewrite has done so far. */
  ghost predicate Chunked(bmap: nat, iblock: nat, f: Fs, h: Fs, ip: nat, start: nat, src: seq<Byte>, i: nat,
                          d: seq<Inode>, e: seq<Inode>, ts: seq<Trans>)
  {
    && Progress(f, h, ip, start, src, i) && AllKept(f, h, ip, d, e, ts)
    && InChunks(bmap, iblock, f, h, ts, ip, start, i) && (i > 0 ==> Grown(f, h, ip, start, i))
  }

  lemma ChunkedNone(bmap: nat, iblock: nat, f: Fs, ip: nat, start: nat, src: seq<Byte>, d: seq<Inode>)
    requires Owned(f) && SizesFit(f) && ip < |f.inodes|
    ensures Chunked(bmap, iblock, f, f, ip, start, src, 0, d, d, [])
  {
  }

  lemma ChunkLogged(bmap: nat, iblock: nat, f: Fs, g: Fs, h: Fs, ip: nat, start: nat, src: seq<Byte>, lo: nat, hi: nat,
                    d: seq<Inode>, e: seq<Inode>, ts: seq<Trans>, log: set<nat>)
    requires Chunked(bmap, iblock, f, g, ip, start, src, lo, d, e, ts) && lo < hi <= lo + CHUNK
    requires start + hi <= MAXFILE * BSIZE && Enough(true, g, ip, start + lo, hi - lo)
    requires LogsAre(bmap, iblock, g, h, ip, start + lo, hi - lo, {}, log)
    ensures InChunks(bmap, iblock, f, h, ts + [Trans(g, lo, log)], ip, start, hi) && Grown(f, h, ip, start, hi)
  {
    InChunksMore(bmap, iblock, f, g, h, ts, ip, start, lo, hi, log);
    if lo == 0 {
      GrownNone(f, ip, start);
    }
    ChunkGrown(f, g, h, ip, start, lo, hi);
  }

  lemma ChunkedMore(bmap: nat, iblock: nat, f: Fs, g: Fs, h: Fs, ip: nat, start: nat, src: seq<Byte>, lo: nat, hi: nat,
                    d: seq<Inode>, e: seq<Inode>, e': seq<Inode>, ts: seq<Trans>, chunk: seq<Byte>, log: set<nat>)
    requires Chunked(bmap, iblock, f, g, ip, start, src, lo, d, e, ts) && lo < hi <= lo + CHUNK
    requires hi <= |src| && chunk == src[lo..hi] && start + hi <= MAXFILE * BSIZE && Enough(true, g, ip, start + lo, hi - lo)
    requires WriteDone(g, h, ip, start + lo, chunk) && LogsAre(bmap, iblock, g, h, ip, start + lo, hi - lo, {}, log)
    requires ChunkKept(g, h, ip, e, e', |log|)
    ensures Chunked(bmap, iblock, f, h, ip, start, src, hi, d, e', ts + [Trans(g, lo, log)])
  {
    hide WriteDone, LogsAre, Progress, AllKept, ChunkKept, InChunks, Grown, Enough;
    ChunkLogged(bmap, iblock, f, g, h, ip, start, src, lo, hi, d, e, ts, log);
    AllKeptMore(f, g, h, ip, d, e, e', ts, Trans(g, lo, log));
    MoreProgress(f, g, h, ip, start, src, lo, hi, start + lo, chunk);
  }

  lemma ChunkRefused(bmap: nat, iblock: nat, f: Fs, g: Fs, ip: nat, start: nat, src: seq<Byte>, lo: nat, hi: nat,
                     d: seq<Inode>, e: seq<Inode>, ts: seq<Trans>)
    requires Chunked(bmap, iblock, f, g, ip, start, src, lo, d, e, ts) && lo < hi && start + hi <= MAXFILE * BSIZE
    requires !Enough(true, g, ip, start + lo, hi - lo)
    ensures !Enough(true, f, ip, start, hi)
  {
    if lo == 0 {
      GrownNone(f, ip, start);
    }
    ChunkEnough(f, g, ip, start, lo, hi);
  }

  /** What one more chunk does to all that, n bytes being wanted. */
  ghost predicate MoreResult(bmap: nat, iblock: nat, f: Fs, h: Fs, ip: nat, start: nat, src: seq<Byte>, lo: nat, hi: nat, n: nat,
                             d: seq<Inode>, e: seq<Inode>, used: seq<bool>, ts: seq<Trans>, r: int, ok: bool, off: nat)
  {
    && ip < |f.inodes|
    && if !ok then Full(used) && start + hi <= MAXFILE * BSIZE && !Enough(true, f, ip, start, hi)
       else if r < 0 then
         off == start + lo && !Writable(f, ip, start, n) && Chunked(bmap, iblock, f, h, ip, start, src, lo, d, e, ts) && |e| == |h.inodes|
       else
         && off == start + hi <= MAXFILE * BSIZE && (hi == n ==> Writable(f, ip, start, n))
         && Chunked(bmap, iblock, f, h, ip, start, src, hi, d, e, ts) && |e| == |h.inodes|
  }

  lemma MoreFromChunk(bmap: nat, iblock: nat, f: Fs, g: Fs, h: Fs, ip: nat, start: nat, src: seq<Byte>, lo: nat, hi: nat, n: nat,
                      d: seq<Inode>, e: seq<Inode>, e': seq<Inode>, used: seq<bool>, ts: seq<Trans>, chunk: seq<Byte>, log: set<nat>,
                      r: int, ok: bool, off: nat)
    returns (ts': seq<Trans>)
    requires SizesFit(f) && ip < |f.inodes| && |e| == |g.inodes|
    requires Chunked(bmap, iblock, f, g, ip, start, src, lo, d, e, ts) && lo < hi <= n <= |src| < UINT && hi <= lo + CHUNK
    requires chunk == src[lo..hi] && ChunkResult(bmap, iblock, g, h, ip, start + lo, chunk, e, e', used, log, r, ok, off)
    ensures MoreResult(bmap, iblock, f, h, ip, start, src, lo, hi, n, d, e', used, ts', r, ok, off)
  {
    hide WriteDone, LogsAre, Progress, AllKept, ChunkKept, InChunks, Grown, Enough;
    NextChunk(f, g, ip, start, src, lo, hi - lo, n);
    ts' := ts;
    if !ok {
      ChunkRefused(bmap, iblock, f, g, ip, start, src, lo, hi, d, e, ts);
    } else if r >= 0 {
      ChunkedMore(bmap, iblock, f, g, h, ip, start, src, lo, hi, d, e, e', ts, chunk, log);
      ts' := ts + [Trans(g, lo, log)];
    }
  }

  lemma ChunkKeeps(f: Fs, g: Fs, i: nat, off: nat, src: seq<Byte>, d: seq<Inode>, e: seq<Inode>)
    requires WriteDone(f, g, i, off, src) && Writable(f, i, off, |src|) && Iupdated(f, g, i, off, |src|, d, e)
    ensures NoHoles(f, i) && d == f.inodes ==> e == g.inodes
  {
    if NoHoles(f, i) && d == f.inodes {
      NoHolesStayUpdated(f, g, i, off, |src|, d, e);
    }
  }

  /** An open file of type FD_INODE. */
  class File {
    const fs: FileSys
    const ip: nat
    const readable: bool
    const writable: bool
    var off: nat

    constructor (fs: FileSys, ip: nat, readable: bool, writable: bool)
      ensures this.fs == fs && this.ip == ip && off == 0
      ensures this.readable == readable && this.writable == writable
    {
      this.fs, this.ip, this.readable, this.writable, off := fs, ip, readable, writable, 0;
    }

    /** fileread, which opens no transaction: it changes nothing in the file system, and
        panics exactly when it meets a hole. */
    method Fileread(n: nat) returns (r: int, out: seq<Byte>, ok: bool)
      requires Owned(fs.F()) && SizesFit(fs.F()) && ip < |fs.inodes| && n < UINT && off < UINT && !fs.trans
      modifies this`off, fs`blocks, fs`used, fs`inodes, fs`logged
      ensures var size := old(fs.inodes)[ip].size;
              if !readable || old(off) > size || old(off) + n >= UINT then ok && r == -1 && off == old(off)
              else && (ok <==> AllThere(old(fs.F()), ip, old(off), Min(n, size - old(off))))
                   && (ok ==> && r == Min(n, size - old(off)) && off == old(off) + r
                              && out == Content(old(fs.F()), ip)[old(off)..off])
      ensures ok ==> fs.F() == old(fs.F())
    {
      r, out, ok := -1, [], true;
      if readable {
        r, out, ok := fs.Readi(ip, off, n);
        if r > 0 {
          off := off + r;
        }
      }
    }

    /** One chunk of filewrite: one transaction.  writei never returns a short count. */
    method WriteChunk(ghost g: Fs, chunk: seq<Byte>) returns (r: int, ok: bool, ghost h: Fs)
      requires g == fs.F() && Owned(g) && SizesFit(g) && ip < |g.inodes| == |fs.dinodes| && off < UINT
      requires 0 < |chunk| <= CHUNK
      modifies this`off, fs`blocks, fs`used, fs`inodes, fs`dinodes, fs`trans, fs`logged
      ensures h == fs.F() && (ok ==> !fs.trans)
      ensures ChunkResult(fs.bmapstart, fs.Iblock(ip), g, h, ip, old(off), chunk, old(fs.dinodes), fs.dinodes, fs.used, fs.logged,
                          r, ok, off)
    {
      fs.logged, fs.trans := {}, true;
      assert fs.F() == g;
      r, ok := fs.Writei(ip, off, chunk);
      h := fs.F();
      if ok {
        fs.trans := false;
        if Writable(g, ip, off, |chunk|) {
          ChunkFits(fs.bmapstart, fs.Iblock(ip), g, h, ip, off, |chunk|, fs.logged);
          ChunkKeeps(g, h, ip, off, chunk, old(fs.dinodes), fs.dinodes);
        }
        if r > 0 {
          off := off + r;
        }
      }
    }

    /** What writing a chunk that fits logs. */
    method LogChunk(ghost f: Fs, chunk: seq<Byte>) returns (ok: bool, ghost h: Fs)
      requires f == fs.F() && Owned(f) && SizesFit(f) && ip < |f.inodes| == |fs.dinodes| && off < UINT
      requires 0 < |chunk| <= CHUNK && Writable(f, ip, off, |chunk|)
      modifies this`off, fs`blocks, fs`used, fs`inodes, fs`dinodes, fs`trans, fs`logged
      ensures ok <==> Enough(true, f, ip, old(off), |chunk|)
      ensures ok ==> Owned(h) && h.nmeta == f.nmeta
      ensures ok ==> LogsAre(fs.bmapstart, ip / IPB + fs.inodestart, f, h, ip, old(off), |chunk|, {}, fs.logged)
    {
      var r;
      r, ok, h := WriteChunk(f, chunk);
    }

    /** How many blocks that is, with one bitmap block. */
    method CountChunk(ghost f: Fs, chunk: seq<Byte>) returns (ok: bool)
      requires f == fs.F() && Owned(f) && SizesFit(f) && ip < |f.inodes| == |fs.dinodes| && off < UINT
      requires 0 < |chunk| <= CHUNK && Writable(f, ip, off, |chunk|)
      requires LaidOut(f, fs.inodestart, fs.bmapstart) && BitmapBlocks(|f.blocks|) == 1
      modifies this`off, fs`blocks, fs`used, fs`inodes, fs`dinodes, fs`trans, fs`logged
      ensures ok <==> Enough(true, f, ip, old(off), |chunk|)
      ensures ok ==> |fs.logged| == LogCount(f, ip, old(off), |chunk|)
    {
      ghost var at, h := off, f;
      ok, h := LogChunk(f, chunk);
      if ok {
        ReservationIsKeptIff(fs.inodestart, fs.bmapstart, f, h, ip, at, |chunk|, fs.logged);
      }
    }

    /** A full chunk at the end of a file with an indirect block, or just without, logs 16 or
        17 blocks. */
    method ChunkAtEnd(ghost f: Fs, chunk: seq<Byte>) returns (ok: bool)
      requires f == fs.F() && Owned(f) && SizesFit(f) && ip < |f.inodes| == |fs.dinodes| && |chunk| == CHUNK
      requires EndsPastDirect(f, ip, off) && LaidOut(f, fs.inodestart, fs.bmapstart) && BitmapBlocks(|f.blocks|) == 1
      modifies this`off, fs`blocks, fs`used, fs`inodes, fs`dinodes, fs`trans, fs`logged
      ensures ok <==> Enough(true, f, ip, old(off), CHUNK)
      ensures ok ==> |fs.logged| == (if old(off) % BSIZE == 0 then 16 else 17) > MAXOPBLOCKS
    {
      ChunkAfterIndirect(f, ip, off);
      ok := CountChunk(f, chunk);
    }

    /** The same, after lo bytes of src have been written since the file was f. */
    method WriteMore(ghost f: Fs, ghost g: Fs, ghost start: nat, src: seq<Byte>, lo: nat, hi: nat, ghost n: nat,
                     ghost d: seq<Inode>, ghost ts: seq<Trans>)
      returns (r: int, ok: bool, ghost h: Fs, ghost ts': seq<Trans>)
      requires SizesFit(f) && ip < |f.inodes| && off == start + lo < UINT && lo < hi <= n <= |src| < UINT && hi - lo <= CHUNK
      requires g == fs.F() && |fs.dinodes| == |g.inodes|
      requires Chunked(fs.bmapstart, fs.Iblock(ip), f, g, ip, start, src, lo, d, fs.dinodes, ts)
      modifies this`off, fs`blocks, fs`used, fs`inodes, fs`dinodes, fs`trans, fs`logged
      ensures h == fs.F()
      ensures MoreResult(fs.bmapstart, fs.Iblock(ip), f, h, ip, start, src, lo, hi, n, d, fs.dinodes, fs.used, ts', r, ok, off)
    {
      hide WriteDone, LogsAre, AllKept, ChunkKept, InChunks, Grown, Enough;
      ghost var e := fs.dinodes;
      var chunk := src[lo..hi];
      r, ok, h := WriteChunk(g, chunk);
      ts' := MoreFromChunk(fs.bmapstart, fs.Iblock(ip), f, g, h, ip, start, src, lo, hi, n, d, e, fs.dinodes, fs.used, ts, chunk,
                           fs.logged, r, ok, off);
    }

    /** The loop of filewrite. */
    method WriteChunks(src: seq<Byte>, n: int) returns (i: nat, ok: bool, ghost h: Fs, ghost ts: seq<Trans>)
      requires Owned(fs.F()) && SizesFit(fs.F()) && ip < |fs.inodes| == |fs.dinodes| && n <= |src| < UINT && off < UINT
      modifies this`off, fs`blocks, fs`used, fs`inodes, fs`dinodes, fs`trans, fs`logged
      ensures h == fs.F()
      ensures ok ==> off == old(off) + i
      ensures ok ==> Chunked(fs.bmapstart, fs.Iblock(ip), old(fs.F()), h, ip, old(off), src, i, old(fs.dinodes), fs.dinodes, ts)
      ensures ok && n > 0 ==> i <= n && (i == n <==> Writable(old(fs.F()), ip, old(off), n))
      ensures ok && n <= 0 ==> i == 0
      ensures !ok ==> Full(fs.used) && i <= n && old(off) + i <= MAXFILE * BSIZE && !Enough(true, old(fs.F()), ip, old(off), i)
    {
      hide Chunked, Enough;
      ghost var f, start, d := fs.F(), off, fs.dinodes;
      i, ok, h, ts := 0, true, f, [];
      ChunkedNone(fs.bmapstart, fs.Iblock(ip), f, ip, start, src, d);
      while i < n
        invariant ok && (i <= n || i == 0) && off == start + i < UINT
        invariant h == fs.F() && |fs.dinodes| == |h.inodes|
        invariant Chunked(fs.bmapstart, fs.Iblock(ip), f, h, ip, start, src, i, d, fs.dinodes, ts)
        invariant i > 0 && i == n ==> Writable(f, ip, start, n)
      {
        var n1, r := n - i, 0;
        if n1 > CHUNK {
          n1 := CHUNK;
        }
        var next := i + n1;
        r, ok, h, ts := WriteMore(f, h, start, src, i, next, n, d, ts);
        if !ok {
          i := next;
          return;
        }
        if r < 0 {
          break;
        }
        i := next;
      }
    }

    /** filewrite: src[..n] goes into the file at the offset, all of it exactly when
        writei would take it in one piece; otherwise the chunks that were taken stay.  A
        write that would be taken in one piece panics exactly when there are not free
        blocks enough for it. */
    method Filewrite(src: seq<Byte>, n: int) returns (r: int, ok: bool, ghost ts: seq<Trans>)
      requires Owned(fs.F()) && SizesFit(fs.F()) && ip < |fs.inodes| == |fs.dinodes| && n <= |src| < UINT && off < UINT
      modifies this`off, fs`blocks, fs`used, fs`inodes, fs`dinodes, fs`trans, fs`logged
      ensures ok ==> r == if writable && (n == 0 || (n > 0 && Writable(old(fs.F()), ip, old(off), n))) then n else -1
      ensures ok ==> old(off) <= off <= old(off) + |src| && (r >= 0 ==> off == old(off) + n)
      ensures ok ==> Chunked(fs.bmapstart, fs.Iblock(ip), old(fs.F()), fs.F(), ip, old(off), src, off - old(off),
                             old(fs.dinodes), fs.dinodes, ts)
      ensures !ok ==> Full(fs.used)
      ensures writable && n > 0 && Writable(old(fs.F()), ip, old(off), n) ==> (ok <==> Enough(true, old(fs.F()), ip, old(off), n))
    {
      hide Progress, AllKept, InChunks, Extended, Enough;
      r, ok, ts := -1, true, [];
      ChunkedNone(fs.bmapstart, fs.Iblock(ip), fs.F(), ip, off, src, fs.dinodes);
      if writable {
        var i;
        ghost var f, start, h := fs.F(), off, fs.F();
        i, ok, h, ts := WriteChunks(src, n);
        r := if i == n then n else -1;
        if !ok && Writable(f, ip, start, n) {
          EnoughLess(true, f, ip, start, i, n);
        }
      }
    }
  }

  // ----- Runs of calls --------------------------------------------------------

  /** readi is called within an operation by exec and outside of one by fileread; op
      says which. */
  datatype Call =
    | Read(i: nat, off: nat, n: nat, op: bool)
    | Write(i: nat, off: nat, src: seq<Byte>)
    | Truncate(i: nat)
    | Map(i: nat, bn: nat)

  /** What a call returns, and the bytes that it reads. */
  datatype Reply = Reply(r: int, out: seq<Byte>)

  predicate ValidCall(c: Call, inodes: nat) {
    match c
    case Read(i, off, n, op) => i < inodes && off < UINT && n < UINT
    case Write(i, off, src) => i < inodes && off < UINT && |src| < UINT
    case Truncate(i) => i < inodes
    case Map(i, bn) => i < inodes
  }

  /** The specification: every file is a sequence of bytes. */
  function AfterCall(files: seq<seq<Byte>>, c: Call): (r: seq<seq<Byte>>)
    requires ValidCall(c, |files|)
    ensures |r| == |files|
  {
    match c
    case Read(i, off, n, op) => files
    case Write(i, off, src) =>
      if off <= |files[i]| && off + |src| <= MAXFILE * BSIZE then files[i := Splice(files[i], off, src)] else files
    case Truncate(i) => files[i := []]
    case Map(i, bn) => files
  }

  function Answer(files: seq<seq<Byte>>, c: Call): Reply
    requires ValidCall(c, |files|)
  {
    match c
    case Read(i, off, n, op) =>
      if off <= |files[i]| && off + n < UINT
      then var r := Min(n, |files[i]| - off); Reply(r, files[i][off..off + r])
      else Reply(-1, [])
    case Write(i, off, src) =>
      Reply(if off <= |files[i]| && off + |src| <= MAXFILE * BSIZE then |src| else -1, [])
    case Truncate(i) => Reply(0, [])
    case Map(i, bn) => Reply(0, [])
  }

  /** The files after the first n calls. */
  function AfterCalls(files: seq<seq<Byte>>, calls: seq<Call>, n: nat): (r: seq<seq<Byte>>)
    requires n <= |calls| && forall k :: 0 <= k < |calls| ==> ValidCall(calls[k], |files|)
    ensures |r| == |files|
  {
    if n == 0 then files else AfterCall(AfterCalls(files, calls, n - 1), calls[n - 1])
  }

  /** What the first n calls return. */
  function Answers(files: seq<seq<Byte>>, calls: seq<Call>, n: nat): seq<Reply>
    requires n <= |calls| && forall k :: 0 <= k < |calls| ==> ValidCall(calls[k], |files|)
  {
    if n == 0 then [] else Answers(files, calls, n - 1) + [Answer(AfterCalls(files, calls, n - 1), calls[n - 1])]
  }

  function Files(f: Fs): (r: seq<seq<Byte>>)
    requires Shape(f) && SizesFit(f)
    ensures |r| == |f.inodes| && forall i :: 0 <= i < |r| ==> r[i] == Content(f, i)
  {
    seq(|f.inodes|, i requires 0 <= i < |f.inodes| => Content(f, i))
  }

  lemma SameContents(f: Fs, g: Fs)
    requires Shape(f) && Shape(g) && SizesFit(f) && SameFiles(f, g) && SameSizes(f, g)
    ensures SizesFit(g) && Files(g) == Files(f)
  {
    forall i | 0 <= i < |f.inodes|
      ensures Content(g, i) == Content(f, i)
    {
      SameBytes(f, g, i, 0, f.inodes[i].size);
    }
  }

  lemma WrittenContents(f: Fs, g: Fs, i: nat, off: nat, src: seq<Byte>)
    requires WriteDone(f, g, i, off, src)
    ensures Files(g) == Files(f)[i := Splice(Files(f)[i], off, src)]
  {
    SpliceIff(Content(f, i), Content(g, i), off, src);
  }

  lemma TruncatedContents(f: Fs, g: Fs, i: nat)
    requires Truncated(f, g, i) && SizesFit(f)
    ensures Owned(g) && SizesFit(g) && Files(g) == Files(f)[i := []]
  {
    TruncateIsSafe(f, g, i);
    forall j: nat | j < |f.inodes|
      ensures g.inodes[j].size <= MAXFILE * BSIZE && Content(g, j) == if j == i then [] else Content(f, j)
    {
      if j != i {
        assert |Content(g, j)| == |Content(f, j)|;
        assert forall p :: 0 <= p < |Content(f, j)| ==> ByteAt(g, j, p) == ByteAt(f, j, p);
      }
    }
  }

  /** No file has a hole. */
  ghost predicate Solid(f: Fs) {
    forall i: nat :: i < |f.inodes| ==> NoHoles(f, i)
  }

  /** Call c turned f, whose inodes on disk were d, into g and e: it did and answered
      what it would on plain byte sequences, it made no holes, and where there were none
      it left no inode behind in memory only.  bmap alone does not call iupdate. */
  ghost predicate Served(f: Fs, d: seq<Inode>, g: Fs, e: seq<Inode>, c: Call, reply: Reply) {
    && Shape(f) && SizesFit(f) && ValidCall(c, |f.inodes|)
    && Owned(g) && SizesFit(g) && |e| == |g.inodes|
    && Files(g) == AfterCall(Files(f), c) && reply == Answer(Files(f), c)
    && (Solid(f) ==> Solid(g) && (d == f.inodes && !c.Map? ==> e == g.inodes))
  }

  /** Why a call can panic: the disk is full, bmap is asked for a block that no file
      has, or a hole is read outside of an operation. */
  ghost predicate CanFail(f: Fs, used: seq<bool>, c: Call) {
    || Full(used)
    || (c.Map? && c.bn >= MAXFILE)
    || (c.Read? && !c.op && !NoHoles(f, c.i))
  }

  lemma MappedSolid(f: Fs, g: Fs, i: nat, bn: nat)
    requires Mapped(f, g, i, bn) && Solid(f)
    ensures Solid(g)
  {
    forall j: nat | j < |g.inodes|
      ensures NoHoles(g, j)
    {
      assert NoHoles(f, j);
      forall bm: nat | bm < MAXFILE && bm * BSIZE < f.inodes[j].size
        ensures Ref(g, j, SlotOf(bm)) != 0
      {
        assert Slot(f, j, SlotOf(bm)) && Ref(f, j, SlotOf(bm)) != 0;
      }
    }
  }

  lemma WrittenSolid(f: Fs, g: Fs, i: nat, off: nat, src: seq<Byte>)
    requires WriteDone(f, g, i, off, src) && Solid(f)
    ensures Solid(g)
  {
    forall j: nat | j < |g.inodes|
      ensures NoHoles(g, j)
    {
      assert NoHoles(f, j);
      if j != i {
        assert |Content(g, j)| == |Content(f, j)|;
        forall bm: nat | bm < MAXFILE && bm * BSIZE < f.inodes[j].size
          ensures Ref(g, j, SlotOf(bm)) != 0
        {
          assert Slot(f, j, SlotOf(bm)) && Ref(f, j, SlotOf(bm)) != 0;
        }
      }
    }
  }

  lemma TruncatedSolid(f: Fs, g: Fs, i: nat)
    requires Truncated(f, g, i) && Solid(f) && Shape(g)
    ensures Solid(g)
  {
    forall j: nat | j < |g.inodes|
      ensures NoHoles(g, j)
    {
      assert NoHoles(f, j);
      if j != i {
        assert forall k: nat :: k < SLOTS ==> Ref(g, j, k) == Ref(f, j, k);
      }
    }
  }

  lemma NoHolesThere(f: Fs, i: nat, off: nat, n: nat)
    requires NoHoles(f, i) && off + n <= f.inodes[i].size
    ensures AllThere(f, i, off, n)
  {
  }

  method DoRead(fs: FileSys, c: Call) returns (reply: Reply, ok: bool)
    requires Owned(fs.F()) && SizesFit(fs.F()) && ValidCall(c, |fs.inodes|) && |fs.inodes| == |fs.dinodes| && c.Read?
    modifies fs
    ensures ok ==> Served(old(fs.F()), old(fs.dinodes), fs.F(), fs.dinodes, c, reply)
    ensures !ok ==> CanFail(old(fs.F()), fs.used, c)
  {
    hide Enough, NoHoles, Extended;
    ghost var f := fs.F();
    fs.trans := c.op;
    assert fs.F() == f;
    var r, out;
    r, out, ok := fs.Readi(c.i, c.off, c.n);
    reply := Reply(r, out);
    if c.off <= f.inodes[c.i].size && c.off + c.n < UINT {
      if NoHoles(f, c.i) {
        NoHolesThere(f, c.i, c.off, Min(c.n, f.inodes[c.i].size - c.off));
      }
      if ok {
        SameContents(f, fs.F());
      }
    }
  }

  method DoWrite(fs: FileSys, c: Call) returns (reply: Reply, ok: bool)
    requires Owned(fs.F()) && SizesFit(fs.F()) && ValidCall(c, |fs.inodes|) && |fs.inodes| == |fs.dinodes| && c.Write?
    modifies fs
    ensures ok ==> Served(old(fs.F()), old(fs.dinodes), fs.F(), fs.dinodes, c, reply)
    ensures !ok ==> Full(fs.used)
  {
    ghost var f := fs.F();
    fs.trans := true;
    assert fs.F() == f;
    var r;
    r, ok := fs.Writei(c.i, c.off, c.src);
    reply := Reply(r, []);
    if ok && Writable(f, c.i, c.off, |c.src|) {
      WrittenContents(f, fs.F(), c.i, c.off, c.src);
      ChunkKeeps(f, fs.F(), c.i, c.off, c.src, old(fs.dinodes), fs.dinodes);
      if Solid(f) {
        WrittenSolid(f, fs.F(), c.i, c.off, c.src);
      }
    }
  }

  /** One call on the real layout. */
  method DoCall(fs: FileSys, c: Call) returns (reply: Reply, ok: bool)
    requires Owned(fs.F()) && SizesFit(fs.F()) && ValidCall(c, |fs.inodes|) && |fs.inodes| == |fs.dinodes|
    modifies fs
    ensures ok ==> Served(old(fs.F()), old(fs.dinodes), fs.F(), fs.dinodes, c, reply)
    ensures !ok ==> CanFail(old(fs.F()), fs.used, c)
  {
    ghost var f := fs.F();
    match c
    case Read(_, _, _, _) =>
      reply, ok := DoRead(fs, c);
    case Write(_, _, _) =>
      reply, ok := DoWrite(fs, c);
    case Truncate(i) =>
      fs.trans := true;
      assert fs.F() == f;
      ok := fs.Itrunc(i);
      reply := Reply(0, []);
      TruncatedContents(f, fs.F(), i);
      if Solid(f) {
        TruncatedSolid(f, fs.F(), i);
      }
    case Map(i, bn) =>
      fs.trans := true;
      assert fs.F() == f;
      var addr;
      addr, ok := fs.Bmap(i, bn);
      reply := Reply(0, []);
      if ok {
        SameContents(f, fs.F());
        if Solid(f) {
          MappedSolid(f, fs.F(), i, bn);
        }
      }
  }

  /** Every run of calls keeps every referenced block owned by one slot, and answers as
      plain byte sequences do.  Without holes to begin with it fails only when the disk
      is full, and what it did is on disk. */
  method RunCalls(fs: FileSys, calls: seq<Call>) returns (replies: seq<Reply>, ok: bool)
    requires Owned(fs.F()) && SizesFit(fs.F()) && |fs.inodes| == |fs.dinodes|
    requires forall k :: 0 <= k < |calls| ==> ValidCall(calls[k], |fs.inodes|)
    modifies fs
    ensures ok ==> Owned(fs.F()) && SizesFit(fs.F())
    ensures ok ==> Files(fs.F()) == AfterCalls(old(Files(fs.F())), calls, |calls|)
    ensures ok ==> replies == Answers(old(Files(fs.F())), calls, |calls|)
    ensures ok && old(Solid(fs.F())) ==> Solid(fs.F())
    ensures ok && old(Solid(fs.F())) && old(fs.dinodes == fs.inodes) && (forall k :: 0 <= k < |calls| ==> !calls[k].Map?) ==>
              fs.dinodes == fs.inodes
    ensures !ok ==> || Full(fs.used) || (exists k :: 0 <= k < |calls| && calls[k].Map? && calls[k].bn >= MAXFILE)
                    || (!old(Solid(fs.F())) && exists k :: 0 <= k < |calls| && calls[k].Read? && !calls[k].op)
  {
    ghost var f, files := fs.F(), Files(fs.F());
    replies, ok := [], true;
    for n := 0 to |calls|
      invariant ok && Owned(fs.F()) && SizesFit(fs.F()) && |fs.inodes| == |fs.dinodes|
      invariant Files(fs.F()) == AfterCalls(files, calls, n)
      invariant replies == Answers(files, calls, n)
      invariant Solid(f) ==> Solid(fs.F())
      invariant Solid(f) && old(fs.dinodes) == f.inodes && (forall k :: 0 <= k < n ==> !calls[k].Map?) ==>
                  fs.dinodes == fs.inodes
    {
      var reply;
      reply, ok := DoCall(fs, calls[n]);
      if !ok {
        return;
      }
      replies := replies + [reply];
    }
  }

  /** The same on the disk that mkfs makes of names and data.  The root directory is the
      only file there that can have a hole: it has one when its entries fill their
      blocks, and otherwise the calls panic only when the disk is full. */
  method RunOnImage(names: seq<Name>, data: seq<seq<Byte>>, calls: seq<Call>)
    returns (f: Fs, fs: FileSys, replies: seq<Reply>, made: bool, ok: bool)
    requires |names| == |data| && forall k :: 0 <= k < |calls| ==> ValidCall(calls[k], NINODES) && !calls[k].Map?
    ensures (made <==> Fits(data, |data|)) && (made ==> Made(f, names, data))
    ensures made && ok ==> Owned(fs.F()) && SizesFit(fs.F())
    ensures made && ok ==> Files(fs.F()) == AfterCalls(Files(f), calls, |calls|) && replies == Answers(Files(f), calls, |calls|)
    ensures made && (|names| + 2) % (BSIZE / DIRENT) != 0 ==> if ok then fs.dinodes == fs.inodes else Full(fs.used)
  {
    f, made := MakeImage(names, data);
    fs := new FileSys(f, INODESTART, BMAPSTART);
    replies, ok := [], false;
    if made {
      if (|names| + 2) % (BSIZE / DIRENT) != 0 {
        MadeIsSolid(f, names, data);
      }
      replies, ok := RunCalls(fs, calls);
    }
  }

  lemma MadeIsSolid(f: Fs, names: seq<Name>, data: seq<seq<Byte>>)
    requires Made(f, names, data) && (|names| + 2) % (BSIZE / DIRENT) != 0
    ensures Solid(f)
  {
    forall j: nat | j < |f.inodes|
      ensures NoHoles(f, j)
    {
      assert j != ROOTINO ==> Dense(f, j);
    }
  }

  /** Reading all of the root directory of that disk, as ls does without opening an
      operation, panics exactly when its entries fill their blocks. */
  method ListRoot(names: seq<Name>, data: seq<seq<Byte>>) returns (out: seq<Byte>, made: bool, ok: bool)
    requires |names| == |data|
    ensures made <==> Fits(data, |data|)
    ensures made ==> (ok <==> (|names| + 2) % (BSIZE / DIRENT) != 0) && (ok ==> RootEntries(names, |names|) <= out)
  {
    var f;
    f, made := MakeImage(names, data);
    out, ok := [], false;
    if made {
      var fs := new FileSys(f, INODESTART, BMAPSTART);
      var root := new File(fs, ROOTINO, true, false);
      var r;
      r, out, ok := root.Fileread(f.inodes[ROOTINO].size);
    }
  }

  lemma {:induction false} EmptyFiles(data: seq<seq<Byte>>, k: nat)
    requires k <= |data| && forall m :: 0 <= m < k ==> data[m] == []
    ensures FileBlocks(data, k) == 0
  {
    if k > 0 {
      EmptyFiles(data, k - 1);
    }
  }

  /** With empty files mkfs always succeeds, so that the list panics for 30 of them, 62, 94
      and so on. */
  method ListEmptyFiles(names: seq<Name>) returns (made: bool, ok: bool)
    requires ROOTINO + |names| < NINODES
    ensures made && (ok <==> (|names| + 2) % (BSIZE / DIRENT) != 0)
    ensures |names| == 30 ==> !ok
  {
    var out, data := [], seq(|names|, _ => []);
    EmptyFiles(data, |data|);
    out, made, ok := ListRoot(names, data);
  }

  // ----- Looking up a name ----------------------------------------------------

  /** The next entry of directory i: the first of a block asks for the block, the others
      find it there. */
  lemma ThroughNext(f: Fs, g: Fs, h: Fs, i: nat, off: nat, next: nat)
    requires Through(f, g, i, 0, off) && Through(g, h, i, off, DIRENT) && off % DIRENT == 0
    requires next == off + DIRENT <= MAXFILE * BSIZE
    ensures Through(f, h, i, 0, next)
  {
    Split(f, i, off, next);
    if off % BSIZE == 0 {
      NewBlock(f, g, h, i, off, next);
    } else {
      SameEntryBlock(f, g, h, i, off, next);
    }
  }

  lemma SameEntryBlock(f: Fs, g: Fs, h: Fs, i: nat, off: nat, next: nat)
    requires AllThere(g, i, 0, off) && Through(g, h, i, off, DIRENT) && off % DIRENT == 0 && off % BSIZE != 0
    requires next == off + DIRENT <= MAXFILE * BSIZE
    ensures h == g && AllThere(h, i, 0, next) && End(0, next) == End(0, off)
  {
    EntryEnd(off, next);
    BlockThere(g, i, off);
    Split(g, i, off, next);
  }

  lemma NewBlock(f: Fs, g: Fs, h: Fs, i: nat, off: nat, next: nat)
    requires Extended(f, g, i, 0, End(0, off)) && InodesKept(f, g, i, 0, End(0, off))
    requires Extended(g, h, i, off / BSIZE, End(off, DIRENT)) && InodesKept(g, h, i, off / BSIZE, End(off, DIRENT))
    requires off % BSIZE == 0 && next == off + DIRENT <= MAXFILE * BSIZE
    ensures Extended(f, h, i, 0, End(0, next)) && InodesKept(f, h, i, 0, End(0, next)) && AllThere(h, i, 0, next)
  {
    var bn := off / BSIZE;
    EntryEnd(off, next);
    ExtendedMore(f, g, h, i, 0, bn);
    InodesKeptMore(f, g, h, i, 0, bn);
    RangeThere(f, h, i, 0, bn + 1);
  }

  lemma EntryEnd(off: nat, next: nat)
    requires off % DIRENT == 0 && next == off + DIRENT
    ensures End(off, DIRENT) == off / BSIZE + 1 == End(0, next)
    ensures End(0, off) == off / BSIZE + if off % BSIZE == 0 then 0 else 1
  {
    var q, e := off / BSIZE, off % BSIZE / DIRENT;
    assert off == q * BSIZE + e * DIRENT;
    EntryAt(q, e, off, next);
  }

  /** Entry e of block q of a directory. */
  lemma EntryAt(q: nat, e: nat, off: nat, next: nat)
    requires e < BSIZE / DIRENT && off == q * BSIZE + e * DIRENT && next == off + DIRENT
    ensures off / BSIZE == q && (off % BSIZE == 0 <==> e == 0)
    ensures End(off, DIRENT) == q + 1 == End(0, next) && End(0, off) == q + if e == 0 then 0 else 1
  {
  }

  lemma Split(f: Fs, i: nat, off: nat, next: nat)
    requires Shape(f) && i < |f.inodes| && next == off + DIRENT <= MAXFILE * BSIZE
    ensures AllThere(f, i, 0, next) <==> AllThere(f, i, 0, off) && AllThere(f, i, off, DIRENT)
  {
  }

  lemma BlockThere(g: Fs, i: nat, off: nat)
    requires AllThere(g, i, 0, off) && off % BSIZE != 0 && off % DIRENT == 0 && off + DIRENT <= MAXFILE * BSIZE
    ensures AllThere(g, i, off, DIRENT)
  {
    assert off / BSIZE * BSIZE < off;
  }

  /** What is enough for the entries before off and for the next one is enough for both. */
  lemma EnoughNext(trans: bool, f: Fs, g: Fs, i: nat, off: nat, next: nat)
    requires Extended(f, g, i, 0, End(0, off)) && AllThere(g, i, 0, off) && Enough(trans, f, i, 0, off)
    requires off % DIRENT == 0 && next == off + DIRENT <= MAXFILE * BSIZE
    ensures Enough(trans, f, i, 0, next) <==> Enough(trans, g, i, off, DIRENT)
  {
    EntryEnd(off, next);
    if off % BSIZE == 0 {
      NeedsMore(f, g, i, 0, off / BSIZE);
    } else {
      BlockThere(g, i, off);
      NeedsNothing(g, i, off, DIRENT);
    }
  }

  lemma EntryFits(off: nat, size: nat)
    requires off < size && off % DIRENT == 0 && size % DIRENT == 0
    ensures off + DIRENT <= size && (off + DIRENT) % DIRENT == 0
  {
  }

  lemma EntriesInBlocks(size: nat)
    requires size % BSIZE == 0
    ensures size % DIRENT == 0 && End(0, size) == size / BSIZE
  {
    assert size == 16 * (32 * (size / 512));
  }

  /** The loop of dirlookup over directory i, for a name that is not there: it reads the
      entries one by one. */
  method ScanEntries(fs: FileSys, i: nat) returns (ok: bool)
    requires Owned(fs.F()) && SizesFit(fs.F()) && i < |fs.inodes| && fs.inodes[i].size % DIRENT == 0
    modifies fs`blocks, fs`used, fs`inodes, fs`logged
    ensures ok <==> Enough(fs.trans, old(fs.F()), i, 0, old(fs.inodes)[i].size)
    ensures ok ==> Through(old(fs.F()), fs.F(), i, 0, old(fs.inodes)[i].size)
    ensures ok ==> (fs.inodes == old(fs.inodes) <==> SlotsThere(old(fs.F()), i, 0, old(fs.inodes)[i].size))
  {
    hide Enough, Extended, AllThere;
    ghost var f, size := fs.F(), fs.inodes[i].size;
    ok := true;
    ThroughNone(fs.trans, f, i, 0);
    var off: nat := 0;
    while off < fs.inodes[i].size
      invariant Through(f, fs.F(), i, 0, off) && Enough(fs.trans, f, i, 0, off)
      invariant ok && off % DIRENT == 0 && off <= size
    {
      EntryFits(off, size);
      off, ok := ScanEntry(fs, f, i, off);
      if !ok {
        EnoughLess(fs.trans, f, i, 0, off, size);
        return;
      }
    }
    SlotsAreThere(f, fs.F(), i, 0, size);
  }

  method ScanEntry(fs: FileSys, ghost f: Fs, i: nat, off: nat) returns (next: nat, ok: bool)
    requires Through(f, fs.F(), i, 0, off) && Enough(fs.trans, f, i, 0, off) && off % DIRENT == 0
    requires off + DIRENT <= f.inodes[i].size <= MAXFILE * BSIZE
    modifies fs`blocks, fs`used, fs`inodes, fs`logged
    ensures next == off + DIRENT && (ok <==> Enough(fs.trans, f, i, 0, next))
    ensures ok ==> Through(f, fs.F(), i, 0, next)
  {
    ghost var g := fs.F();
    next := off + DIRENT;
    EnoughNext(fs.trans, f, g, i, off, next);
    var r, out;
    r, out, ok := fs.Readi(i, off, DIRENT);
    if ok {
      ThroughNext(f, g, fs.F(), i, off, next);
    }
  }

  /** Looking up a name that is not there in the root directory of the disk that mkfs makes,
      inside an operation: it panics exactly when the root has a hole and the disk is full.
      A hole is filled in memory, and nothing writes the inode to disk. */
  method LookUpInRoot(names: seq<Name>, data: seq<seq<Byte>>) returns (fs: FileSys, made: bool, ok: bool)
    requires |names| == |data|
    ensures made <==> Fits(data, |data|)
    ensures made ==> (ok <==> (|names| + 2) % (BSIZE / DIRENT) != 0 || Taken(data, |data|) < FSSIZE)
    ensures made && ok ==> (fs.dinodes == fs.inodes <==> (|names| + 2) % (BSIZE / DIRENT) != 0)
  {
    var f;
    f, made := MakeImage(names, data);
    fs := new FileSys(f, INODESTART, BMAPSTART);
    ok := false;
    if made {
      fs.trans := true;
      assert fs.F() == f;
      RootNeeds(f, names, data);
      ok := ScanEntries(fs, ROOTINO);
    }
  }

  lemma RootNeeds(f: Fs, names: seq<Name>, data: seq<seq<Byte>>)
    requires Made(f, names, data)
    ensures var size, hole := f.inodes[ROOTINO].size, (|names| + 2) % (BSIZE / DIRENT) == 0;
            && size % DIRENT == 0 && (SlotsThere(f, ROOTINO, 0, size) <==> !hole)
            && (Enough(true, f, ROOTINO, 0, size) <==> !hole || Taken(data, |data|) < FSSIZE)
  {
    var size := f.inodes[ROOTINO].size;
    var hi := size / BSIZE;
    EntriesInBlocks(size);
    FreeInBitmap(Taken(data, |data|));
    DirectSlots(f, ROOTINO, hi);
  }

  lemma DirectSlots(f: Fs, i: nat, hi: nat)
    requires Shape(f) && i < |f.inodes| && hi <= NDIRECT
    ensures SlotsIn(f, i, 0, hi) <==> Missing(f, i, 0, hi) == 0
    ensures Needs(f, i, 0, hi) == Missing(f, i, 0, hi)
  {
    MissingNone(f, i, 0, hi);
    forall bn: nat | bn < hi
      ensures SlotThere(f, i, bn) <==> Ref(f, i, SlotOf(bn)) != 0
    {
    }
  }

  /** So with 30 empty files, for example, the inode of the root is out of date on disk. */
  method LookUpAmongEmptyFiles(names: seq<Name>) returns (fs: FileSys, ok: bool)
    requires ROOTINO + |names| < NINODES
    ensures ok && (fs.dinodes == fs.inodes <==> (|names| + 2) % (BSIZE / DIRENT) != 0)
    ensures |names| == 30 ==> fs.dinodes != fs.inodes
  {
    var made, data := true, seq(|names|, _ => []);
    EmptyFiles(data, |data|);
    fs, made, ok := LookUpInRoot(names, data);
  }

  // ----- A chunk that exceeds its reservation ---------------------------------

  /** File i ends at off, has just the blocks of its bytes, all the direct ones among them,
      and can take a chunk more. */
  ghost predicate EndsPastDirect(f: Fs, i: nat, off: nat) {
    && Shape(f) && i < |f.inodes| && Dense(f, i) && off == f.inodes[i].size
    && NDIRECT * BSIZE <= off && off + CHUNK <= MAXFILE * BSIZE
  }

  lemma ChunkAfterIndirect(f: Fs, i: nat, off: nat)
    requires EndsPastDirect(f, i, off)
    ensures Writable(f, i, off, CHUNK) && LogCount(f, i, off, CHUNK) == if off % BSIZE == 0 then 16 else 17
  {
    LogCountOfDense(f, i, off, CHUNK);
    assert BlocksIn(off) < End(off, CHUNK);
  }

  lemma OneFile(name: Name, bytes: seq<Byte>)
    requires |bytes| <= MAXFILE * BSIZE
    ensures Taken([bytes], 1) == NMETA + 1 + BlocksFor(|bytes|) && Fits([bytes], 1)
  {
    assert FileBlocks([bytes], 0) == 0;
  }

  lemma OneFileRoom(f: Fs, name: Name, bytes: seq<Byte>, ip: nat)
    requires Made(f, [name], [bytes]) && ip == ROOTINO + 1 && |bytes| + CHUNK <= MAXFILE * BSIZE
    ensures f.inodes[ip].size == |bytes| && Dense(f, ip) && Enough(true, f, ip, |bytes|, CHUNK)
    ensures LaidOut(f, INODESTART, BMAPSTART) && BitmapBlocks(|f.blocks|) == 1
  {
    OneFile(name, bytes);
    assert Content(f, ROOTINO + 1 + 0) == [bytes][0];
    AppendTakes(f, Taken([bytes], 1), ip, CHUNK);
  }

  /** So it does on the disk that mkfs makes of any such file. */
  method AppendChunk(name: Name, bytes: seq<Byte>, chunk: seq<Byte>) returns (fs: FileSys, ok: bool)
    requires NDIRECT * BSIZE <= |bytes| && |bytes| + CHUNK <= MAXFILE * BSIZE && |chunk| == CHUNK
    ensures ok && |fs.logged| == (if |bytes| % BSIZE == 0 then 16 else 17)
  {
    OneFile(name, bytes);
    var f;
    f, ok := MakeImage([name], [bytes]);
    fs := new FileSys(f, INODESTART, BMAPSTART);
    OneFileRoom(f, name, bytes, ROOTINO + 1);
    var file := new File(fs, ROOTINO + 1, true, true);
    file.off := |bytes|;
    ok := file.ChunkAtEnd(f, chunk);
  }
}
