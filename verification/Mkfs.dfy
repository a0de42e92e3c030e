/** mkfs: the image that the file system starts from.  Blocks are handed out in
order, so the bitmap that mkfs writes at the end marks a prefix of the disk.  A
result `ok == false` is a failed assertion of mkfs, or an image that is too small
for its files, which mkfs does not check. */
module Mkfs {

  import opened FileLayout
  import opened Extents
  import opened FileSystem

  const FSSIZE: nat := 1000
  const NINODES: nat := 200
  const INODESTART: nat := 2 + LOGSIZE
  const BMAPSTART: nat := INODESTART + NINODES / IPB + 1
  const NMETA: nat := BMAPSTART + FSSIZE / BPB + 1
  const ROOTINO: nat := 1
  const DIRENT: nat := 16

  const EMPTY: Inode := Inode(0, seq(NDIRECT + 1, _ => 0))

  /** The bitmap that balloc of mkfs writes when n blocks are in use. */
  function Bitmap(n: nat): (r: seq<bool>)
    ensures |r| == FSSIZE && forall b :: 0 <= b < FSSIZE ==> (r[b] <==> b < n)
  {
    seq(FSSIZE, b => b < n)
  }

  lemma {:induction false} FreeInBitmap(n: nat)
    requires n <= FSSIZE
    ensures Free(Bitmap(n)) == FSSIZE - n
    decreases FSSIZE - n
  {
    if n < FSSIZE {
      FreeInBitmap(n + 1);
      assert Bitmap(n)[n := true] == Bitmap(n + 1);
      FreeTaken(Bitmap(n), n);
    } else {
      NoneFree(Bitmap(n));
    }
  }

  // ----- How many blocks files take -------------------------------------------

  /** The blocks that n bytes fill. */
  function BlocksIn(n: nat): nat {
    (n + BSIZE - 1) / BSIZE
  }

  /** The same with the indirect block. */
  function BlocksFor(n: nat): nat {
    BlocksIn(n) + if BlocksIn(n) > NDIRECT then 1 else 0
  }

  /** The blocks of the image with the first k files: the metadata, the root directory
      with its entries, and the files. */
  function Taken(data: seq<seq<Byte>>, k: nat): nat
    requires k <= |data|
  {
    NMETA + BlocksFor(DIRENT * (k + 2)) + FileBlocks(data, k)
  }

  function FileBlocks(data: seq<seq<Byte>>, k: nat): nat
    requires k <= |data|
  {
    if k == 0 then 0 else FileBlocks(data, k - 1) + BlocksFor(|data[k - 1]|)
  }

  /** mkfs has room for the first k files. */
  predicate Fits(data: seq<seq<Byte>>, k: nat)
    requires k <= |data|
  {
    && ROOTINO + k < NINODES && Taken(data, k) <= FSSIZE
    && forall m :: 0 <= m < k ==> |data[m]| <= MAXFILE * BSIZE
  }

  lemma FitsLess(data: seq<seq<Byte>>, k: nat)
    requires k < |data|
    ensures Fits(data, k + 1) ==> Fits(data, k)
    ensures Taken(data, k + 1) == Taken(data, k) + (BlocksFor(DIRENT * (k + 3)) - BlocksFor(DIRENT * (k + 2))) + BlocksFor(|data[k]|)
    ensures BlocksFor(DIRENT * (k + 2)) <= BlocksFor(DIRENT * (k + 3))
  {
    BlocksGrow(DIRENT * (k + 2), DIRENT * (k + 3));
  }

  lemma BlocksGrow(m: nat, n: nat)
    requires m <= n
    ensures BlocksIn(m) <= BlocksIn(n) && BlocksFor(m) <= BlocksFor(n)
  {
  }

  lemma {:induction false} DenseMissing(f: Fs, i: nat, lo: nat, hi: nat)
    requires Dense(f, i) && lo <= hi <= MAXFILE
    ensures var have := BlocksIn(f.inodes[i].size); Missing(f, i, lo, hi) == if have >= hi then 0 else hi - Max(lo, have)
    decreases hi
  {
    if lo < hi {
      DenseMissing(f, i, lo, hi - 1);
      DenseAt(f, i, hi - 1);
    }
  }

  lemma DenseAt(f: Fs, i: nat, bn: nat)
    requires Dense(f, i) && bn < MAXFILE
    ensures Ref(f, i, SlotOf(bn)) != 0 <==> bn < BlocksIn(f.inodes[i].size)
  {
    assert bn < BlocksIn(f.inodes[i].size) <==> bn * BSIZE < f.inodes[i].size;
  }

  /** What appending n bytes takes. */
  lemma DenseNeeds(f: Fs, i: nat, n: nat)
    requires Dense(f, i) && f.inodes[i].size + n <= MAXFILE * BSIZE
    ensures var off := f.inodes[i].size;
            && off / BSIZE <= End(off, n) <= MAXFILE
            && Needs(f, i, off / BSIZE, End(off, n)) == BlocksFor(off + n) - BlocksFor(off)
  {
    var off := f.inodes[i].size;
    NeedsNothing(f, i, off, n);
    DenseMissing(f, i, off / BSIZE, End(off, n));
    BlocksGrow(off, off + n);
    AppendEnd(off, n);
    if BlocksIn(off) > NDIRECT {
      DenseAt(f, i, NDIRECT);
    }
  }

  lemma AppendTakes(f: Fs, freeblock: nat, i: nat, n: nat)
    requires Dense(f, i) && f.inodes[i].size + n <= MAXFILE * BSIZE && freeblock <= FSSIZE && f.used == Bitmap(freeblock)
    ensures var off := f.inodes[i].size;
            && off / BSIZE <= End(off, n) <= MAXFILE
            && Needs(f, i, off / BSIZE, End(off, n)) == BlocksFor(off + n) - BlocksFor(off)
            && (Enough(true, f, i, off, n) <==> freeblock + BlocksFor(off + n) - BlocksFor(off) <= FSSIZE)
            && Free(f.used) == FSSIZE - freeblock
  {
    DenseNeeds(f, i, n);
    FreeInBitmap(freeblock);
  }

  lemma AppendEnd(off: nat, n: nat)
    ensures n > 0 ==> End(off, n) == BlocksIn(off + n) && off / BSIZE <= BlocksIn(off) <= End(off, n)
    ensures n == 0 ==> End(off, n) == off / BSIZE <= BlocksIn(off)
  {
  }

  class Image {
    var blocks: seq<Block>
    var inodes: seq<Inode>
    var freeinode: nat
    var freeblock: nat

    ghost function F(): Fs
      reads this
    {
      Fs(NMETA, blocks, Bitmap(freeblock), inodes)
    }

    /** What is not in use yet is still zero. */
    ghost predicate Tidy()
      reads this
    {
      && Owned(F()) && SizesFit(F()) && |inodes| == NINODES && NMETA <= freeblock <= FSSIZE && 0 < freeinode
      && (forall b :: freeblock <= b < |blocks| ==> blocks[b] == ZeroBlock())
      && (forall i :: freeinode <= i < NINODES ==> inodes[i] == EMPTY)
    }

    ghost predicate Valid()
      reads this
    {
      Tidy() && forall i: nat :: i < NINODES ==> Dense(F(), i)
    }

    constructor ()
      ensures Valid() && freeinode == ROOTINO && freeblock == NMETA
      ensures forall i: nat :: i < NINODES ==> Content(F(), i) == []
    {
      blocks := seq(FSSIZE, _ => ZeroBlock());
      inodes := seq(NINODES, _ => EMPTY);
      freeinode, freeblock := ROOTINO, NMETA;
      new;
      assert forall i: nat, k: nat :: Slot(F(), i, k) ==> Ref(F(), i, k) == 0;
      assert forall i: nat, k: nat, j: nat, l: nat :: Apart(F(), i, k, j, l);
    }

    /** ialloc: an inode without bytes. */
    method Ialloc() returns (inum: nat, ok: bool)
      requires Valid()
      modifies `freeinode, `inodes
      ensures ok <==> old(freeinode) < NINODES
      ensures F() == old(F())
      ensures ok ==> Valid() && inum == old(freeinode) && freeinode == inum + 1 && Content(F(), inum) == []
    {
      inum, ok := freeinode, freeinode < NINODES;
      if ok {
        freeinode := freeinode + 1;
        assert inodes[inum := EMPTY] == inodes;
        inodes := inodes[inum := EMPTY];
      }
    }

    /** freeblock++ */
    method Take() returns (b: nat, ok: bool)
      requires Tidy()
      modifies `freeblock
      ensures ok <==> Room(true, old(F()).used) > 0
      ensures ok ==> b == old(freeblock) < FSSIZE && freeblock == b + 1 && F() == Claimed(old(F()), b)
    {
      FreeInBitmap(freeblock);
      b, ok := freeblock, freeblock < FSSIZE;
      if ok {
        freeblock := freeblock + 1;
        assert Bitmap(freeblock) == Bitmap(b)[b := true];
        assert blocks == blocks[b := ZeroBlock()];
      }
    }

    /** The block behind block fbn of file i, as iappend finds it or takes it. */
    method MapNext(i: nat, fbn: nat) returns (x: nat, ok: bool)
      requires Tidy() && i < freeinode && i < NINODES && fbn < MAXFILE
      modifies `blocks, `inodes, `freeblock
      ensures ok <==> Needs(old(F()), i, fbn, fbn + 1) <= Room(true, old(F()).used)
      ensures ok ==> Tidy() && Mapped(old(F()), F(), i, fbn) && x == Ref(F(), i, SlotOf(fbn))
    {
      ghost var f := F();
      NeedsOne(f, i, fbn);
      if fbn < NDIRECT {
        x, ok := inodes[i].addrs[fbn], true;
        if x == 0 {
          x, ok := AttachNext(i, fbn);
          if ok {
            FilledOnce(f, F(), i, fbn);
          }
        } else {
          MappedAlready(f, i, fbn);
        }
      } else {
        x, ok := MapNextIndirect(i, fbn - NDIRECT);
      }
    }

    /** Slot k of the inode itself, empty so far, gets the next block. */
    method AttachNext(i: nat, k: nat) returns (b: nat, ok: bool)
      requires Tidy() && i < freeinode && i < NINODES && k <= NDIRECT && Ref(F(), i, k) == 0
      modifies `inodes, `freeblock
      ensures ok <==> Room(true, old(F()).used) > 0
      ensures ok ==> Tidy() && Filled(old(F()), F(), i, k, b)
    {
      ghost var f := F();
      b, ok := Take();
      if ok {
        AttachFills(f, i, k, b);
        inodes := inodes[i := inodes[i].(addrs := inodes[i].addrs[k := b])];
      }
    }

    /** Entry j of the indirect block, empty so far, gets the next block. */
    method ListNext(i: nat, j: nat) returns (b: nat, ok: bool)
      requires Tidy() && i < freeinode && i < NINODES && j < NINDIRECT
      requires Ref(F(), i, NDIRECT) != 0 && Ref(F(), i, NDIRECT + 1 + j) == 0
      modifies `blocks, `freeblock
      ensures ok <==> Room(true, old(F()).used) > 0
      ensures ok ==> Tidy() && Filled(old(F()), F(), i, NDIRECT + 1 + j, b)
    {
      ghost var f := F();
      b, ok := Take();
      if ok {
        ListFills(f, i, j, b);
        var ind := inodes[i].addrs[NDIRECT];
        blocks := blocks[ind := WithUint(blocks[ind], j, b)];
      }
    }

    method MapNextListed(i: nat, bn: nat) returns (x: nat, ok: bool)
      requires Tidy() && i < freeinode && i < NINODES && bn < NINDIRECT && Ref(F(), i, NDIRECT) != 0
      modifies `blocks, `freeblock
      ensures ok <==> Ref(old(F()), i, NDIRECT + 1 + bn) != 0 || Room(true, old(F()).used) > 0
      ensures ok ==> Tidy() && FindsOrFills(old(F()), F(), i, NDIRECT + 1 + bn, x)
    {
      ok := true;
      x := inodes[i].addrs[NDIRECT];
      assert Slot(F(), i, NDIRECT) && Good(F(), x);
      x := Uint(blocks[x], bn);
      if x == 0 {
        x, ok := ListNext(i, bn);
      }
    }

    method MapNextIndirect(i: nat, bn: nat) returns (x: nat, ok: bool)
      requires Tidy() && i < freeinode && i < NINODES && bn < NINDIRECT
      modifies `blocks, `inodes, `freeblock
      ensures ok <==> Needs(old(F()), i, NDIRECT + bn, NDIRECT + bn + 1) <= Room(true, old(F()).used)
      ensures ok ==> Tidy() && Mapped(old(F()), F(), i, NDIRECT + bn) && x == Ref(F(), i, NDIRECT + 1 + bn)
    {
      ok := true;
      x := inodes[i].addrs[NDIRECT];
      ghost var f, ind := F(), x;
      NeedsOne(f, i, NDIRECT + bn);
      if x == 0 {
        x, ok := AttachNext(i, NDIRECT);
        if !ok {
          return;
        }
        ind := x;
      }
      ghost var g := F();
      assert Slot(f, i, NDIRECT) && Slot(f, i, NDIRECT + 1 + bn);
      x, ok := MapNextListed(i, bn);
      if ok {
        IndirectMapped(f, g, F(), i, bn, ind, x);
      }
    }

    /** The part of iappend's loop that stores into block fbn: bytes tot..hi of xp. */
    method AppendBlock(i: nat, off0: nat, xp: seq<Byte>, tot: nat, hi: nat, fbn: nat) returns (ok: bool)
      requires Tidy() && i < freeinode && i < NINODES && off0 + |xp| <= MAXFILE * BSIZE
      requires hi <= |xp| && Turn(off0, tot, hi, fbn)
      modifies `blocks, `inodes, `freeblock
      ensures ok <==> Needs(old(F()), i, fbn, fbn + 1) <= Room(true, old(F()).used)
      ensures ok ==> Tidy() && AppendedOne(old(F()), F(), i, off0, xp, tot, hi, fbn)
    {
      ghost var f := F();
      var x;
      x, ok := MapNext(i, fbn);
      if ok {
        ghost var g := F();
        assert Slot(g, i, SlotOf(fbn)) && Good(g, x);
        var o := (off0 + tot) - fbn * BSIZE;
        assert o == (off0 + tot) % BSIZE;
        var data: Block := blocks[x][..o] + xp[tot..hi] + blocks[x][o + (hi - tot)..];
        AppendedAt(f, g, i, off0, xp, tot, hi, fbn, x, data);
        blocks := blocks[x := data];
        assert F() == StoredAt(g, x, data);
      }
    }

    /** The loop of iappend, tot bytes being appended. */
    method AppendTurn(ghost f: Fs, i: nat, off0: nat, xp: seq<Byte>, tot: nat) returns (hi: nat, ok: bool)
      requires Tidy() && i < freeinode && i < NINODES && tot < |xp| && AtBlock(off0, tot, |xp|)
      requires Appending(f, F(), i, off0, xp, tot) && Enough(true, f, i, off0, tot)
      modifies `blocks, `inodes, `freeblock
      ensures tot < hi <= |xp| && AtBlock(off0, hi, |xp|)
      ensures ok <==> Enough(true, f, i, off0, hi)
      ensures ok ==> Tidy() && Appending(f, F(), i, off0, xp, hi)
    {
      ghost var before := F();
      var fbn := (off0 + tot) / BSIZE;
      hi := tot + Min(|xp| - tot, (fbn + 1) * BSIZE - (off0 + tot));
      NextBlock(off0, tot, hi, |xp|, fbn);
      EnoughMore(true, f, before, i, off0, tot, hi, fbn);
      ok := AppendBlock(i, off0, xp, tot, hi, fbn);
      if ok {
        AppendingMore(f, before, F(), i, off0, xp, tot, hi, fbn);
      }
    }

    /** The loop of iappend. */
    method AppendLoop(i: nat, off0: nat, xp: seq<Byte>) returns (ok: bool)
      requires Tidy() && i < freeinode && i < NINODES && off0 + |xp| <= MAXFILE * BSIZE
      modifies `blocks, `inodes, `freeblock
      ensures ok <==> Enough(true, old(F()), i, off0, |xp|)
      ensures ok ==> Tidy() && Appending(old(F()), F(), i, off0, xp, |xp|)
    {
      ghost var f := F();
      ok := true;
      ThroughNone(true, f, i, off0);
      var tot := 0;
      while tot < |xp|
        invariant ok && Tidy() && tot <= |xp| && AtBlock(off0, tot, |xp|)
        invariant Appending(f, F(), i, off0, xp, tot) && Enough(true, f, i, off0, tot)
      {
        tot, ok := AppendTurn(f, i, off0, xp, tot);
        if !ok {
          EnoughLess(true, f, i, off0, tot, |xp|);
          return;
        }
      }
    }

    /** iappend: the bytes go to the end of file i, and nothing else changes.  Its
        assertion that the file stays below MAXFILE blocks is tested before the loop:
        mkfs leaves no image when it fails. */
    method Iappend(i: nat, xp: seq<Byte>) returns (ok: bool)
      requires Valid() && i < freeinode && i < NINODES
      modifies `blocks, `inodes, `freeblock
      ensures var off := old(inodes)[i].size;
              && (ok <==> && off + |xp| <= MAXFILE * BSIZE
                          && old(freeblock) + BlocksFor(off + |xp|) - BlocksFor(off) <= FSSIZE)
              && (ok ==> freeblock == old(freeblock) + BlocksFor(off + |xp|) - BlocksFor(off))
      ensures ok ==> Valid() && IsAppended(old(F()), F(), i, xp)
    {
      ghost var f := F();
      var off := inodes[i].size;
      if off + |xp| > MAXFILE * BSIZE {
        return false;
      }
      AppendTakes(f, freeblock, i, |xp|);
      ok := AppendLoop(i, off, xp);
      if ok {
        FreeInBitmap(freeblock);
        SetSize(f, i, off + |xp|, xp);
      }
    }

    /** The end of iappend. */
    method SetSize(ghost f: Fs, i: nat, size: nat, ghost xp: seq<Byte>)
      requires Tidy() && SizesFit(f) && i < freeinode && i < NINODES == |f.inodes| && size == f.inodes[i].size + |xp|
      requires Appending(f, F(), i, f.inodes[i].size, xp, |xp|) && forall j: nat :: j < NINODES ==> Dense(f, j)
      modifies `inodes
      ensures Valid() && IsAppended(f, F(), i, xp)
    {
      ghost var g := F();
      AppendedDense(f, g, i, xp);
      Appended(f, g, i, xp);
      inodes := inodes[i := inodes[i].(size := size)];
      assert F() == Resized(g, i, size);
    }

    /** Copies one host file, a block's worth at a time. */
    method CopyFile(i: nat, data: seq<Byte>) returns (ok: bool)
      requires Valid() && i < freeinode && i < NINODES && Content(F(), i) == []
      modifies `blocks, `inodes, `freeblock
      ensures ok <==> |data| <= MAXFILE * BSIZE && old(freeblock) + BlocksFor(|data|) <= FSSIZE
      ensures ok ==> freeblock == old(freeblock) + BlocksFor(|data|)
      ensures ok ==> Valid() && IsAppended(old(F()), F(), i, data)
    {
      ghost var f := F();
      var p := 0;
      ok := true;
      while p < |data|
        invariant ok && p <= |data| && Valid() && IsAppended(f, F(), i, data[..p])
        invariant p <= MAXFILE * BSIZE && freeblock == old(freeblock) + BlocksFor(p) <= FSSIZE
      {
        var q := p + Min(BSIZE, |data| - p);
        ghost var g, head := F(), data[..p];
        assert |Content(g, i)| == p;
        BlocksGrow(q, |data|);
        var part := data[p..q];
        ok := Iappend(i, part);
        if !ok {
          return;
        }
        AppendedTwice(f, g, F(), i, head, part);
        HeadMore(data, p, q);
        p := q;
      }
      HeadMore(data, p, p);
    }

    /** Adds an entry to the root directory. */
    method AddEntry(inum: nat, name: Name) returns (ok: bool)
      requires Valid() && ROOTINO < freeinode && inum < NINODES && inodes[ROOTINO].size + DIRENT <= MAXFILE * BSIZE
      modifies `blocks, `inodes, `freeblock
      ensures var off := old(inodes)[ROOTINO].size;
              && (ok <==> old(freeblock) + BlocksFor(off + DIRENT) - BlocksFor(off) <= FSSIZE)
              && (ok ==> freeblock == old(freeblock) + BlocksFor(off + DIRENT) - BlocksFor(off))
      ensures ok ==> Valid() && IsAppended(old(F()), F(), ROOTINO, DirEntry(inum, name))
    {
      ok := Iappend(ROOTINO, DirEntry(inum, name));
    }

    /** The root directory with its first two entries. */
    method StartRoot(ghost names: seq<Name>, ghost data: seq<seq<Byte>>) returns (ok: bool)
      requires Valid() && freeinode == ROOTINO && |names| == |data| && forall i: nat :: i < NINODES ==> Content(F(), i) == []
      requires freeblock == NMETA
      modifies this
      ensures ok && Valid() && freeinode == ROOTINO + 1 && Lists(F(), names, data, 0) && freeblock == Taken(data, 0)
    {
      assert |Content(F(), ROOTINO)| == 0;
      var inum;
      inum, ok := Ialloc();
      ghost var f := F();
      ok := AddEntry(ROOTINO, Dot());
      ghost var g := F();
      assert |Content(g, ROOTINO)| == DIRENT;
      ok := AddEntry(ROOTINO, DotDot());
      AppendedTwice(f, g, F(), ROOTINO, DirEntry(ROOTINO, Dot()), DirEntry(ROOTINO, DotDot()));
    }

    /** The next file: an inode, an entry, and the bytes of the host file. */
    method AddFile(names: seq<Name>, data: seq<seq<Byte>>, k: nat) returns (ok: bool)
      requires Valid() && freeinode == ROOTINO + 1 + k && k < |names| && Lists(F(), names, data, k)
      requires freeblock == Taken(data, k)
      modifies this
      ensures ok <==> ROOTINO + 1 + k < NINODES && |data[k]| <= MAXFILE * BSIZE && Taken(data, k + 1) <= FSSIZE
      ensures ok ==> Valid() && freeinode == ROOTINO + 2 + k && Lists(F(), names, data, k + 1) && freeblock == Taken(data, k + 1)
    {
      ghost var f := F();
      FitsLess(data, k);
      assert |Content(f, ROOTINO)| == DIRENT * (k + 2);
      var inum;
      inum, ok := Ialloc();
      if ok {
        ok := AddEntry(inum, names[k]);
      }
      if ok {
        ghost var g := F();
        ok := CopyFile(inum, data[k]);
        if ok {
          ListsMore(f, g, F(), names, data, k);
        }
      }
    }

    /** mkfs rounds the size of the root directory up to the block behind its last
        entry.  That leaves a hole exactly when the entries fill their last block. */
    method FixRoot(ghost n: nat)
      requires Valid() && inodes[ROOTINO].size == DIRENT * n && n <= NINODES + 2
      modifies `inodes
      ensures Owned(F()) && SizesFit(F()) && SameFiles(old(F()), F())
      ensures inodes[ROOTINO].size % BSIZE == 0 && DIRENT * n < inodes[ROOTINO].size <= DIRENT * n + BSIZE
      ensures forall j: nat :: j < NINODES && j != ROOTINO ==> inodes[j] == old(inodes)[j] && Dense(F(), j)
      ensures NoHoles(F(), ROOTINO) <==> n % (BSIZE / DIRENT) != 0
      ensures Missing(F(), ROOTINO, 0, inodes[ROOTINO].size / BSIZE) == if n % (BSIZE / DIRENT) == 0 then 1 else 0
    {
      ghost var f := F();
      var off := inodes[ROOTINO].size;
      off := (off / BSIZE + 1) * BSIZE;
      ResizedSame(f, ROOTINO, off);
      inodes := inodes[ROOTINO := inodes[ROOTINO].(size := off)];
      assert F() == Resized(f, ROOTINO, off);
      RootHole(f, ROOTINO, n, off);
      RootMissing(f, ROOTINO, n, off);
      forall j: nat | j < NINODES && j != ROOTINO
        ensures Dense(F(), j)
      {
        assert Dense(f, j);
        SameDense(f, F(), j);
      }
    }
  }

  type Name = s: seq<Byte> | |s| == 14 witness seq(14, _ => 0)

  function Dot(): Name {
    [46] + seq(13, _ => 0)
  }

  function DotDot(): Name {
    [46, 46] + seq(12, _ => 0)
  }

  /** struct dirent: a ushort and the name. */
  function DirEntry(inum: nat, name: Name): (r: seq<Byte>)
    requires inum < NINODES
    ensures |r| == DIRENT
  {
    [inum % 256, inum / 256] + name
  }

  /** The entries of the root directory with the first k files. */
  function RootEntries(names: seq<Name>, k: nat): (r: seq<Byte>)
    requires k <= |names| && ROOTINO + k < NINODES
    ensures |r| == DIRENT * (k + 2)
  {
    if k == 0 then DirEntry(ROOTINO, Dot()) + DirEntry(ROOTINO, DotDot())
    else RootEntries(names, k - 1) + DirEntry(ROOTINO + k, names[k - 1])
  }

  /** A ushort as the processor stores it, low byte first, and the name behind it. */
  function Inum(dir: seq<Byte>, j: nat): nat
    requires DIRENT * j + DIRENT <= |dir|
  {
    dir[DIRENT * j] as int + 256 * dir[DIRENT * j + 1] as int
  }

  function NameAt(dir: seq<Byte>, j: nat): seq<Byte>
    requires DIRENT * j + DIRENT <= |dir|
  {
    dir[DIRENT * j + 2..DIRENT * j + DIRENT]
  }

  /** Read as struct dirent, the entries of the root are itself twice, by the names "." and
      "..", and then each file by its name. */
  lemma {:induction false} EntriesDecode(names: seq<Name>, k: nat, j: nat)
    requires k <= |names| && ROOTINO + k < NINODES && j < k + 2
    ensures var dir := RootEntries(names, k);
            if j < 2 then Inum(dir, j) == ROOTINO && NameAt(dir, j) == (if j == 0 then Dot() else DotDot())
            else Inum(dir, j) == ROOTINO + j - 1 && NameAt(dir, j) == names[j - 2]
    decreases k
  {
    if k == 0 {
      if j == 0 {
        EntryDecodes([], ROOTINO, Dot(), DirEntry(ROOTINO, DotDot()), 0);
        assert [] + DirEntry(ROOTINO, Dot()) == DirEntry(ROOTINO, Dot());
      } else {
        EntryDecodes(DirEntry(ROOTINO, Dot()), ROOTINO, DotDot(), [], 1);
        assert RootEntries(names, 0) + [] == RootEntries(names, 0);
      }
    } else if j == k + 1 {
      EntryDecodes(RootEntries(names, k - 1), ROOTINO + k, names[k - 1], [], j);
      assert RootEntries(names, k) + [] == RootEntries(names, k);
    } else {
      EntriesDecode(names, k - 1, j);
      SameEntry(RootEntries(names, k - 1), RootEntries(names, k), j);
    }
  }

  lemma SameEntry(e: seq<Byte>, dir: seq<Byte>, j: nat)
    requires e <= dir && DIRENT * j + DIRENT <= |e|
    ensures DIRENT * j + DIRENT <= |dir| && Inum(dir, j) == Inum(e, j) && NameAt(dir, j) == NameAt(e, j)
  {
  }

  lemma EntryDecodes(before: seq<Byte>, inum: nat, name: Name, behind: seq<Byte>, j: nat)
    requires inum < NINODES && |before| == DIRENT * j
    ensures var dir := before + DirEntry(inum, name) + behind; Inum(dir, j) == inum && NameAt(dir, j) == name
  {
    var e, dir := DirEntry(inum, name), before + DirEntry(inum, name) + behind;
    assert forall i :: 0 <= i < DIRENT ==> dir[DIRENT * j + i] == e[i];
    assert NameAt(dir, j) == e[2..];
  }

  ghost predicate Lists(f: Fs, names: seq<Name>, data: seq<seq<Byte>>, k: nat) {
    && Shape(f) && SizesFit(f) && |f.inodes| == NINODES && k <= |names| == |data| && ROOTINO + k < NINODES
    && Content(f, ROOTINO) == RootEntries(names, k)
    && (forall m :: 0 <= m < k ==> Content(f, ROOTINO + 1 + m) == data[m])
    && (forall m :: ROOTINO + 1 + k <= m < NINODES ==> Content(f, m) == [])
  }

  lemma HeadMore(data: seq<Byte>, p: nat, q: nat)
    requires p <= q <= |data|
    ensures data[..p] + data[p..q] == data[..q] && data[..|data|] == data
  {
  }

  lemma AppendedTwice(f: Fs, g: Fs, h: Fs, i: nat, s: seq<Byte>, t: seq<Byte>)
    requires IsAppended(f, g, i, s) && IsAppended(g, h, i, t)
    ensures IsAppended(f, h, i, s + t)
  {
    assert Content(f, i) + s + t == Content(f, i) + (s + t);
  }

  lemma ListsMore(f: Fs, g: Fs, h: Fs, names: seq<Name>, data: seq<seq<Byte>>, k: nat)
    requires k < |names| && Lists(f, names, data, k) && ROOTINO + k + 1 < NINODES
    requires IsAppended(f, g, ROOTINO, DirEntry(ROOTINO + 1 + k, names[k]))
    requires IsAppended(g, h, ROOTINO + 1 + k, data[k])
    ensures Lists(h, names, data, k + 1)
  {
    assert [] + data[k] == data[k];
  }

  ghost predicate IsAppended(f: Fs, h: Fs, i: nat, xp: seq<Byte>) {
    && Owned(f) && SizesFit(f) && i < |f.inodes|
    && Owned(h) && SizesFit(h) && |h.inodes| == |f.inodes| && Content(h, i) == Content(f, i) + xp
    && (forall j: nat :: j < |f.inodes| && j != i ==> Content(h, j) == Content(f, j))
    && (forall j: nat :: j < |f.inodes| ==> Dense(h, j))
  }

  /** Storing xp behind the last byte of file i and setting its size appends xp. */
  lemma Appended(f: Fs, g: Fs, i: nat, xp: seq<Byte>)
    requires Owned(f) && SizesFit(f) && i < |f.inodes| && f.inodes[i].size + |xp| <= MAXFILE * BSIZE
    requires forall j: nat :: j < |f.inodes| ==> Dense(f, j)
    requires Spliced(f, g, i, f.inodes[i].size, xp, 0, |xp|) && AllThere(g, i, f.inodes[i].size, |xp|)
    requires NoneFrom(g, i, f.inodes[i].size + |xp|)
    ensures IsAppended(f, Resized(g, i, f.inodes[i].size + |xp|), i, xp)
  {
    var off := f.inodes[i].size;
    var h := Resized(g, i, off + |xp|);
    if xp == [] {
      assert g.inodes[i].(size := g.inodes[i].size) == g.inodes[i];
      assert h == g;
    }
    WriteFinished(f, g, h, i, off, xp);
    SpliceIff(Content(f, i), Content(h, i), off, xp);
    assert Splice(Content(f, i), off, xp) == Content(f, i) + xp;
    ResizedSame(g, i, off + |xp|);
    assert NoneFrom(h, i, off + |xp|) by {
      forall bn: nat | bn < MAXFILE && bn * BSIZE >= off + |xp|
        ensures Ref(h, i, SlotOf(bn)) == 0
      {
        assert Slot(g, i, SlotOf(bn));
      }
      assert Slot(g, i, NDIRECT);
    }
    assert Dense(f, i) && Dense(h, i);
    forall j: nat | j < |f.inodes| && j != i
      ensures Dense(h, j)
    {
      assert Dense(f, j);
      assert h.inodes[j].size == |Content(h, j)| == |Content(f, j)| == f.inodes[j].size;
      SameDense(f, h, j);
    }
  }

  lemma SameDense(f: Fs, h: Fs, j: nat)
    requires Dense(f, j) && Owned(h) && |h.inodes| == |f.inodes| && h.inodes[j].size == f.inodes[j].size
    requires forall k: nat :: Slot(f, j, k) ==> Ref(h, j, k) == Ref(f, j, k)
    ensures Dense(h, j)
  {
    forall bn: nat | bn < MAXFILE
      ensures Ref(h, j, SlotOf(bn)) == Ref(f, j, SlotOf(bn))
    {
      assert Slot(f, j, SlotOf(bn));
    }
    assert Slot(f, j, NDIRECT);
  }

  /** No block of file i starts at byte n or later, nor is there an indirect block for
      them. */
  ghost predicate NoneFrom(f: Fs, i: nat, n: nat) {
    && Shape(f) && i < |f.inodes| && (n <= NDIRECT * BSIZE ==> Ref(f, i, NDIRECT) == 0)
    && forall bn: nat :: bn < MAXFILE && bn * BSIZE >= n ==> Ref(f, i, SlotOf(bn)) == 0
  }

  /** The blocks of file i are exactly those that its size calls for. */
  ghost predicate Dense(f: Fs, i: nat) {
    NoHoles(f, i) && NoneFrom(f, i, f.inodes[i].size)
  }

  lemma {:induction false} SameMissing(f: Fs, g: Fs, i: nat, lo: nat, hi: nat)
    requires SameRefs(f, g) && i < |f.inodes| && hi <= MAXFILE
    ensures Missing(g, i, lo, hi) == Missing(f, i, lo, hi)
    decreases hi
  {
    if lo < hi {
      SameMissing(f, g, i, lo, hi - 1);
      assert Slot(f, i, SlotOf(hi - 1));
    }
  }

  lemma RootMissing(f: Fs, i: nat, n: nat, size: nat)
    requires Owned(f) && i < |f.inodes| && Dense(f, i) && f.inodes[i].size == DIRENT * n
    requires size == (f.inodes[i].size / BSIZE + 1) * BSIZE <= MAXFILE * BSIZE
    ensures Missing(Resized(f, i, size), i, 0, size / BSIZE) == if n % (BSIZE / DIRENT) == 0 then 1 else 0
  {
    ResizedSame(f, i, size);
    DenseMissing(f, i, 0, size / BSIZE);
    SameMissing(f, Resized(f, i, size), i, 0, size / BSIZE);
    EntryBlocks(n);
  }

  lemma EntryBlocks(n: nat)
    ensures BlocksIn(DIRENT * n) == DIRENT * n / BSIZE + if n % (BSIZE / DIRENT) == 0 then 0 else 1
  {
  }

  lemma RootHole(f: Fs, i: nat, n: nat, size: nat)
    requires Owned(f) && i < |f.inodes| && Dense(f, i) && f.inodes[i].size == DIRENT * n
    requires size == (f.inodes[i].size / BSIZE + 1) * BSIZE <= MAXFILE * BSIZE
    ensures NoHoles(Resized(f, i, size), i) <==> n % (BSIZE / DIRENT) != 0
  {
    ResizedSame(f, i, size);
    var h, last := Resized(f, i, size), DIRENT * n / BSIZE;
    forall bn: nat | bn < MAXFILE
      ensures Ref(h, i, SlotOf(bn)) == Ref(f, i, SlotOf(bn))
    {
      assert Slot(f, i, SlotOf(bn));
    }
    assert last < MAXFILE && last * BSIZE < size;
    assert n % 32 == 0 <==> last * BSIZE == DIRENT * n;
    assert Ref(h, i, SlotOf(last)) == 0 <==> last * BSIZE >= DIRENT * n;
  }

  /** Bytes lo..hi of xp, all in block bn, have been stored. */
  ghost predicate AppendedOne(f: Fs, g: Fs, i: nat, off: nat, xp: seq<Byte>, lo: nat, hi: nat, bn: nat) {
    && Spliced(f, g, i, off, xp, lo, hi) && Extended(f, g, i, bn, bn + 1)
    && bn < MAXFILE && Ref(g, i, SlotOf(bn)) != 0
  }

  lemma AppendedAt(f: Fs, g: Fs, i: nat, off: nat, xp: seq<Byte>, lo: nat, hi: nat, bn: nat, x: nat, data: Block)
    requires hi <= |xp| && off + |xp| <= MAXFILE * BSIZE && Turn(off, lo, hi, bn)
    requires Mapped(f, g, i, bn) && x == Ref(g, i, SlotOf(bn)) && x < |g.blocks|
    requires var o := (off + lo) % BSIZE; data == g.blocks[x][..o] + xp[lo..hi] + g.blocks[x][o + (hi - lo)..]
    ensures Owned(StoredAt(g, x, data)) && AppendedOne(f, StoredAt(g, x, data), i, off, xp, lo, hi, bn)
  {
    var h := StoredAt(g, x, data);
    StoreIsSafe(g, i, bn, data);
    SplicedBlock(f, g, h, i, off, xp, lo, hi, bn, data);
    ExtendedSame(f, g, h, i, bn, bn + 1);
    assert Slot(g, i, SlotOf(bn));
  }

  /** The first tot bytes of xp have been stored. */
  ghost predicate Appending(f: Fs, g: Fs, i: nat, off: nat, xp: seq<Byte>, tot: nat) {
    && tot <= |xp| && off + |xp| <= MAXFILE * BSIZE
    && Spliced(f, g, i, off, xp, 0, tot) && AllThere(g, i, off, tot) && Extended(f, g, i, off / BSIZE, End(off, tot))
  }

  lemma AppendingMore(f: Fs, g: Fs, h: Fs, i: nat, off: nat, xp: seq<Byte>, lo: nat, hi: nat, bn: nat)
    requires Appending(f, g, i, off, xp, lo) && hi <= |xp| && Turn(off, lo, hi, bn)
    requires AppendedOne(g, h, i, off, xp, lo, hi, bn)
    ensures Appending(f, h, i, off, xp, hi)
  {
    SplicedMore(f, g, h, i, off, xp, lo, hi, bn);
    ExtendedTo(f, g, h, i, off, lo, hi, bn);
  }

  /** What is appended to a dense file ends where its bytes do. */
  lemma AppendedDense(f: Fs, g: Fs, i: nat, xp: seq<Byte>)
    requires Dense(f, i) && Appending(f, g, i, f.inodes[i].size, xp, |xp|)
    ensures NoneFrom(g, i, f.inodes[i].size + |xp|)
  {
    var off := f.inodes[i].size;
    var n := off + |xp|;
    forall bn: nat | bn < MAXFILE && bn * BSIZE >= n
      ensures Ref(g, i, SlotOf(bn)) == 0
    {
      assert Kept(f, g, i, off / BSIZE, End(off, |xp|), bn);
    }
    if n <= NDIRECT * BSIZE {
      assert |xp| > 0 ==> End(off, |xp|) <= NDIRECT;
    }
  }

  /** The loop of balloc of mkfs, bit by bit. */
  method WriteBitmap(n: nat) returns (used: seq<bool>)
    requires n <= FSSIZE
    ensures used == Bitmap(n)
  {
    used := seq(FSSIZE, _ => false);
    for i := 0 to n
      invariant |used| == FSSIZE && forall b :: 0 <= b < FSSIZE ==> (used[b] <==> b < i)
    {
      used := used[i := true];
    }
    assert used == Bitmap(n);
  }

  /** What mkfs makes of the files. */
  ghost predicate Made(f: Fs, names: seq<Name>, data: seq<seq<Byte>>) {
    && |names| == |data| && Fits(data, |data|)
    && Owned(f) && SizesFit(f) && |f.inodes| == NINODES && |f.blocks| == FSSIZE && f.nmeta == NMETA
    && RootEntries(names, |names|) <= Content(f, ROOTINO)
    && DIRENT * (|names| + 2) < f.inodes[ROOTINO].size <= NDIRECT * BSIZE && f.inodes[ROOTINO].size % BSIZE == 0
    && (forall m :: 0 <= m < |names| ==> Content(f, ROOTINO + 1 + m) == data[m])
    && (forall j: nat :: j < NINODES && j != ROOTINO ==> Dense(f, j))
    && (NoHoles(f, ROOTINO) <==> (|names| + 2) % (BSIZE / DIRENT) != 0)
    && Missing(f, ROOTINO, 0, f.inodes[ROOTINO].size / BSIZE) == (if (|names| + 2) % (BSIZE / DIRENT) == 0 then 1 else 0)
    && f.used == Bitmap(Taken(data, |data|))
  }

  /** mkfs: it succeeds exactly when there are inodes and blocks enough and no file is too
      large.  Then every block of the image is owned once, the root directory lists the
      files, each file has the bytes of its host file and the blocks for them, and no file
      has a hole, except the root directory when its entries fill their blocks. */
  method MakeImage(names: seq<Name>, data: seq<seq<Byte>>) returns (f: Fs, ok: bool)
    requires |names| == |data|
    ensures ok <==> Fits(data, |data|)
    ensures ok ==> Made(f, names, data)
  {
    var image := new Image();
    f := Fs(NMETA, image.blocks, [], image.inodes);
    ok := image.StartRoot(names, data);
    for k := 0 to |names|
      invariant ok <==> Fits(data, k)
      invariant ok ==> image.Valid() && image.freeinode == ROOTINO + 1 + k && Lists(image.F(), names, data, k)
      invariant ok ==> image.freeblock == Taken(data, k)
    {
      FitsLess(data, k);
      if ok {
        ok := image.AddFile(names, data, k);
      }
    }
    if ok {
      ghost var g := image.F();
      image.FixRoot(|names| + 2);
      var used := WriteBitmap(image.freeblock);
      f := Fs(NMETA, image.blocks, used, image.inodes);
      FixedRoot(g, f, names, data);
    }
  }

  /** Rounding up the root directory changes no file. */
  lemma FixedRoot(g: Fs, f: Fs, names: seq<Name>, data: seq<seq<Byte>>)
    requires |names| == |data| && Lists(g, names, data, |names|) && Shape(f) && SameFiles(g, f) && SizesFit(f)
    requires DIRENT * (|names| + 2) <= f.inodes[ROOTINO].size
    requires forall j: nat :: j < NINODES && j != ROOTINO ==> f.inodes[j].size == g.inodes[j].size
    ensures RootEntries(names, |names|) <= Content(f, ROOTINO)
    ensures forall m :: 0 <= m < |names| ==> Content(f, ROOTINO + 1 + m) == data[m]
  {
    var e := RootEntries(names, |names|);
    forall p | 0 <= p < |e|
      ensures Content(f, ROOTINO)[p] == e[p]
    {
      assert e[p] == Content(g, ROOTINO)[p] == ByteAt(g, ROOTINO, p);
    }
    forall m | 0 <= m < |names|
      ensures Content(f, ROOTINO + 1 + m) == data[m]
    {
      SameBytes(g, f, ROOTINO + 1 + m, 0, f.inodes[ROOTINO + 1 + m].size);
    }
  }

  /** So on the disk that mkfs makes, entry m + 2 of the root directory leads by the name of
      file m to an inode with the bytes of that file. */
  lemma RootLeadsToFiles(f: Fs, names: seq<Name>, data: seq<seq<Byte>>, m: nat)
    requires Made(f, names, data) && m < |names|
    ensures var dir := Content(f, ROOTINO);
            && DIRENT * (m + 2) + DIRENT <= |dir| && NameAt(dir, m + 2) == names[m]
            && Inum(dir, m + 2) < |f.inodes| && Content(f, Inum(dir, m + 2)) == data[m]
  {
    hide NoHoles, Dense, Missing, Taken, RootEntries;
    var e, dir := RootEntries(names, |names|), Content(f, ROOTINO);
    EntriesDecode(names, |names|, m + 2);
    SameEntry(e, dir, m + 2);
  }
}
