/** Blocks, bitmap and inodes of fs.c as values: which slot of which inode refers
to which block, and what bytes a file therefore has. */
module FileLayout {

  const BSIZE: nat := 512
  const NDIRECT: nat := 12
  const NINDIRECT: nat := 128 // BSIZE / sizeof(uint)
  const MAXFILE: nat := 140   // NDIRECT + NINDIRECT
  const SLOTS: nat := 141     // the block references of one inode
  const UINT: nat := 0x1_0000_0000

  type Byte = b: int | 0 <= b < 256
  type Block = b: seq<Byte> | |b| == BSIZE witness seq(BSIZE, _ => 0)

  function ZeroBlock(): (z: Block)
    ensures forall i :: 0 <= i < BSIZE ==> z[i] == 0
  {
    seq(BSIZE, _ => 0)
  }

  // ----- The uints of an indirect block ---------------------------------------

  function Uint(b: Block, j: nat): (x: nat)
    requires j < NINDIRECT
  {
    var b0: int, b1: int, b2: int, b3: int := b[4 * j], b[4 * j + 1], b[4 * j + 2], b[4 * j + 3];
    b0 + 0x100 * b1 + 0x1_0000 * b2 + 0x100_0000 * b3
  }

  function WithUint(b: Block, j: nat, x: nat): Block
    requires j < NINDIRECT && x < UINT
  {
    b[4 * j := x % 0x100][4 * j + 1 := x / 0x100 % 0x100][4 * j + 2 := x / 0x1_0000 % 0x100][4 * j + 3 := x / 0x100_0000]
  }

  lemma UintStored(b: Block, j: nat, x: nat, k: nat)
    requires j < NINDIRECT && x < UINT && k < NINDIRECT
    ensures Uint(WithUint(b, j, x), k) == if k == j then x else Uint(b, k)
  {
    FourBytes(x);
    var c := WithUint(b, j, x);
    if k == j {
      assert c[4 * j] == x % 0x100 && c[4 * j + 1] == x / 0x100 % 0x100;
    } else {
      assert forall l :: 4 * k <= l < 4 * k + 4 ==> c[l] == b[l];
    }
  }

  lemma FourBytes(x: nat)
    requires x < UINT
    ensures x / 0x100_0000 < 0x100
    ensures x == x % 0x100 + 0x100 * (x / 0x100 % 0x100) + 0x1_0000 * (x / 0x1_0000 % 0x100) + 0x100_0000 * (x / 0x100_0000)
  {
    var (b, c, d) := (x / 0x100, x / 0x100 / 0x100, x / 0x100 / 0x100 / 0x100);
    Digits(x % 0x100, b % 0x100, c % 0x100, d);
  }

  lemma Digits(r: nat, s: nat, t: nat, d: nat)
    requires r < 0x100 && s < 0x100 && t < 0x100
    ensures var x := r + 0x100 * s + 0x1_0000 * t + 0x100_0000 * d;
            x / 0x100 == s + 0x100 * t + 0x1_0000 * d && x / 0x1_0000 == t + 0x100 * d && x / 0x100_0000 == d
  {
  }

  // ----- State ----------------------------------------------------------------

  datatype Inode = Inode(size: nat, addrs: seq<nat>)

  /** nmeta blocks of boot sector, super block, log, inodes and bitmap come before
      the data blocks.  used[b] is the bit of block b in the bitmap. */
  datatype Fs = Fs(nmeta: nat, blocks: seq<Block>, used: seq<bool>, inodes: seq<Inode>)

  predicate Shape(f: Fs) {
    && 0 < f.nmeta <= |f.blocks| == |f.used| && |f.blocks| < UINT
    && forall i :: 0 <= i < |f.inodes| ==> |f.inodes[i].addrs| == NDIRECT + 1
  }

  /** Slot k of inode i: direct blocks 0..11, then the indirect block, then the
      blocks that the indirect block lists.  0 is no block. */
  function Ref(f: Fs, i: nat, k: nat): nat
    requires Shape(f) && i < |f.inodes| && k < SLOTS
  {
    if k <= NDIRECT then f.inodes[i].addrs[k]
    else
      var ind := f.inodes[i].addrs[NDIRECT];
      if 0 < ind < |f.blocks| then Uint(f.blocks[ind], k - NDIRECT - 1) else 0
  }

  /** The slot of the bn-th block of a file. */
  function SlotOf(bn: nat): (k: nat)
    requires bn < MAXFILE
    ensures k < SLOTS && k != NDIRECT
  {
    if bn < NDIRECT then bn else bn + 1
  }

  predicate Slot(f: Fs, i: nat, k: nat) {
    i < |f.inodes| && k < SLOTS
  }

  /** Every referenced block is a data block, is marked used, and is referenced by
      exactly one slot of one inode; metadata is never free. */
  ghost predicate Owned(f: Fs) {
    && Shape(f)
    && (forall b :: 0 <= b < f.nmeta ==> f.used[b])
    && (forall i: nat, k: nat :: Slot(f, i, k) ==> Good(f, Ref(f, i, k)))
    && (forall i: nat, k: nat, j: nat, l: nat :: Apart(f, i, k, j, l))
  }

  /** Two slots that refer to the same block are the same slot. */
  ghost predicate Apart(f: Fs, i: nat, k: nat, j: nat, l: nat)
    requires Shape(f)
  {
    Slot(f, i, k) && Slot(f, j, l) && Ref(f, i, k) != 0 && Ref(f, i, k) == Ref(f, j, l) ==> i == j && k == l
  }

  predicate Good(f: Fs, b: nat) {
    b != 0 ==> f.nmeta <= b < |f.blocks| == |f.used| && f.used[b]
  }

  /** A change that touches at most slot k of inode i, and puts there nothing that is
      referred to elsewhere, keeps the ownership. */
  lemma SameRefsOwned(f: Fs, g: Fs)
    requires Owned(f) && SameRefs(f, g) && g.nmeta == f.nmeta
    requires forall b :: 0 <= b < g.nmeta ==> g.used[b]
    requires forall j: nat, l: nat :: Slot(f, j, l) ==> Good(g, Ref(g, j, l))
    ensures Owned(g)
  {
    forall j: nat, l: nat, j': nat, l': nat
      ensures Apart(g, j, l, j', l')
    {
      assert Apart(f, j, l, j', l');
    }
  }

  lemma StaysOwned(f: Fs, g: Fs, i: nat, k: nat)
    requires Owned(f) && Shape(g) && Slot(f, i, k) && |g.inodes| == |f.inodes| && g.nmeta == f.nmeta
    requires forall b :: 0 <= b < g.nmeta ==> g.used[b]
    requires forall j: nat, l: nat :: Slot(f, j, l) ==>
               Good(g, Ref(g, j, l)) &&
               (j != i || l != k ==> Ref(g, j, l) == Ref(f, j, l) && (Ref(f, j, l) != Ref(g, i, k) || Ref(f, j, l) == 0))
    ensures Owned(g)
  {
    forall j: nat, l: nat, j': nat, l': nat
      ensures Apart(g, j, l, j', l')
    {
      assert Apart(f, j, l, j', l');
    }
  }

  /** Byte p of file i; blocks that were never allocated read as zeros. */
  function ByteAt(f: Fs, i: nat, p: nat): Byte
    requires Shape(f) && i < |f.inodes| && p < MAXFILE * BSIZE
  {
    var b := Ref(f, i, SlotOf(p / BSIZE));
    if 0 < b < |f.blocks| then f.blocks[b][p % BSIZE] else 0
  }

  ghost predicate SameFiles(f: Fs, g: Fs) {
    && Shape(f) && Shape(g) && |f.inodes| == |g.inodes|
    && forall i: nat, p: nat :: i < |f.inodes| && p < MAXFILE * BSIZE ==> ByteAt(g, i, p) == ByteAt(f, i, p)
  }

  ghost predicate SameRefs(f: Fs, g: Fs) {
    && Shape(f) && Shape(g) && |f.inodes| == |g.inodes|
    && forall i: nat, k: nat :: Slot(f, i, k) ==> Ref(g, i, k) == Ref(f, i, k)
  }

  ghost predicate Referenced(f: Fs, b: nat)
    requires Shape(f)
  {
    exists i: nat, k: nat :: Slot(f, i, k) && Ref(f, i, k) == b
  }

  // ----- Four elementary changes ----------------------------------------------

  /** balloc: a free block is marked used and zeroed. */
  function Claimed(f: Fs, b: nat): Fs
    requires Shape(f) && b < |f.blocks|
  {
    f.(used := f.used[b := true], blocks := f.blocks[b := ZeroBlock()])
  }

  lemma ClaimIsSafe(f: Fs, b: nat)
    requires Owned(f) && b < |f.blocks| && !f.used[b]
    ensures Owned(Claimed(f, b)) && SameRefs(f, Claimed(f, b)) && SameFiles(f, Claimed(f, b))
    ensures b >= f.nmeta && !Referenced(Claimed(f, b), b)
  {
    var g := Claimed(f, b);
    forall i: nat, k: nat | Slot(f, i, k)
      ensures Ref(g, i, k) == Ref(f, i, k) && Ref(f, i, k) != b && Good(g, Ref(g, i, k))
    {
      assert Good(f, Ref(f, i, k)) && Good(f, Ref(f, i, NDIRECT));
    }
    SameRefsOwned(f, g);
  }

  /** Slot k <= NDIRECT of inode i gets block b. */
  function Attached(f: Fs, i: nat, k: nat, b: nat): Fs
    requires Shape(f) && i < |f.inodes| && k <= NDIRECT
  {
    f.(inodes := f.inodes[i := f.inodes[i].(addrs := f.inodes[i].addrs[k := b])])
  }

  /** Nobody refers to the block yet, and it is all zeros. */
  ghost predicate Fresh(f: Fs, b: nat)
    requires Shape(f)
  {
    0 < b < |f.blocks| && Good(f, b) && !Referenced(f, b) && f.blocks[b] == ZeroBlock()
  }

  lemma AttachedRefs(f: Fs, i: nat, k: nat, b: nat, j: nat, l: nat)
    requires Owned(f) && Slot(f, i, k) && k <= NDIRECT && Ref(f, i, k) == 0 && Fresh(f, b) && Slot(f, j, l)
    ensures Shape(Attached(f, i, k, b))
    ensures Ref(Attached(f, i, k, b), j, l) == if j == i && l == k then b else Ref(f, j, l)
  {
  }

  lemma AttachIsSafe(f: Fs, i: nat, k: nat, b: nat)
    requires Owned(f) && Slot(f, i, k) && k <= NDIRECT && Ref(f, i, k) == 0 && Fresh(f, b)
    ensures var g := Attached(f, i, k, b); Owned(g) && SameFiles(f, g)
  {
    var g := Attached(f, i, k, b);
    forall j: nat, l: nat | Slot(f, j, l)
      ensures Ref(g, j, l) == if j == i && l == k then b else Ref(f, j, l)
    {
      AttachedRefs(f, i, k, b, j, l);
    }
    StaysOwned(f, g, i, k);
  }

  /** Entry j of the indirect block of inode i gets block b. */
  function Listed(f: Fs, i: nat, j: nat, b: nat): Fs
    requires Shape(f) && i < |f.inodes| && j < NINDIRECT && 0 < Ref(f, i, NDIRECT) < |f.blocks| && b < UINT
  {
    var ind := Ref(f, i, NDIRECT);
    f.(blocks := f.blocks[ind := WithUint(f.blocks[ind], j, b)])
  }

  lemma ListedRefs(f: Fs, i: nat, j: nat, b: nat, i': nat, l: nat)
    requires Owned(f) && i < |f.inodes| && j < NINDIRECT && Ref(f, i, NDIRECT) != 0 && b < UINT && Slot(f, i', l)
    ensures Good(f, Ref(f, i, NDIRECT)) && Shape(Listed(f, i, j, b))
    ensures Ref(Listed(f, i, j, b), i', l) == if i' == i && l == NDIRECT + 1 + j then b else Ref(f, i', l)
  {
    assert Slot(f, i, NDIRECT) && Slot(f, i', NDIRECT);
    assert Good(f, Ref(f, i, NDIRECT)) && Good(f, Ref(f, i', NDIRECT));
    assert Apart(f, i, NDIRECT, i', NDIRECT);
    if i' == i && l > NDIRECT {
      UintStored(f.blocks[Ref(f, i, NDIRECT)], j, b, l - NDIRECT - 1);
    }
  }

  lemma ListIsSafe(f: Fs, i: nat, j: nat, b: nat)
    requires Owned(f) && i < |f.inodes| && j < NINDIRECT && Ref(f, i, NDIRECT) != 0
    requires Ref(f, i, NDIRECT + 1 + j) == 0 && Fresh(f, b) && b != Ref(f, i, NDIRECT)
    ensures Good(f, Ref(f, i, NDIRECT))
    ensures var g := Listed(f, i, j, b); Owned(g) && SameFiles(f, g)
  {
    assert Slot(f, i, NDIRECT) && Good(f, Ref(f, i, NDIRECT));
    var g := Listed(f, i, j, b);
    forall i': nat, l: nat | Slot(f, i', l)
      ensures Ref(g, i', l) == if i' == i && l == NDIRECT + 1 + j then b else Ref(f, i', l)
    {
      ListedRefs(f, i, j, b, i', l);
    }
    StaysOwned(f, g, i, NDIRECT + 1 + j);
    forall i': nat, p: nat | i' < |f.inodes| && p < MAXFILE * BSIZE
      ensures ByteAt(g, i', p) == ByteAt(f, i', p)
    {
      assert Slot(f, i', SlotOf(p / BSIZE)) && Apart(f, i, NDIRECT, i', SlotOf(p / BSIZE));
    }
  }

  /** The data block of a file takes new contents. */
  function StoredAt(f: Fs, b: nat, data: Block): Fs
    requires b < |f.blocks|
  {
    f.(blocks := f.blocks[b := data])
  }

  lemma StoreIsSafe(f: Fs, i: nat, bn: nat, data: Block)
    requires Owned(f) && i < |f.inodes| && bn < MAXFILE && Ref(f, i, SlotOf(bn)) != 0
    ensures Good(f, Ref(f, i, SlotOf(bn)))
    ensures var g := StoredAt(f, Ref(f, i, SlotOf(bn)), data);
            && Owned(g) && SameRefs(f, g)
            && forall i': nat, p: nat :: i' < |f.inodes| && p < MAXFILE * BSIZE ==>
                 ByteAt(g, i', p) == if i' == i && p / BSIZE == bn then data[p % BSIZE] else ByteAt(f, i', p)
  {
    var k := SlotOf(bn);
    assert Slot(f, i, k) && Good(f, Ref(f, i, k));
    var b := Ref(f, i, k);
    var g := StoredAt(f, b, data);
    forall i': nat, l: nat | Slot(f, i', l)
      ensures Ref(g, i', l) == Ref(f, i', l)
    {
      assert Slot(f, i', NDIRECT) && Good(f, Ref(f, i', NDIRECT)) && Apart(f, i, k, i', NDIRECT);
    }
    SameRefsOwned(f, g);
    forall i': nat, p: nat | i' < |f.inodes| && p < MAXFILE * BSIZE
      ensures ByteAt(g, i', p) == if i' == i && p / BSIZE == bn then data[p % BSIZE] else ByteAt(f, i', p)
    {
      assert Slot(f, i', SlotOf(p / BSIZE)) && Apart(f, i, k, i', SlotOf(p / BSIZE));
    }
  }

  // ----- Free blocks ----------------------------------------------------------

  /** The one reason for the panic of balloc: no block is free. */
  ghost predicate Full(used: seq<bool>) {
    forall b :: 0 <= b < |used| ==> used[b]
  }

  function Free(used: seq<bool>): nat {
    if used == [] then 0 else Free(used[1..]) + if used[0] then 0 else 1
  }

  lemma {:induction false} FreeTaken(used: seq<bool>, b: nat)
    requires b < |used| && !used[b]
    ensures Free(used) == Free(used[b := true]) + 1
  {
    if b > 0 {
      FreeTaken(used[1..], b - 1);
      assert used[b := true][1..] == used[1..][b - 1 := true];
    } else {
      assert used[b := true][1..] == used[1..];
    }
  }

  lemma {:induction false} NoneFree(used: seq<bool>)
    ensures Free(used) == 0 <==> Full(used)
  {
    if used != [] {
      NoneFree(used[1..]);
      assert Full(used) ==> forall b :: 0 <= b < |used[1..]| ==> used[1..][b];
      assert used[0] && Full(used[1..]) ==> forall b :: 0 <= b < |used| ==> used[b] by {
        assert forall b :: 1 <= b < |used| ==> used[b] == used[1..][b - 1];
      }
    }
  }

  // ----- What bmap changes ----------------------------------------------------

  ghost predicate SameSizes(f: Fs, g: Fs) {
    && |g.inodes| == |f.inodes| && |g.blocks| == |f.blocks|
    && forall j :: 0 <= j < |f.inodes| ==> g.inodes[j].size == f.inodes[j].size
  }

  /** Slot k of inode i, empty before, refers to block b; no other slot and no byte
      of any file has changed. */
  ghost predicate Filled(f: Fs, g: Fs, i: nat, k: nat, b: nat) {
    && Owned(f) && Owned(g) && SameFiles(f, g) && SameSizes(f, g)
    && Slot(f, i, k) && Ref(f, i, k) == 0 && b != 0
    && Free(f.used) == Free(g.used) + 1 && (k > NDIRECT ==> g.inodes == f.inodes)
    && forall j: nat, l: nat :: Slot(f, j, l) ==> Ref(g, j, l) == if j == i && l == k then b else Ref(f, j, l)
  }

  /** A free block b, zeroed, goes into slot k <= NDIRECT of inode i. */
  lemma AttachFills(f: Fs, i: nat, k: nat, b: nat)
    requires Owned(f) && Slot(f, i, k) && k <= NDIRECT && Ref(f, i, k) == 0 && b < |f.blocks| && !f.used[b]
    ensures Filled(f, Attached(Claimed(f, b), i, k, b), i, k, b)
  {
    ClaimIsSafe(f, b);
    FreeTaken(f.used, b);
    var g := Claimed(f, b);
    AttachIsSafe(g, i, k, b);
    forall j: nat, l: nat | Slot(f, j, l)
      ensures Ref(Attached(g, i, k, b), j, l) == if j == i && l == k then b else Ref(f, j, l)
    {
      AttachedRefs(g, i, k, b, j, l);
    }
  }

  /** A free block b, zeroed, goes into entry j of the indirect block of inode i. */
  lemma ListFills(f: Fs, i: nat, j: nat, b: nat)
    requires Owned(f) && i < |f.inodes| && j < NINDIRECT && b < |f.blocks| && !f.used[b]
    requires Ref(f, i, NDIRECT) != 0 && Ref(f, i, NDIRECT + 1 + j) == 0
    ensures Good(f, Ref(f, i, NDIRECT)) && Shape(Claimed(f, b))
    ensures Ref(Claimed(f, b), i, NDIRECT) == Ref(f, i, NDIRECT)
    ensures Filled(f, Listed(Claimed(f, b), i, j, b), i, NDIRECT + 1 + j, b)
  {
    ClaimIsSafe(f, b);
    FreeTaken(f.used, b);
    var g := Claimed(f, b);
    assert Slot(f, i, NDIRECT) && Good(f, Ref(f, i, NDIRECT));
    assert Slot(f, i, NDIRECT + 1 + j);
    ListIsSafe(g, i, j, b);
    forall j': nat, l: nat | Slot(f, j', l)
      ensures Ref(Listed(g, i, j, b), j', l) == if j' == i && l == NDIRECT + 1 + j then b else Ref(f, j', l)
    {
      ListedRefs(g, i, j, b, j', l);
    }
  }
}
