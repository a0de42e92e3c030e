module Extents {

  /* What reading and writing a range of blocks of a file does to the file system: which
     slots get blocks, how many blocks that takes, and which blocks go to the log. */

  import opened FileLayout
  import Counting

  const BPB: nat := 4096 // bitmap bits per block

  // ----- What is missing ------------------------------------------------------

  /** The blocks of file i numbered lo to hi that are not there. */
  function Missing(f: Fs, i: nat, lo: nat, hi: nat): (r: nat)
    requires Shape(f) && i < |f.inodes| && hi <= MAXFILE
    ensures lo <= hi ==> r <= hi - lo
    decreases hi
  {
    if lo >= hi then 0 else Missing(f, i, lo, hi - 1) + if Ref(f, i, SlotOf(hi - 1)) == 0 then 1 else 0
  }

  /** The indirect block is not there either. */
  predicate NeedsInd(f: Fs, i: nat, lo: nat, hi: nat)
    requires Shape(f) && i < |f.inodes|
  {
    lo < hi && NDIRECT < hi && Ref(f, i, NDIRECT) == 0
  }

  /** The blocks that balloc has to give before blocks lo to hi are there. */
  function Needs(f: Fs, i: nat, lo: nat, hi: nat): nat
    requires Shape(f) && i < |f.inodes| && hi <= MAXFILE
  {
    Missing(f, i, lo, hi) + if NeedsInd(f, i, lo, hi) then 1 else 0
  }

  /** The blocks that balloc can give. */
  function Room(trans: bool, used: seq<bool>): nat {
    if trans then Free(used) else 0
  }

  lemma {:induction false} MissingNone(f: Fs, i: nat, lo: nat, hi: nat)
    requires Shape(f) && i < |f.inodes| && lo <= hi <= MAXFILE
    ensures Missing(f, i, lo, hi) == 0 <==> forall bn: nat :: lo <= bn < hi ==> Ref(f, i, SlotOf(bn)) != 0
    decreases hi
  {
    if lo < hi {
      MissingNone(f, i, lo, hi - 1);
    }
  }

  lemma NeedsNone(f: Fs, i: nat, lo: nat, hi: nat)
    requires Shape(f) && i < |f.inodes| && lo <= hi <= MAXFILE
    ensures Needs(f, i, lo, hi) == 0 <==> forall bn: nat :: lo <= bn < hi ==> Ref(f, i, SlotOf(bn)) != 0
  {
    MissingNone(f, i, lo, hi);
    if lo < hi && NDIRECT < hi {
      var last := hi - 1;
      assert Ref(f, i, NDIRECT) == 0 ==> Ref(f, i, SlotOf(last)) == 0;
    }
  }

  lemma NeedsOne(f: Fs, i: nat, bn: nat)
    requires Shape(f) && i < |f.inodes| && bn < MAXFILE
    ensures Needs(f, i, bn, bn + 1) == if Ref(f, i, SlotOf(bn)) != 0 then 0
                                       else if NDIRECT <= bn && Ref(f, i, NDIRECT) == 0 then 2 else 1
  {
    assert Missing(f, i, bn, bn) == 0;
  }

  lemma {:induction false} MissingMore(f: Fs, i: nat, lo: nat, mid: nat, hi: nat)
    requires Shape(f) && i < |f.inodes| && lo <= mid <= hi <= MAXFILE
    ensures Missing(f, i, lo, mid) <= Missing(f, i, lo, hi) && Needs(f, i, lo, mid) <= Needs(f, i, lo, hi)
    decreases hi
  {
    if mid < hi {
      MissingMore(f, i, lo, mid, hi - 1);
    }
  }

  lemma {:induction false} MissingRest(f: Fs, i: nat, lo: nat, hi: nat)
    requires Shape(f) && i < |f.inodes| && lo < hi <= MAXFILE && Ref(f, i, SlotOf(lo)) != 0
    ensures Missing(f, i, lo, hi) < hi - lo
    decreases hi
  {
    if lo + 1 < hi {
      MissingRest(f, i, lo, hi - 1);
    } else {
      assert Missing(f, i, lo, lo) == 0;
    }
  }

  // ----- Ranges of blocks -----------------------------------------------------

  /** The slot of the inode itself through which block bn is reached is in use. */
  predicate SlotThere(f: Fs, i: nat, bn: nat) {
    Shape(f) && i < |f.inodes| && Ref(f, i, if bn < NDIRECT then bn else NDIRECT) != 0
  }

  ghost predicate SlotsIn(f: Fs, i: nat, lo: nat, hi: nat) {
    forall bn: nat :: lo <= bn < hi ==> SlotThere(f, i, bn)
  }

  /** Block bn has what it had, or is one of the blocks lo to hi and new. */
  predicate Kept(f: Fs, g: Fs, i: nat, lo: nat, hi: nat, bn: nat)
    requires Shape(f) && Shape(g) && i < |f.inodes| == |g.inodes| && bn < MAXFILE
  {
    && (lo <= bn < hi ==> Ref(g, i, SlotOf(bn)) != 0)
    && (!(lo <= bn < hi) || Ref(f, i, SlotOf(bn)) != 0 ==> Ref(g, i, SlotOf(bn)) == Ref(f, i, SlotOf(bn)))
  }

  /** g is f after blocks lo to hi of file i have been asked for: they are there, and no
      others have come, which took as many free blocks as were needed. */
  ghost predicate Extended(f: Fs, g: Fs, i: nat, lo: nat, hi: nat) {
    && Shape(f) && Shape(g) && i < |f.inodes| == |g.inodes| && |g.blocks| == |f.blocks| && lo <= hi <= MAXFILE
    && (forall bn: nat :: bn < MAXFILE ==> Kept(f, g, i, lo, hi, bn))
    && (Ref(f, i, NDIRECT) != 0 ==> Ref(g, i, NDIRECT) == Ref(f, i, NDIRECT))
    && (Ref(g, i, NDIRECT) != 0 <==> Ref(f, i, NDIRECT) != 0 || (lo < hi && NDIRECT < hi))
    && Free(f.used) == Free(g.used) + Needs(f, i, lo, hi)
  }

  /** With nothing to fill in the inode itself, the inodes are as before. */
  ghost predicate InodesKept(f: Fs, g: Fs, i: nat, lo: nat, hi: nat) {
    SlotsIn(f, i, lo, hi) ==> g.inodes == f.inodes
  }

  lemma InodesKeptMore(f: Fs, g: Fs, h: Fs, i: nat, lo: nat, bn: nat)
    requires InodesKept(f, g, i, lo, bn) && InodesKept(g, h, i, bn, bn + 1) && Shape(g) && lo <= bn
    ensures InodesKept(f, h, i, lo, bn + 1)
  {
    if SlotsIn(f, i, lo, bn + 1) {
      assert SlotThere(f, i, bn);
      assert SlotsIn(f, i, lo, bn);
      assert SlotsIn(g, i, bn, bn + 1);
    }
  }

  lemma ExtendedNone(f: Fs, i: nat, lo: nat)
    requires Shape(f) && i < |f.inodes| && lo <= MAXFILE
    ensures Extended(f, f, i, lo, lo)
  {
  }

  lemma ExtendedMore(f: Fs, g: Fs, h: Fs, i: nat, lo: nat, bn: nat)
    requires Extended(f, g, i, lo, bn) && Extended(g, h, i, bn, bn + 1)
    ensures Extended(f, h, i, lo, bn + 1) && Needs(f, i, lo, bn + 1) == Needs(f, i, lo, bn) + Needs(g, i, bn, bn + 1)
  {
    assert Kept(f, g, i, lo, bn, bn);
    NeedsMore(f, g, i, lo, bn);
    var hi := bn + 1;
    forall bm: nat | bm < MAXFILE
      ensures Kept(f, h, i, lo, hi, bm)
    {
      assert Kept(f, g, i, lo, bn, bm) && Kept(g, h, i, bn, hi, bm);
    }
  }

  lemma NeedsMore(f: Fs, g: Fs, i: nat, lo: nat, bn: nat)
    requires Extended(f, g, i, lo, bn) && bn < MAXFILE
    ensures Needs(f, i, lo, bn + 1) == Needs(f, i, lo, bn) + Needs(g, i, bn, bn + 1)
  {
    assert Kept(f, g, i, lo, bn, bn);
    assert Missing(g, i, bn, bn) == 0;
    assert Missing(g, i, bn, bn + 1) == if Ref(f, i, SlotOf(bn)) == 0 then 1 else 0;
  }

  lemma {:induction false} MissingSplit(f: Fs, i: nat, lo: nat, mid: nat, hi: nat)
    requires Shape(f) && i < |f.inodes| && lo <= mid <= hi <= MAXFILE
    ensures Missing(f, i, lo, hi) == Missing(f, i, lo, mid) + Missing(f, i, mid, hi)
    decreases hi
  {
    if mid < hi {
      MissingSplit(f, i, lo, mid, hi - 1);
    } else {
      assert Missing(f, i, mid, mid) == 0;
    }
  }

  lemma {:induction false} MissingKept(f: Fs, g: Fs, i: nat, lo: nat, mid: nat, hi: nat)
    requires Extended(f, g, i, lo, mid) && mid <= hi <= MAXFILE
    ensures Missing(g, i, mid, hi) == Missing(f, i, mid, hi)
    decreases hi
  {
    if mid < hi {
      MissingKept(f, g, i, lo, mid, hi - 1);
      assert Kept(f, g, i, lo, mid, hi - 1);
    } else {
      assert Missing(f, i, mid, mid) == 0 == Missing(g, i, mid, mid);
    }
  }

  /** Asking for blocks lo to mid and then for mid to hi takes what asking for all takes. */
  lemma NeedsRange(f: Fs, g: Fs, i: nat, lo: nat, mid: nat, hi: nat)
    requires Extended(f, g, i, lo, mid) && mid <= hi <= MAXFILE
    ensures Needs(f, i, lo, hi) == Needs(f, i, lo, mid) + Needs(g, i, mid, hi)
  {
    MissingSplit(f, i, lo, mid, hi);
    MissingKept(f, g, i, lo, mid, hi);
  }

  /** Blocks that are there already can be asked for again. */
  lemma NeedsAgain(g: Fs, i: nat, a: nat, mid: nat, hi: nat)
    requires Shape(g) && i < |g.inodes| && a <= mid <= hi <= MAXFILE
    requires forall bn: nat :: a <= bn < mid ==> Ref(g, i, SlotOf(bn)) != 0
    ensures Needs(g, i, a, hi) == Needs(g, i, mid, hi)
  {
    MissingSplit(g, i, a, mid, hi);
    MissingNone(g, i, a, mid);
    if a < mid == hi && NDIRECT < hi {
      assert Ref(g, i, SlotOf(hi - 1)) != 0;
    }
  }

  lemma ThereAfter(f: Fs, g: Fs, i: nat, lo: nat, mid: nat)
    requires Extended(f, g, i, lo, mid)
    ensures forall bn: nat :: lo <= bn < mid ==> Ref(g, i, SlotOf(bn)) != 0
  {
    forall bn: nat | lo <= bn < mid
      ensures Ref(g, i, SlotOf(bn)) != 0
    {
      assert Kept(f, g, i, lo, mid, bn);
    }
  }

  lemma ExtendedRange(f: Fs, g: Fs, h: Fs, i: nat, lo: nat, mid: nat, a: nat, hi: nat)
    requires Extended(f, g, i, lo, mid) && Extended(g, h, i, a, hi) && lo <= a <= mid <= hi
    requires lo < mid || a == mid
    ensures Extended(f, h, i, lo, hi)
  {
    ThereAfter(f, g, i, lo, mid);
    NeedsRange(f, g, i, lo, mid, hi);
    NeedsAgain(g, i, a, mid, hi);
    forall bm: nat | bm < MAXFILE
      ensures Kept(f, h, i, lo, hi, bm)
    {
      assert Kept(f, g, i, lo, mid, bm) && Kept(g, h, i, a, hi, bm);
    }
  }

  /** A change that touches neither bitmap nor references. */
  lemma ExtendedSame(f: Fs, g: Fs, h: Fs, i: nat, lo: nat, hi: nat)
    requires Extended(f, g, i, lo, hi) && SameRefs(g, h) && h.used == g.used && |h.blocks| == |g.blocks|
    ensures Extended(f, h, i, lo, hi)
  {
    assert Slot(g, i, NDIRECT);
    forall bm: nat | bm < MAXFILE
      ensures Kept(f, h, i, lo, hi, bm)
    {
      assert Kept(f, g, i, lo, hi, bm) && Slot(g, i, SlotOf(bm));
    }
  }

  /** Block bn of file i is there; only empty slots of that file have got blocks, and
      no byte of any file has changed. */
  ghost predicate Mapped(f: Fs, g: Fs, i: nat, bn: nat) {
    && bn < MAXFILE && i < |f.inodes|
    && Owned(f) && Owned(g) && SameFiles(f, g) && SameSizes(f, g)
    && Extended(f, g, i, bn, bn + 1) && InodesKept(f, g, i, bn, bn + 1)
    && Ref(g, i, SlotOf(bn)) != 0 && (Ref(f, i, SlotOf(bn)) != 0 ==> g == f)
    && forall j: nat, l: nat ::
         Slot(f, j, l) && (Ref(f, j, l) != 0 || !(j == i && (l == SlotOf(bn) || (bn >= NDIRECT && l == NDIRECT)))) ==>
         Ref(g, j, l) == Ref(f, j, l)
  }

  lemma MappedAlready(f: Fs, i: nat, bn: nat)
    requires Owned(f) && i < |f.inodes| && bn < MAXFILE && Ref(f, i, SlotOf(bn)) != 0
    ensures Mapped(f, f, i, bn)
  {
    NeedsNone(f, i, bn, bn + 1);
  }

  lemma FilledOnce(f: Fs, g: Fs, i: nat, bn: nat)
    requires bn < MAXFILE && (NDIRECT <= bn && i < |f.inodes| && Shape(f) ==> Ref(f, i, NDIRECT) != 0)
    requires Shape(g) && i < |g.inodes| && Filled(f, g, i, SlotOf(bn), Ref(g, i, SlotOf(bn)))
    ensures Mapped(f, g, i, bn)
  {
    assert Missing(f, i, bn, bn) == 0 && Missing(f, i, bn, bn + 1) == 1;
    assert Slot(f, i, NDIRECT);
    var hi := bn + 1;
    forall bm: nat | bm < MAXFILE
      ensures Kept(f, g, i, bn, hi, bm)
    {
      assert Slot(f, i, SlotOf(bm));
    }
    assert !SlotThere(f, i, bn) || NDIRECT <= bn;
  }

  lemma FilledTwice(f: Fs, g: Fs, h: Fs, i: nat, bn: nat)
    requires bn < NINDIRECT && i < |f.inodes| && Shape(g)
    requires |g.inodes| == |f.inodes| && Shape(h) && |h.inodes| == |f.inodes|
    requires Filled(f, g, i, NDIRECT, Ref(g, i, NDIRECT))
    requires Filled(g, h, i, NDIRECT + 1 + bn, Ref(h, i, NDIRECT + 1 + bn))
    ensures Mapped(f, h, i, NDIRECT + bn)
  {
    var b := NDIRECT + bn;
    assert Slot(f, i, SlotOf(b)) && Ref(f, i, SlotOf(b)) == 0;
    var hi := b + 1;
    assert Missing(f, i, b, b) == 0 && Missing(f, i, b, hi) == 1;
    forall bm: nat | bm < MAXFILE
      ensures Kept(f, h, i, b, hi, bm)
    {
      assert Slot(f, i, SlotOf(bm)) && Slot(g, i, SlotOf(bm));
    }
    assert Slot(g, i, NDIRECT);
    assert !SlotThere(f, i, b);
  }

  /** Slot k has block b, found there or new. */
  ghost predicate FindsOrFills(f: Fs, g: Fs, i: nat, k: nat, b: nat) {
    && Shape(f) && Slot(f, i, k) && b != 0
    && if Ref(f, i, k) != 0 then Owned(f) && g == f && b == Ref(f, i, k) else Filled(f, g, i, k, b)
  }

  /** bmap past the direct blocks: first the indirect block, then its entry. */
  lemma IndirectMapped(f: Fs, g: Fs, h: Fs, i: nat, bn: nat, ind: nat, b: nat)
    requires bn < NINDIRECT && FindsOrFills(f, g, i, NDIRECT, ind) && FindsOrFills(g, h, i, NDIRECT + 1 + bn, b)
    ensures Mapped(f, h, i, NDIRECT + bn) && b == Ref(h, i, NDIRECT + 1 + bn) && ind == Ref(h, i, NDIRECT)
    ensures Ref(f, i, NDIRECT + 1 + bn) != 0 <==> Ref(f, i, NDIRECT) != 0 && Ref(g, i, NDIRECT + 1 + bn) != 0
  {
    assert Slot(f, i, NDIRECT + 1 + bn) && Slot(g, i, NDIRECT + 1 + bn) && Slot(g, i, NDIRECT);
    if Ref(f, i, NDIRECT) == 0 {
      FilledTwice(f, g, h, i, bn);
    } else if Ref(f, i, NDIRECT + 1 + bn) == 0 {
      FilledOnce(f, h, i, NDIRECT + bn);
    } else {
      MappedAlready(f, i, NDIRECT + bn);
    }
  }

  // ----- What is logged -------------------------------------------------------

  /** BBLOCK: the bitmap block with the bit of block b. */
  function BitmapBlock(bmap: nat, b: nat): nat {
    b / BPB + bmap
  }

  /** The blocks of file i numbered lo to hi. */
  ghost function Data(f: Fs, i: nat, lo: nat, hi: nat): set<nat>
    requires Shape(f) && i < |f.inodes| && hi <= MAXFILE
    decreases hi
  {
    if lo >= hi then {} else Data(f, i, lo, hi - 1) + {Ref(f, i, SlotOf(hi - 1))}
  }

  /** The bitmap blocks of those among them that are new in g. */
  ghost function DataMaps(bmap: nat, f: Fs, g: Fs, i: nat, lo: nat, hi: nat): set<nat>
    requires Shape(f) && Shape(g) && i < |f.inodes| == |g.inodes| && hi <= MAXFILE
    decreases hi
  {
    if lo >= hi then {}
    else DataMaps(bmap, f, g, i, lo, hi - 1) +
         if Ref(f, i, SlotOf(hi - 1)) == 0 then {BitmapBlock(bmap, Ref(g, i, SlotOf(hi - 1)))} else {}
  }

  function Max(a: nat, b: nat): nat {
    if a < b then b else a
  }

  /** A new block is entered into the indirect block. */
  predicate ListsNew(f: Fs, i: nat, lo: nat, hi: nat)
    requires Shape(f) && i < |f.inodes| && hi <= MAXFILE
  {
    Missing(f, i, Max(lo, NDIRECT), hi) > 0
  }

  ghost function IndLog(f: Fs, g: Fs, i: nat, lo: nat, hi: nat): set<nat>
    requires Shape(f) && Shape(g) && i < |f.inodes| == |g.inodes| && hi <= MAXFILE
  {
    if ListsNew(f, i, lo, hi) then {Ref(g, i, NDIRECT)} else {}
  }

  /** The bitmap blocks of all blocks that are new in g. */
  ghost function Maps(bmap: nat, f: Fs, g: Fs, i: nat, lo: nat, hi: nat): set<nat>
    requires Shape(f) && Shape(g) && i < |f.inodes| == |g.inodes| && hi <= MAXFILE
  {
    DataMaps(bmap, f, g, i, lo, hi) +
    if NeedsInd(f, i, lo, hi) then {BitmapBlock(bmap, Ref(g, i, NDIRECT))} else {}
  }

  /** What storing into blocks lo to hi logs, when f becomes g. */
  ghost function Logged(bmap: nat, f: Fs, g: Fs, i: nat, lo: nat, hi: nat): set<nat>
    requires Shape(f) && Shape(g) && i < |f.inodes| == |g.inodes| && hi <= MAXFILE
  {
    Data(g, i, lo, hi) + IndLog(f, g, i, lo, hi) + Maps(bmap, f, g, i, lo, hi)
  }

  lemma {:induction false} SameData(g: Fs, h: Fs, i: nat, lo: nat, hi: nat)
    requires Shape(g) && Shape(h) && i < |g.inodes| == |h.inodes| && hi <= MAXFILE
    requires forall bn: nat :: lo <= bn < hi ==> Ref(h, i, SlotOf(bn)) == Ref(g, i, SlotOf(bn))
    ensures Data(h, i, lo, hi) == Data(g, i, lo, hi)
    decreases hi
  {
    if lo < hi {
      SameData(g, h, i, lo, hi - 1);
    }
  }

  lemma {:induction false} SameMaps(bmap: nat, f: Fs, g: Fs, h: Fs, i: nat, lo: nat, hi: nat)
    requires Shape(f) && Shape(g) && Shape(h) && i < |f.inodes| == |g.inodes| == |h.inodes| && hi <= MAXFILE
    requires forall bn: nat :: lo <= bn < hi ==> Ref(h, i, SlotOf(bn)) == Ref(g, i, SlotOf(bn))
    ensures DataMaps(bmap, f, h, i, lo, hi) == DataMaps(bmap, f, g, i, lo, hi)
    decreases hi
  {
    if lo < hi {
      SameMaps(bmap, f, g, h, i, lo, hi - 1);
    }
  }

  lemma ListsNewMore(f: Fs, g: Fs, i: nat, lo: nat, bn: nat)
    requires Extended(f, g, i, lo, bn) && bn < MAXFILE
    ensures ListsNew(f, i, lo, bn + 1) <==> ListsNew(f, i, lo, bn) || ListsNew(g, i, bn, bn + 1)
  {
    assert Kept(f, g, i, lo, bn, bn);
    assert Missing(g, i, bn, bn) == 0;
  }

  lemma RangeKept(f: Fs, g: Fs, h: Fs, i: nat, lo: nat, bn: nat)
    requires Extended(f, g, i, lo, bn) && Extended(g, h, i, bn, bn + 1)
    ensures forall bm: nat :: lo <= bm < bn ==> Ref(h, i, SlotOf(bm)) == Ref(g, i, SlotOf(bm))
    ensures Ref(g, i, SlotOf(bn)) == Ref(f, i, SlotOf(bn))
  {
    assert Kept(f, g, i, lo, bn, bn);
    forall bm: nat | lo <= bm < bn
      ensures Ref(h, i, SlotOf(bm)) == Ref(g, i, SlotOf(bm))
    {
      assert Kept(f, g, i, lo, bn, bm) && Kept(g, h, i, bn, bn + 1, bm);
    }
  }

  lemma IndLogMore(f: Fs, g: Fs, h: Fs, i: nat, lo: nat, bn: nat)
    requires Extended(f, g, i, lo, bn) && Extended(g, h, i, bn, bn + 1)
    ensures IndLog(f, h, i, lo, bn + 1) == IndLog(f, g, i, lo, bn) + IndLog(g, h, i, bn, bn + 1)
  {
    ListsNewMore(f, g, i, lo, bn);
    if ListsNew(f, i, lo, bn) {
      assert NDIRECT < bn && lo < bn;
    }
  }

  lemma MapsMore(bmap: nat, f: Fs, g: Fs, h: Fs, i: nat, lo: nat, bn: nat)
    requires Extended(f, g, i, lo, bn) && Extended(g, h, i, bn, bn + 1)
    ensures Maps(bmap, f, h, i, lo, bn + 1) == Maps(bmap, f, g, i, lo, bn) + Maps(bmap, g, h, i, bn, bn + 1)
  {
    RangeKept(f, g, h, i, lo, bn);
    SameMaps(bmap, f, g, h, i, lo, bn);
    assert DataMaps(bmap, g, h, i, bn, bn) == {};
  }

  /** The logs of a range and of the block behind it add up. */
  lemma LoggedMore(bmap: nat, f: Fs, g: Fs, h: Fs, i: nat, lo: nat, bn: nat)
    requires Extended(f, g, i, lo, bn) && Extended(g, h, i, bn, bn + 1)
    ensures Logged(bmap, f, h, i, lo, bn + 1) == Logged(bmap, f, g, i, lo, bn) + Logged(bmap, g, h, i, bn, bn + 1)
  {
    assert Data(h, i, lo, bn + 1) == Data(g, i, lo, bn) + Data(h, i, bn, bn + 1) by {
      RangeKept(f, g, h, i, lo, bn);
      SameData(g, h, i, lo, bn);
      assert Data(h, i, bn, bn) == {};
    }
    IndLogMore(f, g, h, i, lo, bn);
    MapsMore(bmap, f, g, h, i, lo, bn);
  }

  // ----- How much is logged ---------------------------------------------------

  /** The n numbers from lo on. */
  ghost function Range(lo: nat, n: nat): (r: set<nat>)
    ensures |r| == n && forall x :: x in r <==> lo <= x < lo + n
  {
    if n == 0 then {} else Range(lo, n - 1) + {lo + n - 1}
  }

  function BitmapBlocks(n: nat): nat {
    (n + BPB - 1) / BPB
  }

  lemma {:induction false} InData(f: Fs, i: nat, lo: nat, hi: nat, x: nat) returns (bn: nat)
    requires Shape(f) && i < |f.inodes| && hi <= MAXFILE && x in Data(f, i, lo, hi)
    ensures lo <= bn < hi && x == Ref(f, i, SlotOf(bn))
    decreases hi
  {
    if x == Ref(f, i, SlotOf(hi - 1)) {
      bn := hi - 1;
    } else {
      bn := InData(f, i, lo, hi - 1, x);
    }
  }

  lemma {:induction false} DataSize(f: Fs, i: nat, lo: nat, hi: nat)
    requires Owned(f) && i < |f.inodes| && lo <= hi <= MAXFILE
    requires forall bn: nat :: lo <= bn < hi ==> Ref(f, i, SlotOf(bn)) != 0
    ensures |Data(f, i, lo, hi)| == hi - lo
    decreases hi
  {
    if lo < hi {
      var last := hi - 1;
      DataSize(f, i, lo, last);
      var data := Data(f, i, lo, last);
      forall x | x in data
        ensures x != Ref(f, i, SlotOf(last))
      {
        var bn := InData(f, i, lo, last, x);
        NeverTwice(f, i, bn, last);
      }
    }
  }

  lemma NeverTwice(f: Fs, i: nat, bn: nat, bm: nat)
    requires Owned(f) && i < |f.inodes| && bn < bm < MAXFILE && Ref(f, i, SlotOf(bm)) != 0
    ensures Ref(f, i, SlotOf(bn)) != Ref(f, i, SlotOf(bm))
  {
    assert Slot(f, i, SlotOf(bn)) && Slot(f, i, SlotOf(bm));
    assert Apart(f, i, SlotOf(bn), i, SlotOf(bm));
  }

  /** Every new block has one bitmap block. */
  lemma {:induction false} DataMapsSize(bmap: nat, f: Fs, g: Fs, i: nat, lo: nat, hi: nat)
    requires Shape(f) && Shape(g) && i < |f.inodes| == |g.inodes| && lo <= hi <= MAXFILE
    ensures |DataMaps(bmap, f, g, i, lo, hi)| <= Missing(f, i, lo, hi)
    decreases hi
  {
    if lo < hi {
      DataMapsSize(bmap, f, g, i, lo, hi - 1);
    }
  }

  lemma {:induction false} DataMapsIn(bmap: nat, f: Fs, g: Fs, i: nat, lo: nat, hi: nat, range: set<nat>)
    requires Shape(f) && Shape(g) && i < |f.inodes| == |g.inodes| && lo <= hi <= MAXFILE
    requires forall bn: nat :: lo <= bn < hi ==> BitmapBlock(bmap, Ref(g, i, SlotOf(bn))) in range
    ensures DataMaps(bmap, f, g, i, lo, hi) <= range
    ensures DataMaps(bmap, f, g, i, lo, hi) == {} <==> Missing(f, i, lo, hi) == 0
    decreases hi
  {
    if lo < hi {
      DataMapsIn(bmap, f, g, i, lo, hi - 1, range);
    }
  }

  lemma InBitmap(bmap: nat, g: Fs, i: nat, k: nat)
    requires Owned(g) && Slot(g, i, k) && Ref(g, i, k) != 0
    ensures BitmapBlock(bmap, Ref(g, i, k)) in Range(bmap, BitmapBlocks(|g.blocks|))
  {
    assert Good(g, Ref(g, i, k));
  }

  lemma RangeThere(f: Fs, g: Fs, i: nat, lo: nat, hi: nat)
    requires Extended(f, g, i, lo, hi)
    ensures forall bn: nat :: lo <= bn < hi ==> Ref(g, i, SlotOf(bn)) != 0
  {
    forall bn: nat | lo <= bn < hi
      ensures Ref(g, i, SlotOf(bn)) != 0
    {
      assert Kept(f, g, i, lo, hi, bn);
    }
  }

  lemma MapsBounds(bmap: nat, f: Fs, g: Fs, i: nat, lo: nat, hi: nat)
    requires Extended(f, g, i, lo, hi) && Owned(g)
    ensures |Maps(bmap, f, g, i, lo, hi)| <= Needs(f, i, lo, hi)
    ensures Maps(bmap, f, g, i, lo, hi) <= Range(bmap, BitmapBlocks(|g.blocks|))
    ensures |Maps(bmap, f, g, i, lo, hi)| <= BitmapBlocks(|g.blocks|)
    ensures Maps(bmap, f, g, i, lo, hi) == {} <==> Missing(f, i, lo, hi) == 0
  {
    RangeThere(f, g, i, lo, hi);
    DataMapsSize(bmap, f, g, i, lo, hi);
    var range := Range(bmap, BitmapBlocks(|g.blocks|));
    forall bn: nat | lo <= bn < hi
      ensures BitmapBlock(bmap, Ref(g, i, SlotOf(bn))) in range
    {
      InBitmap(bmap, g, i, SlotOf(bn));
    }
    DataMapsIn(bmap, f, g, i, lo, hi, range);
    if NeedsInd(f, i, lo, hi) {
      InBitmap(bmap, g, i, NDIRECT);
      NeedsNone(f, i, lo, hi);
      MissingNone(f, i, lo, hi);
    }
    Counting.SubsetSize(Maps(bmap, f, g, i, lo, hi), range);
  }

  /** The bitmap lies before the data blocks. */
  predicate BitmapFits(f: Fs, bmap: nat) {
    bmap + BitmapBlocks(|f.blocks|) <= f.nmeta
  }

  /** How many blocks are logged, exactly. */
  lemma LoggedSize(bmap: nat, f: Fs, g: Fs, i: nat, lo: nat, hi: nat)
    requires Extended(f, g, i, lo, hi) && Owned(g) && BitmapFits(g, bmap)
    ensures |Logged(bmap, f, g, i, lo, hi)| ==
            hi - lo + (if ListsNew(f, i, lo, hi) then 1 else 0) + |Maps(bmap, f, g, i, lo, hi)|
    ensures forall x :: x in Logged(bmap, f, g, i, lo, hi) ==> bmap <= x < bmap + BitmapBlocks(|g.blocks|) || g.nmeta <= x
  {
    RangeThere(f, g, i, lo, hi);
    DataSize(g, i, lo, hi);
    MapsBounds(bmap, f, g, i, lo, hi);
    DataIsData(g, i, lo, hi);
    if ListsNew(f, i, lo, hi) {
      assert NDIRECT < hi && lo < hi;
      assert Slot(g, i, NDIRECT) && Good(g, Ref(g, i, NDIRECT));
    }
    ApartSize(Data(g, i, lo, hi), IndLog(f, g, i, lo, hi), Maps(bmap, f, g, i, lo, hi), bmap, BitmapBlocks(|g.blocks|), g.nmeta);
  }

  lemma ApartSize(data: set<nat>, ind: set<nat>, maps: set<nat>, bmap: nat, n: nat, nmeta: nat)
    requires maps <= Range(bmap, n) && bmap + n <= nmeta
    requires (forall x :: x in data ==> nmeta <= x && x !in ind) && (forall x :: x in ind ==> nmeta <= x)
    ensures |data + ind + maps| == |data| + |ind| + |maps|
    ensures forall x :: x in data + ind + maps ==> bmap <= x < bmap + n || nmeta <= x
  {
    assert data !! ind && (data + ind) !! maps;
    assert |data + ind| == |data| + |ind|;
  }

  lemma DataIsData(g: Fs, i: nat, lo: nat, hi: nat)
    requires Owned(g) && i < |g.inodes| && lo <= hi <= MAXFILE
    requires forall bn: nat :: lo <= bn < hi ==> Ref(g, i, SlotOf(bn)) != 0
    ensures forall x :: x in Data(g, i, lo, hi) ==> g.nmeta <= x && x != Ref(g, i, NDIRECT)
  {
    var data := Data(g, i, lo, hi);
    forall x | x in data
      ensures g.nmeta <= x && x != Ref(g, i, NDIRECT)
    {
      var bn := InData(g, i, lo, hi, x);
      assert Slot(g, i, SlotOf(bn)) && Slot(g, i, NDIRECT);
      assert Good(g, Ref(g, i, SlotOf(bn))) && Apart(g, i, SlotOf(bn), i, NDIRECT);
    }
  }

  /** With one bitmap block the number is decided by what was there before. */
  lemma OneBitmapBlock(bmap: nat, f: Fs, g: Fs, i: nat, lo: nat, hi: nat)
    requires Extended(f, g, i, lo, hi) && Owned(g) && BitmapBlocks(|g.blocks|) == 1
    ensures |Maps(bmap, f, g, i, lo, hi)| == if Missing(f, i, lo, hi) == 0 then 0 else 1
  {
    MapsBounds(bmap, f, g, i, lo, hi);
    if Maps(bmap, f, g, i, lo, hi) != {} {
      var x :| x in Maps(bmap, f, g, i, lo, hi);
      assert |Maps(bmap, f, g, i, lo, hi)| >= 1 by {
        Counting.SubsetSize({x}, Maps(bmap, f, g, i, lo, hi));
      }
    }
  }
}
