module Malloc {

  /* The allocator of umalloc.c.

     Memory is counted in units of one Header.  A header at address a is size[a] and
     ptr[a]; address 0 is the null pointer, and `base` lies below the heap. */

  const SIZEOF_HEADER: nat := 8
  const MIN_CORE: nat := 4096
  const UINT: nat := 0x1_0000_0000

  // ----- The free list --------------------------------------------------------

  /** The headers in memory, and the addresses that the free list runs through. */
  datatype Heap = Heap(free: seq<int>, ptr: map<int, int>, size: map<int, int>)

  function Next(n: nat, i: nat): nat
    requires i < n
  {
    if i + 1 < n then i + 1 else 0
  }

  /** Block i points to the block after it, the last one to the first. */
  predicate Link(h: Heap, i: nat)
    requires i < |h.free|
  {
    h.free[i] in h.ptr && h.ptr[h.free[i]] == h.free[Next(|h.free|, i)]
  }

  ghost predicate Circular(h: Heap) {
    forall i: nat :: i < |h.free| ==> Link(h, i)
  }

  /** The list starts at an empty block, addresses go up, and blocks do not overlap. */
  ghost predicate Ordered(h: Heap) {
    && (forall i :: 0 <= i < |h.free| ==>
          h.free[i] in h.size && (if i == 0 then h.size[h.free[i]] == 0 else h.size[h.free[i]] > 0))
    && (forall i, j :: 0 <= i < j < |h.free| ==> h.free[i] < h.free[j] && h.free[i] + h.size[h.free[i]] <= h.free[j])
  }

  /** Block i does not touch the block after it. */
  predicate Gap(h: Heap, i: nat) {
    i + 1 < |h.free| && h.free[i] in h.size ==> h.free[i] + h.size[h.free[i]] < h.free[i + 1]
  }

  /** The list starts at base, runs upwards through memory and back to base, and
      adjacent blocks are merged. */
  ghost predicate Ring(base: int, h: Heap) {
    && base > 0 && |h.free| > 0 && h.free[0] == base
    && Circular(h) && Ordered(h) && forall i: nat :: i < |h.free| ==> Gap(h, i)
  }

  predicate InBlock(u: int, a: int, n: int) {
    a <= u < a + n
  }

  predicate InFreeBlock(u: int, h: Heap, i: nat) {
    i < |h.free| && h.free[i] in h.size && InBlock(u, h.free[i], h.size[h.free[i]])
  }

  ghost predicate InFree(u: int, h: Heap) {
    exists i: nat :: InFreeBlock(u, h, i)
  }

  ghost predicate InLive(u: int, live: map<int, int>) {
    exists b :: b in live && InBlock(u, b, live[b])
  }

  function Units(a: int, n: int): (r: set<int>)
    ensures forall u :: u in r <==> InBlock(u, a, n)
  {
    set u | a <= u < a + n && InBlock(u, a, n)
  }

  /** Where a block at address bp belongs: after free[k]. */
  ghost predicate Between(free: seq<int>, k: nat, bp: int) {
    k < |free| && free[k] < bp && (k + 1 < |free| ==> bp < free[k + 1])
  }

  lemma {:induction false} Position(free: seq<int>, bp: int) returns (k: nat)
    requires |free| > 0 && free[0] < bp && bp !in free
    requires forall i, j :: 0 <= i < j < |free| ==> free[i] < free[j]
    ensures Between(free, k, bp)
  {
    k := 0;
    while k + 1 < |free| && free[k + 1] < bp
      invariant k < |free| && free[k] < bp
    {
      k := k + 1;
    }
  }

  /** There is room for n units at bp after block k. */
  ghost predicate Fits(h: Heap, k: nat, bp: int, n: int) {
    && Between(h.free, k, bp) && n > 0 && h.free[k] in h.size
    && h.free[k] + h.size[h.free[k]] <= bp && (k + 1 < |h.free| ==> bp + n <= h.free[k + 1])
  }

  /** r is h with the block linked in, without merging. */
  ghost predicate Inserted(h: Heap, k: nat, bp: int, n: int, r: Heap) {
    && k < |h.free| && h.free[k] in h.ptr && |r.free| == |h.free| + 1
    && (forall i {:trigger r.free[i]} :: 0 <= i < |r.free| ==>
          r.free[i] == if i <= k then h.free[i] else if i == k + 1 then bp else h.free[i - 1])
    && r.ptr == h.ptr[bp := h.ptr[h.free[k]]][h.free[k] := bp]
    && r.size == h.size[bp := n]
  }

  lemma InsertedOrdered(h: Heap, k: nat, bp: int, n: int, r: Heap)
    requires Ordered(h) && Fits(h, k, bp, n) && Inserted(h, k, bp, n, r)
    ensures Ordered(r)
  {
    assert forall i :: 0 <= i <= k ==> h.free[i] <= h.free[k] < bp;
    assert forall i :: k < i < |h.free| ==> bp + n <= h.free[k + 1] <= h.free[i];
    forall i, j | 0 <= i < j < |r.free|
      ensures r.free[i] in r.size && r.free[i] < r.free[j] && r.free[i] + r.size[r.free[i]] <= r.free[j]
    {
      assert i <= k ==> r.free[i] == h.free[i];
      assert j > k + 1 ==> r.free[j] == h.free[j - 1];
    }
  }

  lemma InsertedCircular(h: Heap, k: nat, bp: int, n: int, r: Heap)
    requires Circular(h) && Ordered(h) && Fits(h, k, bp, n) && Inserted(h, k, bp, n, r)
    ensures Circular(r)
  {
    assert forall i :: 0 <= i < k ==> h.free[i] < h.free[k] < bp;
    assert forall i :: k < i < |h.free| ==> bp < h.free[k + 1] <= h.free[i];
    assert Link(h, k);
    forall i: nat | i < |r.free|
      ensures Link(r, i)
    {
      assert i != k + 1 ==> Link(h, if i <= k then i else i - 1);
    }
  }

  lemma InsertedCover(h: Heap, k: nat, bp: int, n: int, r: Heap, u: int)
    requires Ordered(h) && Fits(h, k, bp, n) && Inserted(h, k, bp, n, r)
    ensures InFree(u, r) <==> InFree(u, h) || InBlock(u, bp, n)
  {
    assert forall i :: 0 <= i < k ==> h.free[i] < h.free[k] < bp;
    assert forall i :: k < i < |h.free| ==> bp < h.free[k + 1] <= h.free[i];
    if i: nat :| InFreeBlock(u, h, i) {
      assert InFreeBlock(u, r, if i <= k then i else i + 1);
    }
    if InBlock(u, bp, n) {
      assert InFreeBlock(u, r, k + 1);
    }
    if i: nat :| InFreeBlock(u, r, i) {
      assert i != k + 1 ==> InFreeBlock(u, h, if i <= k then i else i - 1);
    }
  }

  /** r is h with block m and the block it touches turned into one. */
  ghost predicate Absorbed(h: Heap, m: nat, r: Heap) {
    && m + 1 < |h.free| == |r.free| + 1
    && h.free[m] in h.size && h.free[m + 1] in h.size && h.free[m + 1] in h.ptr
    && h.free[m] + h.size[h.free[m]] == h.free[m + 1]
    && (forall i {:trigger r.free[i]} :: 0 <= i < |r.free| ==> r.free[i] == if i <= m then h.free[i] else h.free[i + 1])
    && r.ptr == h.ptr[h.free[m] := h.ptr[h.free[m + 1]]]
    && r.size == h.size[h.free[m] := h.size[h.free[m]] + h.size[h.free[m + 1]]]
  }

  lemma AbsorbedOrdered(h: Heap, m: nat, r: Heap)
    requires Ordered(h) && Absorbed(h, m, r) && m > 0
    ensures Ordered(r)
  {
  }

  lemma AbsorbedCircular(h: Heap, m: nat, r: Heap)
    requires Circular(h) && Ordered(h) && Absorbed(h, m, r)
    ensures Circular(r)
  {
    assert forall i :: 0 <= i < |h.free| && i != m ==> h.free[i] != h.free[m];
    assert Link(h, m) && Link(h, m + 1);
    forall i: nat | i < |r.free|
      ensures Link(r, i)
    {
      assert Link(h, if i <= m then i else i + 1);
    }
  }

  lemma AbsorbedCover(h: Heap, m: nat, r: Heap, u: int)
    requires Ordered(h) && Absorbed(h, m, r)
    ensures InFree(u, r) <==> InFree(u, h)
  {
    assert forall i :: 0 <= i < |h.free| && i != m ==> h.free[i] != h.free[m];
    if i: nat :| InFreeBlock(u, h, i) {
      assert InFreeBlock(u, r, if i <= m then i else i - 1);
    }
    if i: nat :| InFreeBlock(u, r, i) {
      assert InFreeBlock(u, h, if i <= m then i else i + 1) || (i == m && InFreeBlock(u, h, m + 1));
    }
  }

  lemma InsertedGap(h: Heap, k: nat, bp: int, n: int, r: Heap, i: nat)
    requires Ordered(h) && Fits(h, k, bp, n) && Inserted(h, k, bp, n, r) && i < |r.free| && i != k && i != k + 1
    requires Gap(h, if i < k then i else i - 1)
    ensures Gap(r, i)
  {
  }

  lemma AbsorbedGap(h: Heap, m: nat, r: Heap, i: nat)
    requires Ordered(h) && Absorbed(h, m, r) && i < |r.free|
    requires Gap(h, if i < m then i else i + 1)
    ensures Gap(r, i)
  {
  }

  ghost function InsertHeap(h: Heap, k: nat, bp: int, n: int): (r: Heap)
    requires k < |h.free| && h.free[k] in h.ptr
    ensures Inserted(h, k, bp, n, r)
  {
    Heap(h.free[..k + 1] + [bp] + h.free[k + 1..],
         h.ptr[bp := h.ptr[h.free[k]]][h.free[k] := bp],
         h.size[bp := n])
  }

  ghost function AbsorbHeap(h: Heap, m: nat): (r: Heap)
    requires m + 1 < |h.free|
    requires h.free[m] in h.size && h.free[m + 1] in h.size && h.free[m + 1] in h.ptr
    requires h.free[m] + h.size[h.free[m]] == h.free[m + 1]
    ensures Absorbed(h, m, r)
  {
    Heap(h.free[..m + 1] + h.free[m + 2..],
         h.ptr[h.free[m] := h.ptr[h.free[m + 1]]],
         h.size[h.free[m] := h.size[h.free[m]] + h.size[h.free[m + 1]]])
  }

  /** The headers as the two if statements of free() leave them. */
  function MergedPtr(h: Heap, p: int, bp: int): map<int, int>
    requires p in h.ptr && h.ptr[p] in h.ptr && p in h.size && h.ptr[p] in h.size && bp in h.size
  {
    var next := h.ptr[p];
    var ptr1 := h.ptr[bp := if bp + h.size[bp] == next then h.ptr[next] else next];
    ptr1[p := if p + h.size[p] == bp then ptr1[bp] else bp]
  }

  function MergedSize(h: Heap, p: int, bp: int): map<int, int>
    requires p in h.ptr && h.ptr[p] in h.ptr && p in h.size && h.ptr[p] in h.size && bp in h.size
  {
    var next := h.ptr[p];
    var size1 := if bp + h.size[bp] == next then h.size[bp := h.size[bp] + h.size[next]] else h.size;
    if p + h.size[p] == bp then size1[p := size1[p] + size1[bp]] else size1
  }

  predicate Touches(h: Heap, m: nat) {
    m + 1 < |h.free| && h.free[m] in h.size && h.free[m] + h.size[h.free[m]] == h.free[m + 1]
  }

  ghost predicate GapsExcept(h: Heap, a: int, b: int) {
    forall i: nat :: i < |h.free| && i != a && i != b ==> Gap(h, i)
  }

  /** r is h after block m has taken in the next one, if it touches it. */
  ghost predicate Merged(h: Heap, m: nat, r: Heap) {
    if Touches(h, m) then Absorbed(h, m, r) else r == h
  }

  lemma MergeStep(h: Heap, m: nat, e: int) returns (r: Heap)
    requires Circular(h) && Ordered(h) && m < |h.free| && e < m && GapsExcept(h, m, e)
    ensures Merged(h, m, r) && Circular(r) && Ordered(r) && GapsExcept(r, -1, e)
    ensures m < |r.free| && (forall i :: 0 <= i <= m ==> r.free[i] == h.free[i])
    ensures forall u :: InFree(u, r) <==> InFree(u, h)
  {
    r := h;
    if Touches(h, m) {
      assert Link(h, m + 1);
      r := AbsorbHeap(h, m);
      AbsorbedOrdered(h, m, r);
      AbsorbedCircular(h, m, r);
      forall u
        ensures InFree(u, r) <==> InFree(u, h)
      {
        AbsorbedCover(h, m, r, u);
      }
      forall i: nat | i < |r.free| && i != e
        ensures Gap(r, i)
      {
        assert Gap(h, if i < m then i else i + 1);
        AbsorbedGap(h, m, r, i);
      }
    }
  }

  lemma InsertStep(h: Heap, k: nat, bp: int, n: int) returns (r: Heap)
    requires Circular(h) && Ordered(h) && GapsExcept(h, -1, -1) && Fits(h, k, bp, n)
    ensures Inserted(h, k, bp, n, r) && Circular(r) && Ordered(r) && GapsExcept(r, k + 1, k)
    ensures forall u :: InFree(u, r) <==> InFree(u, h) || InBlock(u, bp, n)
  {
    assert Link(h, k);
    r := InsertHeap(h, k, bp, n);
    InsertedOrdered(h, k, bp, n, r);
    InsertedCircular(h, k, bp, n, r);
    forall u
      ensures InFree(u, r) <==> InFree(u, h) || InBlock(u, bp, n)
    {
      InsertedCover(h, k, bp, n, r, u);
    }
    forall i: nat | i < |r.free| && i != k && i != k + 1
      ensures Gap(r, i)
    {
      assert Gap(h, if i < k then i else i - 1);
      InsertedGap(h, k, bp, n, r, i);
    }
  }

  /** Linking in a block and merging it with its neighbours keeps the list circular,
      ordered and fully merged, and adds exactly its units to the free ones. */
  lemma FreeKeepsRing(base: int, h: Heap, k: nat, bp: int) returns (r: Heap)
    requires Ring(base, h) && bp in h.size && Fits(h, k, bp, h.size[bp])
    ensures Link(h, k) && Link(h, Next(|h.free|, k)) && Ring(base, r) && h.free[k] in r.free
    ensures r.ptr == MergedPtr(h, h.free[k], bp) && r.size == MergedSize(h, h.free[k], bp)
    ensures forall u :: InFree(u, r) <==> InFree(u, h) || InBlock(u, bp, h.size[bp])
  {
    assert Link(h, k) && Link(h, Next(|h.free|, k));
    var h1 := InsertStep(h, k, bp, h.size[bp]);
    var h2 := MergeStep(h1, k + 1, k);
    r := MergeStep(h2, k, -1);
    assert h1.free[0] == base && h1.free[k] == h.free[k];
    MergedHeaders(base, h, k, bp, h1, h2, r);
  }

  lemma MergedHeaders(base: int, h: Heap, k: nat, bp: int, h1: Heap, h2: Heap, r: Heap)
    requires Ring(base, h) && bp in h.size && Fits(h, k, bp, h.size[bp])
    requires Link(h, k) && Link(h, Next(|h.free|, k))
    requires Inserted(h, k, bp, h.size[bp], h1) && Merged(h1, k + 1, h2) && Merged(h2, k, r)
    ensures r.ptr == MergedPtr(h, h.free[k], bp) && r.size == MergedSize(h, h.free[k], bp)
  {
    var p := h.free[k];
    var next := h.ptr[p];
    FirstMerge(base, h, k, bp, h1, h2, p, next);
    assert Touches(h2, k) <==> p + h.size[p] == bp;
  }

  lemma FirstMerge(base: int, h: Heap, k: nat, bp: int, h1: Heap, h2: Heap, p: int, next: int)
    requires Ring(base, h) && bp in h.size && Fits(h, k, bp, h.size[bp])
    requires Link(h, k) && Link(h, Next(|h.free|, k)) && p == h.free[k] && next == h.ptr[p]
    requires Inserted(h, k, bp, h.size[bp], h1) && Merged(h1, k + 1, h2)
    ensures k + 1 < |h2.free| && h2.free[k] == p && h2.free[k + 1] == bp && next in h.ptr && next in h.size
    ensures var touches := bp + h.size[bp] == next;
            && h2.ptr == h.ptr[p := bp][bp := if touches then h.ptr[next] else next]
            && h2.size == if touches then h.size[bp := h.size[bp] + h.size[next]] else h.size
  {
    assert h1.free[k] == p && h1.free[k + 1] == bp && p < bp;
    assert next == h.free[Next(|h.free|, k)];
    assert k + 1 < |h.free| ==> h1.free[k + 2] == h.free[k + 1];
    assert h.size[bp := h.size[bp]] == h.size;
    assert Touches(h1, k + 1) <==> bp + h.size[bp] == next;
  }

  // ----- Taking blocks off the list -------------------------------------------

  /** r is h with block j taken off the list. */
  ghost predicate Removed(h: Heap, j: nat, r: Heap) {
    && 0 < j < |h.free| == |r.free| + 1 && h.free[j] in h.ptr
    && (forall i {:trigger r.free[i]} :: 0 <= i < |r.free| ==> r.free[i] == if i < j then h.free[i] else h.free[i + 1])
    && r.ptr == h.ptr[h.free[j - 1] := h.ptr[h.free[j]]] && r.size == h.size
  }

  lemma RemoveStep(base: int, h: Heap, j: nat) returns (r: Heap)
    requires Ring(base, h) && 0 < j < |h.free|
    ensures Link(h, j) && Removed(h, j, r) && Ring(base, r)
    ensures forall u :: InFree(u, r) <==> InFree(u, h) && !InBlock(u, h.free[j], h.size[h.free[j]])
  {
    assert Link(h, j) && Link(h, j - 1);
    r := Heap(h.free[..j] + h.free[j + 1..], h.ptr[h.free[j - 1] := h.ptr[h.free[j]]], h.size);
    assert Removed(h, j, r);
    RemovedRing(base, h, j, r);
    forall u
      ensures InFree(u, r) <==> InFree(u, h) && !InBlock(u, h.free[j], h.size[h.free[j]])
    {
      RemovedCover(h, j, r, u);
    }
  }

  lemma RemovedRing(base: int, h: Heap, j: nat, r: Heap)
    requires Ring(base, h) && Removed(h, j, r)
    ensures Ring(base, r)
  {
    assert Link(h, j) && Link(h, j - 1);
    assert forall i :: 0 <= i < |h.free| && i != j - 1 ==> h.free[i] != h.free[j - 1];
    forall i: nat | i < |r.free|
      ensures Link(r, i) && Gap(r, i)
    {
      assert Link(h, if i < j then i else i + 1) && Gap(h, if i < j then i else i + 1);
    }
  }

  lemma RemovedCover(h: Heap, j: nat, r: Heap, u: int)
    requires Ordered(h) && Removed(h, j, r)
    ensures InFree(u, r) <==> InFree(u, h) && !InBlock(u, h.free[j], h.size[h.free[j]])
  {
    if i: nat :| InFreeBlock(u, r, i) {
      assert InFreeBlock(u, h, if i < j then i else i + 1);
    }
    if i: nat :| InFreeBlock(u, h, i) && i != j {
      assert InFreeBlock(u, r, if i < j then i else i - 1);
    }
  }

  /** h with the last n units cut off block j. */
  function Cut(h: Heap, j: nat, n: int): Heap
    requires j < |h.free| && h.free[j] in h.size
  {
    var p, rest := h.free[j], h.size[h.free[j]] - n;
    h.(size := h.size[p := rest][p + rest := n])
  }

  lemma CutStep(base: int, h: Heap, j: nat, n: int)
    requires Ring(base, h) && j < |h.free| && 0 < n < h.size[h.free[j]]
    ensures Ring(base, Cut(h, j, n))
    ensures var q := h.free[j] + h.size[h.free[j]] - n;
            forall u :: InFree(u, Cut(h, j, n)) <==> InFree(u, h) && !InBlock(u, q, n)
  {
    var r, q := Cut(h, j, n), h.free[j] + h.size[h.free[j]] - n;
    assert forall i :: 0 <= i < |h.free| ==> h.free[i] != q;
    assert forall i :: 0 <= i < |h.free| && i != j ==> h.free[i] != h.free[j];
    forall i: nat | i < |r.free|
      ensures Link(r, i) && Gap(r, i)
    {
      assert Link(h, i) && Gap(h, i);
    }
    forall u
      ensures InFree(u, r) <==> InFree(u, h) && !InBlock(u, q, n)
    {
      CutCover(base, h, j, n, r, q, u);
    }
  }

  lemma CutCover(base: int, h: Heap, j: nat, n: int, r: Heap, q: int, u: int)
    requires Ring(base, h) && j < |h.free| && 0 < n < h.size[h.free[j]]
    requires r == Cut(h, j, n) && q == h.free[j] + h.size[h.free[j]] - n
    requires forall i :: 0 <= i < |h.free| ==> h.free[i] != q
    ensures InFree(u, r) <==> InFree(u, h) && !InBlock(u, q, n)
  {
    if i: nat :| InFreeBlock(u, r, i) {
      assert InFreeBlock(u, h, i);
    }
    if i: nat :| InFreeBlock(u, h, i) {
      assert InFreeBlock(u, r, i) || InBlock(u, q, n);
    }
  }

  // ----- Conservation ---------------------------------------------------------

  /** Live blocks are disjoint, and free and live blocks together are exactly the
      units obtained from sbrk. */
  ghost predicate Conserved(base: int, owned: set<int>, free: set<int>, live: map<int, int>, size: map<int, int>) {
    && (forall u :: u in owned ==> u > base)
    && free <= owned
    && (forall b :: b in live ==> live[b] > 0 && b in size && size[b] == live[b])
    && (forall b, u :: b in live && InBlock(u, b, live[b]) ==> u in owned && u !in free)
    && (forall b, c, u :: b in live && c in live && InBlock(u, b, live[b]) && InBlock(u, c, live[c]) ==> b == c)
    && (forall u :: u in owned && u !in free ==> InLive(u, live))
  }

  /** Only the headers of live blocks matter. */
  lemma OtherHeaders(base: int, owned: set<int>, free: set<int>, live: map<int, int>,
                     size: map<int, int>, size': map<int, int>)
    requires Conserved(base, owned, free, live, size)
    requires forall b :: b in live ==> b in size' && size'[b] == size[b]
    ensures Conserved(base, owned, free, live, size')
  {
  }

  lemma GiveBack(base: int, owned: set<int>, free: set<int>, live: map<int, int>, size: map<int, int>, b: int)
    requires Conserved(base, owned, free, live, size) && b in live
    ensures Conserved(base, owned, free + Units(b, live[b]), live - {b}, size)
  {
  }

  lemma Take(base: int, owned: set<int>, free: set<int>, live: map<int, int>, size: map<int, int>, q: int, n: int)
    requires Conserved(base, owned, free, live, size) && n > 0 && Units(q, n) <= free
    requires q in size && size[q] == n
    ensures q !in live
    ensures Conserved(base, owned, free - Units(q, n), live[q := n], size)
  {
    assert InBlock(q, q, n);
    if q in live {
      assert InBlock(q, q, live[q]);
    }
    var live' := live[q := n];
    forall u | u in owned && u !in free - Units(q, n)
      ensures InLive(u, live')
    {
      if u in free {
        assert q in live' && InBlock(u, q, live'[q]);
      } else {
        var c :| c in live && InBlock(u, c, live[c]);
        assert c in live' && live'[c] == live[c];
      }
    }
  }

  lemma Grow(base: int, owned: set<int>, free: set<int>, live: map<int, int>, size: map<int, int>, q: int, n: int)
    requires Conserved(base, owned, free, live, size) && n > 0 && q > base && Units(q, n) !! owned
    requires q in size && size[q] == n
    ensures q !in live
    ensures Conserved(base, owned + Units(q, n), free, live[q := n], size)
  {
    assert InBlock(q, q, n);
    if q in live {
      assert InBlock(q, q, live[q]);
    }
    var live' := live[q := n];
    forall u | u in owned + Units(q, n) && u !in free
      ensures InLive(u, live')
    {
      if u in Units(q, n) {
        assert q in live' && InBlock(u, q, live'[q]);
      } else {
        var c :| c in live && InBlock(u, c, live[c]);
        assert c in live' && live'[c] == live[c];
      }
    }
  }

  // ----- umalloc.c ------------------------------------------------------------

  class Allocator {
    const base: int
    var freep: int
    var ptr: map<int, int>
    var size: map<int, int>

    // The addresses on the free list, from base upwards.
    ghost var free: seq<int>
    // All units obtained from sbrk, and those of them that are free.
    ghost var owned: set<int>
    ghost var freeUnits: set<int>
    // The blocks handed out and not yet freed, with their sizes in units.
    ghost var live: map<int, int>

    ghost function H(): Heap
      reads this
    {
      Heap(free, ptr, size)
    }

    ghost predicate Listed()
      reads this
    {
      Ring(base, H()) && freep in free && (forall u :: u in freeUnits <==> InFree(u, H()))
    }

    ghost predicate Valid()
      reads this
    {
      && base > 0
      && (if freep == 0 then live == map[] && owned == {} && freeUnits == {}
          else Listed() && Conserved(base, owned, freeUnits, live, size))
    }

    constructor (base: int)
      requires base > 0
      ensures Valid() && freep == 0 && live == map[] && owned == {} && this.base == base
    {
      this.base := base;
      freep, ptr, size := 0, map[], map[];
      free, owned, freeUnits, live := [], {}, {}, map[];
    }

    /** The search loop of free: it stops at the block bp belongs after, wherever
        freep was. */
    method FindPlace(bp: int) returns (p: int, ghost k: nat)
      requires Listed() && base < bp && bp !in free
      ensures p in free && p in ptr && Between(free, k, bp) && p == free[k]
    {
      k := Position(free, bp);
      p := freep;
      ghost var i: nat :| i < |free| && free[i] == p;
      assert Link(H(), i);
      while !(bp > p && bp < ptr[p])
        invariant 0 <= i < |free| && p == free[i] && Link(H(), i)
        decreases if i <= k then k - i else k - i + |free|
      {
        if p >= ptr[p] && (bp > p || bp < ptr[p]) {
          break;
        }
        p := ptr[p];
        i := Next(|free|, i);
        assert Link(H(), i);
      }
      assert i == k;
    }

    lemma LiveIsNotFree(b: int)
      requires Listed() && Conserved(base, owned, freeUnits, live, size) && b in live
      ensures b > base && b !in free
    {
      assert InBlock(b, b, live[b]);
      assert b in owned && b !in freeUnits && !InFree(b, H());
      forall i: nat | i < |free|
        ensures free[i] != b
      {
        assert !InFreeBlock(b, H(), i);
      }
    }

    lemma LiveFits(b: int, k: nat)
      requires Listed() && Conserved(base, owned, freeUnits, live, size) && b in live && Between(free, k, b)
      ensures Fits(H(), k, b, live[b])
    {
      assert InBlock(b, b, live[b]);
      if free[k] + size[free[k]] > b {
        assert InFreeBlock(b, H(), k) && InFree(b, H());
      }
      if k + 1 < |free| && b + live[b] > free[k + 1] {
        assert InBlock(free[k + 1], b, live[b]) && InFreeBlock(free[k + 1], H(), k + 1) && InFree(free[k + 1], H());
      }
    }

    /** The two if statements of free(). */
    method MergeInto(p: int, bp: int)
      requires p in ptr && ptr[p] in ptr && p in size && ptr[p] in size && bp in size && p != bp && ptr[p] != bp
      modifies `ptr, `size
      ensures ptr == MergedPtr(old(H()), p, bp) && size == MergedSize(old(H()), p, bp)
    {
      if bp + size[bp] == ptr[p] {
        size := size[bp := size[bp] + size[ptr[p]]];
        ptr := ptr[bp := ptr[ptr[p]]];
      } else {
        ptr := ptr[bp := ptr[p]];
      }
      if p + size[p] == bp {
        size := size[p := size[p] + size[bp]];
        ptr := ptr[p := ptr[bp]];
      } else {
        ptr := ptr[p := bp];
      }
    }

    lemma FreeStep(bp: int, k: nat) returns (r: Heap, units: set<int>, rest: map<int, int>)
      requires Listed() && Conserved(base, owned, freeUnits, live, size) && bp in live && Between(free, k, bp)
      ensures Link(H(), k) && Link(H(), Next(|free|, k)) && bp !in free && bp in size
      ensures Ring(base, r) && free[k] in r.free
      ensures r.ptr == MergedPtr(H(), free[k], bp) && r.size == MergedSize(H(), free[k], bp)
      ensures units == freeUnits + Units(bp, live[bp]) && rest == live - {bp}
      ensures forall u :: u in units <==> InFree(u, r)
      ensures Conserved(base, owned, units, rest, r.size)
    {
      LiveIsNotFree(bp);
      LiveFits(bp, k);
      r := FreeKeepsRing(base, H(), k, bp);
      GiveBack(base, owned, freeUnits, live, size, bp);
      forall b | b in live
        ensures b != free[k]
      {
        LiveIsNotFree(b);
      }
      units, rest := freeUnits + Units(bp, live[bp]), live - {bp};
      OtherHeaders(base, owned, units, rest, size, r.size);
    }

    /** free(): the block goes back, merged with the free blocks around it. */
    method Free(ap: int)
      requires Valid() && ap - 1 in live
      modifies `freep, `ptr, `size, `free, `freeUnits, `live
      ensures Valid() && freep != 0
      ensures live == old(live) - {ap - 1}
      ensures freeUnits == old(freeUnits) + Units(ap - 1, old(live)[ap - 1])
    {
      var bp := ap - 1;
      LiveIsNotFree(bp);
      var p, k := FindPlace(bp);
      ghost var r, units, rest := FreeStep(bp, k);
      Relink(p, bp, r, units, rest);
    }

    /** The end of free(): the list becomes r. */
    method Relink(p: int, bp: int, ghost r: Heap, ghost units: set<int>, ghost rest: map<int, int>)
      requires p in ptr && ptr[p] in ptr && p in size && ptr[p] in size && bp in size && p != bp && ptr[p] != bp
      requires r.ptr == MergedPtr(H(), p, bp) && r.size == MergedSize(H(), p, bp)
      modifies `freep, `ptr, `size, `free, `freeUnits, `live
      ensures freep == p && H() == r && freeUnits == units && live == rest
    {
      MergeInto(p, bp);
      freep, freeUnits, live, free := p, units, rest, r.free;
    }

    /** A run of free units lies in one block, since adjacent blocks are merged. */
    lemma RunInOneBlock(a: int, n: int) returns (i: nat)
      requires Listed() && n > 0 && Units(a, n) <= freeUnits
      ensures i < |free| && size[free[i]] >= n
    {
      assert a in Units(a, n);
      i :| InFreeBlock(a, H(), i);
      var end := free[i] + size[free[i]];
      assert Gap(H(), i);
      assert forall j: nat :: !InFreeBlock(end, H(), j);
      assert end !in freeUnits;
    }

    /** morecore, where sbrk answers `core`, or 0 for its failure.  nu is at least the
        request; the result is freep or 0. */
    method Morecore(nunits: int, core: int) returns (p: int)
      requires Valid() && freep != 0 && nunits > 0
      requires core == 0 || (core > base && Units(core, CoreUnits(nunits)) !! owned)
      modifies this
      ensures Valid() && freep != 0 && live == old(live)
      ensures p == 0 <==> core == 0
      ensures core == 0 ==> unchanged(this)
      ensures core != 0 ==> p == freep && owned == old(owned) + Units(core, CoreUnits(nunits))
      ensures core != 0 ==> HasBlock(nunits)
    {
      if core == 0 {
        return 0;
      }
      AddCore(core, CoreUnits(nunits));
      Free(core + 1);
      assert live == old(live);
      ghost var i := RunInOneBlock(core, CoreUnits(nunits));
      p := freep;
    }

    /** The units from sbrk get a header, as if malloc had handed them out. */
    method AddCore(core: int, nu: int)
      requires Valid() && freep != 0 && nu > 0 && core > base && Units(core, nu) !! owned
      modifies `size, `owned, `live
      ensures Valid() && core !in old(live)
      ensures owned == old(owned) + Units(core, nu) && live == old(live)[core := nu]
    {
      CoreIsNotListed(core, nu);
      size := size[core := nu];
      Grow(base, owned, freeUnits, live, size, core, nu);
      owned, live := owned + Units(core, nu), live[core := nu];
      assert H() == Heap(free, ptr, size);
    }

    lemma CoreIsNotListed(core: int, nu: int)
      requires Listed() && Conserved(base, owned, freeUnits, live, size)
      requires core > base && nu > 0 && Units(core, nu) !! owned
      ensures core !in live
      ensures var h := Heap(free, ptr, size[core := nu]);
              Ring(base, h) && (forall u :: u in freeUnits <==> InFree(u, h))
      ensures Conserved(base, owned, freeUnits, live, size[core := nu])
    {
      assert core in Units(core, nu);
      assert core !in live ==> forall b :: b in live ==> size[core := nu][b] == size[b];
      var h := Heap(free, ptr, size[core := nu]);
      if core in live {
        assert InBlock(core, core, live[core]);
      }
      assert core !in freeUnits && !InFree(core, H());
      forall i: nat | i < |free|
        ensures free[i] != core
      {
        assert !InFreeBlock(core, H(), i);
      }
      forall i: nat | i < |free|
        ensures Link(h, i) && Gap(h, i)
      {
        assert Link(H(), i) && Gap(H(), i);
      }
      forall u
        ensures InFree(u, h) <==> InFree(u, H())
      {
        if i: nat :| InFreeBlock(u, h, i) {
          assert InFreeBlock(u, H(), i);
        }
        if i: nat :| InFreeBlock(u, H(), i) {
          assert InFreeBlock(u, h, i);
        }
      }
    }

    /** The block fits exactly: it leaves the list. */
    lemma TakeWhole(j: nat) returns (r: Heap)
      requires Listed() && Conserved(base, owned, freeUnits, live, size) && 0 < j < |free|
      ensures Link(H(), j) && Link(H(), j - 1)
      ensures r == Heap(r.free, ptr[free[j - 1] := ptr[free[j]]], size) && Ring(base, r) && free[j - 1] in r.free
      ensures free[j] !in live && free[j] > base
      ensures var taken := Units(free[j], size[free[j]]);
              && (forall u :: u in freeUnits - taken <==> InFree(u, r))
              && Conserved(base, owned, freeUnits - taken, live[free[j] := size[free[j]]], size)
    {
      assert Link(H(), j) && Link(H(), j - 1);
      r := RemoveStep(base, H(), j);
      assert r.free[j - 1] == free[j - 1];
      TakenAreFree(H(), j, free[j], size[free[j]]);
      Take(base, owned, freeUnits, live, size, free[j], size[free[j]]);
    }

    /** The block is larger: its upper end gets a header of its own. */
    lemma TakeEnd(j: nat, n: int)
      requires Listed() && Conserved(base, owned, freeUnits, live, size) && 0 < j < |free| && 0 < n < size[free[j]]
      ensures var q, r := free[j] + size[free[j]] - n, Cut(H(), j, n);
              && q !in live && q > base && Ring(base, r)
              && (forall u :: u in freeUnits - Units(q, n) <==> InFree(u, r))
              && Conserved(base, owned, freeUnits - Units(q, n), live[q := n], r.size)
    {
      var q := free[j] + size[free[j]] - n;
      CutStep(base, H(), j, n);
      CutHeaders(j, n);
      TakenAreFree(H(), j, q, n);
      Take(base, owned, freeUnits, live, Cut(H(), j, n).size, q, n);
    }

    /** malloc takes the whole of block j. */
    method Unlink(ghost j: nat, prevp: int, p: int)
      requires Valid() && freep != 0 && 0 < j < |free| && p == free[j] && prevp == free[j - 1]
      modifies `ptr, `free, `freeUnits, `live, `freep
      ensures Valid() && freep == prevp && freep > 0 && p > 0
      ensures p !in old(live) && live == old(live)[p := size[p]]
    {
      ghost var r := TakeWhole(j);
      ptr := ptr[prevp := ptr[p]];
      free, freeUnits, live := r.free, freeUnits - Units(p, size[p]), live[p := size[p]];
      freep := prevp;
      assert H() == r;
    }

    /** malloc takes the last n units of block j. */
    method CutOff(ghost j: nat, prevp: int, p: int, n: int) returns (q: int)
      requires Valid() && freep != 0 && 0 < j < |free| && p == free[j] && prevp == free[j - 1] && 0 < n < size[p]
      modifies `size, `freeUnits, `live, `freep
      ensures Valid() && freep == prevp && freep > 0 && q > 0
      ensures q !in old(live) && live == old(live)[q := n]
    {
      TakeEnd(j, n);
      ghost var r := Cut(H(), j, n);
      size := size[p := size[p] - n];
      q := p + size[p];
      size := size[q := n];
      freeUnits, live := freeUnits - Units(q, n), live[q := n];
      freep := prevp;
      assert H() == r;
    }

    lemma TakenAreFree(h: Heap, j: nat, p: int, n: int)
      requires j < |h.free| && h.free[j] in h.size && (forall u :: u in freeUnits <==> InFree(u, h))
      requires h.free[j] <= p && p + n <= h.free[j] + h.size[h.free[j]]
      ensures Units(p, n) <= freeUnits
    {
      forall u | u in Units(p, n)
        ensures u in freeUnits
      {
        assert InFreeBlock(u, h, j) && InFree(u, h);
      }
    }

    /** The new headers are those of no live block. */
    lemma CutHeaders(j: nat, n: int)
      requires Listed() && Conserved(base, owned, freeUnits, live, size) && j < |free| && 0 < n < size[free[j]]
      ensures Conserved(base, owned, freeUnits, live, Cut(H(), j, n).size)
    {
      var q := free[j] + size[free[j]] - n;
      assert InFreeBlock(q, H(), j) && InFree(q, H());
      forall b | b in live
        ensures b != q && b != free[j]
      {
        LiveIsNotFree(b);
        assert InBlock(b, b, live[b]);
      }
      OtherHeaders(base, owned, freeUnits, live, size, Cut(H(), j, n).size);
    }

    /** The first call makes the list of base alone. */
    method StartList()
      requires Valid() && freep == 0
      modifies this
      ensures Valid() && freep != 0 && live == old(live) && owned == old(owned)
    {
      freep := base;
      ptr := ptr[base := base];
      size := size[base := 0];
      free := [base];
      assert Link(H(), 0) && Gap(H(), 0);
    }

    /** One round of the search loop of malloc, from freep back to freep. */
    method Search(nunits: int) returns (prevp: int, p: int, found: bool, ghost j: nat)
      requires Listed() && nunits > 0
      ensures found ==> 0 < j < |free| && p == free[j] && prevp == free[j - 1] && size[p] >= nunits
      ensures !found ==> !HasBlock(nunits) && forall i :: 0 <= i < |free| ==> free[i] in size && size[free[i]] < nunits
    {
      ghost var f := FindFreep();
      ghost var m := 1;
      CursorStart(f, nunits);
      prevp := freep;
      p := ptr[prevp];
      while true
        invariant Cursor(f, m, prevp, p, nunits)
        decreases |free| - m
      {
        CursorFacts(f, m, prevp, p, nunits);
        if size[p] >= nunits {
          return prevp, p, true, After(|free|, f, m);
        }
        if p == freep {
          return prevp, p, false, 0;
        }
        CursorNext(f, m, prevp, p, nunits);
        prevp := p;
        p := ptr[p];
        m := m + 1;
      }
    }

    /** malloc, where sbrk would answer `core`.  It fails only when no free block is
        large enough and sbrk fails; otherwise it hands out a block of exactly
        NUnits(nbytes) units that was not handed out before.  The search goes round
        the list at most twice, calling morecore at most once. */
    method Malloc(nbytes: nat, core: int) returns (ap: int)
      requires Valid() && nbytes < UINT
      requires core == 0 || (core > base && Units(core, CoreUnits(NUnits(nbytes))) !! owned)
      modifies this
      ensures Valid() && freep != 0
      ensures ap == 0 ==> core == 0 && live == old(live) && owned == old(owned)
      ensures ap == 0 ==> forall i :: 0 <= i < |free| ==> free[i] in size && size[free[i]] < NUnits(nbytes)
      ensures ap != 0 ==> ap - 1 !in old(live) && live == old(live)[ap - 1 := NUnits(nbytes)]
      ensures owned == old(owned) || (core != 0 && owned == old(owned) + Units(core, CoreUnits(NUnits(nbytes))))
    {
      var nunits := NUnits(nbytes);
      if freep == 0 {
        StartList();
      }
      ghost var grown := false;
      while true
        invariant Valid() && freep != 0 && live == old(live)
        invariant if grown then core != 0 && owned == old(owned) + Units(core, CoreUnits(nunits)) else owned == old(owned)
        invariant grown ==> HasBlock(nunits)
        decreases if grown then 0 else 1
      {
        ap := Round(nunits);
        if ap != 0 {
          return;
        }
        var p := Morecore(nunits, core);
        if p == 0 {
          return 0;
        }
        grown := true;
      }
    }

    /** One round of the list, which hands out a block if one is large enough. */
    method Round(nunits: int) returns (ap: int)
      requires Valid() && freep != 0 && nunits > 0
      modifies `freep, `ptr, `size, `free, `freeUnits, `live
      ensures Valid() && freep != 0
      ensures ap != 0 ==> ap - 1 !in old(live) && live == old(live)[ap - 1 := nunits]
      ensures ap == 0 ==> unchanged(this) && !HasBlock(nunits)
      ensures ap == 0 ==> forall i :: 0 <= i < |free| ==> free[i] in size && size[free[i]] < nunits
    {
      var prevp, p, found, j := Search(nunits);
      if !found {
        return 0;
      }
      if size[p] == nunits {
        Unlink(j, prevp, p);
      } else {
        p := CutOff(j, prevp, p, nunits);
      }
      ap := p + 1;
    }

    ghost predicate HasBlock(nunits: int)
      reads this
    {
      exists i :: 0 <= i < |free| && free[i] in size && size[free[i]] >= nunits
    }

    /** The search, m steps after freep = free[f]: every block it has passed since
        freep is too small. */
    ghost predicate Cursor(f: nat, m: nat, prevp: int, p: int, nunits: int)
      reads this
    {
      && f < |free| && free[f] == freep && 1 <= m <= |free|
      && prevp == free[After(|free|, f, m - 1)] && p == free[After(|free|, f, m)]
      && forall x {:trigger After(|free|, f, x)} :: 1 <= x < m ==>
           free[After(|free|, f, x)] in size && size[free[After(|free|, f, x)]] < nunits
    }

    lemma FindFreep() returns (f: nat)
      requires freep in free
      ensures f < |free| && free[f] == freep
    {
      f :| 0 <= f < |free| && free[f] == freep;
    }

    lemma CursorStart(f: nat, nunits: int)
      requires Listed() && f < |free| && free[f] == freep
      ensures freep in ptr && Cursor(f, 1, freep, ptr[freep], nunits)
    {
      assert Link(H(), f);
    }

    lemma CursorNext(f: nat, m: nat, prevp: int, p: int, nunits: int)
      requires Listed() && Cursor(f, m, prevp, p, nunits) && m < |free| && p in size && size[p] < nunits
      ensures p in ptr && Cursor(f, m + 1, p, ptr[p], nunits)
    {
      assert Link(H(), After(|free|, f, m));
    }

    /** The search is back at freep exactly after one round, and then it has seen
        every block; a block that is taken has its predecessor in prevp. */
    lemma CursorFacts(f: nat, m: nat, prevp: int, p: int, nunits: int)
      requires Listed() && Cursor(f, m, prevp, p, nunits) && nunits > 0
      ensures p in size && p in ptr && (p == freep <==> m == |free|)
      ensures m == |free| && size[p] < nunits ==> forall i :: 0 <= i < |free| ==> free[i] in size && size[free[i]] < nunits
      ensures size[p] >= nunits ==>
                var j := After(|free|, f, m); 0 < j && free[j] == p && prevp == free[j - 1]
    {
      var j := After(|free|, f, m);
      assert Link(H(), j);
      if m == |free| && size[p] < nunits {
        forall i | 0 <= i < |free|
          ensures free[i] in size && size[free[i]] < nunits
        {
          assert i == After(|free|, f, if i > f then i - f else i - f + |free|);
        }
      }
    }
  }

  function CoreUnits(nunits: int): int {
    if nunits < MIN_CORE then MIN_CORE else nunits
  }

  /** The position m blocks after position f. */
  function After(n: nat, f: nat, m: nat): (r: nat)
    requires f < n && m <= n
    ensures r < n
  {
    if f + m < n then f + m else f + m - n
  }

  /** The units malloc looks for: the request rounded up, and one for the header,
      in 32-bit arithmetic. */
  function NUnits(nbytes: nat): (n: nat)
    ensures n > 0
  {
    (nbytes + SIZEOF_HEADER - 1) % UINT / SIZEOF_HEADER + 1
  }

  /** The block is large enough exactly when the rounding does not wrap around. */
  lemma LargeEnoughIff(nbytes: nat)
    requires nbytes < UINT
    ensures (NUnits(nbytes) - 1) * SIZEOF_HEADER >= nbytes <==> nbytes <= UINT - SIZEOF_HEADER
  {
  }

  /** What morecore passes to sbrk for nu units, as sbrk reads it: a 32-bit int. */
  function SbrkArgument(nu: nat): int {
    var bytes := nu * SIZEOF_HEADER % UINT;
    if bytes < UINT / 2 then bytes else bytes - UINT
  }

  /** sbrk is asked for the units that morecore goes on to use exactly when they
      come to less than 2 GB. */
  lemma CoreIsAskedForIff(nu: nat)
    ensures SbrkArgument(nu) == nu * SIZEOF_HEADER <==> nu * SIZEOF_HEADER < UINT / 2
  {
  }
}
