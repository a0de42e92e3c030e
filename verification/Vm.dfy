module Vm {

  /* Address spaces: the free list of page frames of kalloc.c and the two-level page
     tables of vm.c.  Addresses are page numbers: frames of physical memory, and pages of
     the virtual address space, page v being entry v % 1024 of page table v / 1024. */

  const NPT: nat := 1024           // entries of a directory or a table
  const UPAGES: nat := 524288      // KERNBASE / PGSIZE
  const VPAGES: nat := 1048576

  type Byte = b: int | 0 <= b < 256

  datatype Pte = Pte(present: bool, frame: nat, flags: nat)

  const NONE: Pte := Pte(false, 0, 0)
  const PWU: nat := 6              // PTE_W | PTE_U

  /** What is in a frame: junk in a free one, bytes of a process, or entries. */
  datatype Frame = Junk | Page(data: seq<Byte>) | Table(entries: seq<Pte>)

  /** Frames from low on are handed out by kalloc; free is its list. */
  datatype Mem = Mem(low: nat, frames: seq<Frame>, free: seq<nat>)

  /** The address space with directory pd: its page tables, its entries, and all the
      frames that it uses. */
  datatype Space = Space(pd: nat, tables: map<nat, nat>, ptes: map<nat, Pte>, own: set<nat>)

  /** What an address space uses a frame for. */
  datatype Use = Dir | Tab(x: nat) | Usr(v: nat)

  predicate Uses(a: Space, u: Use) {
    match u
    case Dir => true
    case Tab(x) => x in a.tables
    case Usr(v) => v in a.ptes && v < UPAGES
  }

  function FrameOf(a: Space, u: Use): nat
    requires Uses(a, u)
  {
    match u
    case Dir => a.pd
    case Tab(x) => a.tables[x]
    case Usr(v) => a.ptes[v].frame
  }

  ghost predicate OwnRight(a: Space, f: nat) {
    f in a.own <==> exists u: Use :: Uses(a, u) && FrameOf(a, u) == f
  }

  lemma OwnUse(a: Space, u: Use)
    requires Uses(a, u) && OwnRight(a, FrameOf(a, u))
    ensures FrameOf(a, u) in a.own
  {
  }

  /** Page table x is in frame f. */
  function WithTable(a: Space, x: nat, f: nat): Space {
    a.(tables := a.tables[x := f], own := a.own + {f})
  }

  /** Page v has the entry. */
  function WithPte(a: Space, v: nat, pte: Pte): Space {
    a.(ptes := a.ptes[v := pte], own := a.own + UserFrame(v, pte.frame))
  }

  /** User page v has no entry. */
  function WithoutPte(a: Space, v: nat): Space {
    if v in a.ptes && v < UPAGES then a.(ptes := a.ptes - {v}, own := a.own - {a.ptes[v].frame}) else a
  }

  function UserFrame(v: nat, f: nat): set<nat> {
    if v < UPAGES then {f} else {}
  }

  predicate IsDirectory(fr: Frame, tables: map<nat, nat>) {
    && fr.Table? && |fr.entries| == NPT
    && forall x :: 0 <= x < NPT ==> fr.entries[x] == if x in tables then Pte(true, tables[x], PWU) else NONE
  }

  predicate IsTable(fr: Frame, ptes: map<nat, Pte>, x: nat) {
    && fr.Table? && |fr.entries| == NPT
    && forall y :: 0 <= y < NPT ==> fr.entries[y] == if At(x, y) in ptes then ptes[At(x, y)] else NONE
  }

  /** The page of entry y of page table x. */
  function At(x: nat, y: nat): nat {
    x * NPT + y
  }

  /** The frame of a use is not free, and holds what it should. */
  predicate InMemory(m: Mem, a: Space, u: Use) {
    Uses(a, u) ==>
      var f := FrameOf(a, u);
      && m.low <= f < |m.frames| && f !in m.free
      && match u
         case Dir => IsDirectory(m.frames[f], a.tables)
         case Tab(x) => IsTable(m.frames[f], a.ptes, x)
         case Usr(v) => m.frames[f].Page?
  }

  predicate OneUse(a: Space, u: Use, w: Use) {
    Uses(a, u) && Uses(a, w) && FrameOf(a, u) == FrameOf(a, w) ==> u == w
  }

  predicate KeysRight(a: Space) {
    && (forall x :: x in a.tables ==> x < NPT)
    && (forall v :: v in a.ptes ==> v / NPT in a.tables && a.ptes[v].present)
  }

  /** Memory holds the address space, each frame of it having one use. */
  ghost predicate Holds(m: Mem, a: Space) {
    && KeysRight(a)
    && (forall f: nat :: OwnRight(a, f))
    && (forall u: Use :: InMemory(m, a, u))
    && (forall u: Use, w: Use :: OneUse(a, u, w))
  }

  predicate FreeRight(m: Mem) {
    && (forall i :: 0 <= i < |m.free| ==> m.low <= m.free[i] < |m.frames|)
    && (forall i, j :: 0 <= i < j < |m.free| ==> m.free[i] != m.free[j])
  }

  function Free(m: Mem): set<nat> {
    set f | f in m.free
  }

  // ----- Elementary changes ---------------------------------------------------

  /** What an address space needs of memory: its frames are the same, and not free. */
  lemma SameHolds(m: Mem, m': Mem, a: Space)
    requires Holds(m, a) && m'.low == m.low && |m'.frames| == |m.frames|
    requires forall f :: f in a.own && f < |m.frames| ==> m'.frames[f] == m.frames[f] && f !in m'.free
    ensures Holds(m', a)
  {
    forall u: Use
      ensures InMemory(m', a, u)
    {
      assert InMemory(m, a, u);
      if Uses(a, u) {
        OwnUse(a, u);
      }
    }
  }

  function Zeros(): (z: seq<Pte>)
    ensures |z| == NPT && forall i :: 0 <= i < NPT ==> z[i] == NONE
  {
    seq(NPT, _ => NONE)
  }

  /** A frame that nobody uses becomes page table x. */
  lemma AddTable(m: Mem, m': Mem, a: Space, a': Space, x: nat, f: nat)
    requires Holds(m, a) && x < NPT && x !in a.tables && m.low <= f < |m.frames| && f !in m.free && f !in a.own
    requires a' == WithTable(a, x, f) && a.pd < |m.frames|
    requires m.frames[a.pd].Table? && |m.frames[a.pd].entries| == NPT
    requires m' == m.(frames := m.frames[f := Table(Zeros())][a.pd := Table(m.frames[a.pd].entries[x := Pte(true, f, PWU)])])
    ensures Holds(m', a')
  {
    forall g: nat
      ensures OwnRight(a', g)
    {
      assert OwnRight(a, g);
      if u: Use :| Uses(a, u) && FrameOf(a, u) == g {
        assert Uses(a', u) && FrameOf(a', u) == g;
      }
      assert Uses(a', Tab(x)) && FrameOf(a', Tab(x)) == f;
      if u: Use :| Uses(a', u) && FrameOf(a', u) == g {
        assert u == Tab(x) || (Uses(a, u) && FrameOf(a, u) == g);
      }
    }
    forall u: Use
      ensures InMemory(m', a', u)
    {
      AddedTable(m, m', a, a', x, f, u);
    }
    forall u: Use, w: Use
      ensures OneUse(a', u, w)
    {
      assert OneUse(a, u, w);
      AddedTable(m, m', a, a', x, f, u);
      AddedTable(m, m', a, a', x, f, w);
    }
  }

  lemma AddedTable(m: Mem, m': Mem, a: Space, a': Space, x: nat, f: nat, u: Use)
    requires Holds(m, a) && x < NPT && x !in a.tables && m.low <= f < |m.frames| && f !in m.free && f !in a.own
    requires a' == WithTable(a, x, f) && a.pd < |m.frames|
    requires m.frames[a.pd].Table? && |m.frames[a.pd].entries| == NPT
    requires m' == m.(frames := m.frames[f := Table(Zeros())][a.pd := Table(m.frames[a.pd].entries[x := Pte(true, f, PWU)])])
    ensures InMemory(m', a', u)
    ensures Uses(a', u) && u != Tab(x) ==> Uses(a, u) && FrameOf(a', u) == FrameOf(a, u) != f
  {
    assert InMemory(m, a, u) && InMemory(m, a, Dir);
    if Uses(a, u) {
      OwnUse(a, u);
      assert OneUse(a, u, Dir);
    } else if u == Tab(x) {
      OwnUse(a, Dir);
    }
  }

  // ----- Entries --------------------------------------------------------------

  /** Memory m' is m with entry v of address space a set to pte. */
  predicate PteSet(m: Mem, m': Mem, a: Space, v: nat, pte: Pte) {
    && v / NPT in a.tables
    && var t := a.tables[v / NPT];
       && t < |m.frames| && m.frames[t].Table? && |m.frames[t].entries| == NPT
       && m'.frames == m.frames[t := Table(m.frames[t].entries[v % NPT := pte])] && m'.low == m.low
  }

  lemma AddPte(m: Mem, m': Mem, a: Space, a': Space, v: nat, pte: Pte)
    requires Holds(m, a) && v !in a.ptes && PteSet(m, m', a, v, pte) && m'.free == m.free && pte.present
    requires v < UPAGES ==>
               m.low <= pte.frame < |m.frames| && pte.frame !in m.free && pte.frame !in a.own && m.frames[pte.frame].Page?
    requires a' == WithPte(a, v, pte)
    ensures Holds(m', a')
  {
    forall g: nat
      ensures OwnRight(a', g)
    {
      assert OwnRight(a, g);
      if u: Use :| Uses(a, u) && FrameOf(a, u) == g {
        assert Uses(a', u) && FrameOf(a', u) == g;
      }
      assert v < UPAGES ==> Uses(a', Usr(v)) && FrameOf(a', Usr(v)) == pte.frame;
      if u: Use :| Uses(a', u) && FrameOf(a', u) == g {
        assert (u == Usr(v) && v < UPAGES) || (Uses(a, u) && FrameOf(a, u) == g);
      }
    }
    forall u: Use
      ensures InMemory(m', a', u)
    {
      AddedPte(m, m', a, a', v, pte, u);
    }
    forall u: Use, w: Use
      ensures OneUse(a', u, w)
    {
      assert OneUse(a, u, w);
      AddedPte(m, m', a, a', v, pte, u);
      AddedPte(m, m', a, a', v, pte, w);
    }
  }

  lemma AddedPte(m: Mem, m': Mem, a: Space, a': Space, v: nat, pte: Pte, u: Use)
    requires Holds(m, a) && v !in a.ptes && PteSet(m, m', a, v, pte) && m'.free == m.free && pte.present
    requires v < UPAGES ==>
               m.low <= pte.frame < |m.frames| && pte.frame !in m.free && pte.frame !in a.own && m.frames[pte.frame].Page?
    requires a' == WithPte(a, v, pte)
    ensures InMemory(m', a', u)
    ensures Uses(a', u) && u != Usr(v) ==>
              Uses(a, u) && FrameOf(a', u) == FrameOf(a, u) && (v < UPAGES ==> FrameOf(a, u) != pte.frame)
  {
    assert InMemory(m, a, u) && InMemory(m, a, Tab(v / NPT));
    OwnUse(a, Tab(v / NPT));
    if Uses(a, u) {
      OwnUse(a, u);
      assert OneUse(a, u, Tab(v / NPT));
      if u.Tab? {
        TableEntry(u.x, v);
      }
    }
  }

  /** Entry v is in page table v / 1024 only. */
  lemma TableEntry(x: nat, v: nat)
    ensures forall y: nat :: y < NPT ==> (At(x, y) == v <==> x == v / NPT && y == v % NPT)
  {
  }

  /** The entry of a user page is cleared, and its frame goes back to the free list. */
  lemma RemovePte(m: Mem, m': Mem, a: Space, a': Space, v: nat)
    requires Holds(m, a) && FreeRight(m) && v in a.ptes && v < UPAGES
    requires var f := a.ptes[v].frame;
             f < |m.frames| && PteSet(m.(frames := m.frames[f := Junk]), m', a, v, NONE) && m'.free == [f] + m.free
    requires a' == WithoutPte(a, v)
    ensures Holds(m', a') && FreeRight(m') && a.own == a'.own + {a.ptes[v].frame}
  {
    var f := a.ptes[v].frame;
    assert InMemory(m, a, Usr(v));
    OwnUse(a, Usr(v));
    forall u: Use
      ensures InMemory(m', a', u) && (Uses(a', u) ==> FrameOf(a', u) != f)
    {
      RemovedPte(m, m', a, a', v, u);
    }
    forall g: nat
      ensures OwnRight(a', g)
    {
      assert OwnRight(a, g);
      if g in a'.own {
        var u: Use :| Uses(a, u) && FrameOf(a, u) == g;
        assert Uses(a', u) && FrameOf(a', u) == g;
      }
      if u: Use :| Uses(a', u) && FrameOf(a', u) == g {
        assert Uses(a, u) && FrameOf(a, u) == g;
      }
    }
    forall u: Use, w: Use
      ensures OneUse(a', u, w)
    {
      assert OneUse(a, u, w);
    }
  }

  lemma RemovedPte(m: Mem, m': Mem, a: Space, a': Space, v: nat, u: Use)
    requires Holds(m, a) && v in a.ptes && v < UPAGES
    requires var f := a.ptes[v].frame;
             f < |m.frames| && PteSet(m.(frames := m.frames[f := Junk]), m', a, v, NONE) && m'.free == [f] + m.free
    requires a' == WithoutPte(a, v)
    ensures InMemory(m', a', u) && (Uses(a', u) ==> FrameOf(a', u) != a.ptes[v].frame)
  {
    assert InMemory(m, a, u) && InMemory(m, a, Tab(v / NPT));
    assert OneUse(a, Usr(v), Tab(v / NPT));
    if Uses(a', u) {
      assert OneUse(a, u, Usr(v)) && OneUse(a, u, Tab(v / NPT));
      if u.Tab? {
        TableEntry(u.x, v);
      }
    }
  }

  // ----- kalloc.c and vm.c ----------------------------------------------------

  lemma FreeRest(m: Mem)
    requires FreeRight(m) && m.free != []
    ensures var m' := m.(free := m.free[1..]);
            FreeRight(m') && Free(m) == Free(m') + {m.free[0]} && m.free[0] !in Free(m')
  {
  }

  class Memory {
    const low: nat
    var frames: seq<Frame>
    var free: seq<nat>

    function M(): Mem
      reads this
    {
      Mem(low, frames, free)
    }

    /** kalloc: the frame at the head of the list, or none. */
    method Kalloc() returns (f: nat, ok: bool)
      requires FreeRight(M())
      modifies `free
      ensures FreeRight(M())
      ensures ok <==> old(free) != []
      ensures ok ==> low <= f < |frames| && Free(old(M())) == Free(M()) + {f} && f !in Free(M())
      ensures ok ==> f == old(free)[0] && free == old(free)[1..]
      ensures !ok ==> free == []
    {
      f, ok := 0, free != [];
      if ok {
        FreeRest(M());
        f := free[0];
        free := free[1..];
      }
    }

    /** kfree; false is its panic on a frame that is not its own. */
    method Kfree(f: nat) returns (ok: bool)
      modifies `frames, `free
      ensures ok <==> low <= f < |old(frames)|
      ensures ok ==> frames == old(frames)[f := Junk] && free == [f] + old(free)
      ensures ok ==> Free(M()) == Free(old(M())) + {f}
      ensures ok && FreeRight(old(M())) && f !in Free(old(M())) ==> FreeRight(M())
      ensures !ok ==> M() == old(M())
    {
      ok := low <= f < |frames|;
      if ok {
        assert f !in Free(M()) ==> f !in free;
        frames := frames[f := Junk];
        free := [f] + free;
      }
    }

    /** walkpgdir: the page table for page v, made if need be. */
    method Walkpgdir(pd: nat, ghost a: Space, v: nat, alloc: bool) returns (t: nat, ok: bool, ghost b: Space)
      requires Holds(M(), a) && FreeRight(M()) && a.pd == pd && v < VPAGES
      modifies `frames, `free
      ensures ok <==> v / NPT in a.tables || (alloc && old(free) != [])
      ensures Holds(M(), b) && FreeRight(M()) && b.pd == pd && b.ptes == a.ptes
      ensures ok ==> v / NPT in b.tables && t == b.tables[v / NPT]
      ensures !ok || v / NPT in a.tables ==> M() == old(M()) && b == a
      ensures a.own <= b.own
      ensures Conserved(old(M()), a.own, M(), b.own)
      ensures ok ==> OneTableMore(old(M()), a, M(), b, v / NPT)
    {
      ghost var m := M();
      t, b := 0, a;
      assert InMemory(m, a, Dir);
      OwnUse(a, Dir);
      var pde := frames[pd].entries[v / NPT];
      ok := true;
      if pde.present {
        t := pde.frame;
      } else if !alloc {
        ok := false;
      } else {
        t, ok := Kalloc();
        if ok {
          AllocHolds(m, M(), a, t);
          ghost var n := M();
          frames := frames[t := Table(Zeros())];
          frames := frames[pd := Table(frames[pd].entries[v / NPT := Pte(true, t, PWU)])];
          b := WithTable(a, v / NPT, t);
          AddTable(n, M(), a, b, v / NPT, t);
          assert Free(M()) == Free(n);
          assert Free(m) + a.own == Free(n) + b.own;
        }
      }
      NotFree(M(), b);
    }

    /** One turn of the loop of mappages; ok is false in its panic on a page that is
        mapped already, and r is -1 when there is no frame for a page table. */
    method MapPage(pd: nat, ghost a: Space, v: nat, ppn: nat, perm: nat) returns (r: int, ok: bool, ghost b: Space)
      requires Holds(M(), a) && FreeRight(M()) && a.pd == pd && v < VPAGES && (v < UPAGES ==> Limbo(M(), a, ppn))
      modifies `frames, `free
      ensures ok <==> v !in a.ptes
      ensures ok ==> Holds(M(), b) && FreeRight(M()) && b.pd == pd
      ensures ok && r != 0 ==> r == -1 && b == a && M() == old(M()) && free == [] && v / NPT !in a.tables
      ensures ok && r == 0 ==> MapDone(old(M()), a, M(), b, v, ppn, perm)
    {
      ghost var m := M();
      var t;
      r := -1;
      t, ok, b := Walkpgdir(pd, a, v, true);
      if !ok {
        ok := true;
        return;
      }
      ghost var n, c := M(), b;
      assert InMemory(n, c, Tab(v / NPT));
      TableEntry(v / NPT, v);
      assert At(v / NPT, v % NPT) == v;
      ok := !frames[t].entries[v % NPT].present;
      if ok {
        LimboStays(m, a, n, c, v, ppn);
        frames := frames[t := Table(frames[t].entries[v % NPT := Pte(true, ppn, perm)])];
        b := WithPte(c, v, Pte(true, ppn, perm));
        AddPte(n, M(), c, b, v, Pte(true, ppn, perm));
        r := 0;
        OwnUse(c, Tab(v / NPT));
        NotFree(M(), b);
        MapConserved(m, a.own, n, c.own, M(), UserFrame(v, ppn), t);
      }
    }

    /** mappages: n pages from v on are mapped to n frames from ppn on.  Frames for user
        pages must be in use by nobody yet. */
    method Mappages(pd: nat, ghost a: Space, v: nat, n: nat, ppn: nat, perm: nat) returns (r: int, ok: bool, ghost b: Space)
      requires Holds(M(), a) && FreeRight(M()) && a.pd == pd && 0 < n && v + n <= VPAGES
      requires forall k: nat :: k < n ==> LimboAt(M(), a, v, k, ppn)
      modifies `frames, `free
      ensures !ok ==> exists w :: v <= w < v + n && w in a.ptes
      ensures ok && r == 0 ==> Growing(old(M()), a, UserRun(v, n, ppn), M(), b)
      ensures ok && r != 0 ==> exists k: nat :: LaidTo(old(M()), a, M(), b, v, k, ppn, n)
      ensures ok && UPAGES <= v ==> Growing(old(M()), a, {}, M(), b)
      ensures ok ==> if r == 0 then b.ptes == a.ptes + Run(v, n, ppn, perm) else r == -1 && free == []
      ensures ok && r == 0 && NoneAbove(a, v) ==> TablesFor(old(M()), a, M(), b, v, n)
      ensures ok && r != 0 && NoneAbove(a, v) ==> |old(free)| < Took(a, v, n)
    {
      ghost var k;
      r, ok, b, k := MapLoop(pd, a, v, n, ppn, perm);
      UserRunKeys(v, n, ppn);
    }

    /** The loop of mappages. */
    method MapLoop(pd: nat, ghost a: Space, v: nat, n: nat, ppn: nat, perm: nat)
      returns (r: int, ok: bool, ghost b: Space, ghost at: nat)
      requires Holds(M(), a) && FreeRight(M()) && a.pd == pd && 0 < n && v + n <= VPAGES
      requires forall k: nat :: k < n ==> LimboAt(M(), a, v, k, ppn)
      modifies `frames, `free
      ensures MapResult(old(M()), a, M(), b, v, at, ppn, perm, n, r, ok) && (ok && r == 0 ==> at == n)
    {
      ghost var m := M();
      r, ok, b, at := 0, true, a, 0;
      LayingNone(m, a, v, ppn, perm);
      var k := 0;
      while k < n && ok && r == 0
        invariant 0 <= k <= n && MapResult(m, a, M(), b, v, at, ppn, perm, n, r, ok) && (ok && r == 0 ==> at == k)
        decreases n - k, ok && r == 0
      {
        r, ok, b := MapNext(pd, m, a, b, v, k, ppn, perm, n, v + k, ppn + k);
        if ok && r == 0 {
          k, at := k + 1, k + 1;
        }
      }
    }

    /** One turn of that loop. */
    method MapNext(pd: nat, ghost m: Mem, ghost a: Space, ghost c: Space, ghost v: nat, ghost k: nat, ghost ppn: nat,
                   perm: nat, ghost n: nat, w: nat, f: nat)
      returns (r: int, ok: bool, ghost b: Space)
      requires Laying(m, a, M(), c, v, k, ppn, perm) && a.pd == pd && w == v + k < VPAGES && f == ppn + k && k < n
      requires LimboAt(m, a, v, k, ppn)
      modifies `frames, `free
      ensures !ok ==> w in a.ptes
      ensures ok && r == 0 ==> Laying(m, a, M(), b, v, k + 1, ppn, perm)
      ensures ok && r != 0 ==> r == -1 && free == [] && LaidTo(m, a, M(), b, v, k, ppn, n)
    {
      ghost var before := M();
      NextInLimbo(m, a, before, c, v, k, ppn, w, f);
      r, ok, b := MapPage(pd, c, w, f, perm);
      if !ok {
        RunKeys(v, k, ppn, perm);
      } else if r == 0 {
        LayingMore(m, a, before, c, M(), b, v, k, ppn, perm, w, f);
      } else {
        LayingStops(m, a, before, c, v, k, ppn, perm, n);
      }
    }

    /** setupkvm: a new address space with the kernel half mapped.  When memory runs
        out on the way, the frames taken so far are in use by an address space that
        nobody knows of: the function does not give them back. */
    method Setupkvm(data: nat) returns (pd: nat, ok: bool, ghost b: Space)
      requires FreeRight(M()) && EXTMEM < data < PHYSTOP
      modifies `frames, `free
      ensures FreeRight(M())
      ensures ok || old(free) != [] ==> Holds(M(), b) && Conserved(old(M()), {}, M(), b.own)
      ensures ok ==> b.pd == pd && b.ptes == KernelHalf(data, 4)
      ensures ok ==> |old(free)| == |free| + KERNEL_FRAMES && forall x: nat :: x in b.tables ==> x >= UPAGES / NPT
      ensures !ok ==> free == [] && |old(free)| < KERNEL_FRAMES && (old(free) == [] ==> M() == old(M()))
    {
      ghost var m := M();
      b := Space(0, map[], map[], {});
      pd, ok := Kalloc();
      if !ok {
        return;
      }
      frames := frames[pd := Table(Zeros())];
      b := Space(pd, map[], map[], {pd});
      NewSpace(m, M(), b);
      for k := 0 to 4
        invariant ok && b.pd == pd && Building(m, M(), b, data, k)
      {
        ok, b := SetupLine(pd, m, b, data, k);
        if !ok {
          return;
        }
      }
    }

    /** One line of kmap. */
    method SetupLine(pd: nat, ghost m: Mem, ghost c: Space, data: nat, k: nat) returns (ok: bool, ghost b: Space)
      requires EXTMEM < data < PHYSTOP && k < 4 && c.pd == pd && Building(m, M(), c, data, k)
      modifies `frames, `free
      ensures b.pd == pd && FreeRight(M())
      ensures ok ==> Building(m, M(), b, data, k + 1)
      ensures !ok ==> Holds(M(), b) && Conserved(m, {}, M(), b.own) && free == [] && |m.free| < KERNEL_FRAMES
    {
      var e := Kmaps(data)[k];
      ghost var before := M();
      KernelKeys(data, k);
      var r;
      r, ok, b := Mappages(pd, c, e.virt, e.n, e.phys, e.perm);
      assert ok;
      ConservedTwice(m, {}, before, c.own, M(), b.own);
      KernelTaken(m, before, c, M(), b, data, k);
      ok := r >= 0;
    }

    /** deallocuvm: frees the pages that its scan visits, and no others. */
    method Deallocuvm(pd: nat, ghost a: Space, oldsz: nat, newsz: nat) returns (r: nat, ghost b: Space)
      requires 0 < low && Holds(M(), a) && FreeRight(M()) && a.pd == pd && oldsz <= UPAGES * PGSIZE
      modifies `frames, `free
      ensures r == if newsz >= oldsz then oldsz else newsz
      ensures Holds(M(), b) && FreeRight(M()) && b.pd == pd && b.tables == a.tables
      ensures Conserved(old(M()), a.own, M(), b.own) && b.own <= a.own
      ensures IsPart(b.ptes, a.ptes)
      ensures forall v :: v in a.ptes ==> (v in b.ptes <==> !Visits(a.tables, PagesUp(newsz), PagesUp(oldsz), v))
    {
      ghost var m := M();
      b := a;
      NotFree(m, a);
      if newsz >= oldsz {
        return oldsz, a;
      }
      var p := PagesUp(newsz);
      ghost var s, end := p, PagesUp(oldsz);
      while p * PGSIZE < oldsz
        invariant Unmapping(m, a, M(), b, s, p, end)
        decreases oldsz - p * PGSIZE
      {
        p, b := ScanPage(pd, m, a, b, s, p, end);
      }
      r := newsz;
    }

    /** One turn of the loop of deallocuvm. */
    method ScanPage(pd: nat, ghost m: Mem, ghost a: Space, ghost c: Space, ghost s: nat, p: nat, ghost end: nat)
      returns (q: nat, ghost b: Space)
      requires 0 < low && c.pd == pd && Unmapping(m, a, M(), c, s, p, end) && p < end <= UPAGES
      modifies `frames, `free
      ensures q > p && b.pd == pd && Unmapping(m, a, M(), b, s, q, end)
    {
      ghost var before := M();
      var t, ok;
      t, ok, b := Walkpgdir(pd, c, p, false);
      q := p;
      if !ok {
        q := q + (NPT - 1);
      } else {
        FreeOne(pd, c, p, t);
        b := WithoutPte(c, p);
        ConservedTwice(m, a.own, before, c.own, M(), b.own);
      }
      q := q + 1;
      ScanStep(a, c, b, s, p, q, end);
    }

    /** The part of deallocuvm that frees page p, if it is mapped. */
    method FreeOne(pd: nat, ghost a: Space, p: nat, t: nat)
      requires 0 < low && Holds(M(), a) && FreeRight(M()) && a.pd == pd
      requires p < UPAGES && p / NPT in a.tables && t == a.tables[p / NPT]
      modifies `frames, `free
      ensures var b := WithoutPte(a, p);
              && Holds(M(), b) && FreeRight(M()) && Conserved(old(M()), a.own, M(), b.own)
              && b.own <= a.own
    {
      ghost var m, b := M(), WithoutPte(a, p);
      assert InMemory(m, a, Tab(p / NPT)) && InMemory(m, a, Usr(p));
      assert OneUse(a, Usr(p), Tab(p / NPT));
      TableEntry(p / NPT, p);
      assert At(p / NPT, p % NPT) == p;
      var pte := frames[t].entries[p % NPT];
      if pte.present {
        var ok := Kfree(pte.frame);
        frames := frames[t := Table(frames[t].entries[p % NPT := NONE])];
        RemovePte(m, M(), a, b, p);
        NotFree(m, a);
        NotFree(M(), b);
        OwnUse(b, Tab(p / NPT));
        FreedConserved(m, M(), a, b, pte.frame, t);
      } else {
        NotFree(m, a);
      }
    }

    /** One turn of the loop of allocuvm: a page of zeros. */
    method AllocPage(pd: nat, ghost m: Mem, ghost a: Space, ghost c: Space, ghost s: nat, i: nat)
      returns (got: bool, mem: nat, r: int, ghost b: Space)
      requires a.pd == pd && s <= i < UPAGES && i !in a.ptes && Allocating(m, a, M(), c, s, i)
      modifies `frames, `free
      ensures got && r == 0 ==> Allocating(m, a, M(), b, s, i + 1)
      ensures got && r == 0 ==> PageTaken(old(M()), c, M(), b, i)
      ensures !got || r != 0 ==> b == c && Undoable(m, a, M(), c, s, i, got, mem)
      ensures !got || r != 0 ==> |old(free)| < PageNeeds(c.tables.Keys, i)
    {
      b, r := c, 0;
      ghost var n := M();
      mem, got := Kalloc();
      assert c.own + {} == c.own;
      if got {
        ghost var n1 := M();
        AllocHolds(n, n1, c, mem);
        frames := frames[mem := ZeroPage()];
        ghost var n2 := M();
        FrameTaken(m, a.own, n, n1, n2, c, mem);
        var ok;
        r, ok, b := MapPage(pd, c, i, mem, PWU);
        if r == 0 {
          PageAdded(m, a, n, c, n2, M(), b, s, i, mem);
          assert forall x: nat :: x in b.tables.Keys <==> x in c.tables.Keys + {i / NPT};
        }
      }
    }

    /** allocuvm: if there are frames enough, the pages up to newsz are there, all zeros
        and the old ones as they were; otherwise the address space has the pages that it
        had. */
    method Allocuvm(pd: nat, ghost a: Space, oldsz: nat, newsz: nat) returns (r: nat, ghost b: Space)
      requires 0 < low && Holds(M(), a) && FreeRight(M()) && a.pd == pd
      requires forall v :: v in a.ptes ==> v < PagesUp(oldsz) || v >= UPAGES
      modifies `frames, `free
      ensures newsz >= UPAGES * PGSIZE ==> r == 0
      ensures newsz < UPAGES * PGSIZE && newsz < oldsz ==> r == oldsz
      ensures newsz >= UPAGES * PGSIZE || newsz < oldsz ==> b == a && M() == old(M())
      ensures newsz < UPAGES * PGSIZE && newsz >= oldsz ==>
                var s := PagesUp(oldsz);
                var end := Max(s, PagesUp(newsz));
                if |old(free)| >= AllocNeeds(a.tables.Keys, s, end)
                then r == newsz && Allocating(old(M()), a, M(), b, s, end)
                else r == 0 && SamePages(old(M()), a, M(), b)
    {
      ghost var m := M();
      NotFree(m, a);
      b := a;
      if newsz >= UPAGES * PGSIZE {
        return 0, a;
      }
      if newsz < oldsz {
        return oldsz, a;
      }
      var done, got, mem;
      ghost var i;
      done, got, mem, i, b := AllocPages(pd, a, PagesUp(oldsz), newsz);
      if !done {
        b := UndoAlloc(pd, m, a, b, PagesUp(oldsz), i, oldsz, newsz, got, mem);
        return 0, b;
      }
      r := newsz;
    }

    /** The loop of allocuvm: all pages, or those up to i and perhaps a frame in use by
        nobody. */
    method AllocPages(pd: nat, ghost a: Space, s: nat, newsz: nat)
      returns (done: bool, got: bool, mem: nat, ghost i: nat, ghost b: Space)
      requires Holds(M(), a) && FreeRight(M()) && a.pd == pd && newsz < UPAGES * PGSIZE && s <= UPAGES
      requires forall v :: v in a.ptes ==> v < s || v >= UPAGES
      modifies `frames, `free
      ensures done <==> |old(free)| >= AllocNeeds(a.tables.Keys, s, Max(s, PagesUp(newsz)))
      ensures done ==> Allocating(old(M()), a, M(), b, s, Max(s, PagesUp(newsz)))
      ensures !done ==> i < PagesUp(newsz) && Undoable(old(M()), a, M(), b, s, i, got, mem)
    {
      ghost var m, end := M(), Max(s, PagesUp(newsz));
      NotFree(m, a);
      done, got, mem, b := true, true, 0, a;
      var p := s;
      while p * PGSIZE < newsz
        invariant s <= p <= end && Allocating(m, a, M(), b, s, p) && Budget(m, a, M(), b, s, p, end)
      {
        var e;
        ghost var before, c := M(), b;
        got, mem, e, b := AllocPage(pd, m, a, c, s, p);
        if !got || e != 0 {
          return false, got, mem, p, b;
        }
        BudgetStep(m, a, before, c, M(), b, s, p, end);
        p := p + 1;
      }
      i := p;
    }

    /** The two ways out of allocuvm. */
    method UndoAlloc(pd: nat, ghost m: Mem, ghost a: Space, ghost c: Space, ghost s: nat, ghost i: nat,
                     oldsz: nat, newsz: nat, got: bool, mem: nat) returns (ghost b: Space)
      requires 0 < low && a.pd == pd && c.pd == pd && s == PagesUp(oldsz)
      requires i < PagesUp(newsz) && newsz < UPAGES * PGSIZE && oldsz <= newsz
      requires forall v :: v in a.ptes ==> v < s || v >= UPAGES
      requires Holds(m, a) && Undoable(m, a, M(), c, s, i, got, mem)
      modifies `frames, `free
      ensures SamePages(m, a, M(), b)
    {
      ghost var n := M();
      var r;
      r, b := Deallocuvm(pd, c, newsz, oldsz);
      AllGone(a, c, b, s, i, PagesUp(newsz));
      ghost var n2 := M();
      if got {
        assert mem !in Free(n) + c.own;
        assert mem !in Free(n2) + b.own;
        var ok := Kfree(mem);
      }
      UndoneAlloc(m, a, n, c, n2, M(), b, if got then {mem} else {});
    }

    /** freevm: every frame of the address space goes back to the free list. */
    method Freevm(pd: nat, ghost a: Space)
      requires 0 < low && Holds(M(), a) && FreeRight(M()) && a.pd == pd
      modifies `frames, `free
      ensures FreeRight(M()) && Conserved(old(M()), a.own, M(), {})
    {
      ghost var m := M();
      var r;
      ghost var b;
      r, b := Deallocuvm(pd, a, UPAGES * PGSIZE, 0);
      ghost var n := M();
      NoUserPages(a, b);
      for i := 0 to NPT
        invariant FreeingTables(n, M(), b, i)
      {
        FreeTable(pd, n, b, i);
      }
      assert InMemory(n, b, Dir);
      NotYetFreed(n, b, NPT);
      var ok := Kfree(pd);
      LastFreed(m, a.own, n, b, M());
    }

    /** One turn of the loop of freevm over the directory. */
    method FreeTable(pd: nat, ghost n: Mem, ghost b: Space, i: nat)
      requires Holds(n, b) && FreeRight(n) && b.pd == pd && FreeingTables(n, M(), b, i) && i < NPT
      modifies `frames, `free
      ensures FreeingTables(n, M(), b, i + 1)
    {
      assert InMemory(n, b, Dir);
      TablesUpTo(b, i);
      NotYetFreed(n, b, i);
      if frames[pd].entries[i].present {
        assert InMemory(n, b, Tab(i));
        var ok := Kfree(frames[pd].entries[i].frame);
      }
    }

    /** A process of sz bytes shrinks: its pages from newsz on are gone, and no others. */
    method Shrink(pd: nat, ghost a: Space, sz: nat, newsz: nat) returns (r: nat, ghost b: Space)
      requires 0 < low && Holds(M(), a) && FreeRight(M()) && a.pd == pd && sz <= UPAGES * PGSIZE
      requires Contiguous(a, PagesUp(sz))
      modifies `frames, `free
      ensures r == if newsz >= sz then sz else newsz
      ensures Holds(M(), b) && FreeRight(M()) && b.pd == pd && Contiguous(b, PagesUp(r))
      ensures Conserved(old(M()), a.own, M(), b.own) && b.own <= a.own
      ensures IsPart(b.ptes, a.ptes) && forall v :: v in a.ptes && v >= UPAGES ==> v in b.ptes
    {
      r, b := Deallocuvm(pd, a, sz, newsz);
      if newsz < sz {
        ShrunkIsContiguous(a, b, PagesUp(newsz), PagesUp(sz));
      }
    }

    /** growproc for a process of sz bytes.  It takes a size of 0 for a failure, so that a
        process that gives all its memory back keeps its size: its pages are those below
        its size exactly unless it does that. */
    method Growproc(pd: nat, ghost a: Space, sz: nat, n: int) returns (r: int, newsz: nat, ghost b: Space)
      requires 0 < low && Holds(M(), a) && FreeRight(M()) && a.pd == pd && sz <= UPAGES * PGSIZE
      requires Contiguous(a, PagesUp(sz)) && -0x8000_0000 <= n < 0x8000_0000
      modifies `frames, `free
      ensures Holds(M(), b) && FreeRight(M()) && b.pd == pd && newsz <= UPAGES * PGSIZE
      ensures Conserved(old(M()), a.own, M(), b.own)
      ensures n > 0 ==>
                (r == 0 <==> && sz + n < UPAGES * PGSIZE
                             && |old(free)| >= AllocNeeds(a.tables.Keys, PagesUp(sz), PagesUp(sz + n)))
      ensures n < 0 ==> (r == 0 <==> sz != 0 && sz + n != 0)
      ensures newsz == if r == 0 && 0 <= sz + n then sz + n else sz
      ensures n == 0 ==> r == 0
      ensures Contiguous(b, PagesUp(newsz)) <==> !GivesAllBack(sz, n)
      ensures GivesAllBack(sz, n) ==> Contiguous(b, 0)
    {
      r, newsz, b := 0, sz, a;
      var want := (sz + n) % 0x1_0000_0000;
      NewSize(sz, n, want);
      NotFree(M(), a);
      if n > 0 {
        newsz, b := Grow(pd, a, sz, want);
      } else if n < 0 {
        newsz, b := Shrink(pd, a, sz, want);
      }
      if newsz == 0 && n != 0 {
        r, newsz := -1, sz;
        if GivesAllBack(sz, n) {
          NothingLeft(b, sz);
        }
      }
    }

    /** A process of sz bytes grows, or stays as it is. */
    method Grow(pd: nat, ghost a: Space, sz: nat, newsz: nat) returns (r: nat, ghost b: Space)
      requires 0 < low && Holds(M(), a) && FreeRight(M()) && a.pd == pd && sz < newsz && Contiguous(a, PagesUp(sz))
      modifies `frames, `free
      ensures Holds(M(), b) && FreeRight(M()) && b.pd == pd && Conserved(old(M()), a.own, M(), b.own)
      ensures r == if && newsz < UPAGES * PGSIZE
                      && |old(free)| >= AllocNeeds(a.tables.Keys, PagesUp(sz), PagesUp(newsz)) then newsz else 0
      ensures Contiguous(b, PagesUp(if r == 0 then sz else r))
    {
      NotFree(M(), a);
      assert PagesUp(sz) <= PagesUp(newsz);
      r, b := Allocuvm(pd, a, sz, newsz);
    }

    /** The entry of page i, if it is there. */
    method FindPage(pd: nat, ghost a: Space, i: nat) returns (pte: Pte, ok: bool)
      requires Holds(M(), a) && FreeRight(M()) && a.pd == pd && i < UPAGES
      modifies `frames, `free
      ensures M() == old(M()) && (ok <==> i in a.ptes) && (ok ==> pte == a.ptes[i])
    {
      var t;
      ghost var b;
      pte := NONE;
      t, ok, b := Walkpgdir(pd, a, i, false);
      TableEntry(i / NPT, i);
      assert At(i / NPT, i % NPT) == i;
      if ok {
        assert InMemory(M(), a, Tab(i / NPT));
        pte := frames[t].entries[i % NPT];
        ok := pte.present;
      }
    }

    /** One turn of the loop of copyuvm; ok is false in its panics on a page that is
        not there. */
    method CopyPage(pgdir: nat, ghost a: Space, d: nat, ghost c: Space, ghost m: Mem, i: nat, ghost data: nat)
      returns (r: int, ok: bool, ghost b: Space, ghost lost: set<nat>)
      requires a.pd == pgdir && c.pd == d && i < UPAGES && Copying(m, a, M(), c, i, data)
      modifies `frames, `free
      ensures ok <==> i in a.ptes
      ensures ok && r == 0 ==> b.pd == d && Copying(m, a, M(), b, i + 1, data)
      ensures ok && r != 0 ==> b == c && Holds(M(), c) && FreeRight(M()) && free == [] && lost !! c.own
      ensures ok && r != 0 ==> |lost| <= 1 && Conserved(m, {}, M(), c.own + lost)
      ensures ok && r != 0 ==> if i % NPT == 0 && |m.free| == CopyFrames(i) + 1 then |lost| == 1
                               else lost == {} && |m.free| == CopyFrames(i)
    {
      b, lost, r := c, {}, -1;
      ghost var n := M();
      ParentHolds(m, a, n, c);
      var pte;
      pte, ok := FindPage(pgdir, a, i);
      if !ok {
        return;
      }
      assert InMemory(n, a, Usr(i));
      var mem, got := Kalloc();
      if !got {
        assert c.own + lost == c.own;
        return;
      }
      assert frames[pte.frame] == n.frames[pte.frame];
      ghost var n1 := M();
      AllocHolds(n, n1, c, mem);
      frames := frames[mem := Page(frames[pte.frame].data)];
      ghost var n2 := M();
      FrameTaken(m, {}, n, n1, n2, c, mem);
      r, ok, b := MapPage(d, c, i, mem, pte.flags);
      if r != 0 {
        lost := {mem};
        assert i / NPT < (i + NPT - 1) / NPT <==> i % NPT != 0;
      } else {
        PageTook(m, n, c, n2, M(), b, i);
        PageCopied(m, a, n, c, n2, M(), b, i, mem, pte, data);
      }
    }

    /** One turn of the loop of copyuvm, with the way out of it. */
    method CopyTurn(pgdir: nat, ghost a: Space, d: nat, ghost c0: Space, ghost m: Mem, i: nat, ghost data: nat, ghost np: nat)
      returns (done: bool, ok: bool, ghost c: Space, ghost lost: set<nat>)
      requires 0 < low && a.pd == pgdir && c0.pd == d && i < np <= UPAGES && Copying(m, a, M(), c0, i, data)
      modifies `frames, `free
      ensures c.pd == d && CopyResult(m, a, M(), c, i + 1, data, np, done, ok, lost)
    {
      ghost var n0 := M();
      CopiedAreThere(m, a, n0, c0, i, data);
      var r;
      r, ok, c, lost := CopyPage(pgdir, a, d, c0, m, i, data);
      done := ok && r == 0;
      if !ok {
        assert StopsAt(a, np, |m.free|, i);
        c := c0;
      } else if !done {
        ghost var n := M();
        Freevm(d, c);
        GivenBack(m, n, c, M(), lost);
        LeaksIff(|m.free|, i, np);
        NoGapYet(a, np, |m.free|, i);
      }
    }

    /** The loop of copyuvm. */
    method CopyPages(pgdir: nat, ghost a: Space, d: nat, ghost c0: Space, ghost m: Mem, sz: nat, ghost data: nat)
      returns (done: bool, ok: bool, ghost c: Space, ghost lost: set<nat>)
      requires 0 < low && a.pd == pgdir && c0.pd == d && sz <= UPAGES * PGSIZE && Copying(m, a, M(), c0, 0, data)
      modifies `frames, `free
      ensures c.pd == d && CopyResult(m, a, M(), c, PagesUp(sz), data, PagesUp(sz), done, ok, lost)
    {
      c, lost, done, ok := c0, {}, true, true;
      var i := 0;
      while i * PGSIZE < sz && ok && done
        invariant i <= PagesUp(sz) && c.pd == d && CopyResult(m, a, M(), c, i, data, PagesUp(sz), done, ok, lost)
        decreases PagesUp(sz) - i
      {
        done, ok, c, lost := CopyTurn(pgdir, a, d, c, m, i, data, PagesUp(sz));
        i := i + 1;
      }
    }

    /** copyuvm: it succeeds exactly when there are frames enough, and then the child
        has its own copies of the pages of the parent.  When it fails, it gives back
        the frames that it took, except lost. */
    method Copyuvm(pgdir: nat, ghost a: Space, sz: nat, data: nat)
      returns (d: nat, done: bool, ok: bool, ghost c: Space, ghost lost: set<nat>)
      requires 0 < low && Holds(M(), a) && FreeRight(M()) && a.pd == pgdir
      requires sz <= UPAGES * PGSIZE && EXTMEM < data < PHYSTOP
      modifies `frames, `free
      ensures !ok <==> Stops(a, PagesUp(sz), |old(free)|)
      ensures ok ==> (done <==> |old(free)| >= CopyFrames(PagesUp(sz))) && FreeRight(M()) && Holds(M(), a)
      ensures ok && done ==> c.pd == d && Copying(old(M()), a, M(), c, PagesUp(sz), data)
      ensures ok && !done ==> Conserved(old(M()), {}, M(), lost) && (lost != {} <==> Leaks(|old(free)|, PagesUp(sz)))
    {
      ghost var m := M();
      d, done, c := Setupkvm(data);
      lost, ok := {}, true;
      if done {
        StartCopy(m, a, M(), c, data);
        done, ok, c, lost := CopyPages(pgdir, a, d, c, m, sz, data);
        if ok && done {
          CopiedAreThere(m, a, M(), c, PagesUp(sz), data);
        }
      } else {
        if m.free != [] {
          lost := c.own;
          OwnUse(c, Dir);
        }
        NoLeak(|m.free|, PagesUp(sz));
      }
      if ok {
        ParentStays(m, a, M(), if done then c.own else lost);
      }
    }

    /** The copy that fork makes of a process whose pages are those below its size: it
        never panics, and the child's pages are those below its size. */
    method CopyProcess(pgdir: nat, ghost a: Space, sz: nat, data: nat)
      returns (d: nat, done: bool, ok: bool, ghost c: Space, ghost lost: set<nat>)
      requires 0 < low && Holds(M(), a) && FreeRight(M()) && a.pd == pgdir
      requires sz <= UPAGES * PGSIZE && EXTMEM < data < PHYSTOP && Contiguous(a, PagesUp(sz))
      modifies `frames, `free
      ensures ok && (done <==> |old(free)| >= CopyFrames(PagesUp(sz)))
      ensures done ==> c.pd == d && Copying(old(M()), a, M(), c, PagesUp(sz), data) && Contiguous(c, PagesUp(sz))
    {
      d, done, ok, c, lost := Copyuvm(pgdir, a, sz, data);
      if done {
        CopyIsContiguous(old(M()), a, M(), c, PagesUp(sz), data);
      }
    }

    /** A process that gives all its memory back and then forks panics, if there are frames
        for the kernel half of the child. */
    method ShrinkAndFork(pgdir: nat, ghost a: Space, sz: nat, data: nat) returns (ok: bool, left: nat)
      requires 0 < low && Holds(M(), a) && FreeRight(M()) && a.pd == pgdir && Contiguous(a, PagesUp(sz))
      requires 0 < sz < UPAGES * PGSIZE && EXTMEM < data < PHYSTOP
      modifies `frames, `free
      ensures ok <==> left < KERNEL_FRAMES
    {
      var r, newsz, d, done;
      ghost var b, c, lost;
      r, newsz, b := Growproc(pgdir, a, sz, 0 - sz);
      left := |free|;
      assert 0 !in b.ptes;
      assert StopsAt(b, PagesUp(newsz), left, 0) <==> left >= KERNEL_FRAMES;
      d, done, ok, c, lost := Copyuvm(pgdir, b, newsz, data);
    }

    /** A copy that is freed leaves the free list with the frames that it had. */
    method CopyAndFree(pgdir: nat, ghost a: Space, sz: nat, data: nat) returns (done: bool, ok: bool)
      requires 0 < low && Holds(M(), a) && FreeRight(M()) && a.pd == pgdir
      requires sz <= UPAGES * PGSIZE && EXTMEM < data < PHYSTOP
      modifies `frames, `free
      ensures ok && done ==> Holds(M(), a) && FreeRight(M()) && Free(M()) == Free(old(M()))
    {
      ghost var m := M();
      var d;
      ghost var c, lost;
      d, done, ok, c, lost := Copyuvm(pgdir, a, sz, data);
      if ok && done {
        ghost var n := M();
        Freevm(d, c);
        GivenBack(m, n, c, M(), {});
        ParentStays(m, a, M(), {});
      }
    }
  }

  /** The frames that page p takes, when there are page tables in keys: itself, and its
      page table if that is not there. */
  function PageNeeds(keys: set<nat>, p: nat): nat {
    if p / NPT in keys then 1 else 2
  }

  /** The frames that pages p to end take. */
  function AllocNeeds(keys: set<nat>, p: nat, end: nat): nat
    decreases end - p
  {
    if p >= end then 0 else PageNeeds(keys, p) + AllocNeeds(keys + {p / NPT}, p + 1, end)
  }

  function ZeroPage(): Frame {
    Page(seq(PGSIZE, _ => 0))
  }

  function Max(x: nat, y: nat): nat {
    if x < y then y else x
  }

  /** c has the entries of a, and entries for pages s to i. */
  ghost predicate Added(a: Space, c: Space, s: nat, i: nat) {
    && (forall v :: v in c.ptes <==> v in a.ptes || s <= v < i)
    && (forall v :: v in a.ptes ==> v in c.ptes && c.ptes[v] == a.ptes[v])
    && SameTables(a, c)
  }

  /** The state of the loop of allocuvm: pages s to i have been added. */
  ghost predicate Allocating(m: Mem, a: Space, m': Mem, c: Space, s: nat, i: nat) {
    && Holds(m', c) && FreeRight(m') && c.pd == a.pd && a.own <= c.own && Conserved(m, a.own, m', c.own)
    && Added(a, c, s, i) && i <= UPAGES
    && forall v :: s <= v < i ==> IsZeroPage(m', c, v)
  }

  predicate IsZeroPage(m: Mem, c: Space, v: nat) {
    v in c.ptes && c.ptes[v].flags == PWU && c.ptes[v].frame < |m.frames| && m.frames[c.ptes[v].frame] == ZeroPage()
  }

  /** Pages s to i have been added, and a frame may have been taken in vain. */
  ghost predicate Undoable(m: Mem, a: Space, m': Mem, c: Space, s: nat, i: nat, got: bool, f: nat) {
    && Holds(m', c) && FreeRight(m') && c.pd == a.pd && a.own <= c.own && Added(a, c, s, i)
    && Conserved(m, a.own, m', c.own + if got then {f} else {}) && (got ==> Limbo(m', c, f))
  }

  /** Page i, and its page table if need be, have been taken. */
  ghost predicate PageTaken(m: Mem, c: Space, m': Mem, b: Space, i: nat) {
    b.tables.Keys == c.tables.Keys + {i / NPT} && |m.free| == |m'.free| + PageNeeds(c.tables.Keys, i)
  }

  /** What was left over at the start is left over still. */
  ghost predicate Budget(m: Mem, a: Space, m': Mem, b: Space, s: nat, p: nat, end: nat) {
    |m.free| - AllocNeeds(a.tables.Keys, s, end) == |m'.free| - AllocNeeds(b.tables.Keys, p, end)
  }

  lemma BudgetStep(m: Mem, a: Space, n: Mem, c: Space, m': Mem, b: Space, s: nat, p: nat, end: nat)
    requires Budget(m, a, n, c, s, p, end) && p < end && PageTaken(n, c, m', b, p)
    ensures Budget(m, a, m', b, s, p + 1, end)
  {
  }

  /** The address space has the entries that it had, and no frame is lost. */
  ghost predicate SamePages(m: Mem, a: Space, m': Mem, b: Space) {
    Holds(m', b) && FreeRight(m') && b.pd == a.pd && b.ptes == a.ptes && a.own <= b.own && Conserved(m, a.own, m', b.own)
  }

  /** A frame has been taken from the free list and filled. */
  lemma FrameTaken(m: Mem, p: set<nat>, n: Mem, n1: Mem, n2: Mem, c: Space, f: nat)
    requires Holds(n1, c) && FreeRight(n1) && Conserved(m, p, n, c.own)
    requires p <= c.own && n1.frames == n.frames && n1.low == n.low
    requires n.low <= f < |n.frames| && Free(n) == Free(n1) + {f} && f !in Free(n1) && f !in c.own
    requires n2.low == n1.low && n2.free == n1.free && |n2.frames| == |n1.frames| && n2.frames[f].Page?
    requires forall g: nat :: g < |n1.frames| && g != f ==> n2.frames[g] == n1.frames[g]
    ensures Holds(n2, c) && FreeRight(n2) && Limbo(n2, c, f) && Conserved(m, p, n2, c.own + {f})
  {
    NotFree(n1, c);
    SameHolds(n1, n2, c);
    assert Free(n2) == Free(n1);
    assert f in Free(m) + p;
    assert f !in n1.free;
  }

  lemma PageAdded(m: Mem, a: Space, n: Mem, c: Space, n2: Mem, m': Mem, b: Space, s: nat, i: nat, f: nat)
    requires Allocating(m, a, n, c, s, i) && i < UPAGES && i !in a.ptes && s <= i
    requires f < |n.frames| == |n2.frames| && f !in c.own && n2.frames[f] == ZeroPage()
    requires forall g: nat :: g < |n.frames| && g != f ==> n2.frames[g] == n.frames[g]
    requires Conserved(m, a.own, n2, c.own + {f}) && Conserved(n2, c.own + {f}, m', b.own)
    requires Holds(m', b) && FreeRight(m') && b.pd == c.pd && c.own <= b.own && b.ptes == c.ptes[i := Pte(true, f, PWU)]
    requires OneTableMore(n2, c, m', b, i / NPT)
    ensures Allocating(m, a, m', b, s, i + 1)
  {
    OwnUse(b, Usr(i));
    ConservedTwice(m, a.own, n2, c.own + {f}, m', b.own);
    forall v | s <= v < i + 1
      ensures IsZeroPage(m', b, v)
    {
      if v < i {
        assert IsZeroPage(n, c, v);
        OwnUse(c, Usr(v));
      }
    }
  }

  /** deallocuvm takes away what allocuvm has added. */
  lemma AllGone(a: Space, c: Space, b: Space, s: nat, i: nat, end: nat)
    requires KeysRight(c) && Added(a, c, s, i) && i <= end <= UPAGES && IsPart(b.ptes, c.ptes)
    requires forall v :: v in a.ptes ==> v < s || v >= UPAGES
    requires forall v :: v in c.ptes ==> (v in b.ptes <==> !Visits(c.tables, s, end, v))
    ensures b.ptes == a.ptes
  {
    forall v | v in c.ptes && s <= v < end
      ensures Visits(c.tables, s, end, v)
    {
      assert s in c.ptes && s / NPT in c.tables;
      ScanIsComplete(c, s, end, v);
    }
  }

  lemma UndoneAlloc(m: Mem, a: Space, n: Mem, c: Space, n2: Mem, m': Mem, b: Space, limbo: set<nat>)
    requires Conserved(m, a.own, n, c.own + limbo) && a.own <= c.own && Conserved(n, c.own, n2, b.own) && b.own <= c.own
    requires Holds(n2, b) && FreeRight(m') && limbo !! (Free(n2) + b.own) && b.pd == a.pd && b.ptes == a.ptes
    requires m'.low == n2.low && |m'.frames| == |n2.frames| && Free(m') == Free(n2) + limbo
    requires forall f: nat :: f < |n2.frames| && f !in limbo ==> m'.frames[f] == n2.frames[f]
    requires Holds(m, a) && SameTables(a, b)
    ensures SamePages(m, a, m', b)
  {
    SameHolds(n2, m', b);
    forall f: nat | f in a.own
      ensures f in b.own
    {
      assert OwnRight(a, f);
      var u: Use :| Uses(a, u) && FrameOf(a, u) == f;
      OwnUse(b, u);
    }
    forall f: nat | f < |m.frames| && f !in a.own && f !in Free(m)
      ensures m'.frames[f] == m.frames[f]
    {
      assert f !in Free(n) + (c.own + limbo);
    }
    assert Free(m') + b.own == Free(m) + a.own;
  }

  /** When a copy of np pages with n free frames loses frames: half a kernel half, or
      the page for which there was no page table. */
  ghost predicate Leaks(n: nat, np: nat) {
    0 < n < KERNEL_FRAMES || exists j: nat :: LeaksAt(n, np, j)
  }

  predicate LeaksAt(n: nat, np: nat, j: nat) {
    j * NPT < np && n == CopyFrames(j * NPT) + 1
  }

  lemma NoLeak(n: nat, np: nat)
    requires n < KERNEL_FRAMES
    ensures (Leaks(n, np) <==> n > 0) && n < CopyFrames(np)
  {
  }

  lemma LeaksIff(n: nat, i: nat, np: nat)
    requires i < np && (n == CopyFrames(i) || (i % NPT == 0 && n == CopyFrames(i) + 1))
    ensures Leaks(n, np) <==> i % NPT == 0 && n == CopyFrames(i) + 1
    ensures n < CopyFrames(np)
  {
    if i % NPT == 0 && n == CopyFrames(i) + 1 {
      assert i / NPT * NPT == i;
      assert LeaksAt(n, np, i / NPT);
    } else {
      forall j: nat
        ensures !LeaksAt(n, np, j)
      {
        NoLeakAt(i, np, j);
      }
    }
  }

  lemma NoLeakAt(i: nat, np: nat, j: nat)
    ensures !LeaksAt(CopyFrames(i), np, j)
  {
    var q, r := i / NPT, i % NPT;
    assert CopyFrames(j * NPT) == KERNEL_FRAMES + j * NPT + j;
    assert CopyFrames(i) == KERNEL_FRAMES + q * NPT + q + if r == 0 then 0 else r + 1;
  }

  /** The new address space has no user pages yet. */
  lemma StartCopy(m: Mem, a: Space, m': Mem, c: Space, data: nat)
    requires Holds(m, a) && EXTMEM < data < PHYSTOP && Holds(m', c) && FreeRight(m') && Conserved(m, {}, m', c.own)
    requires c.ptes == KernelHalf(data, 4) && |m.free| == |m'.free| + KERNEL_FRAMES
    requires forall x: nat :: x in c.tables ==> x >= UPAGES / NPT
    ensures Copying(m, a, m', c, 0, data)
  {
  }

  /** Freeing the address space gives back all that has been taken but lost. */
  lemma GivenBack(m: Mem, n: Mem, c: Space, m': Mem, lost: set<nat>)
    requires Conserved(m, {}, n, c.own + lost) && Conserved(n, c.own, m', {}) && lost !! c.own
    ensures Conserved(m, {}, m', lost)
  {
  }

  lemma ParentStays(m: Mem, a: Space, m': Mem, q: set<nat>)
    requires Holds(m, a) && Conserved(m, {}, m', q)
    ensures Holds(m', a)
  {
    NotFree(m, a);
    assert forall f :: f in m'.free ==> f in Free(m');
    assert forall f :: f in Free(m') + q ==> f in Free(m);
    assert forall f :: f in Free(m) ==> f in m.free;
    SameHolds(m, m', a);
  }

  /** The pages below n of address space c are copies of those of a, as memory was at
      the start, with the same flags, and c has no other user pages. */
  ghost predicate CopyUpTo(m: Mem, a: Space, m': Mem, c: Space, n: nat) {
    && (forall v: nat :: v < n ==> IsCopy(m, a, m', c, v))
    && (forall v :: v in c.ptes ==> v < n || v >= UPAGES)
  }

  predicate IsCopy(m: Mem, a: Space, m': Mem, c: Space, v: nat) {
    && v in a.ptes && v in c.ptes && c.ptes[v].flags == a.ptes[v].flags
    && a.ptes[v].frame < |m.frames| && c.ptes[v].frame < |m'.frames|
    && m.frames[a.ptes[v].frame].Page? && m'.frames[c.ptes[v].frame] == m.frames[a.ptes[v].frame]
  }

  ghost predicate KernelOnly(c: Space, data: nat)
    requires EXTMEM < data < PHYSTOP
  {
    forall v :: v >= UPAGES ==>
      (v in c.ptes <==> v in KernelHalf(data, 4)) && (v in c.ptes ==> c.ptes[v] == KernelHalf(data, 4)[v])
  }

  /** The state of the loop of copyuvm: m is memory at the start. */
  ghost predicate Copying(m: Mem, a: Space, m': Mem, c: Space, n: nat, data: nat) {
    && Holds(m, a) && Holds(m', c) && FreeRight(m') && Conserved(m, {}, m', c.own)
    && CopyUpTo(m, a, m', c, n) && EXTMEM < data < PHYSTOP && KernelOnly(c, data)
    && CopyTook(m, m', c, n)
  }

  /** The frames that a copy of n pages takes: the kernel's, the pages, and the page
      tables of the user half. */
  function CopyFrames(n: nat): nat {
    KERNEL_FRAMES + n + (n + NPT - 1) / NPT
  }

  /** Page v is the first of np pages that is not there, and n frames are enough for a
      copy to come to it. */
  ghost predicate StopsAt(a: Space, np: nat, n: nat, v: nat) {
    v < np && v !in a.ptes && (forall w: nat :: w < v ==> w in a.ptes) && n >= CopyFrames(v)
  }

  /** copyuvm has copied i of np pages, or has stopped. */
  ghost predicate CopyResult(m: Mem, a: Space, m': Mem, c: Space, i: nat, data: nat, np: nat, done: bool, ok: bool,
                             lost: set<nat>)
  {
    if !ok then Stops(a, np, |m.free|)
    else if done then Copying(m, a, m', c, i, data)
    else && FreeRight(m') && Conserved(m, {}, m', lost) && KERNEL_FRAMES <= |m.free| < CopyFrames(np)
         && (lost != {} <==> Leaks(|m.free|, np)) && !Stops(a, np, |m.free|)
  }

  /** copyuvm meets a page that is not there. */
  ghost predicate Stops(a: Space, np: nat, n: nat) {
    exists v: nat :: StopsAt(a, np, n, v)
  }

  lemma CopiedAreThere(m: Mem, a: Space, m': Mem, c: Space, i: nat, data: nat)
    requires Copying(m, a, m', c, i, data)
    ensures forall w: nat :: w < i ==> w in a.ptes
  {
    forall w: nat | w < i
      ensures w in a.ptes
    {
      assert IsCopy(m, a, m', c, w);
    }
  }

  /** A copy that fails for want of frames does so before the first gap. */
  lemma NoGapYet(a: Space, np: nat, n: nat, i: nat)
    requires (forall w: nat :: w <= i ==> w in a.ptes)
    requires n == CopyFrames(i) || (i % NPT == 0 && n == CopyFrames(i) + 1)
    ensures !Stops(a, np, n)
  {
    forall v: nat
      ensures !StopsAt(a, np, n, v)
    {
      if i < v {
        MoreFrames(i, v);
      }
    }
  }

  lemma MoreFrames(i: nat, v: nat)
    requires i < v
    ensures CopyFrames(i) < CopyFrames(v) && (i % NPT == 0 ==> CopyFrames(i) + 1 < CopyFrames(v))
  {
    TablesUp(i, (i + NPT - 1) / NPT);
    TablesUp(v, (v + NPT - 1) / NPT);
    assert i % NPT == 0 ==> i == i / NPT * NPT;
  }

  lemma TablesUp(n: nat, c: nat)
    requires c == (n + NPT - 1) / NPT
    ensures n <= c * NPT < n + NPT
  {
  }

  ghost predicate CopyTook(m: Mem, m': Mem, c: Space, n: nat) {
    && |m.free| == |m'.free| + CopyFrames(n)
    && forall x: nat :: x < UPAGES / NPT ==> (x in c.tables <==> x < (n + NPT - 1) / NPT)
  }

  lemma PageTook(m: Mem, n: Mem, c: Space, n2: Mem, m': Mem, b: Space, i: nat)
    requires CopyTook(m, n, c, i) && |n.free| == |n2.free| + 1 && OneTableMore(n2, c, m', b, i / NPT) && i < UPAGES
    ensures CopyTook(m, m', b, i + 1)
  {
  }

  /** What was in use before is as it was. */
  lemma ParentHolds(m: Mem, a: Space, m': Mem, c: Space)
    requires Holds(m, a) && Conserved(m, {}, m', c.own)
    ensures Holds(m', a) && a.own !! c.own
    ensures forall f :: f in a.own ==> f < |m.frames| && m'.frames[f] == m.frames[f]
  {
    NotFree(m, a);
    assert forall f :: f in m'.free ==> f in Free(m');
    assert forall f :: f in Free(m') + c.own ==> f in Free(m);
    assert forall f :: f in Free(m) ==> f in m.free;
    SameHolds(m, m', a);
  }

  lemma PageCopied(m: Mem, a: Space, n: Mem, c: Space, n2: Mem, m': Mem, b: Space, i: nat, f: nat, pte: Pte, data: nat)
    requires Copying(m, a, n, c, i, data) && i < UPAGES && i in a.ptes
    requires a.ptes[i] == pte && pte.frame < |n.frames| && n.frames[pte.frame].Page?
    requires f < |n.frames| == |n2.frames| && f !in c.own && n2.frames[f] == n.frames[pte.frame]
    requires forall g: nat :: g < |n.frames| && g != f ==> n2.frames[g] == n.frames[g]
    requires Conserved(m, {}, n2, c.own + {f}) && Conserved(n2, c.own + {f}, m', b.own)
    requires Holds(m', b) && FreeRight(m') && c.own <= b.own && b.ptes == c.ptes[i := Pte(true, f, pte.flags)]
    requires CopyTook(m, m', b, i + 1)
    ensures Copying(m, a, m', b, i + 1, data)
  {
    OwnUse(b, Usr(i));
    ConservedTwice(m, {}, n2, c.own + {f}, m', b.own);
    ParentHolds(m, a, n, c);
    OwnUse(a, Usr(i));
    forall v: nat | v < i + 1
      ensures IsCopy(m, a, m', b, v)
    {
      if v < i {
        assert IsCopy(m, a, n, c, v);
        OwnUse(c, Usr(v));
      }
    }
  }

  /** The first i tables have been freed. */
  ghost predicate FreeingTables(n: Mem, m: Mem, b: Space, i: nat) {
    && m.low == n.low && |m.frames| == |n.frames| && FreeRight(m)
    && Free(m) == Free(n) + FirstTables(b, i)
    && forall f: nat :: f < |n.frames| && f !in FirstTables(b, i) ==> m.frames[f] == n.frames[f]
  }

  function FirstTables(b: Space, i: nat): set<nat> {
    set x | x in b.tables && x < i :: b.tables[x]
  }

  lemma TablesUpTo(b: Space, i: nat)
    ensures FirstTables(b, i + 1) == FirstTables(b, i) + if i in b.tables then {b.tables[i]} else {}
  {
  }

  lemma NotYetFreed(n: Mem, b: Space, i: nat)
    requires Holds(n, b)
    ensures i in b.tables ==> b.tables[i] !in FirstTables(b, i) && b.tables[i] !in Free(n)
    ensures b.pd !in FirstTables(b, i) && b.pd !in Free(n)
  {
    assert InMemory(n, b, Tab(i)) && InMemory(n, b, Dir);
    forall x | x in b.tables && x < i
      ensures b.tables[x] != b.pd && (i in b.tables ==> b.tables[x] != b.tables[i])
    {
      assert OneUse(b, Tab(x), Tab(i)) && OneUse(b, Tab(x), Dir);
    }
  }

  const PGSIZE: nat := 4096

  predicate GivesAllBack(sz: nat, n: int) {
    n < 0 < sz && sz + n == 0
  }

  lemma NewSize(sz: nat, n: int, want: nat)
    requires sz <= UPAGES * PGSIZE && -0x8000_0000 <= n < 0x8000_0000 && want == (sz + n) % 0x1_0000_0000
    ensures want == if sz + n < 0 then sz + n + 0x1_0000_0000 else sz + n
    ensures sz + n < 0 ==> sz <= want
  {
  }

  lemma NothingLeft(b: Space, sz: nat)
    requires 0 < sz && Contiguous(b, 0)
    ensures !Contiguous(b, PagesUp(sz))
  {
    assert 0 !in b.ptes && PagesUp(sz) > 0;
  }

  /** The first page boundary at or above n, in pages. */
  function PagesUp(n: nat): nat {
    (n + PGSIZE - 1) / PGSIZE
  }

  ghost predicate IsPart(p: map<nat, Pte>, q: map<nat, Pte>) {
    forall v :: v in p ==> v in q && p[v] == q[v]
  }

  /** The scan of deallocuvm from page s to page end reaches page v.  Where there is no
      page table it goes on 1024 pages further, which skips the beginning of the next
      table unless s is the first page of a table. */
  predicate Visits(tables: map<nat, nat>, s: nat, end: nat, v: nat) {
    s <= v < end && v / NPT in tables && (v % NPT >= s % NPT || HasTable(tables, s / NPT, v / NPT))
  }

  predicate HasTable(tables: map<nat, nat>, lo: nat, hi: nat) {
    exists x :: lo <= x < hi && x in tables
  }

  lemma VisitNext(tables: map<nat, nat>, p: nat, q: nat, end: nat, v: nat)
    requires p < end && q == if p / NPT in tables then p + 1 else p + NPT
    ensures Visits(tables, p, end, v) <==> (p / NPT in tables && v == p) || Visits(tables, q, end, v)
  {
  }

  /** The scan frees every mapped page if it starts at the first page of a table, or at
      a page that has a table. */
  lemma ScanIsComplete(a: Space, s: nat, end: nat, v: nat)
    requires KeysRight(a) && v in a.ptes && s <= v < end && (s % NPT == 0 || s / NPT in a.tables)
    ensures Visits(a.tables, s, end, v)
  {
  }

  /** Otherwise it misses the first page of the next table: from page 1 with no table 0
      it goes on to page 1025. */
  lemma ScanMisses(a: Space, s: nat, end: nat, x: nat)
    requires KeysRight(a) && s % NPT != 0 && !HasTable(a.tables, s / NPT, x)
    ensures !Visits(a.tables, s, end, x * NPT)
  {
  }

  /** The user pages are those below n. */
  ghost predicate Contiguous(a: Space, n: nat) {
    forall w: nat :: w < UPAGES ==> (w in a.ptes <==> w < n)
  }

  /** In such a space the scan frees every mapped user page wherever it starts. */
  lemma ScanOfContiguous(a: Space, n: nat, s: nat, end: nat, v: nat)
    requires KeysRight(a) && Contiguous(a, n) && s <= v < end <= UPAGES && v in a.ptes
    ensures Visits(a.tables, s, end, v)
  {
    assert s in a.ptes;
    ScanIsComplete(a, s, end, v);
  }

  lemma ShrunkIsContiguous(a: Space, b: Space, s: nat, end: nat)
    requires KeysRight(a) && Contiguous(a, end) && s <= end <= UPAGES && IsPart(b.ptes, a.ptes)
    requires forall v :: v in a.ptes ==> (v in b.ptes <==> !Visits(a.tables, s, end, v))
    ensures Contiguous(b, s)
  {
    forall v: nat | v < UPAGES
      ensures v in b.ptes <==> v < s
    {
      if s <= v && v in a.ptes {
        ScanOfContiguous(a, end, s, end, v);
      }
    }
  }

  lemma CopyIsContiguous(m: Mem, a: Space, m': Mem, c: Space, n: nat, data: nat)
    requires Copying(m, a, m', c, n, data)
    ensures Contiguous(c, n)
  {
    forall w: nat | w < UPAGES
      ensures w in c.ptes <==> w < n
    {
      assert w < n ==> IsCopy(m, a, m', c, w);
    }
  }

  /** So are the pages of a new address space, which has none. */
  lemma NewIsContiguous(b: Space, data: nat)
    requires EXTMEM < data < PHYSTOP && b.ptes == KernelHalf(data, 4)
    ensures Contiguous(b, 0)
  {
    KernelKeys(data, 4);
  }

  /** The scan has come to page p: what it has not reached from s, and will not reach
      from p, is still mapped. */
  ghost predicate Scanned(a: Space, b: Space, s: nat, p: nat, end: nat) {
    && b.tables == a.tables && IsPart(b.ptes, a.ptes)
    && (forall v :: v in a.ptes ==> (v in b.ptes && !Visits(a.tables, p, end, v) <==> !Visits(a.tables, s, end, v)))
    && (forall v :: v in a.ptes && v >= p ==> v in b.ptes)
  }

  /** The state of the loop of deallocuvm. */
  ghost predicate Unmapping(m: Mem, a: Space, m': Mem, b: Space, s: nat, p: nat, end: nat) {
    && Holds(m', b) && FreeRight(m') && b.pd == a.pd && Scanned(a, b, s, p, end)
    && Conserved(m, a.own, m', b.own) && b.own <= a.own
  }

  lemma ScanStep(a: Space, c: Space, b: Space, s: nat, p: nat, q: nat, end: nat)
    requires Scanned(a, c, s, p, end) && p < end <= UPAGES
    requires if p / NPT in a.tables then q == p + 1 && b == WithoutPte(c, p) else q == p + NPT && b == c
    ensures Scanned(a, b, s, q, end)
  {
    forall v | v in a.ptes
      ensures v in b.ptes && !Visits(a.tables, q, end, v) <==> !Visits(a.tables, s, end, v)
    {
      VisitNext(a.tables, p, q, end, v);
    }
  }

  /** From page 0 on the scan reaches every user page. */
  lemma NoUserPages(a: Space, b: Space)
    requires KeysRight(a) && KeysRight(b) && (forall f: nat :: OwnRight(b, f))
    requires b.tables == a.tables && IsPart(b.ptes, a.ptes)
    requires forall v :: v in a.ptes ==> (v in b.ptes <==> !Visits(a.tables, PagesUp(0), PagesUp(UPAGES * PGSIZE), v))
    ensures b.own == {b.pd} + FirstTables(b, NPT)
  {
    assert PagesUp(0) == 0 && PagesUp(UPAGES * PGSIZE) == UPAGES;
    assert forall v :: v in b.ptes ==> v >= UPAGES;
    forall f: nat
      ensures f in b.own <==> f == b.pd || f in FirstTables(b, NPT)
    {
      assert OwnRight(b, f);
      if f in b.own {
        var u: Use :| Uses(b, u) && FrameOf(b, u) == f;
        assert u.Dir? || u.Tab?;
      }
      assert Uses(b, Dir);
      if x :| x in b.tables && b.tables[x] == f {
        assert Uses(b, Tab(x)) && FrameOf(b, Tab(x)) == f;
      }
    }
  }

  lemma LastFreed(m: Mem, p: set<nat>, n: Mem, b: Space, m': Mem)
    requires Holds(n, b) && Conserved(m, p, n, b.own) && b.own == {b.pd} + FirstTables(b, NPT)
    requires m'.low == n.low && |m'.frames| == |n.frames| && Free(m') == Free(n) + FirstTables(b, NPT) + {b.pd}
    requires forall f: nat :: f < |n.frames| && f !in FirstTables(b, NPT) && f != b.pd ==> m'.frames[f] == n.frames[f]
    ensures Conserved(m, p, m', {})
  {
  }

  lemma FreedConserved(m: Mem, m': Mem, a: Space, b: Space, f: nat, t: nat)
    requires m'.low == m.low && |m'.frames| == |m.frames| && m'.free == [f] + m.free && Free(m) !! a.own
    requires a.own == b.own + {f} && f !in b.own && t in b.own && Free(m') !! b.own
    requires t < |m.frames| && m.frames[t].Table? && f != t
    requires forall g: nat :: g < |m.frames| && g != f && g != t ==> m'.frames[g] == m.frames[g]
    ensures Conserved(m, a.own, m', b.own)
  {
  }

  const EXTMEM: nat := 256         // in pages, as the other addresses
  const PHYSTOP: nat := 57344
  const DEVSPACE: nat := 1040384
  const PTE_W: nat := 2

  datatype Kmap = Kmap(virt: nat, phys: nat, n: nat, perm: nat)

  /** The table kmap; data is where the kernel's text ends. */
  function Kmaps(data: nat): (r: seq<Kmap>)
    requires EXTMEM < data < PHYSTOP
    ensures |r| == 4
  {
    [ Kmap(UPAGES, 0, EXTMEM, PTE_W),
      Kmap(UPAGES + EXTMEM, EXTMEM, data - EXTMEM, 0),
      Kmap(UPAGES + data, data, PHYSTOP - data, PTE_W),
      Kmap(DEVSPACE, DEVSPACE, VPAGES - DEVSPACE, PTE_W) ]
  }

  /** The entries of the first k lines of kmap. */
  function KernelHalf(data: nat, k: nat): map<nat, Pte>
    requires EXTMEM < data < PHYSTOP && k <= 4
  {
    if k == 0 then map[]
    else var e := Kmaps(data)[k - 1]; KernelHalf(data, k - 1) + Run(e.virt, e.n, e.phys, e.perm)
  }

  /** A directory, 56 page tables for memory and 8 for the devices. */
  const KERNEL_FRAMES: nat := 65

  /** Where the pages of the first k lines end, not counting the devices. */
  function KernelEnd(data: nat, k: nat): nat {
    UPAGES + if k == 0 then 0 else if k == 1 then EXTMEM else if k == 2 then data else PHYSTOP
  }

  /** The page tables after k lines, and what is left of the free list. */
  ghost predicate KernelTables(m: Mem, m': Mem, b: Space, data: nat, k: nat) {
    && (forall x: nat :: x in b.tables <==>
          UPAGES / NPT <= x < KernelNext(data, k) || (k == 4 && DEVSPACE / NPT <= x < NPT))
    && |m.free| == |m'.free| + 1 + (KernelNext(data, k) - UPAGES / NPT) + if k == 4 then 8 else 0
  }

  /** The state of the loop of setupkvm. */
  ghost predicate Building(m: Mem, m': Mem, b: Space, data: nat, k: nat) {
    && EXTMEM < data < PHYSTOP && k <= 4
    && Holds(m', b) && FreeRight(m') && b.ptes == KernelHalf(data, k)
    && Conserved(m, {}, m', b.own) && KernelTables(m, m', b, data, k)
  }

  /** The first page table that the first k lines do not need. */
  function KernelNext(data: nat, k: nat): nat {
    (KernelEnd(data, k) + NPT - 1) / NPT
  }

  /** A line starts in the last table of the line before it or in the next one. */
  lemma KernelLine(data: nat, k: nat)
    requires EXTMEM < data < PHYSTOP && k < 4
    ensures var e := Kmaps(data)[k]; var first, last := e.virt / NPT, (e.virt + e.n - 1) / NPT;
            && UPAGES / NPT <= first
            && if k == 3 then first == DEVSPACE / NPT && last == NPT - 1 && KernelNext(data, 3) == 568
               else last == KernelNext(data, k + 1) - 1 && KernelNext(data, k) - 1 <= first <= KernelNext(data, k)
  {
  }

  lemma KernelTaken(m: Mem, n: Mem, c: Space, m': Mem, b: Space, data: nat, k: nat)
    requires EXTMEM < data < PHYSTOP && k < 4 && KernelTables(m, n, c, data, k)
    ensures var e := Kmaps(data)[k];
            && NoneAbove(c, e.virt)
            && (TablesFor(n, c, m', b, e.virt, e.n) ==> KernelTables(m, m', b, data, k + 1))
            && (|n.free| < Took(c, e.virt, e.n) ==> |m.free| < KERNEL_FRAMES)
  {
    KernelLine(data, k);
    assert KernelNext(data, 4) == KernelNext(data, 3) == 568;
    assert KernelNext(data, k) <= KernelNext(data, k + 1) <= 568;
  }

  /** The lines do not overlap, and stay above the user half. */
  lemma {:induction false} KernelKeys(data: nat, k: nat)
    requires EXTMEM < data < PHYSTOP && k <= 4
    ensures forall w :: w in KernelHalf(data, k) ==> UPAGES <= w && (k < 4 ==> w < Kmaps(data)[k].virt)
  {
    if k > 0 {
      var e := Kmaps(data)[k - 1];
      KernelKeys(data, k - 1);
      RunKeys(e.virt, e.n, e.phys, e.perm);
    }
  }

  /** An empty directory is an address space. */
  lemma NewSpace(m: Mem, m': Mem, b: Space)
    requires b.tables == map[] && b.ptes == map[] && b.own == {b.pd} && b.pd in Free(m) && m.low <= b.pd < |m.frames|
    requires m'.low == m.low && m'.frames == m.frames[b.pd := Table(Zeros())]
    requires Free(m) == Free(m') + {b.pd} && b.pd !in Free(m')
    ensures Holds(m', b) && Conserved(m, {}, m', b.own)
  {
    assert Uses(b, Dir) && FrameOf(b, Dir) == b.pd;
    assert forall f :: f in m'.free ==> f in Free(m');
    forall u: Use
      ensures InMemory(m', b, u)
    {
    }
  }

  /** The address space has got more frames: those in x, which nobody used, and the rest
      from the free list. */
  ghost predicate Growing(m: Mem, a: Space, x: set<nat>, m': Mem, b: Space) {
    && Holds(m', b) && FreeRight(m') && b.pd == a.pd && a.own + x <= b.own
    && Conserved(m, a.own + x, m', b.own)
  }

  predicate LimboAt(m: Mem, a: Space, v: nat, k: nat, ppn: nat) {
    v + k < UPAGES ==> Limbo(m, a, ppn + k)
  }

  /** The frames of the user pages among n pages from v on. */
  function UserRun(v: nat, n: nat, ppn: nat): set<nat> {
    if n == 0 then {} else UserRun(v, n - 1, ppn) + UserFrame(v + n - 1, ppn + n - 1)
  }

  lemma {:induction false} UserRunKeys(v: nat, n: nat, ppn: nat)
    ensures forall f :: f in UserRun(v, n, ppn) ==> ppn <= f < ppn + n
    ensures UPAGES <= v ==> UserRun(v, n, ppn) == {}
  {
    if n > 0 {
      UserRunKeys(v, n - 1, ppn);
    }
  }

  /** The frame for the next page is still in use by nobody. */
  lemma NextInLimbo(m: Mem, a: Space, n: Mem, c: Space, v: nat, k: nat, ppn: nat, w: nat, f: nat)
    requires Growing(m, a, UserRun(v, k, ppn), n, c) && LimboAt(m, a, v, k, ppn) && w == v + k && f == ppn + k
    ensures w < UPAGES ==> Limbo(n, c, f)
    ensures UserFrame(w, f) !! (Free(m) + (a.own + UserRun(v, k, ppn)))
  {
    UserRunKeys(v, k, ppn);
    if v + k < UPAGES {
      assert ppn + k !in Free(m) + (a.own + UserRun(v, k, ppn));
      assert ppn + k !in Free(n) + c.own;
    }
  }

  /** The state of the loop of mappages after k pages. */
  ghost predicate Laying(m: Mem, a: Space, m': Mem, b: Space, v: nat, k: nat, ppn: nat, perm: nat) {
    && Growing(m, a, UserRun(v, k, ppn), m', b) && b.ptes == a.ptes + Run(v, k, ppn, perm)
    && (NoneAbove(a, v) ==> TablesFor(m, a, m', b, v, k))
  }

  /** Page v has been mapped to frame f. */
  ghost predicate MapDone(m: Mem, a: Space, m': Mem, b: Space, v: nat, f: nat, perm: nat) {
    && Holds(m', b) && FreeRight(m') && b.pd == a.pd
    && b.ptes == a.ptes[v := Pte(true, f, perm)] && a.own + UserFrame(v, f) <= b.own
    && Conserved(m, a.own + UserFrame(v, f), m', b.own) && OneTableMore(m, a, m', b, v / NPT)
  }

  /** How far mappages has come: up to page at, or it has stopped there. */
  ghost predicate MapResult(m: Mem, a: Space, m': Mem, b: Space, v: nat, at: nat, ppn: nat, perm: nat, n: nat, r: int, ok: bool) {
    if !ok then at < n && v + at in a.ptes
    else if r == 0 then Laying(m, a, m', b, v, at, ppn, perm)
    else r == -1 && m'.free == [] && LaidTo(m, a, m', b, v, at, ppn, n)
  }

  lemma LayingNone(m: Mem, a: Space, v: nat, ppn: nat, perm: nat)
    requires Holds(m, a) && FreeRight(m)
    ensures Laying(m, a, m, a, v, 0, ppn, perm)
  {
    NotFree(m, a);
  }

  lemma LayingMore(m: Mem, a: Space, n: Mem, c: Space, m': Mem, b: Space, v: nat, k: nat, ppn: nat, perm: nat,
                   w: nat, f: nat)
    requires Laying(m, a, n, c, v, k, ppn, perm) && w == v + k && f == ppn + k && MapDone(n, c, m', b, w, f, perm)
    requires UserFrame(w, f) !! (Free(m) + (a.own + UserRun(v, k, ppn)))
    ensures Laying(m, a, m', b, v, k + 1, ppn, perm)
  {
    RunMore(a.ptes, c.ptes, b.ptes, v, k, ppn, perm, w, f);
    GrowingMore(m, a, n, c, m', b, v, k, ppn, w, f);
    TablesMore(m, a, n, c, m', b, v, k, w);
  }

  lemma GrowingMore(m: Mem, a: Space, n: Mem, c: Space, m': Mem, b: Space, v: nat, k: nat, ppn: nat,
                    w: nat, f: nat)
    requires Growing(m, a, UserRun(v, k, ppn), n, c) && Holds(m', b) && FreeRight(m') && b.pd == c.pd
    requires w == v + k && f == ppn + k && c.own + UserFrame(w, f) <= b.own && Conserved(n, c.own + UserFrame(w, f), m', b.own)
    requires UserFrame(w, f) !! (Free(m) + (a.own + UserRun(v, k, ppn)))
    ensures Growing(m, a, UserRun(v, k + 1, ppn), m', b)
  {
    KeepsGrowing(m, a, UserRun(v, k, ppn), n, c, m', b, UserFrame(w, f), UserRun(v, k + 1, ppn));
  }

  /** What mappages has done when the free list is empty at page k. */
  ghost predicate LaidTo(m: Mem, a: Space, n: Mem, c: Space, v: nat, k: nat, ppn: nat, end: nat) {
    && k < end && Growing(m, a, UserRun(v, k, ppn), n, c) && (UPAGES <= v ==> Growing(m, a, {}, n, c))
    && (NoneAbove(a, v) ==> |m.free| < Took(a, v, end))
  }

  lemma LayingStops(m: Mem, a: Space, n: Mem, c: Space, v: nat, k: nat, ppn: nat, perm: nat, end: nat)
    requires Laying(m, a, n, c, v, k, ppn, perm) && k < end && n.free == [] && (v + k) / NPT !in c.tables
    ensures LaidTo(m, a, n, c, v, k, ppn, end)
  {
    UserRunKeys(v, k, ppn);
    TablesMissing(m, a, n, c, v, k, end);
  }

  /** Page table x is there, and was taken from the free list if it was not before. */
  ghost predicate OneTableMore(m: Mem, a: Space, m': Mem, b: Space, x: nat) {
    && (forall y: nat :: y in b.tables <==> y in a.tables || y == x)
    && SameTables(a, b)
    && |m'.free| == |m.free| - if x in a.tables then 0 else 1
  }

  ghost predicate SameTables(a: Space, b: Space) {
    forall y :: y in a.tables ==> y in b.tables && b.tables[y] == a.tables[y]
  }

  ghost predicate NoneAbove(a: Space, v: nat) {
    forall x :: x in a.tables ==> x <= v / NPT
  }

  /** b has the page tables of a, and those for n pages from v on, which have been taken
      from the free list. */
  ghost predicate TablesFor(m: Mem, a: Space, m': Mem, b: Space, v: nat, n: nat) {
    && (forall x: nat :: x in b.tables <==> x in a.tables || TableFor(v, n, x))
    && |m.free| == |m'.free| + Took(a, v, n)
  }

  predicate TableFor(v: nat, n: nat, x: nat) {
    n > 0 && v / NPT <= x <= (v + n - 1) / NPT
  }

  /** The page tables that n pages from v on need. */
  function Took(a: Space, v: nat, n: nat): nat {
    if n == 0 then 0 else (v + n - 1) / NPT - v / NPT + if v / NPT in a.tables then 0 else 1
  }

  lemma TablesMore(m: Mem, a: Space, n: Mem, c: Space, m': Mem, b: Space, v: nat, k: nat, w: nat)
    requires w == v + k && OneTableMore(n, c, m', b, w / NPT)
    ensures NoneAbove(a, v) && TablesFor(m, a, n, c, v, k) ==> TablesFor(m, a, m', b, v, k + 1)
  {
  }

  lemma TablesMissing(m: Mem, a: Space, n: Mem, c: Space, v: nat, k: nat, end: nat)
    requires n.free == [] && (v + k) / NPT !in c.tables && k < end
    ensures NoneAbove(a, v) && TablesFor(m, a, n, c, v, k) ==> |m.free| < Took(a, v, end)
  {
  }

  lemma KeepsGrowing(m: Mem, a: Space, x: set<nat>, n: Mem, c: Space, m': Mem, b: Space, limbo: set<nat>, y: set<nat>)
    requires Growing(m, a, x, n, c) && Holds(m', b) && FreeRight(m') && b.pd == c.pd && c.own + limbo <= b.own
    requires limbo !! (Free(m) + (a.own + x)) && Conserved(n, c.own + limbo, m', b.own) && y == x + limbo
    ensures Growing(m, a, y, m', b)
  {
    ConservedPlus(m, a.own + x, n, c.own, limbo);
    assert a.own + x + limbo == a.own + y;
    ConservedTwice(m, a.own + x + limbo, n, c.own + limbo, m', b.own);
  }

  /** Frames in use by nobody stay so. */
  lemma ConservedPlus(m: Mem, p: set<nat>, n: Mem, q: set<nat>, limbo: set<nat>)
    requires Conserved(m, p, n, q) && limbo !! (Free(m) + p)
    ensures Conserved(m, p + limbo, n, q + limbo)
  {
    assert limbo !! (Free(n) + q);
    assert Free(n) + (q + limbo) == Free(m) + (p + limbo);
  }

  /** n pages from v on, mapped to frames from ppn on. */
  function Run(v: nat, n: nat, ppn: nat, perm: nat): map<nat, Pte> {
    if n == 0 then map[] else Run(v, n - 1, ppn, perm)[v + n - 1 := Pte(true, ppn + n - 1, perm)]
  }

  lemma {:induction false} RunKeys(v: nat, n: nat, ppn: nat, perm: nat)
    ensures forall w :: w in Run(v, n, ppn, perm) <==> v <= w < v + n
    ensures forall w :: w in Run(v, n, ppn, perm) ==> Run(v, n, ppn, perm)[w] == Pte(true, ppn + (w - v), perm)
  {
    if n > 0 {
      RunKeys(v, n - 1, ppn, perm);
    }
  }

  lemma RunMore(a: map<nat, Pte>, c: map<nat, Pte>, b: map<nat, Pte>, v: nat, k: nat, ppn: nat, perm: nat, w: nat, f: nat)
    requires c == a + Run(v, k, ppn, perm) && b == c[w := Pte(true, f, perm)] && w == v + k && f == ppn + k
    ensures b == a + Run(v, k + 1, ppn, perm)
  {
  }

  /** A frame of bytes that is neither free nor mapped yet. */
  predicate Limbo(m: Mem, a: Space, f: nat) {
    m.low <= f < |m.frames| && f !in m.free && f !in a.own && m.frames[f].Page?
  }

  lemma LimboStays(m: Mem, a: Space, n: Mem, c: Space, v: nat, f: nat)
    requires Holds(m, a) && Conserved(m, a.own, n, c.own) && (v < UPAGES ==> Limbo(m, a, f))
    ensures v < UPAGES ==> Limbo(n, c, f) && n.frames[f] == m.frames[f]
  {
    assert v < UPAGES ==> f !in Free(m) + a.own;
    assert v < UPAGES ==> f !in Free(n) + c.own;
  }

  /** Storing into a table that is in use, for a frame that is not free. */
  lemma MapConserved(m: Mem, p: set<nat>, n: Mem, q: set<nat>, m': Mem, limbo: set<nat>, t: nat)
    requires Conserved(m, p, n, q) && m'.low == n.low && |m'.frames| == |n.frames| && m'.free == n.free
    requires forall f: nat :: f < |n.frames| && f != t ==> m'.frames[f] == n.frames[f]
    requires p <= q && t in q && t < |n.frames| && n.frames[t].Table?
    requires Free(m') !! (q + limbo) && limbo !! (Free(m) + p)
    ensures Conserved(m, p + limbo, m', q + limbo)
  {
  }

  lemma ConservedTwice(m: Mem, p: set<nat>, m': Mem, q: set<nat>, m'': Mem, r: set<nat>)
    requires Conserved(m, p, m', q) && Conserved(m', q, m'', r) && (p <= q <= r || r <= q <= p)
    ensures Conserved(m, p, m'', r)
  {
  }

  /** A frame from the free list is used by no address space. */
  lemma AllocHolds(m: Mem, m': Mem, a: Space, f: nat)
    requires Holds(m, a) && m'.low == m.low && m'.frames == m.frames && Free(m) == Free(m') + {f}
    ensures Holds(m', a) && f !in a.own
  {
    NotFree(m, a);
    assert forall g :: g in m'.free ==> g in Free(m);
    assert f in Free(m);
    SameHolds(m, m', a);
  }

  lemma NotFree(m: Mem, a: Space)
    requires Holds(m, a)
    ensures forall f :: f in a.own ==> m.low <= f < |m.frames| && f !in m.free
  {
    forall f | f in a.own
      ensures m.low <= f < |m.frames| && f !in m.free
    {
      assert OwnRight(a, f);
      var u: Use :| Uses(a, u) && FrameOf(a, u) == f;
      assert InMemory(m, a, u);
    }
  }

  /** Frames are neither lost nor made when the frames in use were p and are q.  All
      other memory is as it was, and so are pages of bytes in use. */
  ghost predicate Conserved(m: Mem, p: set<nat>, m': Mem, q: set<nat>) {
    && m'.low == m.low && |m'.frames| == |m.frames|
    && Free(m') + q == Free(m) + p && Free(m') !! q
    && (forall f: nat :: f < |m.frames| && f !in p && f !in Free(m) ==> m'.frames[f] == m.frames[f])
    && (forall f: nat :: f < |m.frames| && f in p && f in q && m.frames[f].Page? ==> m'.frames[f] == m.frames[f])
  }
}
