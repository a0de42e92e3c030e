module BufferCache {

  /* The buffer cache of bio.c over the disk of memide.c.

     Every method is one critical section, so that any sequence of calls is an
     interleaving of processes using the cache.  The list runs through `next` and
     `prev` arrays that hold buffer numbers, with NBUF standing for bcache.head. */

  import Counting

  const NBUF: nat := 30
  const HEAD: nat := NBUF
  const ROOTDEV: nat := 1

  type Block = seq<int>

  datatype Buf = Buf(
    valid: bool, dirty: bool,
    dev: nat, blockno: nat,
    locked: bool, refcnt: nat,
    data: Block)

  // ----- The list -------------------------------------------------------------

  /** Position `i` of the circular list: the head, then the buffers, then the
      head again. */
  function At(order: seq<nat>, i: nat): nat
    requires i <= |order| + 1
  {
    if 1 <= i <= |order| then order[i - 1] else HEAD
  }

  ghost predicate Distinct(order: seq<nat>) {
    && (forall i :: 0 <= i < |order| ==> order[i] < NBUF)
    && (forall i, j :: 0 <= i < j < |order| ==> order[i] != order[j])
  }

  ghost predicate Linked(order: seq<nat>, next: seq<nat>, prev: seq<nat>) {
    && |next| == |prev| == NBUF + 1
    && Distinct(order)
    && (forall i: nat {:trigger next[At(order, i)]} :: i <= |order| ==> next[At(order, i)] == At(order, i + 1))
    && (forall i: nat {:trigger prev[At(order, i)]} :: 1 <= i <= |order| + 1 ==> prev[At(order, i)] == At(order, i - 1))
  }

  function Without(order: seq<nat>, k: nat): seq<nat>
    requires k < |order|
  {
    order[..k] + order[k + 1..]
  }

  lemma AtWithout(order: seq<nat>, k: nat, i: nat)
    requires k < |order| && i <= |order|
    ensures At(Without(order, k), i) == At(order, if i <= k then i else i + 1)
  {
  }

  lemma UnlinkKeepsLinks(order: seq<nat>, k: nat, next: seq<nat>, prev: seq<nat>)
    requires Linked(order, next, prev) && k < |order|
    ensures next[order[k]] <= NBUF && prev[order[k]] <= NBUF
    ensures Linked(Without(order, k), next[prev[order[k]] := next[order[k]]],
                   prev[next[order[k]] := prev[order[k]]])
  {
    var b := order[k];
    assert b == At(order, k + 1);
    assert prev[b] == At(order, k) && next[b] == At(order, k + 2);
    var rest := Without(order, k);
    var next' := next[prev[b] := next[b]];
    var prev' := prev[next[b] := prev[b]];
    forall i: nat | i <= |rest|
      ensures next'[At(rest, i)] == At(rest, i + 1)
    {
      NextWithout(order, k, next, prev, i);
    }
    forall i: nat | 1 <= i <= |rest| + 1
      ensures prev'[At(rest, i)] == At(rest, i - 1)
    {
      PrevWithout(order, k, next, prev, i);
    }
  }

  lemma NextWithout(order: seq<nat>, k: nat, next: seq<nat>, prev: seq<nat>, i: nat)
    requires Linked(order, next, prev) && k < |order| && i < |order|
    ensures next[At(order, k) := At(order, k + 2)][At(Without(order, k), i)] == At(Without(order, k), i + 1)
  {
    AtWithout(order, k, i);
    AtWithout(order, k, i + 1);
    var at := if i <= k then i else i + 1;
    assert next[At(order, at)] == At(order, at + 1);
    if i != k {
      Apart(order, at, k);
    }
  }

  lemma PrevWithout(order: seq<nat>, k: nat, next: seq<nat>, prev: seq<nat>, i: nat)
    requires Linked(order, next, prev) && k < |order| && 1 <= i <= |order|
    ensures prev[At(order, k + 2) := At(order, k)][At(Without(order, k), i)] == At(Without(order, k), i - 1)
  {
    AtWithout(order, k, i);
    AtWithout(order, k, i - 1);
    var at := if i <= k then i else i + 1;
    assert prev[At(order, at)] == At(order, at - 1);
    if i != k + 1 {
      Apart(order, at, k + 2);
    }
  }

  lemma Apart(order: seq<nat>, i: nat, j: nat)
    requires Distinct(order) && i <= |order| + 1 && j <= |order| + 1 && i != j
    requires {i, j} != {0, |order| + 1}
    ensures At(order, i) != At(order, j)
  {
  }

  lemma PushFrontKeepsLinks(order: seq<nat>, b: nat, next: seq<nat>, prev: seq<nat>)
    requires Linked(order, next, prev) && b < NBUF && b !in order
    ensures next[HEAD] <= NBUF
    ensures Linked([b] + order, next[b := next[HEAD]][HEAD := b], prev[b := HEAD][next[HEAD] := b])
  {
    assert At(order, 0) == HEAD && next[HEAD] == At(order, 1);
    var all := [b] + order;
    var next' := next[b := next[HEAD]][HEAD := b];
    var prev' := prev[b := HEAD][next[HEAD] := b];
    forall i: nat | i <= |all|
      ensures next'[At(all, i)] == At(all, i + 1)
    {
      assert i >= 2 ==> At(all, i) == At(order, i - 1);
    }
    forall i: nat | 1 <= i <= |all| + 1
      ensures prev'[At(all, i)] == At(all, i - 1)
    {
      assert i >= 2 ==> At(all, i) == At(order, i - 1);
    }
  }

  /** Most recently released first. */
  ghost predicate ByRelease(order: seq<nat>, released: seq<int>, now: int) {
    && |order| == |released| == NBUF && Distinct(order)
    && (forall i, j :: 0 <= i < j < NBUF ==> released[order[i]] > released[order[j]])
    && (forall i :: 0 <= i < NBUF ==> released[i] < now)
  }

  lemma MovedIsByRelease(order: seq<nat>, released: seq<int>, now: int, k: nat)
    requires ByRelease(order, released, now) && k < NBUF
    requires Distinct([order[k]] + Without(order, k))
    ensures ByRelease([order[k]] + Without(order, k), released[order[k] := now], now + 1)
  {
  }

  /** The list holds every buffer. */
  lemma OrderHas(order: seq<nat>, b: nat) returns (k: nat)
    requires |order| == NBUF && Distinct(order) && b < NBUF
    ensures k < NBUF && order[k] == b
  {
    if b !in order {
      Counting.Pigeonhole(order, NBUF, b);
    }
    k :| 0 <= k < NBUF && order[k] == b;
  }

  // ----- Coherence ------------------------------------------------------------

  predicate Matches(b: Buf, dev: nat, blockno: nat) {
    b.dev == dev && b.blockno == blockno
  }

  /** bget may recycle the buffer. */
  predicate Eligible(b: Buf) {
    b.refcnt == 0 && !b.dirty
  }

  /** No block of a real device is cached twice. */
  ghost predicate Unique(bufs: seq<Buf>) {
    forall i, j :: 0 <= i < j < |bufs| && bufs[i].dev != 0 ==> !Matches(bufs[j], bufs[i].dev, bufs[i].blockno)
  }

  ghost predicate Cached(bufs: seq<Buf>, blockno: nat) {
    exists i :: 0 <= i < |bufs| && bufs[i].valid && bufs[i].blockno == blockno
  }

  /** What the cache, the disk and the processes using them agree on.  `contents`
      is the last bytes stored in each block, `users` has one entry for every
      process between its bget and its brelse, and `changed` are the buffers
      whose holder has not yet followed a store by log_write or bwrite. */
  datatype Ghosts = Ghosts(disk: seq<Block>, contents: seq<Block>, users: multiset<nat>, changed: set<nat>)

  /** The buffer is a true copy: of the last bytes stored and, unless it is pinned
      or being changed, of the disk. */
  ghost predicate Faithful(b: Buf, i: nat, g: Ghosts)
    requires |g.contents| == |g.disk|
  {
    && (b.valid ==> b.dev == ROOTDEV && b.blockno < |g.disk| && b.data == g.contents[b.blockno])
    && (b.valid && !b.dirty && i !in g.changed ==> b.data == g.disk[b.blockno])
    && (b.dirty ==> b.valid)
    && b.refcnt == g.users[i]
    && (b.locked ==> b.refcnt > 0)
    && (i in g.changed ==> b.locked && b.valid)
  }

  ghost predicate Coherent(bufs: seq<Buf>, g: Ghosts) {
    && |bufs| == NBUF && |g.contents| == |g.disk|
    && Unique(bufs)
    && (forall i: nat :: i < NBUF ==> Faithful(bufs[i], i, g))
    && (forall i :: i in g.changed ==> i < NBUF)
    && (forall k: nat :: k < |g.disk| ==> g.disk[k] == g.contents[k] || Cached(bufs, k))
  }

  /** Dropping an eligible buffer loses nothing: the disk has its bytes. */
  lemma RecycleIsCoherent(bufs: seq<Buf>, g: Ghosts, b: nat, dev: nat, blockno: nat)
    requires Coherent(bufs, g) && b < NBUF && Eligible(bufs[b]) && dev != 0
    requires forall i: nat :: i < NBUF ==> !Matches(bufs[i], dev, blockno)
    ensures Coherent(bufs[b := bufs[b].(dev := dev, blockno := blockno, valid := false, dirty := false, refcnt := 1)],
                     g.(users := g.users + multiset{b}))
  {
    var bufs' := bufs[b := bufs[b].(dev := dev, blockno := blockno, valid := false, dirty := false, refcnt := 1)];
    assert Faithful(bufs[b], b, g);
    forall k: nat | k < |g.disk|
      ensures g.disk[k] == g.contents[k] || Cached(bufs', k)
    {
      if g.disk[k] != g.contents[k] {
        var i :| 0 <= i < NBUF && bufs[i].valid && bufs[i].blockno == k;
        assert i != b && bufs'[i] == bufs[i];
      }
    }
    forall i: nat | i < NBUF
      ensures Faithful(bufs'[i], i, g.(users := g.users + multiset{b}))
    {
      assert Faithful(bufs[i], i, g);
    }
  }

  /** Any change to one buffer that keeps its place, its copy and its standing. */
  lemma ReplaceIsCoherent(bufs: seq<Buf>, g: Ghosts, b: nat, b': Buf, g': Ghosts)
    requires Coherent(bufs, g) && b < NBUF
    requires Matches(b', bufs[b].dev, bufs[b].blockno) && (bufs[b].valid ==> b'.valid)
    requires |g'.disk| == |g.disk| == |g'.contents| && Faithful(b', b, g')
    requires forall i :: i != b ==> g'.users[i] == g.users[i] && (i in g'.changed <==> i in g.changed)
    requires forall k: nat :: k < |g.disk| && !(b'.valid && k == b'.blockno) ==>
                                g'.disk[k] == g.disk[k] && g'.contents[k] == g.contents[k]
    ensures Coherent(bufs[b := b'], g')
  {
    var bufs' := bufs[b := b'];
    forall i: nat | i < NBUF
      ensures Faithful(bufs'[i], i, g')
    {
      assert Faithful(bufs[i], i, g);
      if i != b && bufs[i].valid && b'.valid {
        assert bufs[i].dev == bufs[b].dev == ROOTDEV;
        assert bufs[i].blockno != b'.blockno;
      }
    }
    forall k: nat | k < |g.disk|
      ensures g'.disk[k] == g'.contents[k] || Cached(bufs', k)
    {
      if b'.valid && k == b'.blockno {
        assert bufs'[b] == b';
      } else if g.disk[k] != g.contents[k] {
        var i :| 0 <= i < NBUF && bufs[i].valid && bufs[i].blockno == k;
        assert bufs'[i].valid && bufs'[i].blockno == k;
      }
    }
  }

  // ----- Buffers for a commit -------------------------------------------------

  /** No process uses a buffer, and those that log_write has pinned are the blocks in
      the header of the log. */
  ghost predicate Pins(bufs: seq<Buf>, hdr: seq<nat>) {
    && |bufs| == NBUF && Unique(bufs) && Counting.AllDifferent(hdr)
    && (forall i :: 0 <= i < NBUF ==> bufs[i].refcnt == 0)
    && (forall i :: 0 <= i < NBUF && bufs[i].dirty ==> bufs[i].dev == ROOTDEV && bufs[i].blockno in hdr)
    && (forall j :: 0 <= j < |hdr| ==> Pinned(bufs, hdr[j]))
  }

  ghost predicate Pinned(bufs: seq<Buf>, blockno: nat) {
    exists i :: 0 <= i < |bufs| && bufs[i].dirty && Matches(bufs[i], ROOTDEV, blockno)
  }

  /** The buffers of the blocks in hdr[..n]. */
  lemma {:induction false} PinnedBuffers(bufs: seq<Buf>, hdr: seq<nat>, n: nat) returns (at: seq<int>)
    requires Pins(bufs, hdr) && n <= |hdr|
    ensures |at| == n && Counting.AllDifferent(at)
    ensures forall j :: 0 <= j < n ==> 0 <= at[j] < NBUF && bufs[at[j]].dirty && Matches(bufs[at[j]], ROOTDEV, hdr[j])
    decreases n
  {
    at := [];
    if n > 0 {
      at := PinnedBuffers(bufs, hdr, n - 1);
      assert Pinned(bufs, hdr[n - 1]);
      var i :| 0 <= i < NBUF && bufs[i].dirty && Matches(bufs[i], ROOTDEV, hdr[n - 1]);
      at := at + [i];
    }
  }

  /** write_log finds a buffer for a block of the log area exactly when fewer than NBUF
      blocks are logged.  LOGSIZE is NBUF, but the log area that mkfs makes holds one
      block less. */
  lemma CommitHasABuffer(bufs: seq<Buf>, hdr: seq<nat>, blockno: nat)
    requires Pins(bufs, hdr) && blockno !in hdr
    ensures (exists i :: 0 <= i < NBUF && (Matches(bufs[i], ROOTDEV, blockno) || Eligible(bufs[i]))) <==> |hdr| < NBUF
  {
    var at := PinnedBuffers(bufs, hdr, |hdr|);
    Counting.MembersSize(at);
    if |hdr| < NBUF {
      if forall i :: 0 <= i < NBUF ==> bufs[i].dirty {
        forall i | 0 <= i < NBUF
          ensures i in at
        {
          var j :| 0 <= j < |hdr| && hdr[j] == bufs[i].blockno;
          assert at[j] == i;
        }
        Counting.SubsetSize(Counting.Numbers(NBUF), Counting.Members(at));
      }
      var i :| 0 <= i < NBUF && !bufs[i].dirty;
      assert Eligible(bufs[i]);
    } else {
      forall i | 0 <= i < NBUF
        ensures !Matches(bufs[i], ROOTDEV, blockno) && !Eligible(bufs[i])
      {
        if i !in at {
          Counting.Pigeonhole(at, NBUF, i);
        }
        var j :| 0 <= j < |at| && at[j] == i;
      }
    }
  }

  // ----- bio.c ----------------------------------------------------------------

  class Bcache {
    const next: array<nat>
    const prev: array<nat>
    const buf: array<Buf>
    // memdisk, the disk of device ROOTDEV
    var disk: seq<Block>

    // The list, most recently released first, and when each release was.
    ghost var order: seq<nat>
    ghost var released: seq<int>
    ghost var now: int
    // As in Ghosts.
    ghost var contents: seq<Block>
    ghost var users: multiset<nat>
    ghost var changed: set<nat>

    ghost predicate Shape()
      reads this, next, prev, buf
    {
      && next != prev && next.Length == prev.Length == NBUF + 1 && buf.Length == NBUF
      && Linked(order, next[..], prev[..]) && ByRelease(order, released, now)
    }

    ghost function G(): Ghosts
      reads this
    {
      Ghosts(disk, contents, users, changed)
    }

    /** The list is a permutation of the buffers in order of release, and the
        cache and the disk together hold the last bytes stored in every block. */
    ghost predicate Valid()
      reads this, next, prev, buf
    {
      Shape() && Coherent(buf[..], G())
    }

    /** binit, on buffers that the loader has zeroed. */
    constructor (disk: seq<Block>, zero: Block)
      ensures Valid() && fresh(next) && fresh(prev) && fresh(buf)
      ensures this.disk == disk && contents == disk
      ensures users == multiset{} && changed == {}
    {
      next := new nat[NBUF + 1](_ => HEAD);
      prev := new nat[NBUF + 1](_ => HEAD);
      buf := new Buf[NBUF](_ => Buf(false, false, 0, 0, false, 0, zero));
      this.disk, contents := disk, disk;
      users, changed := multiset{}, {};
      released := seq(NBUF, i => i);
      now, order := NBUF, [];
      new;
      for b := 0 to NBUF
        invariant Linked(order, next[..], prev[..])
        invariant |order| == b && forall i :: 0 <= i < b ==> order[i] == b - 1 - i
        invariant forall i :: 0 <= i < NBUF ==> buf[i] == Buf(false, false, 0, 0, false, 0, zero)
        invariant this.disk == disk && contents == disk && users == multiset{} && changed == {}
        invariant released == seq(NBUF, i => i) && now == NBUF
      {
        PushFront(b);
      }
    }

    method PushFront(b: nat)
      requires b < NBUF && b !in order && next != prev && Linked(order, next[..], prev[..])
      modifies next, prev, `order
      ensures order == [b] + old(order) && Linked(order, next[..], prev[..])
    {
      PushFrontKeepsLinks(order, b, next[..], prev[..]);
      ghost var n0: seq<nat>, p0: seq<nat> := next[..], prev[..];
      next[b] := next[HEAD];
      prev[b] := HEAD;
      prev[next[HEAD]] := b;
      next[HEAD] := b;
      order := [b] + order;
      assert next[..] == n0[b := n0[HEAD]][HEAD := b];
      assert prev[..] == p0[b := HEAD][n0[HEAD] := b];
    }

    method Unlink(b: nat, ghost k: nat)
      requires k < |order| && order[k] == b && next != prev && Linked(order, next[..], prev[..])
      modifies next, prev, `order
      ensures order == Without(old(order), k) && Linked(order, next[..], prev[..])
    {
      UnlinkKeepsLinks(order, k, next[..], prev[..]);
      ghost var n0: seq<nat>, p0: seq<nat> := next[..], prev[..];
      prev[next[b]] := prev[b];
      next[prev[b]] := next[b];
      order := Without(order, k);
      assert prev[..] == p0[n0[b] := p0[b]];
      assert next[..] == n0[p0[b] := n0[b]];
    }

    /** The first scan of bget: forward from the most recently released buffer. */
    method Lookup(dev: nat, blockno: nat) returns (b: nat)
      requires Shape()
      ensures b <= NBUF
      ensures b < NBUF ==> Matches(buf[b], dev, blockno)
      ensures b == NBUF ==> forall i: nat :: i < NBUF ==> !Matches(buf[i], dev, blockno)
    {
      ghost var k := 1;
      assert At(order, 0) == HEAD;
      b := next[HEAD];
      while b != HEAD && !(buf[b].dev == dev && buf[b].blockno == blockno)
        invariant 1 <= k <= NBUF + 1 && b == At(order, k)
        invariant forall i :: 0 <= i < k - 1 ==> !Matches(buf[order[i]], dev, blockno)
        decreases NBUF + 1 - k
      {
        b := next[b];
        k := k + 1;
      }
      if b == HEAD {
        assert k == NBUF + 1;
        forall i: nat | i < NBUF
          ensures !Matches(buf[i], dev, blockno)
        {
          var j := OrderHas(order, i);
        }
      }
    }

    /** The second scan of bget: backward from the least recently released. */
    method Victim() returns (b: nat)
      requires Shape()
      ensures b <= NBUF
      ensures b < NBUF ==> Eligible(buf[b])
      ensures b < NBUF ==> forall i: nat :: i < NBUF && Eligible(buf[i]) ==> released[b] <= released[i]
      ensures b == NBUF ==> forall i: nat :: i < NBUF ==> !Eligible(buf[i])
    {
      ghost var k := NBUF;
      assert At(order, NBUF + 1) == HEAD && At(order, NBUF) == order[NBUF - 1];
      b := prev[HEAD];
      while b != HEAD && !(buf[b].refcnt == 0 && !buf[b].dirty)
        invariant 0 <= k <= NBUF && b == At(order, k)
        invariant forall i :: k <= i < NBUF ==> !Eligible(buf[order[i]])
        decreases k
      {
        assert At(order, k - 1 + 1) == b;
        b := prev[b];
        k := k - 1;
      }
      assert b == HEAD ==> k == 0;
      forall i: nat | i < NBUF && Eligible(buf[i])
        ensures b < NBUF && released[b] <= released[i]
      {
        var j := OrderHas(order, i);
        assert j < k;
      }
    }

    /** bget up to its acquiresleep: finds the block or recycles the least recently
        released buffer that is neither in use nor pinned.  NBUF is the panic. */
    method Bget(dev: nat, blockno: nat) returns (b: nat)
      requires Valid() && dev != 0
      modifies buf, `users
      ensures Valid() && b <= NBUF
      ensures b == NBUF <==>
              forall i: nat :: i < NBUF ==> !Matches(old(buf[i]), dev, blockno) && !Eligible(old(buf[i]))
      ensures b == NBUF ==> users == old(users)
      ensures forall i: nat :: i < NBUF && i != b ==> buf[i] == old(buf[i])
      ensures b < NBUF ==> users == old(users) + multiset{b} && Matches(buf[b], dev, blockno)
      ensures b < NBUF && Matches(old(buf[b]), dev, blockno) ==>
                buf[b] == old(buf[b]).(refcnt := old(buf[b]).refcnt + 1)
      ensures b < NBUF && !Matches(old(buf[b]), dev, blockno) ==>
                && (forall i: nat :: i < NBUF ==> !Matches(old(buf[i]), dev, blockno))
                && Eligible(old(buf[b])) && !buf[b].valid
                && (forall i: nat :: i < NBUF && Eligible(old(buf[i])) ==> released[b] <= released[i])
    {
      b := Lookup(dev, blockno);
      ghost var bufs, g := buf[..], G();
      if b < NBUF {
        assert Faithful(bufs[b], b, g);
        buf[b] := buf[b].(refcnt := buf[b].refcnt + 1);
        users := users + multiset{b};
        ReplaceIsCoherent(bufs, g, b, buf[b], G());
        assert buf[..] == bufs[b := buf[b]];
        return;
      }
      b := Victim();
      if b < NBUF {
        RecycleIsCoherent(bufs, g, b, dev, blockno);
        buf[b] := buf[b].(dev := dev, blockno := blockno, valid := false, dirty := false, refcnt := 1);
        users := users + multiset{b};
        assert buf[..] == bufs[b := buf[b]];
      }
    }

    /** The rest of bread, once acquiresleep has found the buffer unlocked.  False
        is a panic of iderw: the block is not on the disk. */
    method LockAndRead(b: nat) returns (ok: bool)
      requires Valid() && b < NBUF && b in users && !buf[b].locked
      modifies buf
      ensures ok <==> old(buf[b]).valid || (buf[b].dev == ROOTDEV && buf[b].blockno < |disk|)
      ensures ok ==> Valid() && buf[b].blockno < |contents|
      ensures ok ==> buf[b] == old(buf[b]).(locked := true, valid := true, data := contents[buf[b].blockno])
      ensures !ok ==> buf[b] == old(buf[b])
      ensures forall i: nat :: i < NBUF && i != b ==> buf[i] == old(buf[i])
    {
      ghost var bufs, g := buf[..], G();
      assert Faithful(bufs[b], b, g);
      if buf[b].valid {
        buf[b] := buf[b].(locked := true);
      } else {
        if buf[b].dev != ROOTDEV || buf[b].blockno >= |disk| {
          return false;
        }
        assert !Cached(bufs, buf[b].blockno) by {
          if Cached(bufs, buf[b].blockno) {
            var i: nat :| i < NBUF && bufs[i].valid && bufs[i].blockno == buf[b].blockno;
            assert Faithful(bufs[i], i, g);
            assert Matches(bufs[i], bufs[b].dev, bufs[b].blockno) && Matches(bufs[b], bufs[i].dev, bufs[i].blockno);
            assert false;
          }
        }
        buf[b] := buf[b].(locked := true, valid := true, data := disk[buf[b].blockno]);
      }
      ReplaceIsCoherent(bufs, g, b, buf[b], G());
      assert buf[..] == bufs[b := buf[b]];
      ok := true;
    }

    /** The holder of the lock changes the data. */
    method Store(b: nat, data: Block)
      requires Valid() && b < NBUF && buf[b].locked && buf[b].valid
      modifies buf, `contents, `changed
      ensures Valid() && changed == old(changed) + {b}
      ensures buf[b].blockno < |disk| && contents == old(contents)[buf[b].blockno := data]
      ensures buf[b] == old(buf[b]).(data := data)
      ensures forall i: nat :: i < NBUF && i != b ==> buf[i] == old(buf[i])
    {
      ghost var bufs, g := buf[..], G();
      assert Faithful(bufs[b], b, g);
      buf[b] := buf[b].(data := data);
      contents := contents[buf[b].blockno := data];
      changed := changed + {b};
      ReplaceIsCoherent(bufs, g, b, buf[b], G());
      assert buf[..] == bufs[b := buf[b]];
    }

    /** log_write's part in the cache: pin the buffer until the log commits. */
    method Pin(b: nat)
      requires Valid() && b < NBUF && buf[b].locked && buf[b].valid
      modifies buf, `changed
      ensures Valid() && changed == old(changed) - {b}
      ensures buf[b] == old(buf[b]).(dirty := true)
      ensures forall i: nat :: i < NBUF && i != b ==> buf[i] == old(buf[i])
    {
      ghost var bufs, g := buf[..], G();
      assert Faithful(bufs[b], b, g);
      buf[b] := buf[b].(dirty := true);
      changed := changed - {b};
      ReplaceIsCoherent(bufs, g, b, buf[b], G());
      assert buf[..] == bufs[b := buf[b]];
    }

    /** bwrite and the write half of iderw: the buffer becomes clean. */
    method Bwrite(b: nat)
      requires Valid() && b < NBUF && buf[b].locked && buf[b].valid
      modifies buf, `disk, `changed
      ensures Valid() && changed == old(changed) - {b}
      ensures buf[b] == old(buf[b]).(dirty := false)
      ensures buf[b].blockno < |disk| && disk == old(disk)[buf[b].blockno := buf[b].data]
      ensures forall i: nat :: i < NBUF && i != b ==> buf[i] == old(buf[i])
    {
      ghost var bufs, g := buf[..], G();
      assert Faithful(bufs[b], b, g);
      disk := disk[buf[b].blockno := buf[b].data];
      buf[b] := buf[b].(dirty := false, valid := true);
      changed := changed - {b};
      ReplaceIsCoherent(bufs, g, b, buf[b], G());
      assert buf[..] == bufs[b := buf[b]];
    }

    /** brelse up to its releasesleep.  The holder must have followed every store
        by log_write or bwrite. */
    method Unlock(b: nat)
      requires Valid() && b < NBUF && buf[b].locked && b !in changed
      modifies buf
      ensures Valid()
      ensures buf[b] == old(buf[b]).(locked := false)
      ensures forall i: nat :: i < NBUF && i != b ==> buf[i] == old(buf[i])
    {
      ghost var bufs, g := buf[..], G();
      assert Faithful(bufs[b], b, g);
      buf[b] := buf[b].(locked := false);
      ReplaceIsCoherent(bufs, g, b, buf[b], G());
      assert buf[..] == bufs[b := buf[b]];
    }

    /** Take a released buffer out of the list and put it back in front. */
    method MoveToFront(b: nat)
      requires Shape() && b < NBUF
      modifies next, prev, `order, `released, `now
      ensures Shape() && order != [] && order[0] == b && released == old(released)[b := old(now)]
    {
      ghost var k := OrderHas(order, b);
      Unlink(b, k);
      PushFront(b);
      MovedIsByRelease(old(order), released, now, k);
      released, now := released[b := now], now + 1;
    }

    /** The rest of brelse: drop the reference and, if it was the last, move the
        buffer to the front of the list.  The caller is not the one holding the
        lock now. */
    method Unref(b: nat)
      requires Valid() && b < NBUF && users[b] > if buf[b].locked then 1 else 0
      modifies buf, next, prev, `users, `order, `released, `now
      ensures Valid() && users == old(users) - multiset{b}
      ensures buf[b] == old(buf[b]).(refcnt := users[b])
      ensures users[b] > 0 ==> order == old(order) && released == old(released)
      ensures users[b] == 0 ==> order != [] && order[0] == b && released == old(released)[b := old(now)]
      ensures forall i: nat :: i < NBUF && i != b ==> buf[i] == old(buf[i])
    {
      ghost var bufs, g := buf[..], G();
      assert Faithful(bufs[b], b, g);
      buf[b] := buf[b].(refcnt := buf[b].refcnt - 1);
      users := users - multiset{b};
      ReplaceIsCoherent(bufs, g, b, buf[b], G());
      assert buf[..] == bufs[b := buf[b]];
      if buf[b].refcnt == 0 {
        MoveToFront(b);
      }
    }
  }
}
