module FileSystem {

  /* Block allocation and file contents: balloc, bfree, bmap, itrunc, readi and
     writei of fs.c, one call at a time.  A result `ok == false` is a panic of the
     kernel. */

  import opened FileLayout
  import opened Extents
  import Counting

  const IPB: nat := 8 // inodes per block
  const LOGSIZE: nat := 30

  class FileSys {
    const nmeta: nat
    const inodestart: nat
    const bmapstart: nat
    var blocks: seq<Block>
    var used: seq<bool>
    // The inodes as the kernel has them, and as iupdate has written them to disk.
    var inodes: seq<Inode>
    var dinodes: seq<Inode>
    // A transaction is open: log.outstanding is at least 1.
    var trans: bool
    // The disk blocks passed to log_write in this transaction.
    ghost var logged: set<nat>

    function F(): Fs
      reads this
    {
      Fs(nmeta, blocks, used, inodes)
    }

    /** The file system on a disk just mounted. */
    constructor (f: Fs, inodestart: nat, bmapstart: nat)
      ensures F() == f && dinodes == inodes && !trans && logged == {}
      ensures this.inodestart == inodestart && this.bmapstart == bmapstart
    {
      this.inodestart, this.bmapstart := inodestart, bmapstart;
      nmeta, blocks, used, inodes, dinodes := f.nmeta, f.blocks, f.used, f.inodes, f.inodes;
      trans, logged := false, {};
    }

    function Bblock(b: nat): nat {
      BitmapBlock(bmapstart, b)
    }

    function Iblock(i: nat): nat {
      i / IPB + inodestart
    }

    /** balloc: the first free block, marked used and zeroed.  It panics when there is
        none, and so does log_write when no transaction is open. */
    method Balloc() returns (b: nat, ok: bool)
      requires Owned(F())
      modifies `blocks, `used, `logged
      ensures ok <==> Room(trans, old(used)) > 0
      ensures !ok ==> Full(used) || !trans
      ensures ok ==> b < |old(used)| && !old(used)[b] && forall x :: 0 <= x < b ==> old(used)[x]
      ensures ok ==> F() == Claimed(old(F()), b) && logged == old(logged) + {Bblock(b), b}
      ensures !ok ==> F() == old(F()) && logged == old(logged)
    {
      NoneFree(used);
      b := 0;
      while b < |blocks|
        invariant b % BPB == 0 && F() == old(F()) && logged == old(logged)
        invariant forall x :: 0 <= x < b && x < |used| ==> used[x]
        decreases |blocks| - b
      {
        var bi := 0;
        while bi < BPB && b + bi < |blocks|
          invariant 0 <= bi <= BPB && F() == old(F()) && logged == old(logged)
          invariant forall x :: 0 <= x < b + bi && x < |used| ==> used[x]
        {
          if !used[b + bi] {
            if !trans {
              return b + bi, false;
            }
            used := used[b + bi := true];
            logged := logged + {Bblock(b)};
            blocks := blocks[b + bi := ZeroBlock()];
            logged := logged + {b + bi};
            SameBitmapBlock(b, bi);
            return b + bi, true;
          }
          bi := bi + 1;
        }
        b := b + BPB;
      }
      return b, false;
    }

    lemma SameBitmapBlock(b: nat, bi: nat)
      requires b % BPB == 0 && bi < BPB
      ensures Bblock(b) == Bblock(b + bi)
    {
    }

    /** bmap, for slots of the inode itself. */
    method Attach(i: nat, k: nat) returns (b: nat, ok: bool)
      requires Owned(F()) && i < |inodes| && k <= NDIRECT && Ref(F(), i, k) == 0
      modifies `blocks, `used, `inodes, `logged
      ensures ok <==> Room(trans, old(used)) > 0
      ensures ok ==> Filled(old(F()), F(), i, k, b) && logged == old(logged) + {Bblock(b), b}
      ensures !ok ==> Full(used) || !trans
    {
      ghost var f := F();
      b, ok := Balloc();
      if ok {
        AttachFills(f, i, k, b);
        inodes := inodes[i := inodes[i].(addrs := inodes[i].addrs[k := b])];
      }
    }

    /** bmap, for entries of the indirect block. */
    method List(i: nat, j: nat) returns (b: nat, ok: bool)
      requires Owned(F()) && i < |inodes| && j < NINDIRECT
      requires Ref(F(), i, NDIRECT) != 0 && Ref(F(), i, NDIRECT + 1 + j) == 0
      modifies `blocks, `used, `logged
      ensures ok <==> Room(trans, old(used)) > 0
      ensures ok ==> Filled(old(F()), F(), i, NDIRECT + 1 + j, b)
      ensures ok ==> logged == old(logged) + {Bblock(b), b, Ref(old(F()), i, NDIRECT)}
      ensures !ok ==> Full(used) || !trans
    {
      ghost var f := F();
      b, ok := Balloc();
      if ok {
        ListFills(f, i, j, b);
        var ind := inodes[i].addrs[NDIRECT];
        blocks := blocks[ind := WithUint(blocks[ind], j, b)];
        logged := logged + {ind};
      }
    }

    /** The entry bn of an indirect block that is there. */
    method MapListed(i: nat, bn: nat) returns (addr: nat, ok: bool)
      requires Owned(F()) && i < |inodes| && bn < NINDIRECT && Ref(F(), i, NDIRECT) != 0
      modifies `blocks, `used, `logged
      ensures ok <==> Ref(old(F()), i, NDIRECT + 1 + bn) != 0 || Room(trans, old(used)) > 0
      ensures ok ==> FindsOrFills(old(F()), F(), i, NDIRECT + 1 + bn, addr)
      ensures ok ==> logged == old(logged) + if Ref(old(F()), i, NDIRECT + 1 + bn) != 0 then {}
                                             else {Bblock(addr), addr, Ref(old(F()), i, NDIRECT)}
      ensures !ok ==> Full(used) || !trans
    {
      ok := true;
      addr := inodes[i].addrs[NDIRECT];
      assert Slot(F(), i, NDIRECT) && Good(F(), addr);
      addr := Uint(blocks[addr], bn);
      if addr == 0 {
        addr, ok := List(i, bn);
      }
    }

    /** bmap past the direct blocks. */
    method MapIndirect(i: nat, bn: nat) returns (addr: nat, ok: bool)
      requires Owned(F()) && i < |inodes| && bn < NINDIRECT
      modifies `blocks, `used, `inodes, `logged
      ensures ok <==> Needs(old(F()), i, NDIRECT + bn, NDIRECT + bn + 1) <= Room(trans, old(used))
      ensures ok ==> Mapped(old(F()), F(), i, NDIRECT + bn) && addr == Ref(F(), i, NDIRECT + 1 + bn)
      ensures ok ==> MapLogs(old(F()), F(), i, NDIRECT + bn, old(logged), logged)
      ensures !ok ==> Full(used) || !trans
    {
      ok := true;
      addr := inodes[i].addrs[NDIRECT];
      ghost var f, ind := F(), addr;
      NeedsOne(f, i, NDIRECT + bn);
      if addr == 0 {
        addr, ok := Attach(i, NDIRECT);
        if !ok {
          return;
        }
        ind := addr;
      }
      ghost var g := F();
      assert Slot(f, i, NDIRECT) && Slot(f, i, NDIRECT + 1 + bn);
      addr, ok := MapListed(i, bn);
      if ok {
        IndirectMapped(f, g, F(), i, bn, ind, addr);
      }
    }

    /** bmap: the block behind block bn of file i, allocated if need be.  It panics exactly
        when there are not free blocks enough, or the file cannot have the block. */
    method Bmap(i: nat, bn: nat) returns (addr: nat, ok: bool)
      requires Owned(F()) && i < |inodes|
      modifies `blocks, `used, `inodes, `logged
      ensures ok <==> bn < MAXFILE && Needs(old(F()), i, bn, bn + 1) <= Room(trans, old(used))
      ensures ok ==> Mapped(old(F()), F(), i, bn) && addr == Ref(F(), i, SlotOf(bn))
      ensures ok ==> MapLogs(old(F()), F(), i, bn, old(logged), logged)
      ensures !ok ==> bn >= MAXFILE || Full(used) || !trans
    {
      ghost var f := F();
      if bn < NDIRECT {
        NeedsOne(f, i, bn);
        addr, ok := inodes[i].addrs[bn], true;
        if addr == 0 {
          addr, ok := Attach(i, bn);
          if ok {
            FilledOnce(f, F(), i, bn);
          }
        } else {
          MappedAlready(f, i, bn);
        }
      } else if bn - NDIRECT < NINDIRECT {
        addr, ok := MapIndirect(i, bn - NDIRECT);
      } else {
        addr, ok := 0, false;
      }
    }

    /** The blocks bmap logs: for a new data block its bitmap block, itself and, past
        the direct blocks, the indirect block; for a new indirect block its bitmap
        block too. */
    ghost predicate MapLogs(f: Fs, g: Fs, i: nat, bn: nat, old_: set<nat>, new_: set<nat>)
      requires Mapped(f, g, i, bn)
    {
      var b, ind := Ref(g, i, SlotOf(bn)), Ref(g, i, NDIRECT);
      if Ref(f, i, SlotOf(bn)) != 0 then new_ == old_
      else if bn < NDIRECT then new_ == old_ + {Bblock(b), b}
      else ind != 0 && new_ == old_ + {Bblock(b), b, ind} + (if Ref(f, i, NDIRECT) == 0 then {Bblock(ind)} else {})
    }

    /** The part of readi's loop that reads m bytes of block bn. */
    method ReadBlock(i: nat, off: nat, m: nat, bn: nat) returns (chunk: seq<Byte>, ok: bool)
      requires Owned(F()) && i < |inodes| && bn == off / BSIZE < MAXFILE && 0 < m <= BSIZE - off % BSIZE
      modifies `blocks, `used, `inodes, `logged
      ensures ok <==> Needs(old(F()), i, bn, bn + 1) <= Room(trans, old(used))
      ensures ok ==> Mapped(old(F()), F(), i, bn)
      ensures ok ==> |chunk| == m && AreBytes(old(F()), i, off, chunk)
      ensures !ok ==> Full(used) || !trans
    {
      chunk := [];
      var addr;
      addr, ok := Bmap(i, bn);
      if ok {
        assert Slot(F(), i, SlotOf(bn)) && Good(F(), addr);
        chunk := blocks[addr][off % BSIZE..off % BSIZE + m];
        OneBlock(F(), i, off, m);
      }
    }

    /** One turn of readi's loop, tot bytes being read into out. */
    method ReadTurn(ghost f: Fs, i: nat, off0: nat, n: nat, tot: nat, ghost out: seq<Byte>)
      returns (chunk: seq<Byte>, hi: nat, ok: bool)
      requires tot < n && off0 + n <= MAXFILE * BSIZE && AtBlock(off0, tot, n)
      requires ReadTo(f, F(), i, off0, tot, out) && Enough(trans, f, i, off0, tot)
      modifies `blocks, `used, `inodes, `logged
      ensures tot < hi <= n && AtBlock(off0, hi, n)
      ensures ok <==> Enough(trans, f, i, off0, hi)
      ensures ok ==> ReadTo(f, F(), i, off0, hi, out + chunk)
      ensures !ok ==> Full(used) || !trans
    {
      ghost var before := F();
      var off := off0 + tot;
      var m, bn := Min(n - tot, BSIZE - off % BSIZE), off / BSIZE;
      hi := tot + m;
      NextBlock(off0, tot, hi, n, bn);
      EnoughMore(trans, f, before, i, off0, tot, hi, bn);
      chunk, ok := ReadBlock(i, off, m, bn);
      if ok {
        ReadMore(f, before, F(), i, off0, tot, hi, bn, out, off, chunk);
      }
    }

    /** The loop of readi. */
    method ReadLoop(i: nat, off0: nat, n: nat) returns (out: seq<Byte>, ok: bool)
      requires Owned(F()) && i < |inodes| && off0 + n <= MAXFILE * BSIZE
      modifies `blocks, `used, `inodes, `logged
      ensures ok <==> Enough(trans, old(F()), i, off0, n)
      ensures ok ==> ReadTo(old(F()), F(), i, off0, n, out)
      ensures !ok ==> Full(used) || !trans
    {
      out, ok := [], true;
      ghost var f := F();
      ThroughNone(trans, f, i, off0);
      var tot, chunk := 0, [];
      while tot < n
        invariant 0 <= tot <= n && AtBlock(off0, tot, n) && ok && Enough(trans, f, i, off0, tot)
        invariant ReadTo(f, F(), i, off0, tot, out)
      {
        chunk, tot, ok := ReadTurn(f, i, off0, n, tot, out);
        if !ok {
          EnoughLess(trans, f, i, off0, tot, n);
          return;
        }
        out := out + chunk;
      }
    }

    /** The loop of readi, on a range within the file. */
    method ReadRange(i: nat, off: nat, n: nat) returns (out: seq<Byte>, ok: bool)
      requires Owned(F()) && i < |inodes| && off + n <= inodes[i].size <= MAXFILE * BSIZE
      modifies `blocks, `used, `inodes, `logged
      ensures ok <==> Enough(trans, old(F()), i, off, n)
      ensures ok ==> ReadDone(old(F()), F(), i, off, n, out)
      ensures !trans ==> (ok <==> AllThere(old(F()), i, off, n))
      ensures !ok ==> Full(used) || !trans
    {
      ghost var f := F();
      NeedsNothing(f, i, off, n);
      out, ok := ReadLoop(i, off, n);
      if ok {
        ReadFinished(f, F(), i, off, n, out);
      }
    }

    /** readi on a file: the clamped slice of its bytes.  It allocates nothing exactly
        when every block it reads is there already.  It panics exactly when there are not
        free blocks enough for the others, or no transaction is open for them.  It never
        calls iupdate, so that inodes up to date on disk stay so exactly when it has no
        slot of the inode to fill. */
    method Readi(i: nat, off: nat, n0: nat) returns (r: int, out: seq<Byte>, ok: bool)
      requires Owned(F()) && i < |inodes| && off < UINT && n0 < UINT && inodes[i].size <= MAXFILE * BSIZE
      modifies `blocks, `used, `inodes, `logged
      ensures off > old(inodes)[i].size || off + n0 >= UINT ==> ok && r == -1 && out == [] && F() == old(F())
      ensures off <= old(inodes)[i].size && off + n0 < UINT ==> r == Min(n0, old(inodes)[i].size - off)
      ensures off <= old(inodes)[i].size && off + n0 < UINT ==> (ok <==> Enough(trans, old(F()), i, off, r))
      ensures ok && off <= old(inodes)[i].size && off + n0 < UINT ==>
                ReadDone(old(F()), F(), i, off, r, out)
      ensures !trans && off <= old(inodes)[i].size && off + n0 < UINT ==> (ok <==> AllThere(old(F()), i, off, r))
      ensures !ok ==> Full(used) || !trans
    {
      r, out, ok := -1, [], true;
      if off > inodes[i].size || (off + n0) % UINT < off {
        return;
      }
      var n := n0;
      if off + n > inodes[i].size {
        n := inodes[i].size - off;
      }
      out, ok := ReadRange(i, off, n);
      r := n;
    }

    /** The part of writei's loop that writes into block bn: bytes tot..hi of src. */
    method WriteBlock(i: nat, off0: nat, src: seq<Byte>, tot: nat, hi: nat, bn: nat) returns (ok: bool)
      requires Owned(F()) && i < |inodes| && Turn(off0, tot, hi, bn) && hi <= |src| && off0 + |src| <= MAXFILE * BSIZE
      modifies `blocks, `used, `inodes, `logged
      ensures ok <==> trans && Needs(old(F()), i, bn, bn + 1) <= Room(trans, old(used))
      ensures ok ==> WroteOne(bmapstart, old(F()), F(), i, off0, src, tot, hi, bn, old(logged), logged)
      ensures !ok ==> Full(used) || !trans
    {
      ghost var f := F();
      var addr;
      addr, ok := Bmap(i, bn);
      if ok {
        ghost var g := F();
        assert Slot(g, i, SlotOf(bn)) && Good(g, addr);
        var o := (off0 + tot) % BSIZE;
        var data: Block := blocks[addr][..o] + src[tot..hi] + blocks[addr][o + (hi - tot)..];
        BlockWritten(f, g, i, off0, src, tot, hi, bn, addr, data, old(logged), logged);
        blocks := blocks[addr := data];
        logged := logged + {addr};
        assert F() == StoredAt(g, addr, data);
        ok := trans;
      }
    }

    lemma BlockWritten(f: Fs, g: Fs, i: nat, off0: nat, src: seq<Byte>, tot: nat, hi: nat, bn: nat, addr: nat, data: Block,
                       before: set<nat>, logs: set<nat>)
      requires Turn(off0, tot, hi, bn) && hi <= |src| && off0 + |src| <= MAXFILE * BSIZE
      requires Mapped(f, g, i, bn) && MapLogs(f, g, i, bn, before, logs)
      requires addr == Ref(g, i, SlotOf(bn)) && addr < |g.blocks|
      requires var o := (off0 + tot) % BSIZE;
               data == g.blocks[addr][..o] + src[tot..hi] + g.blocks[addr][o + (hi - tot)..]
      ensures WroteOne(bmapstart, f, StoredAt(g, addr, data), i, off0, src, tot, hi, bn, before, logs + {addr})
    {
      var h := StoredAt(g, addr, data);
      StoreIsSafe(g, i, bn, data);
      SplicedBlock(f, g, h, i, off0, src, tot, hi, bn, data);
      BlockLogs(f, g, h, i, bn, before, logs);
      ExtendedSame(f, g, h, i, bn, bn + 1);
    }

    lemma BlockLogs(f: Fs, g: Fs, h: Fs, i: nat, bn: nat, before: set<nat>, logs: set<nat>)
      requires Mapped(f, g, i, bn) && MapLogs(f, g, i, bn, before, logs) && SameRefs(g, h)
      ensures logs + {Ref(g, i, SlotOf(bn))} == before + Logged(bmapstart, f, h, i, bn, bn + 1)
    {
      assert Slot(g, i, SlotOf(bn)) && Slot(g, i, NDIRECT);
      assert Missing(f, i, bn, bn) == 0 && Data(h, i, bn, bn) == {} && DataMaps(bmapstart, f, h, i, bn, bn) == {};
    }

    /** One turn of writei's loop, tot bytes of src being written. */
    method WriteTurn(ghost f: Fs, i: nat, off0: nat, src: seq<Byte>, tot: nat, ghost before: set<nat>)
      returns (hi: nat, ok: bool)
      requires tot < |src| && Wrote(bmapstart, f, F(), i, off0, src, tot, before, logged) && AtBlock(off0, tot, |src|)
      requires Enough(trans, f, i, off0, tot)
      modifies `blocks, `used, `inodes, `logged
      ensures tot < hi <= |src| && AtBlock(off0, hi, |src|)
      ensures ok <==> trans && Enough(trans, f, i, off0, hi)
      ensures ok ==> Wrote(bmapstart, f, F(), i, off0, src, hi, before, logged)
      ensures !ok ==> Full(used) || !trans
    {
      ghost var g, logs := F(), logged;
      hi := tot + Min(|src| - tot, BSIZE - (off0 + tot) % BSIZE);
      var bn := (off0 + tot) / BSIZE;
      NextBlock(off0, tot, hi, |src|, bn);
      EnoughMore(trans, f, g, i, off0, tot, hi, bn);
      ok := WriteBlock(i, off0, src, tot, hi, bn);
      if ok {
        WroteMore(bmapstart, f, g, F(), i, off0, src, tot, hi, bn, before, logs, logged);
      }
    }

    /** The loop of writei. */
    method WriteLoop(i: nat, off0: nat, src: seq<Byte>) returns (ok: bool)
      requires Owned(F()) && i < |inodes| && off0 + |src| <= MAXFILE * BSIZE
      modifies `blocks, `used, `inodes, `logged
      ensures ok <==> src == [] || (trans && Enough(trans, old(F()), i, off0, |src|))
      ensures ok ==> Wrote(bmapstart, old(F()), F(), i, off0, src, |src|, old(logged), logged)
      ensures !ok ==> Full(used) || !trans
    {
      ok := true;
      ghost var f := F();
      WroteNone(bmapstart, f, i, off0, src, logged);
      ThroughNone(trans, f, i, off0);
      var tot := 0;
      while tot < |src|
        invariant 0 <= tot <= |src| && AtBlock(off0, tot, |src|)
        invariant Wrote(bmapstart, f, F(), i, off0, src, tot, old(logged), logged)
        invariant ok && (tot == 0 || trans) && Enough(trans, f, i, off0, tot)
      {
        tot, ok := WriteTurn(f, i, off0, src, tot, old(logged));
        if !ok {
          EnoughLess(trans, f, i, off0, tot, |src|);
          return;
        }
      }
    }

    /** The new size, and iupdate: the inode goes to disk, through the log. */
    method SetSize(i: nat, size: nat)
      requires i < |inodes| == |dinodes| && trans
      modifies `inodes, `dinodes, `logged
      ensures F() == Resized(old(F()), i, size) && logged == old(logged) + {Iblock(i)}
      ensures dinodes == old(dinodes)[i := inodes[i]]
    {
      inodes := inodes[i := inodes[i].(size := size)];
      dinodes := dinodes[i := inodes[i]];
      logged := logged + {Iblock(i)};
    }

    /** The end of writei: a larger file gets its new size. */
    method WriteSize(ghost f: Fs, i: nat, off: nat, src: seq<Byte>, ghost before: set<nat>)
      requires Wrote(bmapstart, f, F(), i, off, src, |src|, before, logged) && (src == [] || trans)
      requires SizesFit(f) && |dinodes| == |f.inodes| && Writable(f, i, off, |src|)
      modifies `inodes, `dinodes, `logged
      ensures WriteDone(f, F(), i, off, src) && LogsAre(bmapstart, Iblock(i), f, F(), i, off, |src|, before, logged)
      ensures Iupdated(f, F(), i, off, |src|, old(dinodes), dinodes)
    {
      ghost var g := F();
      if |src| > 0 && off + |src| > inodes[i].size {
        SetSize(i, off + |src|);
      }
      WriteFinished(f, g, F(), i, off, src);
      WriteInodes(f, g, F(), i, off, src, old(dinodes));
      ResizedSame(g, i, off + |src|);
      ExtendedSame(f, g, F(), i, off / BSIZE, End(off, |src|));
      LoggedSame(bmapstart, f, g, F(), i, off / BSIZE, End(off, |src|));
    }

    /** writei on a file: src is spliced into its bytes at off, and nothing else in the
        file system changes. */
    method Writei(i: nat, off: nat, src: seq<Byte>) returns (r: int, ok: bool)
      requires Owned(F()) && SizesFit(F()) && i < |inodes| == |dinodes| && off < UINT && |src| < UINT
      modifies `blocks, `used, `inodes, `dinodes, `logged
      ensures !Writable(old(F()), i, off, |src|) ==>
                ok && r == -1 && F() == old(F()) && logged == old(logged) && dinodes == old(dinodes)
      ensures ok && Writable(old(F()), i, off, |src|) ==>
                && r == |src| && WriteDone(old(F()), F(), i, off, src)
                && LogsAre(bmapstart, Iblock(i), old(F()), F(), i, off, |src|, old(logged), logged)
                && Iupdated(old(F()), F(), i, off, |src|, old(dinodes), dinodes)
      ensures Writable(old(F()), i, off, |src|) ==>
                (ok <==> src == [] || (trans && Enough(trans, old(F()), i, off, |src|)))
      ensures !ok ==> Full(used) || !trans
    {
      r, ok := -1, true;
      if off > inodes[i].size || (off + |src|) % UINT < off {
        return;
      }
      if off + |src| > MAXFILE * BSIZE {
        return;
      }
      ghost var f := F();
      ok := WriteLoop(i, off, src);
      if ok {
        WriteSize(f, i, off, src, old(logged));
        r := |src|;
      }
    }

    /** bfree; false is its panic on a block that is free already, or that of log_write. */
    method Bfree(b: nat) returns (ok: bool)
      requires b < |used|
      modifies `used, `logged
      ensures ok <==> old(used)[b] && trans
      ensures ok ==> used == old(used)[b := false] && logged == old(logged) + {Bblock(b)}
      ensures !ok ==> used == old(used) && logged == old(logged)
    {
      ok := used[b] && trans;
      if ok {
        used := used[b := false];
        logged := logged + {Bblock(b)};
      }
    }

    /** itrunc: frees exactly the blocks of file i, its indirect block included, and
        never meets a block that is free already.  It always logs the inode, so it panics
        exactly when no transaction is open. */
    method Itrunc(i: nat) returns (ok: bool)
      requires Owned(F()) && i < |inodes| == |dinodes|
      modifies `used, `inodes, `dinodes, `logged
      ensures ok <==> trans
      ensures ok ==> Truncated(old(F()), F(), i) && dinodes == old(dinodes)[i := inodes[i]]
    {
      ghost var f := F();
      ok := trans;
      if !ok {
        return;
      }
      for k := 0 to NDIRECT
        invariant ok && blocks == f.blocks && Freed(f, used, i, k) && Unhooked(f, inodes, i, k)
        invariant dinodes == old(dinodes)
      {
        FreeStep(f, used, i, k);
        if inodes[i].addrs[k] != 0 {
          ok := Bfree(inodes[i].addrs[k]);
          inodes := inodes[i := inodes[i].(addrs := inodes[i].addrs[k := 0])];
        }
      }
      if inodes[i].addrs[NDIRECT] != 0 {
        ok := FreeIndirect(f, i);
      } else {
        NoneToFree(f, used, i);
      }
      SetSize(i, 0);
      assert inodes[i].addrs == seq(NDIRECT + 1, _ => 0);
    }

    /** The part of itrunc that frees what the indirect block lists, and itself. */
    method FreeIndirect(ghost f: Fs, i: nat) returns (ok: bool)
      requires Owned(f) && blocks == f.blocks && Freed(f, used, i, NDIRECT) && Unhooked(f, inodes, i, NDIRECT)
      requires Ref(f, i, NDIRECT) != 0 && trans
      modifies `used, `inodes, `logged
      ensures ok && Freed(f, used, i, SLOTS) && Unhooked(f, inodes, i, NDIRECT + 1)
    {
      ok := true;
      var ind := inodes[i].addrs[NDIRECT];
      assert Slot(f, i, NDIRECT) && Good(f, Ref(f, i, NDIRECT));
      for j := 0 to NINDIRECT
        invariant ok && Freed(f, used, i, NDIRECT + j) && inodes == old(inodes)
      {
        FreeStep(f, used, i, NDIRECT + j);
        var b := Uint(blocks[ind], j);
        if b != 0 {
          ok := Bfree(b);
        }
      }
      FreeStep(f, used, i, MAXFILE);
      ok := Bfree(ind);
      inodes := inodes[i := inodes[i].(addrs := inodes[i].addrs[NDIRECT := 0])];
    }
  }

  /** The slots of the inode through which bytes off..off+n are reached are in use. */
  ghost predicate SlotsThere(f: Fs, i: nat, off: nat, n: nat) {
    SlotsIn(f, i, off / BSIZE, End(off, n))
  }

  /** balloc can give the blocks that bytes off..off+n still need. */
  predicate Enough(trans: bool, f: Fs, i: nat, off: nat, n: nat) {
    && Shape(f) && i < |f.inodes| && End(off, n) <= MAXFILE
    && Needs(f, i, off / BSIZE, End(off, n)) <= Room(trans, f.used)
  }

  lemma EnoughMore(trans: bool, f: Fs, g: Fs, i: nat, off: nat, lo: nat, hi: nat, bn: nat)
    requires Extended(f, g, i, off / BSIZE, End(off, lo)) && Enough(trans, f, i, off, lo) && Turn(off, lo, hi, bn)
    ensures Enough(trans, f, i, off, hi) <==> Needs(g, i, bn, bn + 1) <= Room(trans, g.used)
  {
    NextEnd(off, lo, hi, bn);
    NeedsMore(f, g, i, off / BSIZE, bn);
  }

  lemma EnoughLess(trans: bool, f: Fs, i: nat, off: nat, n: nat, m: nat)
    requires n <= m && off + m <= MAXFILE * BSIZE
    ensures Enough(trans, f, i, off, m) ==> Enough(trans, f, i, off, n)
  {
    Ends(off, n, m);
    if Enough(trans, f, i, off, m) {
      MissingMore(f, i, off / BSIZE, End(off, n), End(off, m));
    }
  }

  lemma Ends(off: nat, n: nat, m: nat)
    requires n <= m
    ensures off / BSIZE <= End(off, n) <= End(off, m)
    ensures off + m <= MAXFILE * BSIZE ==> End(off, m) <= MAXFILE || m == 0
  {
  }

  lemma NeedsNothing(f: Fs, i: nat, off: nat, n: nat)
    requires Shape(f) && i < |f.inodes| && off + n <= MAXFILE * BSIZE
    ensures Enough(false, f, i, off, n) <==> AllThere(f, i, off, n)
    ensures End(off, n) <= MAXFILE && off / BSIZE <= End(off, n)
    ensures Missing(f, i, off / BSIZE, End(off, n)) == 0 <==> AllThere(f, i, off, n)
  {
    var lo, hi := off / BSIZE, End(off, n);
    Ends(off, 0, n);
    NeedsNone(f, i, lo, hi);
    MissingNone(f, i, lo, hi);
    assert forall bn: nat :: lo <= bn < hi <==> lo <= bn && bn * BSIZE < off + n && n > 0;
  }

  /** The bytes are there afterwards, so the inode is as before only if its slots were. */
  lemma SlotsAreThere(f: Fs, g: Fs, i: nat, off: nat, n: nat)
    requires Shape(f) && Shape(g) && i < |f.inodes| && AllThere(g, i, off, n)
    ensures g.inodes == f.inodes ==> SlotsThere(f, i, off, n)
  {
    if g.inodes == f.inodes {
      forall bn: nat | off / BSIZE <= bn < End(off, n)
        ensures SlotThere(f, i, bn)
      {
        assert bn * BSIZE < off + n;
        assert Ref(g, i, SlotOf(bn)) != 0;
      }
    }
  }

  /** The inodes d on disk become e when file i is written and f becomes g: writei calls
      iupdate when the file grows.  Inodes that were up to date on disk stay so exactly
      when it does, or when writei had no slot of the inode to fill. */
  ghost predicate Iupdated(f: Fs, g: Fs, i: nat, off: nat, n: nat, d: seq<Inode>, e: seq<Inode>) {
    && i < |f.inodes| == |d| == |g.inodes|
    && e == (if Grows(f, i, off, n) then d[i := g.inodes[i]] else d)
    && (d == f.inodes ==> (e == g.inodes <==> Grows(f, i, off, n) || SlotsThere(f, i, off, n)))
  }

  lemma WriteInodes(f: Fs, g: Fs, h: Fs, i: nat, off: nat, src: seq<Byte>, d: seq<Inode>)
    requires i < |f.inodes| == |d| && Writable(f, i, off, |src|)
    requires Spliced(f, g, i, off, src, 0, |src|) && AllThere(g, i, off, |src|)
    requires InodesKept(f, g, i, off / BSIZE, End(off, |src|))
    requires h == if |src| > 0 && off + |src| > g.inodes[i].size then Resized(g, i, off + |src|) else g
    ensures Iupdated(f, h, i, off, |src|, d, if Grows(f, i, off, |src|) then d[i := h.inodes[i]] else d)
  {
    SlotsAreThere(f, g, i, off, |src|);
    OthersSame(f, g, i, off, src);
  }

  lemma OthersSame(f: Fs, g: Fs, i: nat, off: nat, src: seq<Byte>)
    requires Spliced(f, g, i, off, src, 0, |src|)
    ensures forall j: nat :: j < |f.inodes| && j != i ==> g.inodes[j] == f.inodes[j]
  {
    forall j: nat | j < |f.inodes| && j != i
      ensures g.inodes[j] == f.inodes[j]
    {
      forall k: nat | k <= NDIRECT
        ensures g.inodes[j].addrs[k] == f.inodes[j].addrs[k]
      {
        assert Slot(f, j, k) && Ref(g, j, k) == Ref(f, j, k);
      }
    }
  }

  /** A file without holes has nothing to fill unless it grows, so writes keep every
      inode on disk up to date. */
  lemma NoHolesStayUpdated(f: Fs, g: Fs, i: nat, off: nat, n: nat, d: seq<Inode>, e: seq<Inode>)
    requires Shape(f) && i < |f.inodes| && NoHoles(f, i) && Writable(f, i, off, n)
    requires Iupdated(f, g, i, off, n, d, e) && d == f.inodes
    ensures e == g.inodes
  {
    if !Grows(f, i, off, n) {
      assert AllThere(f, i, off, n);
      SlotsAreThere(f, f, i, off, n);
    }
  }

  /** The write makes the file larger, so that writei calls iupdate. */
  predicate Grows(f: Fs, i: nat, off: nat, n: nat)
    requires i < |f.inodes|
  {
    n > 0 && Writable(f, i, off, n) && off + n > f.inodes[i].size
  }

  // ----- The blocks that writei logs ------------------------------------------

  /** The block behind the last one that bytes off..off+n touch. */
  function End(off: nat, n: nat): nat {
    if n == 0 then off / BSIZE else (off + n - 1) / BSIZE + 1
  }

  /** One turn of the loops of readi and writei: bytes lo..hi, in block bn of the file. */
  ghost predicate Turn(off: nat, lo: nat, hi: nat, bn: nat) {
    && lo < hi && hi - lo <= BSIZE - (off + lo) % BSIZE && (lo > 0 ==> (off + lo) % BSIZE == 0)
    && bn == (off + lo) / BSIZE < MAXFILE
  }

  lemma NextEnd(off: nat, lo: nat, hi: nat, bn: nat)
    requires Turn(off, lo, hi, bn)
    ensures End(off, lo) == bn && End(off, hi) == bn + 1 && off / BSIZE <= bn
  {
    SameBlock(off + lo, off + hi - 1);
  }

  /** What a call of writei adds to the log when f becomes g: what storing the bytes logs,
      and the inode's block if the file grows. */
  ghost predicate LogsAre(bmap: nat, iblock: nat, f: Fs, g: Fs, i: nat, off: nat, n: nat, before: set<nat>, after: set<nat>) {
    && i < |f.inodes| && Extended(f, g, i, off / BSIZE, End(off, n))
    && after == before + Logged(bmap, f, g, i, off / BSIZE, End(off, n)) + if Grows(f, i, off, n) then {iblock} else {}
  }

  /** The blocks touched are all logged, and besides them no more than the indirect block,
      the bitmap blocks of the new blocks and the inode's block. */
  lemma WriteLogs(bmap: nat, iblock: nat, f: Fs, g: Fs, i: nat, off: nat, n: nat, before: set<nat>, after: set<nat>)
    requires LogsAre(bmap, iblock, f, g, i, off, n, before, after) && Owned(g)
    ensures Touched(off, n) <= |after| <= |before| + Touched(off, n) + BitmapBlocks(|f.blocks|) + 2
    ensures |after| <= |before| + Touched(off, n) + Needs(f, i, off / BSIZE, End(off, n)) + 2
  {
    var lo, hi := off / BSIZE, End(off, n);
    RangeThere(f, g, i, lo, hi);
    DataSize(g, i, lo, hi);
    MapsBounds(bmap, f, g, i, lo, hi);
    Counting.SubsetSize(Data(g, i, lo, hi), after);
  }

  /** The inode blocks come before the bitmap, and the bitmap before the data. */
  predicate LaidOut(f: Fs, inodestart: nat, bmap: nat) {
    inodestart + (|f.inodes| + IPB - 1) / IPB <= bmap && BitmapFits(f, bmap)
  }

  /** How many blocks a transaction with this one call of writei logs. */
  lemma LogsCount(inodestart: nat, bmap: nat, f: Fs, g: Fs, i: nat, off: nat, n: nat, after: set<nat>)
    requires LogsAre(bmap, i / IPB + inodestart, f, g, i, off, n, {}, after) && Owned(g) && g.nmeta == f.nmeta
    requires LaidOut(f, inodestart, bmap)
    ensures |after| == Touched(off, n) + (if ListsNew(f, i, off / BSIZE, End(off, n)) then 1 else 0)
                       + |Maps(bmap, f, g, i, off / BSIZE, End(off, n))| + (if Grows(f, i, off, n) then 1 else 0)
  {
    var lo, hi := off / BSIZE, End(off, n);
    LoggedSize(bmap, f, g, i, lo, hi);
    var logs := Logged(bmap, f, g, i, lo, hi);
    assert i / IPB + inodestart !in logs;
    assert after == logs + if Grows(f, i, off, n) then {i / IPB + inodestart} else {};
  }

  lemma LoggedSame(bmap: nat, f: Fs, g: Fs, h: Fs, i: nat, lo: nat, hi: nat)
    requires Shape(f) && SameRefs(g, h) && i < |f.inodes| == |g.inodes| && hi <= MAXFILE
    ensures Logged(bmap, f, h, i, lo, hi) == Logged(bmap, f, g, i, lo, hi)
  {
    assert Slot(g, i, NDIRECT);
    forall bn: nat | lo <= bn < hi
      ensures Ref(h, i, SlotOf(bn)) == Ref(g, i, SlotOf(bn))
    {
      assert Slot(g, i, SlotOf(bn));
    }
    SameData(g, h, i, lo, hi);
    SameMaps(bmap, f, g, h, i, lo, hi);
  }

  /** itrunc frees the blocks of a file in the order of the file, and the indirect
      block last. */
  function FreeOrder(n: nat): (k: nat)
    requires n < SLOTS
    ensures k < SLOTS
  {
    if n < MAXFILE then SlotOf(n) else NDIRECT
  }

  ghost predicate OwnsEarly(f: Fs, i: nat, n: nat, b: nat)
    requires Shape(f) && i < |f.inodes| && n <= SLOTS
  {
    b != 0 && exists m: nat :: m < n && Ref(f, i, FreeOrder(m)) == b
  }

  /** The first n of them are free, and nothing else has changed in the bitmap. */
  ghost predicate Freed(f: Fs, used: seq<bool>, i: nat, n: nat) {
    && Shape(f) && i < |f.inodes| && n <= SLOTS && |used| == |f.used|
    && forall b: nat :: b < |used| ==> (used[b] <==> f.used[b] && !OwnsEarly(f, i, n, b))
  }

  ghost predicate Unhooked(f: Fs, inodes: seq<Inode>, i: nat, k: nat) {
    && |inodes| == |f.inodes| && i < |inodes|
    && (forall j :: 0 <= j < |inodes| && j != i ==> inodes[j] == f.inodes[j])
    && |inodes[i].addrs| == NDIRECT + 1 && |f.inodes[i].addrs| == NDIRECT + 1
    && forall l :: 0 <= l <= NDIRECT ==> inodes[i].addrs[l] == if l < k then 0 else f.inodes[i].addrs[l]
  }

  lemma FreeStep(f: Fs, used: seq<bool>, i: nat, n: nat)
    requires Owned(f) && Freed(f, used, i, n) && n < SLOTS
    ensures var b := Ref(f, i, FreeOrder(n));
            if b == 0 then Freed(f, used, i, n + 1)
            else b < |used| && used[b] && Freed(f, used[b := false], i, n + 1)
  {
    var b := Ref(f, i, FreeOrder(n));
    assert Slot(f, i, FreeOrder(n)) && Good(f, b);
    if b != 0 {
      forall m: nat | m < n
        ensures Ref(f, i, FreeOrder(m)) != b
      {
        assert Slot(f, i, FreeOrder(m)) && Apart(f, i, FreeOrder(m), i, FreeOrder(n));
      }
    }
    forall c: nat | c < |used|
      ensures OwnsEarly(f, i, n + 1, c) <==> OwnsEarly(f, i, n, c) || (b != 0 && c == b)
    {
      if OwnsEarly(f, i, n + 1, c) {
        var m: nat :| m < n + 1 && Ref(f, i, FreeOrder(m)) == c;
      }
    }
  }

  /** A file without indirect block has nothing behind it. */
  lemma NoneToFree(f: Fs, used: seq<bool>, i: nat)
    requires Owned(f) && Freed(f, used, i, NDIRECT) && Ref(f, i, NDIRECT) == 0
    ensures Freed(f, used, i, SLOTS)
  {
  }

  /** g is f with file i emptied: exactly its blocks have become free. */
  ghost predicate Truncated(f: Fs, g: Fs, i: nat) {
    && Owned(f) && i < |f.inodes|
    && g.nmeta == f.nmeta && g.blocks == f.blocks && |g.used| == |f.used|
    && |g.inodes| == |f.inodes| && g.inodes[i] == Inode(0, seq(NDIRECT + 1, _ => 0))
    && (forall j :: 0 <= j < |f.inodes| && j != i ==> g.inodes[j] == f.inodes[j])
    && (forall b: nat :: b < |f.used| ==> (g.used[b] <==> f.used[b] && !OwnsEarly(f, i, SLOTS, b)))
  }

  lemma OwnsIff(f: Fs, i: nat, b: nat)
    requires Owned(f) && i < |f.inodes| && b != 0
    ensures OwnsEarly(f, i, SLOTS, b) <==> exists k: nat :: Slot(f, i, k) && Ref(f, i, k) == b
  {
    if OwnsEarly(f, i, SLOTS, b) {
      var m: nat :| m < SLOTS && Ref(f, i, FreeOrder(m)) == b;
      assert Slot(f, i, FreeOrder(m));
    }
    if k: nat :| Slot(f, i, k) && Ref(f, i, k) == b {
      assert k == FreeOrder(if k < NDIRECT then k else if k == NDIRECT then MAXFILE else k - 1);
    }
  }

  lemma TruncatedRef(f: Fs, g: Fs, i: nat, j: nat, k: nat)
    requires Truncated(f, g, i) && Slot(f, j, k)
    ensures Ref(g, j, k) == (if j == i then 0 else Ref(f, j, k)) && Good(g, Ref(g, j, k))
  {
    var b := Ref(f, j, k);
    assert Good(f, b);
    if b != 0 && j != i {
      OwnsIff(f, i, b);
      assert forall l: nat :: Slot(f, i, l) ==> Apart(f, j, k, i, l);
    }
  }

  /** Emptying a file keeps every block owned exactly once, leaves the other files as
      they were, and turns free exactly the blocks the file referred to. */
  lemma TruncateIsSafe(f: Fs, g: Fs, i: nat)
    requires Truncated(f, g, i)
    ensures Owned(g)
    ensures forall j: nat, k: nat :: Slot(f, j, k) ==> Ref(g, j, k) == if j == i then 0 else Ref(f, j, k)
    ensures forall j: nat, p: nat :: j < |f.inodes| && j != i && p < MAXFILE * BSIZE ==> ByteAt(g, j, p) == ByteAt(f, j, p)
    ensures forall b: nat :: b < |f.used| && b != 0 ==>
              (f.used[b] && !g.used[b] <==> exists k: nat :: Slot(f, i, k) && Ref(f, i, k) == b)
  {
    forall j: nat, k: nat | Slot(f, j, k)
      ensures Ref(g, j, k) == (if j == i then 0 else Ref(f, j, k)) && Good(g, Ref(g, j, k))
    {
      TruncatedRef(f, g, i, j, k);
    }
    forall j: nat, k: nat, j': nat, k': nat
      ensures Apart(g, j, k, j', k')
    {
      assert Apart(f, j, k, j', k');
    }
    forall b: nat | b < |f.used| && b != 0
      ensures f.used[b] && !g.used[b] <==> exists k: nat :: Slot(f, i, k) && Ref(f, i, k) == b
    {
      OwnsIff(f, i, b);
    }
  }

  ghost predicate SizesFit(f: Fs) {
    forall j :: 0 <= j < |f.inodes| ==> f.inodes[j].size <= MAXFILE * BSIZE
  }

  /** The guards of writei, with their uint arithmetic. */
  predicate Writable(f: Fs, i: nat, off: nat, n: nat)
    requires i < |f.inodes|
  {
    off <= f.inodes[i].size && off + n < UINT && off + n <= MAXFILE * BSIZE
  }

  function Resized(f: Fs, i: nat, size: nat): Fs
    requires i < |f.inodes|
  {
    f.(inodes := f.inodes[i := f.inodes[i].(size := size)])
  }

  /** src replaces what was at off, and makes the sequence longer if need be. */
  function Splice(c: seq<Byte>, off: nat, src: seq<Byte>): seq<Byte>
    requires off <= |c|
  {
    c[..off] + src + (if off + |src| < |c| then c[off + |src|..] else [])
  }

  /** The same, as a relation. */
  ghost predicate IsSplice(c: seq<Byte>, d: seq<Byte>, off: nat, src: seq<Byte>) {
    && off <= |c| && |d| == (if off + |src| < |c| then |c| else off + |src|)
    && forall p :: 0 <= p < |d| ==> d[p] == if off <= p < off + |src| then src[p - off] else c[p]
  }

  lemma SpliceIff(c: seq<Byte>, d: seq<Byte>, off: nat, src: seq<Byte>)
    requires off <= |c|
    ensures IsSplice(c, d, off, src) <==> d == Splice(c, off, src)
  {
  }

  /** Every block below the size of file i is allocated. */
  ghost predicate NoHoles(f: Fs, i: nat) {
    i < |f.inodes| && f.inodes[i].size <= MAXFILE * BSIZE && AllThere(f, i, 0, f.inodes[i].size)
  }

  /** What a call of writei that returns n has done. */
  ghost predicate WriteDone(f: Fs, g: Fs, i: nat, off: nat, src: seq<Byte>) {
    && Owned(f) && Owned(g) && SizesFit(f) && SizesFit(g) && |g.inodes| == |f.inodes| && i < |f.inodes|
    && off <= f.inodes[i].size
    && IsSplice(Content(f, i), Content(g, i), off, src)
    && (forall j: nat :: j < |f.inodes| && j != i ==> Content(g, j) == Content(f, j))
    && (forall j: nat, k: nat :: Slot(f, j, k) && (j != i || Ref(f, j, k) != 0) ==> Ref(g, j, k) == Ref(f, j, k))
    && (NoHoles(f, i) ==> NoHoles(g, i)) && |g.blocks| == |f.blocks|
  }

  lemma ResizedSame(f: Fs, i: nat, size: nat)
    requires Owned(f) && i < |f.inodes|
    ensures Owned(Resized(f, i, size)) && SameRefs(f, Resized(f, i, size)) && SameFiles(f, Resized(f, i, size))
  {
    var g := Resized(f, i, size);
    assert forall j: nat, k: nat :: Slot(f, j, k) ==> Ref(g, j, k) == Ref(f, j, k);
    SameRefsOwned(f, g);
  }

  lemma WriteFinished(f: Fs, g: Fs, h: Fs, i: nat, off: nat, src: seq<Byte>)
    requires SizesFit(f) && i < |f.inodes| && Writable(f, i, off, |src|)
    requires Spliced(f, g, i, off, src, 0, |src|) && AllThere(g, i, off, |src|)
    requires h == if |src| > 0 && off + |src| > g.inodes[i].size then Resized(g, i, off + |src|) else g
    ensures WriteDone(f, h, i, off, src)
  {
    ResizedSame(g, i, off + |src|);
    WriteContents(f, g, h, i, off, src);
    WriteNoHoles(f, g, h, i, off, src);
    forall j: nat, k: nat | Slot(f, j, k) && (j != i || Ref(f, j, k) != 0)
      ensures Ref(h, j, k) == Ref(f, j, k)
    {
      assert Slot(g, j, k);
    }
  }

  lemma WriteContents(f: Fs, g: Fs, h: Fs, i: nat, off: nat, src: seq<Byte>)
    requires SizesFit(f) && i < |f.inodes| && Writable(f, i, off, |src|)
    requires Spliced(f, g, i, off, src, 0, |src|) && Owned(h) && SameFiles(g, h) && SizesFit(h)
    requires h == if |src| > 0 && off + |src| > g.inodes[i].size then Resized(g, i, off + |src|) else g
    ensures IsSplice(Content(f, i), Content(h, i), off, src)
    ensures forall j: nat :: j < |f.inodes| && j != i ==> Content(h, j) == Content(f, j)
  {
  }

  lemma WriteNoHoles(f: Fs, g: Fs, h: Fs, i: nat, off: nat, src: seq<Byte>)
    requires SizesFit(f) && i < |f.inodes| && Writable(f, i, off, |src|)
    requires Spliced(f, g, i, off, src, 0, |src|) && AllThere(g, i, off, |src|) && SameRefs(g, h)
    requires h == if |src| > 0 && off + |src| > g.inodes[i].size then Resized(g, i, off + |src|) else g
    ensures NoHoles(f, i) ==> NoHoles(h, i)
  {
  }

  /** The state and the logged blocks when writei has stored the first tot bytes. */
  ghost predicate Wrote(bmap: nat, f: Fs, g: Fs, i: nat, off: nat, src: seq<Byte>, tot: nat,
                        before: set<nat>, after: set<nat>)
  {
    && tot <= |src| && off + |src| <= MAXFILE * BSIZE
    && Spliced(f, g, i, off, src, 0, tot) && AllThere(g, i, off, tot)
    && Extended(f, g, i, off / BSIZE, End(off, tot)) && InodesKept(f, g, i, off / BSIZE, End(off, tot))
    && after == before + Logged(bmap, f, g, i, off / BSIZE, End(off, tot))
    && (tot == 0 ==> g == f)
  }

  /** Bytes lo..hi of src, all in block bn, have been written. */
  ghost predicate WroteOne(bmap: nat, f: Fs, g: Fs, i: nat, off: nat, src: seq<Byte>, lo: nat, hi: nat, bn: nat,
                           before: set<nat>, after: set<nat>)
  {
    && Spliced(f, g, i, off, src, lo, hi) && bn < MAXFILE && Ref(g, i, SlotOf(bn)) != 0
    && Extended(f, g, i, bn, bn + 1) && InodesKept(f, g, i, bn, bn + 1)
    && after == before + Logged(bmap, f, g, i, bn, bn + 1)
  }

  lemma WroteNone(bmap: nat, f: Fs, i: nat, off: nat, src: seq<Byte>, logs: set<nat>)
    requires Owned(f) && i < |f.inodes| && off + |src| <= MAXFILE * BSIZE
    ensures Wrote(bmap, f, f, i, off, src, 0, logs, logs)
  {
    ExtendedNone(f, i, off / BSIZE);
  }

  lemma WroteMore(bmap: nat, f: Fs, g: Fs, h: Fs, i: nat, off: nat, src: seq<Byte>, lo: nat, hi: nat, bn: nat,
                  l0: set<nat>, l1: set<nat>, l2: set<nat>)
    requires Wrote(bmap, f, g, i, off, src, lo, l0, l1) && hi <= |src| && Turn(off, lo, hi, bn)
    requires WroteOne(bmap, g, h, i, off, src, lo, hi, bn, l1, l2)
    ensures Wrote(bmap, f, h, i, off, src, hi, l0, l2)
  {
    SplicedMore(f, g, h, i, off, src, lo, hi, bn);
    ExtendedTo(f, g, h, i, off, lo, hi, bn);
    LoggedTo(bmap, f, g, h, i, off, lo, hi, bn);
  }

  lemma ExtendedTo(f: Fs, g: Fs, h: Fs, i: nat, off: nat, lo: nat, hi: nat, bn: nat)
    requires Extended(f, g, i, off / BSIZE, End(off, lo)) && Extended(g, h, i, bn, bn + 1) && Turn(off, lo, hi, bn)
    ensures Extended(f, h, i, off / BSIZE, End(off, hi))
    ensures InodesKept(f, g, i, off / BSIZE, End(off, lo)) && InodesKept(g, h, i, bn, bn + 1) ==>
              InodesKept(f, h, i, off / BSIZE, End(off, hi))
  {
    NextEnd(off, lo, hi, bn);
    ExtendedMore(f, g, h, i, off / BSIZE, bn);
    if InodesKept(f, g, i, off / BSIZE, bn) && InodesKept(g, h, i, bn, bn + 1) {
      InodesKeptMore(f, g, h, i, off / BSIZE, bn);
    }
  }

  lemma LoggedTo(bmap: nat, f: Fs, g: Fs, h: Fs, i: nat, off: nat, lo: nat, hi: nat, bn: nat)
    requires Extended(f, g, i, off / BSIZE, End(off, lo)) && Extended(g, h, i, bn, bn + 1) && Turn(off, lo, hi, bn)
    ensures End(off, hi) <= MAXFILE && |h.inodes| == |f.inodes|
    ensures Logged(bmap, f, h, i, off / BSIZE, End(off, hi)) ==
            Logged(bmap, f, g, i, off / BSIZE, End(off, lo)) + Logged(bmap, g, h, i, bn, bn + 1)
  {
    NextEnd(off, lo, hi, bn);
    LoggedMore(bmap, f, g, h, i, off / BSIZE, bn);
  }

  ghost predicate AtBlock(off: nat, tot: nat, n: nat) {
    0 < tot < n ==> (off + tot) % BSIZE == 0
  }

  /** Every turn of the loops of readi and writei but the last ends at a block. */
  lemma NextBlock(off: nat, lo: nat, hi: nat, n: nat, bn: nat)
    requires lo < n && hi == lo + Min(n - lo, BSIZE - (off + lo) % BSIZE) && AtBlock(off, lo, n)
    requires bn == (off + lo) / BSIZE && off + n <= MAXFILE * BSIZE
    ensures AtBlock(off, hi, n) && Turn(off, lo, hi, bn)
  {
  }

  /** Bytes off..off+n touch this many blocks. */
  function Touched(off: nat, n: nat): nat {
    if n == 0 then 0 else (off + n - 1) / BSIZE - off / BSIZE + 1
  }

  lemma SplicedMore(f: Fs, g: Fs, h: Fs, i: nat, off: nat, src: seq<Byte>, lo: nat, hi: nat, bn: nat)
    requires hi <= |src| && off + |src| <= MAXFILE * BSIZE && Turn(off, lo, hi, bn)
    requires Spliced(f, g, i, off, src, 0, lo) && AllThere(g, i, off, lo)
    requires Spliced(g, h, i, off, src, lo, hi) && Ref(h, i, SlotOf(bn)) != 0
    ensures Spliced(f, h, i, off, src, 0, hi) && AllThere(h, i, off, hi)
  {
  }

  /** g is f with bytes lo..hi of src stored as bytes off+lo..off+hi of file i, blocks
      being allocated where that file had none; no other byte of any file has changed. */
  ghost predicate Spliced(f: Fs, g: Fs, i: nat, off: nat, src: seq<Byte>, lo: nat, hi: nat) {
    && Owned(f) && Owned(g) && SameSizes(f, g) && i < |f.inodes| && lo <= hi <= |src|
    && (forall j: nat, p: nat :: j < |f.inodes| && p < MAXFILE * BSIZE ==>
          ByteAt(g, j, p) == if j == i && off + lo <= p < off + hi then src[p - off] else ByteAt(f, j, p))
    && (forall j: nat, l: nat :: Slot(f, j, l) && (j != i || Ref(f, j, l) != 0) ==> Ref(g, j, l) == Ref(f, j, l))
  }

  lemma SplicedBlock(f: Fs, g: Fs, h: Fs, i: nat, off: nat, src: seq<Byte>, lo: nat, hi: nat, bn: nat, data: Block)
    requires hi <= |src| && off + |src| <= MAXFILE * BSIZE && Turn(off, lo, hi, bn) && Mapped(f, g, i, bn)
    requires var addr, o := Ref(g, i, SlotOf(bn)), (off + lo) % BSIZE;
             && addr < |g.blocks| && data == g.blocks[addr][..o] + src[lo..hi] + g.blocks[addr][o + (hi - lo)..]
    requires Owned(h) && SameRefs(g, h) && SameSizes(g, h)
    requires forall j: nat, p: nat :: j < |g.inodes| && p < MAXFILE * BSIZE ==>
               ByteAt(h, j, p) == if j == i && p / BSIZE == bn then data[p % BSIZE] else ByteAt(g, j, p)
    ensures Spliced(f, h, i, off, src, lo, hi)
  {
    forall j: nat, p: nat | j < |f.inodes| && p < MAXFILE * BSIZE
      ensures ByteAt(h, j, p) == if j == i && off + lo <= p < off + hi then src[p - off] else ByteAt(f, j, p)
    {
      if off + lo <= p < off + hi {
        SameBlock(off + lo, p);
      }
    }
    forall j: nat, l: nat | Slot(f, j, l) && (j != i || Ref(f, j, l) != 0)
      ensures Ref(h, j, l) == Ref(f, j, l)
    {
      assert Slot(g, j, l);
    }
  }

  /** g is f after the blocks of bytes off..off+n of file i have been mapped. */
  ghost predicate Through(f: Fs, g: Fs, i: nat, off: nat, n: nat) {
    && Owned(f) && Owned(g) && SameFiles(f, g) && SameSizes(f, g)
    && AllThere(g, i, off, n) && (AllThere(f, i, off, n) ==> g == f)
    && Extended(f, g, i, off / BSIZE, End(off, n)) && InodesKept(f, g, i, off / BSIZE, End(off, n))
  }

  /** The first tot bytes have been read. */
  ghost predicate ReadTo(f: Fs, g: Fs, i: nat, off: nat, tot: nat, out: seq<Byte>) {
    Through(f, g, i, off, tot) && |out| == tot && AreBytes(f, i, off, out)
  }

  lemma ReadMore(f: Fs, g: Fs, h: Fs, i: nat, off: nat, lo: nat, hi: nat, bn: nat, out: seq<Byte>, at: nat, chunk: seq<Byte>)
    requires ReadTo(f, g, i, off, lo, out) && at == off + lo && |chunk| == hi - lo && AreBytes(g, i, at, chunk)
    requires off + hi <= MAXFILE * BSIZE && Turn(off, lo, hi, bn) && Mapped(g, h, i, bn)
    ensures ReadTo(f, h, i, off, hi, out + chunk)
  {
    MoreBytes(f, g, i, off, out, at, chunk);
    MoreThere(f, g, h, i, off, lo, hi, bn);
  }

  /** What a call of readi that returns r has done. */
  ghost predicate ReadDone(f: Fs, g: Fs, i: nat, off: nat, r: nat, out: seq<Byte>) {
    && Owned(f) && i < |f.inodes| && off + r <= f.inodes[i].size <= MAXFILE * BSIZE
    && out == Content(f, i)[off..off + r] && Owned(g) && SameFiles(f, g) && SameSizes(f, g)
    && Through(f, g, i, off, r) && (g == f <==> AllThere(f, i, off, r))
    && (g.inodes == f.inodes <==> SlotsThere(f, i, off, r))
  }

  lemma ReadFinished(f: Fs, g: Fs, i: nat, off: nat, r: nat, out: seq<Byte>)
    requires Through(f, g, i, off, r) && off + r <= f.inodes[i].size <= MAXFILE * BSIZE
    requires |out| == r && AreBytes(f, i, off, out)
    ensures ReadDone(f, g, i, off, r, out)
  {
    BytesAreContent(f, i, off, r);
    assert out == Bytes(f, i, off, r);
    SlotsAreThere(f, g, i, off, r);
  }

  lemma ThroughNone(trans: bool, f: Fs, i: nat, off: nat)
    requires Owned(f) && i < |f.inodes| && off <= MAXFILE * BSIZE
    ensures Through(f, f, i, off, 0) && Enough(trans, f, i, off, 0)
  {
    ExtendedNone(f, i, off / BSIZE);
  }

  /** Bytes off..off+n of file i. */
  function Bytes(f: Fs, i: nat, off: nat, n: nat): (r: seq<Byte>)
    requires Shape(f) && i < |f.inodes| && off + n <= MAXFILE * BSIZE
    ensures |r| == n && forall p :: 0 <= p < n ==> r[p] == ByteAt(f, i, off + p)
  {
    seq<Byte>(n, p requires 0 <= p < n => ByteAt(f, i, off + p))
  }

  /** The file as one sequence of bytes. */
  function Content(f: Fs, i: nat): seq<Byte>
    requires Shape(f) && i < |f.inodes| && f.inodes[i].size <= MAXFILE * BSIZE
  {
    Bytes(f, i, 0, f.inodes[i].size)
  }

  lemma BytesAreContent(f: Fs, i: nat, off: nat, n: nat)
    requires Shape(f) && i < |f.inodes| && off + n <= f.inodes[i].size <= MAXFILE * BSIZE
    ensures Bytes(f, i, off, n) == Content(f, i)[off..off + n]
  {
  }

  lemma SameBytes(f: Fs, g: Fs, i: nat, off: nat, n: nat)
    requires SameFiles(f, g) && i < |f.inodes| && off + n <= MAXFILE * BSIZE
    ensures Bytes(f, i, off, n) == Bytes(g, i, off, n)
  {
  }

  /** The bytes are those of file i from off on. */
  ghost predicate AreBytes(f: Fs, i: nat, off: nat, out: seq<Byte>) {
    && Shape(f) && i < |f.inodes| && off + |out| <= MAXFILE * BSIZE
    && forall p :: 0 <= p < |out| ==> out[p] == ByteAt(f, i, off + p)
  }

  lemma MoreBytes(f: Fs, g: Fs, i: nat, off: nat, out: seq<Byte>, at: nat, chunk: seq<Byte>)
    requires SameFiles(f, g) && AreBytes(f, i, off, out) && at == off + |out| && AreBytes(g, i, at, chunk)
    ensures AreBytes(f, i, off, out + chunk)
  {
  }

  function Min(a: nat, b: nat): nat {
    if a < b then a else b
  }

  /** Every block that bytes off..off+n of file i lie in is allocated. */
  ghost predicate AllThere(f: Fs, i: nat, off: nat, n: nat) {
    Shape(f) && i < |f.inodes| && off + n <= MAXFILE * BSIZE
    && forall bn: nat :: bn < MAXFILE && off / BSIZE <= bn && bn * BSIZE < off + n && n > 0 ==> Ref(f, i, SlotOf(bn)) != 0
  }

  /** m bytes within one block. */
  lemma OneBlock(f: Fs, i: nat, off: nat, m: nat)
    requires Shape(f) && i < |f.inodes| && off + m <= MAXFILE * BSIZE
    requires m <= BSIZE - off % BSIZE && off < MAXFILE * BSIZE
    requires 0 < Ref(f, i, SlotOf(off / BSIZE)) < |f.blocks|
    ensures forall p :: off <= p < off + m ==>
              ByteAt(f, i, p) == f.blocks[Ref(f, i, SlotOf(off / BSIZE))][off % BSIZE + (p - off)]
  {
  }

  lemma SameBlock(off: nat, p: nat)
    requires off <= p < off + (BSIZE - off % BSIZE)
    ensures p / BSIZE == off / BSIZE && p % BSIZE == off % BSIZE + (p - off)
  {
  }

  lemma MoreThere(f: Fs, g: Fs, h: Fs, i: nat, off: nat, lo: nat, hi: nat, bn: nat)
    requires Through(f, g, i, off, lo) && Mapped(g, h, i, bn) && Turn(off, lo, hi, bn) && off + hi <= MAXFILE * BSIZE
    ensures Through(f, h, i, off, hi)
  {
    ExtendedTo(f, g, h, i, off, lo, hi, bn);
    StillThere(f, g, h, i, off, lo, hi, bn);
  }

  lemma StillThere(f: Fs, g: Fs, h: Fs, i: nat, off: nat, lo: nat, hi: nat, bn: nat)
    requires AllThere(g, i, off, lo) && (AllThere(f, i, off, lo) ==> g == f) && Mapped(g, h, i, bn)
    requires Turn(off, lo, hi, bn) && off + hi <= MAXFILE * BSIZE
    ensures AllThere(h, i, off, hi) && (AllThere(f, i, off, hi) ==> h == f)
  {
  }
}
