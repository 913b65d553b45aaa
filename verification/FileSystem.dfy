/** The file layer of fs.c over a volume: bitmap allocator, block map, truncation, reads and writes. */
module FileSystem {
  import opened Blocks
  import opened Words
  import opened FsState
  import opened FsFiles
  import opened FsBudget

  /** Unsigned 32-bit addition. */
  function Add32(a: nat, b: nat): nat {
    (a + b) % WORD_RANGE
  }

  function Min(a: nat, b: nat): nat {
    if a < b then a else b
  }

  /** Bit bi of a bitmap block answers for block b + bi. */
  lemma BitmapScan(sb: Super, blocks: seq<Block>, b: nat, bi: nat)
    requires SuperOk(sb) && |blocks| == sb.size && b % BPB == 0 && bi < BPB && b + bi < sb.size
    ensures BitBlock(sb, b) < sb.size && BitBlock(sb, b + bi) == BitBlock(sb, b)
    ensures (b + bi) % BPB == bi && (b + bi) % 8 == bi % 8 && bi / 8 < BSIZE
    ensures Used(sb, blocks, b + bi) <==> blocks[BitBlock(sb, b)][bi / 8] & (1 << (bi % 8)) != 0
  {
    hide Bit;
    BitBlockRange(sb, b + bi);
    ScanIndex(b, bi);
    assert Bit(blocks[BitBlock(sb, b)][bi / 8], bi % 8) <==> blocks[BitBlock(sb, b)][bi / 8] & (1 << (bi % 8)) != 0 by {
      BitMeans(blocks[BitBlock(sb, b)][bi / 8], bi % 8);
    }
  }

  lemma BitMeans(x: bv8, k: nat)
    requires k < 8
    ensures Bit(x, k) <==> x & (1 << k) != 0
  {}

  lemma ScanIndex(b: nat, bi: nat)
    requires b % BPB == 0 && bi < BPB
    ensures (b + bi) / BPB == b / BPB && (b + bi) % BPB == bi && (b + bi) % 8 == bi % 8
  {
    var q := b / BPB;
    assert b == BPB * q;
    EighthsLow(q * (BPB / 8), bi);
  }

  lemma EighthsLow(q: nat, r: nat)
    ensures (8 * q + r) % 8 == r % 8
  {}

  lemma NoBitSet(sb: Super, blocks: seq<Block>, x: nat)
    requires SuperOk(sb) && |blocks| == sb.size && x < sb.size && forall k :: 0 <= k < sb.size ==> blocks[k] == Zero()
    ensures !Used(sb, blocks, x)
  {
    BitBlockRange(sb, x);
    BitMeans(0, x % 8);
  }

  class Volume {
    const sb: Super
    var blocks: seq<Block>
    /** The in-memory inodes; each is written back with the operation that changes it. */
    var inodes: seq<Inode>

    ghost function View(): Fs
      reads this
    {
      Fs(sb, blocks, inodes)
    }

    /** An empty volume: just the blocks below the data area are marked in use. */
    constructor (super: Super, ninodes: nat)
      requires SuperOk(super)
      ensures FsOk(View()) && sb == super && |inodes| == ninodes
      ensures forall i :: 0 <= i < ninodes ==> inodes[i] == EmptyInode()
      ensures forall x :: 0 <= x < sb.size ==> (Used(sb, blocks, x) <==> x < sb.dataStart)
    {
      sb, inodes := super, seq(ninodes, _ => EmptyInode());
      blocks := seq(super.size, _ => Zero());
      new;
      hide Used, Mark, Zero;
      forall x | 0 <= x < sb.size ensures !Used(sb, blocks, x) { NoBitSet(sb, blocks, x); }
      var b := 0;
      while b < sb.dataStart
        modifies this`blocks
        invariant 0 <= b <= sb.dataStart && |blocks| == sb.size
        invariant forall x :: 0 <= x < sb.size ==> (Used(sb, blocks, x) <==> x < b)
      {
        forall x | 0 <= x < sb.size
          ensures Used(sb, Mark(sb, blocks, b, true), x) <==> x < b + 1
        {
          MarkChangesOneBit(sb, blocks, b, true, x);
        }
        blocks := Mark(sb, blocks, b, true);
        b := b + 1;
      }
      FreshVolume(View());
    }

    /** Takes the first free block and zeroes it; 0 when every block is in use. */
    method Balloc() returns (r: nat)
      requires Good(View())
      modifies this`blocks
      ensures r == 0 ==> blocks == old(blocks) && forall x :: 0 <= x < sb.size ==> Used(sb, blocks, x)
      ensures r != 0 ==> Free(old(View()), r) && View() == Allocated(old(View()), r)
      ensures r != 0 ==> forall x :: 0 <= x < r ==> Used(sb, old(blocks), x)
    {
      hide Used, InRange, Unshared, Addr, Owned, Allocated;
      var b := 0;
      while b < sb.size
        invariant b % BPB == 0
        invariant blocks == old(blocks)
        invariant forall x :: 0 <= x < b && x < sb.size ==> Used(sb, blocks, x)
      {
        var bi := FirstClear(b);
        if bi < BPB && b + bi < sb.size {
          Take(b, bi);
          return b + bi;
        }
        b := b + BPB;
      }
      return 0;
    }

    /** The inner loop of balloc: the first clear bit of one bitmap block, if any. */
    method FirstClear(b: nat) returns (bi: nat)
      requires SuperOk(sb) && |blocks| == sb.size && b % BPB == 0 && b < sb.size
      ensures bi <= BPB
      ensures forall x :: b <= x < b + bi && x < sb.size ==> Used(sb, blocks, x)
      ensures bi < BPB && b + bi < sb.size ==> !Used(sb, blocks, b + bi)
    {
      hide Used, Bit, BitBlock;
      BitmapScan(sb, blocks, b, 0);
      var bp := blocks[BitBlock(sb, b)];
      bi := 0;
      while bi < BPB && b + bi < sb.size
        invariant 0 <= bi <= BPB
        invariant forall x :: b <= x < b + bi && x < sb.size ==> Used(sb, blocks, x)
      {
        BitmapScan(sb, blocks, b, bi);
        var m: bv8 := 1 << (bi % 8);
        if bp[bi / 8] & m == 0 {
          return;
        }
        bi := bi + 1;
      }
    }

    /** Marks block b + bi in use in its bitmap block, and zeroes it. */
    method Take(b: nat, bi: nat)
      requires Shape(View()) && b % BPB == 0 && bi < BPB && b + bi < sb.size
      modifies this`blocks
      ensures View() == Allocated(old(View()), b + bi)
    {
      hide Used, Bit, BitBlock, MarkBit, Zero;
      BitmapScan(sb, blocks, b, bi);
      var bp := blocks[BitBlock(sb, b)];
      var m: bv8 := 1 << (bi % 8);
      MarkedByte(bp, b + bi, bi, m);
      bp := bp[bi / 8 := bp[bi / 8] | m];
      blocks := blocks[BitBlock(sb, b) := bp];
      Bzero(b + bi);
    }

    method Bzero(b: nat)
      requires b < |blocks|
      modifies this`blocks
      ensures blocks == old(blocks)[b := Zero()]
    {
      var bp := seq(BSIZE, _ => 0 as bv8);
      assert bp == Zero();
      blocks := blocks[b := bp];
    }

    /** Clears the bit of a block in use. The clear-bit panic is the false result; callers never see it. */
    method Bfree(b: nat) returns (ok: bool)
      requires SuperOk(sb) && |blocks| == sb.size && b < sb.size
      modifies this`blocks
      ensures ok == Used(sb, old(blocks), b)
      ensures blocks == if ok then Mark(sb, old(blocks), b, false) else old(blocks)
    {
      hide Bit, BitBlock, MarkBit;
      BitBlockRange(sb, b);
      var bp := blocks[BitBlock(sb, b)];
      var bi := b % BPB;
      var m: bv8 := 1 << (bi % 8);
      BitMeans(bp[bi / 8], bi % 8);
      if bp[bi / 8] & m == 0 {
        return false;
      }
      MarkedByte(bp, b, bi, m);
      bp := bp[bi / 8 := bp[bi / 8] & !m];
      blocks := blocks[BitBlock(sb, b) := bp];
      return true;
    }

    /** The disk block of the file's block bn, allocating it and the indirect block when missing; 0
        when that needs a block and none is left. `logged` are the blocks it passes to log_write. */
    method Bmap(i: nat, bn: nat) returns (addr: nat, logged: set<nat>)
      requires Good(View()) && i < |inodes| && bn < MAXFILE
      modifies this
      ensures Grown(old(View()), View(), i, bn)
      ensures addr == Addr(View(), i, DataPos(bn))
      ensures old(Addr(View(), i, DataPos(bn))) != 0 ==> View() == old(View()) && logged == {}
      ensures addr == 0 ==> forall x :: 0 <= x < sb.size ==> Used(sb, blocks, x)
      ensures |inodes| == |old(inodes)| && forall j :: 0 <= j < |inodes| && j != i ==> inodes[j] == old(inodes)[j]
      ensures SameBut(old(blocks), blocks, logged) && InVolume(sb, logged)
      ensures logged <= Around(View(), i) + if addr == 0 then {} else {addr, BitBlock(sb, addr)}
      ensures old(Around(View(), i)) <= Around(View(), i)
    {
      hide Used, Mark, InRange, Unshared, BitmapExact, GetWord, SetWord, Mapped, Bytes, Zero;
      assert InodeShape(sb, inodes[i]);
      logged := {};
      if bn < NDIRECT {
        addr := inodes[i].addrs[bn];
        if addr == 0 {
          addr, logged := AllocSlot(i, bn, bn);
        } else {
          GrownRefl(View(), i, bn);
        }
        return;
      }
      addr := inodes[i].addrs[NDIRECT];
      GrownRefl(View(), i, bn);
      if addr == 0 {
        addr, logged := AllocSlot(i, NDIRECT, bn);
        if addr == 0 {
          return;
        }
      }
      ghost var mid := View();
      var ind := addr;
      assert InodeShape(sb, inodes[i]);
      addr := GetWord(blocks[ind], bn - NDIRECT);
      if addr == 0 {
        var more;
        addr, more := AllocSlot(i, bn + 1, bn);
        logged := logged + more;
        GrownTwice(old(View()), mid, View(), i, bn);
      }
    }

    /** Takes a free block for an empty slot: the balloc-and-store step of bmap. */
    method AllocSlot(i: nat, pos: nat, ghost bn: nat) returns (addr: nat, logged: set<nat>)
      requires Good(View()) && IsSlot(View(), i, pos) && Addr(View(), i, pos) == 0
      requires pos > NDIRECT ==> Addr(View(), i, NDIRECT) != 0
      requires pos == DataPos(bn) || pos == NDIRECT
      modifies this
      ensures addr == 0 ==> View() == old(View()) && forall x :: 0 <= x < sb.size ==> Used(sb, blocks, x)
      ensures Grown(old(View()), View(), i, bn) && Addr(View(), i, pos) == addr
      ensures SameBut(old(blocks), blocks, logged) && InVolume(sb, logged)
      ensures addr == 0 ==> logged == {}
      ensures addr != 0 ==>
                logged == {addr, BitBlock(sb, addr)} + if pos > NDIRECT then {old(Addr(View(), i, NDIRECT))} else {}
      ensures |inodes| == |old(inodes)| && forall j :: 0 <= j < |inodes| && j != i ==> inodes[j] == old(inodes)[j]
    {
      hide Used, Mark, InRange, Unshared, BitmapExact, GetWord, SetWord, Mapped, Bytes, Zero, Grown;
      assert InodeShape(sb, inodes[i]);
      addr := Balloc();
      logged := {};
      if addr == 0 {
        GrownRefl(View(), i, bn);
        return;
      }
      logged := {BitBlock(sb, addr), addr};
      AllocatedFrame(old(View()), addr, i, NDIRECT);
      AllocatedBlocks(old(View()), addr);
      LoggedRange(old(View()), i, addr);
      if pos <= NDIRECT {
        var ip := inodes[i];
        inodes := inodes[i := ip.(addrs := ip.addrs[pos := addr])];
      } else {
        var ind := inodes[i].addrs[NDIRECT];
        blocks := blocks[ind := SetWord(blocks[ind], pos - NDIRECT - 1, addr)];
        logged := logged + {ind};
      }
      assert View() == Attached(old(View()), i, pos, addr);
      GrownByAttach(old(View()), i, bn, pos, addr);
    }

    /** Empties file i and releases exactly its blocks; every bit it clears is set, so bfree never
        finds a free block. */
    method Itrunc(i: nat)
      requires FsOk(View()) && i < |inodes|
      modifies this
      ensures FsOk(View()) && Truncated(old(View()), View(), i)
      ensures Content(View(), i) == []
      ensures forall j :: 0 <= j < |inodes| && j != i ==> Content(View(), j) == old(Content(View(), j))
    {
      hide Used, Mark, InRange, Unshared, BitmapExact, Addr, Mapped, Bytes, Released;
      ghost var s := View();
      assert InodeShape(sb, s.inodes[i]);
      ghost var seen: set<nat> := {};
      ReleasedNone(s, i);
      var k := 0;
      while k < NDIRECT
        invariant 0 <= k <= NDIRECT
        invariant forall q :: q in seen <==> 0 <= q < k
        invariant Released(s, i, blocks, seen)
        invariant |inodes| == |s.inodes| && forall j :: 0 <= j < |inodes| && j != i ==> inodes[j] == s.inodes[j]
        invariant |inodes[i].addrs| == NDIRECT + 1
        invariant forall q :: 0 <= q <= NDIRECT ==> inodes[i].addrs[q] == if q < k then 0 else s.inodes[i].addrs[q]
      {
        SlotAddr(s, i, k);
        ReleaseStep(s, i, blocks, seen, k);
        if inodes[i].addrs[k] != 0 {
          Release(i, s, seen, k);
          inodes := inodes[i := inodes[i].(addrs := inodes[i].addrs[k := 0])];
        }
        seen := seen + {k};
        k := k + 1;
      }
      if inodes[i].addrs[NDIRECT] != 0 {
        seen := FreeIndirect(i, s, seen);
        inodes := inodes[i := inodes[i].(addrs := inodes[i].addrs[NDIRECT := 0])];
      }
      inodes := inodes[i := inodes[i].(size := 0)];
      assert inodes[i].addrs == EmptyInode().addrs;
      assert inodes == s.inodes[i := EmptyInode()];
      forall q | 0 <= q <= NDIRECT + NINDIRECT && q !in seen ensures Addr(s, i, q) == 0 { NoIndirect(s, i, q); }
      ReleasedAll(s, i, blocks, seen);
      TruncateKeeps(s, View(), i);
    }

    /** Frees the block that slot q of the inode names. */
    method Release(i: nat, ghost s: Fs, ghost seen: set<nat>, q: nat)
      requires SuperOk(sb) && Good(s) && s.sb == sb && IsSlot(s, i, q) && q !in seen && Released(s, i, blocks, seen)
      requires q <= NDIRECT && i < |inodes| && |inodes[i].addrs| == NDIRECT + 1
      requires inodes[i].addrs[q] == Addr(s, i, q) != 0
      modifies this`blocks
      ensures Released(s, i, blocks, seen + {q})
    {
      hide Used, Mark, InRange, Unshared, BitmapExact, Addr, NamedFrom;
      ReleaseStep(s, i, blocks, seen, q);
      var ok := Bfree(inodes[i].addrs[q]);
      assert ok;
    }

    /** Frees every listed block, then the indirect block itself, whose entries are left as they are. */
    method FreeIndirect(i: nat, ghost s: Fs, ghost seen: set<nat>) returns (ghost all: set<nat>)
      requires Good(s) && s.sb == sb && i < |s.inodes| && Released(s, i, blocks, seen)
      requires forall q :: q in seen <==> 0 <= q < NDIRECT
      requires i < |inodes| && |inodes[i].addrs| == NDIRECT + 1
      requires inodes[i].addrs[NDIRECT] == s.inodes[i].addrs[NDIRECT] != 0
      modifies this`blocks
      ensures Released(s, i, blocks, all) && forall q :: q in all <==> 0 <= q <= NDIRECT + NINDIRECT
    {
      hide Used, Mark, InRange, Unshared, BitmapExact, Addr, NamedFrom, GetWord;
      SlotAddr(s, i, NDIRECT);
      IndirectInRange(s, i);
      var ind := inodes[i].addrs[NDIRECT];
      var bp := blocks[ind];
      all := seen;
      var j := 0;
      while j < NINDIRECT
        invariant 0 <= j <= NINDIRECT
        invariant forall q :: q in all <==> 0 <= q < NDIRECT || NDIRECT < q <= NDIRECT + j
        invariant Released(s, i, blocks, all)
      {
        var a := GetWord(bp, j);
        EntryAddr(s, i, j);
        ReleaseStep(s, i, blocks, all, NDIRECT + 1 + j);
        if a != 0 {
          var ok := Bfree(a);
          assert ok;
        }
        all := all + {NDIRECT + 1 + j};
        j := j + 1;
      }
      Release(i, s, all, NDIRECT);
      all := all + {NDIRECT};
    }

    /** bmap of a byte inside the file: there is no hole, so nothing is allocated and readi's loop never
        leaves early. */
    method BlockAt(i: nat, p: nat) returns (addr: nat)
      requires FsOk(View()) && i < |inodes| && p < inodes[i].size
      modifies this
      ensures View() == old(View()) && p < MAXBYTES && addr == At(View(), i, p) != 0
    {
      hide InRange, Unshared, BitmapExact, Addr, Mapped, Bytes, Grown, SameBut, Around, BitBlock, InVolume;
      ByteHasBlock(View(), i, p);
      var logged;
      addr, logged := Bmap(i, p / BSIZE);
    }

    /** Reads up to n bytes of file i from `off` on. No block is ever allocated. */
    method Readi(i: nat, off: nat, n: nat) returns (tot: nat, out: seq<bv8>)
      requires FsOk(View()) && i < |inodes| && off < WORD_RANGE && n < WORD_RANGE
      modifies this
      ensures View() == old(View()) && tot == |out|
      ensures off > inodes[i].size || off + n >= WORD_RANGE ==> out == []
      ensures off <= inodes[i].size && off + n < WORD_RANGE ==>
                out == Content(View(), i)[off..Min(off + n, inodes[i].size)]
    {
      hide InRange, Unshared, BitmapExact, Addr, Mapped, Bytes, At;
      tot, out := 0, [];
      if off > inodes[i].size || Add32(off, n) < off {
        return;
      }
      var n, p := n, off;
      if p + n > inodes[i].size {
        n := inodes[i].size - p;
      }
      ghost var c := Content(View(), i);
      while tot < n
        invariant View() == old(View()) && tot <= n && p == off + tot && off + n <= inodes[i].size
        invariant tot == |out| && out == c[off..p]
      {
        var addr := BlockAt(i, p);
        var m := Min(n - tot, BSIZE - p % BSIZE);
        ReadChunk(View(), i, p, m);
        assert c[off..p] + c[p..p + m] == c[off..p + m];
        out := out + blocks[addr][p % BSIZE..p % BSIZE + m];
        tot, p := tot + m, p + m;
      }
    }

    /** Writes d to file i from `off` on, extending it as needed. It stops short only when no block is
        left; what it wrote is spliced into the file, and every other file is untouched. `logged` are the
        blocks it passes to log_write, whether or not their contents change: every block written to, and
        every block that differs. They keep to the budget of that many bytes. */
    method Writei(i: nat, off: nat, d: seq<bv8>) returns (r: int, logged: set<nat>)
      requires FsOk(View()) && i < |inodes| && off < WORD_RANGE && |d| < WORD_RANGE
      modifies this
      ensures FsOk(View()) && |inodes| == old(|inodes|)
      ensures r == -1 <==> off > old(inodes[i].size) || off + |d| > MAXBYTES
      ensures r == -1 ==> View() == old(View())
      ensures r != -1 ==> 0 <= r <= |d| && off <= |old(Content(View(), i))|
      ensures r != -1 ==> Content(View(), i) == Splice(old(Content(View(), i)), off, d[..r])
      ensures r != -1 && r < |d| ==> forall x :: 0 <= x < sb.size ==> Used(sb, blocks, x)
      ensures forall j :: 0 <= j < |inodes| && j != i ==> Content(View(), j) == old(Content(View(), j))
      ensures forall j :: 0 <= j < |inodes| && j != i ==> inodes[j] == old(inodes)[j]
      ensures SameBut(old(blocks), blocks, logged) && InVolume(sb, logged) && |logged| <= Budget(off, |d|)
      ensures r == -1 ==> logged == {}
      ensures r != -1 ==> Covered(View(), i, off / BSIZE, off / BSIZE + Span(off, r), logged)
    {
      hide InRange, Unshared, BitmapExact, Addr, Mapped, Bytes, Used, Splice, Writing, Content, Budget, Covered;
      ghost var s := View();
      if off > inodes[i].size || Add32(off, |d|) < off {
        return -1, {};
      }
      if off + |d| > MAXBYTES {
        return -1, {};
      }
      var tot;
      tot, logged := WriteAll(i, off, d);
      var p := off + tot;
      WritingSize(s, View(), i, off, d, tot);
      WritingEnds(s, View(), i, off, d, tot);
      ghost var t := View();
      if p > inodes[i].size {
        inodes := inodes[i := inodes[i].(size := p)];
        CoveredSize(t, View(), i, off / BSIZE, off / BSIZE + Span(off, tot), logged);
      }
      r := tot;
    }

    /** writei's loop. */
    method WriteAll(i: nat, off: nat, d: seq<bv8>) returns (tot: nat, logged: set<nat>)
      requires FsOk(View()) && i < |inodes| && off <= inodes[i].size && off + |d| <= MAXBYTES
      modifies this
      ensures tot <= |d| && Writing(old(View()), View(), i, off, d, tot)
      ensures tot < |d| ==> forall x :: 0 <= x < sb.size ==> Used(sb, blocks, x)
      ensures |inodes| == |old(inodes)| && forall j :: 0 <= j < |inodes| && j != i ==> inodes[j] == old(inodes)[j]
      ensures SameBut(old(blocks), blocks, logged) && InVolume(sb, logged) && |logged| <= Budget(off, |d|)
      ensures Shape(View()) && Covered(View(), i, off / BSIZE, off / BSIZE + Span(off, tot), logged)
    {
      hide FsOk, Shape, Used, Writing, Around, Span, Fresh, SameBut, ChunkBlocks, Covered, KeepsSlots, Addr, InVolume;
      hide Budgeted;
      ghost var s := View();
      var p := off;
      tot, logged := 0, {};
      ghost var data, bits: set<nat> := {}, {};
      WritingStarts(s, i, off, d);
      WritingGood(s, s, i, off, d, 0);
      BudgetedStart(s, i, off);
      while tot < |d|
        invariant tot <= |d| && p == off + tot && |inodes| == |s.inodes|
        invariant Writing(s, View(), i, off, d, tot) && Budgeted(s, View(), i, off, tot, logged, data, bits)
        invariant forall j :: 0 <= j < |inodes| && j != i ==> inodes[j] == s.inodes[j]
        invariant (tot == 0 ==> View() == s) && (0 < tot < |d| ==> p % BSIZE == 0)
      {
        ghost var t := View();
        var addr, m, chunk, isNew := WriteChunk(s, i, off, d, tot);
        data, bits := BudgetedChunk(s, t, View(), i, off, tot, m, logged, chunk, data, bits, addr, isNew);
        logged := logged + chunk;
        if addr == 0 {
          break;
        }
        ChunkEnds(p, m, |d| - tot);
        tot, p := tot + m, p + m;
      }
      BudgetedEnd(s, View(), i, off, tot, |d|, logged, data, bits);
    }

    /** One turn of the write loop: map the block at the current offset and copy a chunk into it. */
    method WriteChunk(ghost s: Fs, i: nat, off: nat, d: seq<bv8>, tot: nat)
      returns (addr: nat, m: nat, logged: set<nat>, ghost isNew: bool)
      requires FsOk(s) && i < |s.inodes| && off <= s.inodes[i].size && tot < |d| && off + |d| <= MAXBYTES
      requires s.sb == sb && i < |inodes| && Writing(s, View(), i, off, d, tot)
      modifies this
      ensures addr == 0 ==> Writing(s, View(), i, off, d, tot) && forall x :: 0 <= x < sb.size ==> Used(sb, blocks, x)
      ensures addr != 0 ==> 0 < m <= |d| - tot && Writing(s, View(), i, off, d, tot + m)
      ensures addr != 0 ==> m == Min(|d| - tot, BSIZE - (off + tot) % BSIZE)
      ensures Shape(View()) && Around(old(View()), i) <= Around(View(), i)
      ensures SameBut(old(blocks), blocks, logged) && InVolume(sb, logged)
      ensures logged <= Around(View(), i) + ChunkBlocks(sb, addr, isNew)
      ensures KeepsSlots(old(View()), View(), i)
      ensures addr != 0 ==>
                (off + tot) / BSIZE < MAXFILE && addr == Addr(View(), i, DataPos((off + tot) / BSIZE)) && addr in logged
      ensures tot == 0 && old(View()) == s && off % BSIZE != 0 ==> !isNew
      ensures |inodes| == |s.inodes| && forall j :: 0 <= j < |inodes| && j != i ==> inodes[j] == old(inodes)[j]
    {
      hide InRange, Unshared, BitmapExact, Addr, Mapped, Bytes, Grown, Used, Splice, Content, Around, BitBlock;
      hide SameBut, Writing;
      var p := off + tot;
      BlockOfByte(p);
      WritingGood(s, View(), i, off, d, tot);
      ghost var t := View();
      isNew := Addr(t, i, DataPos(p / BSIZE)) == 0;
      if tot == 0 && t == s && off % BSIZE != 0 {
        BegunBefore(s, i, off);
      }
      addr, logged := Bmap(i, p / BSIZE);
      m := 0;
      WritingGrown(s, t, View(), i, off, d, tot, p / BSIZE);
      WritingGood(s, View(), i, off, d, tot);
      GrownKeeps(t, View(), i, p / BSIZE);
      if addr == 0 {
        return;
      }
      m := Min(|d| - tot, BSIZE - p % BSIZE);
      ghost var u := View();
      CopyChunk(s, i, off, d, tot, addr, m);
      KeepsTwice(t, u, View(), i);
      AddrRange(u, i, DataPos(p / BSIZE));
      SameButTwice(t.blocks, u.blocks, blocks, logged, {addr}, logged + {addr});
      logged := logged + {addr};
    }

    /** bread, either_copyin, log_write. */
    method CopyChunk(ghost s: Fs, i: nat, off: nat, d: seq<bv8>, tot: nat, addr: nat, m: nat)
      requires FsOk(s) && i < |s.inodes| && off <= s.inodes[i].size && tot + m <= |d| && off + |d| <= MAXBYTES
      requires s.sb == sb && i < |inodes| && Writing(s, View(), i, off, d, tot)
      requires 0 < m <= BSIZE - (off + tot) % BSIZE && addr != 0
      requires IsSlot(View(), i, DataPos((off + tot) / BSIZE))
      requires addr == Addr(View(), i, DataPos((off + tot) / BSIZE))
      modifies this`blocks
      ensures Writing(s, View(), i, off, d, tot + m) && Shape(View())
      ensures SameBut(old(blocks), blocks, {addr}) && Around(View(), i) == old(Around(View(), i))
      ensures KeepsSlots(old(View()), View(), i) && addr == Addr(View(), i, DataPos((off + tot) / BSIZE))
    {
      hide InRange, Unshared, BitmapExact, Addr, Mapped, Bytes, Splice, Content, Around;
      var p := off + tot;
      ghost var u := View();
      WritingGood(s, u, i, off, d, tot);
      assert At(u, i, p) == addr;
      WritingStores(s, u, i, off, d, tot, m);
      blocks := blocks[addr := Overlay(blocks[addr], p % BSIZE, d[tot..tot + m])];
      assert View() == Stored(u, i, p, d[tot..tot + m]);
      StoredKeepsGood(u, i, p, d[tot..tot + m]);
      AroundSame(u, View(), i);
    }
  }

  lemma WritingGood(s: Fs, t: Fs, i: nat, off: nat, d: seq<bv8>, tot: nat)
    requires FsOk(s) && i < |s.inodes| && off <= s.inodes[i].size && tot <= |d|
    requires Writing(s, t, i, off, d, tot)
    ensures Good(t) && t.sb == s.sb && |t.inodes| == |s.inodes|
  {}

  lemma WritingSize(s: Fs, t: Fs, i: nat, off: nat, d: seq<bv8>, tot: nat)
    requires FsOk(s) && i < |s.inodes| && off <= s.inodes[i].size && tot <= |d|
    requires Writing(s, t, i, off, d, tot)
    ensures Good(t) && t.sb == s.sb && |t.inodes| == |s.inodes| && t.inodes[i].size == s.inodes[i].size
    ensures t.inodes == t.inodes[i := t.inodes[i].(size := s.inodes[i].size)]
  {
    hide InRange, Unshared, BitmapExact, Mapped, Bytes, Splice, Content;
  }

  lemma ByteHasBlock(s: Fs, i: nat, p: nat)
    requires FsOk(s) && i < |s.inodes| && p < s.inodes[i].size
    ensures p < MAXBYTES && p / BSIZE < MAXFILE && IsSlot(s, i, DataPos(p / BSIZE))
    ensures Addr(s, i, DataPos(p / BSIZE)) != 0
  {
    hide Unshared, BitmapExact, Addr;
    assert Mapped(s, i, s.inodes[i].size);
    BlockOfByte(p);
    assert At(s, i, p) != 0;
  }

  /** A write that starts inside a block finds that block there. */
  lemma BegunBefore(s: Fs, i: nat, off: nat)
    requires FsOk(s) && i < |s.inodes| && off <= s.inodes[i].size && off % BSIZE != 0
    ensures off / BSIZE < MAXFILE && IsSlot(s, i, DataPos(off / BSIZE)) && Addr(s, i, DataPos(off / BSIZE)) != 0
  {
    hide Addr, Good, NoHoles;
    ByteHasBlock(s, i, off - 1);
    SameBlockLast(off - 1, 2);
  }

  /** A run of bytes inside one block is a slice of the file. */
  lemma ReadChunk(s: Fs, i: nat, p: nat, m: nat)
    requires FsOk(s) && i < |s.inodes| && p + m <= s.inodes[i].size && 0 < m && p % BSIZE + m <= BSIZE
    ensures p < MAXBYTES && At(s, i, p) < s.sb.size
    ensures At(s, i, p) == Addr(s, i, DataPos(p / BSIZE))
    ensures s.blocks[At(s, i, p)][p % BSIZE..p % BSIZE + m] == Content(s, i)[p..p + m]
  {
    hide InRange, Unshared, BitmapExact, Addr;
    assert Mapped(s, i, s.inodes[i].size);
    BlockOfByte(p);
    SameBlock(p, m);
    var c := Content(s, i);
    forall k | p <= k < p + m ensures c[k] == s.blocks[At(s, i, p)][p % BSIZE + (k - p)] {
      SameBlockAt(s, i, p, k);
    }
  }

  lemma SlotAddr(s: Fs, i: nat, q: nat)
    requires Shape(s) && i < |s.inodes| && q <= NDIRECT
    ensures IsSlot(s, i, q) && InodeShape(s.sb, s.inodes[i]) && Addr(s, i, q) == s.inodes[i].addrs[q]
  {}

  lemma EntryAddr(s: Fs, i: nat, j: nat)
    requires Shape(s) && i < |s.inodes| && j < NINDIRECT && Addr(s, i, NDIRECT) != 0
    ensures IsSlot(s, i, NDIRECT + 1 + j) && Addr(s, i, NDIRECT) < s.sb.size
    ensures Addr(s, i, NDIRECT + 1 + j) == GetWord(s.blocks[Addr(s, i, NDIRECT)], j)
  {
    hide GetWord;
    assert InodeShape(s.sb, s.inodes[i]);
  }

  lemma IndirectInRange(s: Fs, i: nat)
    requires Good(s) && i < |s.inodes| && Addr(s, i, NDIRECT) != 0
    ensures s.sb.dataStart <= Addr(s, i, NDIRECT) < s.sb.size
  {
    assert IsSlot(s, i, NDIRECT);
  }

  lemma NoIndirect(s: Fs, i: nat, q: nat)
    requires Shape(s) && i < |s.inodes| && NDIRECT <= q <= NDIRECT + NINDIRECT && s.inodes[i].addrs[NDIRECT] == 0
    ensures Addr(s, i, q) == 0
  {}

  lemma MarkedByte(bp: Block, b: nat, bi: nat, m: bv8)
    requires b % BPB == bi && b % 8 == bi % 8 && m == 1 << (bi % 8)
    ensures bp[bi / 8 := bp[bi / 8] | m] == MarkBit(bp, b, true)
    ensures bp[bi / 8 := bp[bi / 8] & !m] == MarkBit(bp, b, false)
  {}
}
