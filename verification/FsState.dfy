/** File blocks on disk: the free bitmap, the block map of each inode, who owns which block, and the
    bytes of a file. */
module FsState {
  import opened Blocks
  import opened Words

  const NDIRECT: nat := 12
  const NINDIRECT: nat := WORDS
  const MAXFILE: nat := NDIRECT + NINDIRECT
  /** Bitmap bits per block. */
  const BPB: nat := BSIZE * 8

  /** Blocks below `dataStart` are metadata, the bitmap among them. */
  datatype Super = Super(size: nat, bmapStart: nat, dataStart: nat)

  /** The first NDIRECT addresses are data blocks, the last one is the indirect block; 0 is none. */
  datatype Inode = Inode(addrs: seq<nat>, size: nat)

  datatype Fs = Fs(sb: Super, blocks: seq<Block>, inodes: seq<Inode>)

  predicate SuperOk(sb: Super) {
    && 1 <= sb.dataStart <= sb.size < WORD_RANGE
    && sb.bmapStart + sb.size / BPB < sb.dataStart
  }

  ghost predicate Shape(s: Fs) {
    && SuperOk(s.sb) && |s.blocks| == s.sb.size
    && forall i :: 0 <= i < |s.inodes| ==> InodeShape(s.sb, s.inodes[i])
  }

  ghost predicate InodeShape(sb: Super, ip: Inode) {
    |ip.addrs| == NDIRECT + 1 && forall k :: 0 <= k <= NDIRECT ==> ip.addrs[k] < sb.size
  }

  // ---- The bitmap

  /** Block of the free map that holds the bit for block b. */
  function BitBlock(sb: Super, b: nat): nat {
    b / BPB + sb.bmapStart
  }

  lemma BitBlockRange(sb: Super, b: nat)
    requires SuperOk(sb) && b < sb.size
    ensures BitBlock(sb, b) < sb.dataStart && b % BPB / 8 < BSIZE && b % BPB % 8 == b % 8
  {
    assert b / BPB <= sb.size / BPB;
  }

  /** The bitmap marks block b as in use. */
  predicate Used(sb: Super, blocks: seq<Block>, b: nat)
    requires SuperOk(sb) && |blocks| == sb.size && b < sb.size
  {
    BitBlockRange(sb, b);
    Bit(blocks[BitBlock(sb, b)][b % BPB / 8], b % 8)
  }

  /** The bitmap block after setting or clearing the bit for b. */
  function MarkBit(blk: Block, b: nat, on: bool): Block {
    var k := b % BPB / 8;
    var m: bv8 := 1 << (b % 8);
    blk[k := if on then blk[k] | m else blk[k] & !m]
  }

  function Mark(sb: Super, blocks: seq<Block>, b: nat, on: bool): (r: seq<Block>)
    requires SuperOk(sb) && |blocks| == sb.size && b < sb.size
    ensures |r| == |blocks|
  {
    BitBlockRange(sb, b);
    blocks[BitBlock(sb, b) := MarkBit(blocks[BitBlock(sb, b)], b, on)]
  }

  lemma BitIndex(b: nat, x: nat)
    ensures b == x <==> b / BPB == x / BPB && b % BPB / 8 == x % BPB / 8 && b % 8 == x % 8
  {
    BitParts(b);
    BitParts(x);
  }

  lemma BitParts(b: nat)
    ensures b == b / BPB * BPB + b % BPB / 8 * 8 + b % 8
  {
    assert b % BPB % 8 == b % 8;
  }

  /** Marking one block changes its bit and no other. */
  lemma MarkChangesOneBit(sb: Super, blocks: seq<Block>, b: nat, on: bool, x: nat)
    requires SuperOk(sb) && |blocks| == sb.size && b < sb.size && x < sb.size
    ensures Used(sb, Mark(sb, blocks, b, on), x) <==> if x == b then on else Used(sb, blocks, x)
  {
    hide Bit, MarkBit;
    BitBlockRange(sb, b);
    BitBlockRange(sb, x);
    BitIndex(b, x);
    MarkBitInBlock(blocks[BitBlock(sb, b)], b, on, x);
  }

  lemma MarkBitInBlock(blk: Block, b: nat, on: bool, x: nat)
    ensures var same := b % BPB / 8 == x % BPB / 8 && b % 8 == x % 8;
            Bit(MarkBit(blk, b, on)[x % BPB / 8], x % 8) <==> if same then on else Bit(blk[x % BPB / 8], x % 8)
  {
    hide Bit;
    SetAndClearBit(blk[b % BPB / 8], b % 8, x % 8);
  }

  /** The bitmap lives below `dataStart`. */
  lemma BitmapIgnoresData(sb: Super, a: seq<Block>, b: seq<Block>, x: nat)
    requires SuperOk(sb) && |a| == sb.size && |b| == sb.size && x < sb.size
    requires forall k :: 0 <= k < sb.dataStart ==> a[k] == b[k]
    ensures Used(sb, a, x) <==> Used(sb, b, x)
  {
    BitBlockRange(sb, x);
  }

  // ---- Who owns which block

  /** A place in inode i that can name a block: 0..NDIRECT-1 direct, NDIRECT the indirect block, and
      from NDIRECT+1 on the entries of the indirect block. */
  predicate IsSlot(s: Fs, i: nat, pos: nat) {
    i < |s.inodes| && pos <= NDIRECT + NINDIRECT
  }

  /** The block number a slot holds, or 0. */
  ghost function Addr(s: Fs, i: nat, pos: nat): nat
    requires Shape(s) && IsSlot(s, i, pos)
  {
    var addrs := s.inodes[i].addrs;
    assert InodeShape(s.sb, s.inodes[i]);
    if pos <= NDIRECT then addrs[pos]
    else if addrs[NDIRECT] == 0 then 0
    else GetWord(s.blocks[addrs[NDIRECT]], pos - NDIRECT - 1)
  }

  ghost predicate Owned(s: Fs, x: nat)
    requires Shape(s)
  {
    exists i, pos :: IsSlot(s, i, pos) && Addr(s, i, pos) == x
  }

  /** Inode i names block x, directly or through its indirect block. */
  ghost predicate OwnedBy(s: Fs, i: nat, x: nat)
    requires Shape(s)
  {
    x != 0 && exists pos :: IsSlot(s, i, pos) && Addr(s, i, pos) == x
  }

  /** Every named block is a data block. */
  ghost predicate InRange(s: Fs)
    requires Shape(s)
  {
    forall i, pos :: IsSlot(s, i, pos) && Addr(s, i, pos) != 0 ==> s.sb.dataStart <= Addr(s, i, pos) < s.sb.size
  }

  /** No two slots name the same block. */
  ghost predicate Unshared(s: Fs)
    requires Shape(s)
  {
    forall i, pos, j, qos |
      IsSlot(s, i, pos) && IsSlot(s, j, qos) && Addr(s, i, pos) != 0 && Addr(s, i, pos) == Addr(s, j, qos)
      :: i == j && pos == qos
  }

  /** The bitmap marks the metadata and the named blocks, and nothing else. */
  ghost predicate BitmapExact(s: Fs)
    requires Shape(s)
  {
    forall x :: 0 <= x < s.sb.size ==> (Used(s.sb, s.blocks, x) <==> x < s.sb.dataStart || Owned(s, x))
  }

  ghost predicate Good(s: Fs) {
    Shape(s) && InRange(s) && Unshared(s) && BitmapExact(s)
  }

  /** A volume on which no inode names a block and only metadata is marked. */
  lemma EmptyIsGood(s: Fs)
    requires Shape(s)
    requires forall i, k | 0 <= i < |s.inodes| && 0 <= k <= NDIRECT :: s.inodes[i].addrs[k] == 0
    requires forall x :: 0 <= x < s.sb.size ==> (Used(s.sb, s.blocks, x) <==> x < s.sb.dataStart)
    ensures Good(s)
  {
    forall i, pos | IsSlot(s, i, pos) ensures Addr(s, i, pos) == 0 {}
  }

  // ---- Naming one more block

  /** Slot (i, pos) made to hold `a`. */
  ghost function SetAddr(s: Fs, i: nat, pos: nat, a: nat): Fs
    requires Shape(s) && IsSlot(s, i, pos) && a < s.sb.size
    requires pos > NDIRECT ==> Addr(s, i, NDIRECT) != 0
  {
    assert InodeShape(s.sb, s.inodes[i]);
    var ip := s.inodes[i];
    if pos <= NDIRECT then s.(inodes := s.inodes[i := ip.(addrs := ip.addrs[pos := a])])
    else
      var ind := ip.addrs[NDIRECT];
      s.(blocks := s.blocks[ind := SetWord(s.blocks[ind], pos - NDIRECT - 1, a)])
  }

  /** Naming one more block leaves every other slot alone; a new indirect block must be blank. */
  lemma SetAddrEffect(s: Fs, i: nat, pos: nat, a: nat, j: nat, qos: nat)
    requires Shape(s) && InRange(s) && Unshared(s)
    requires IsSlot(s, i, pos) && IsSlot(s, j, qos) && 0 < a < s.sb.size
    requires Addr(s, i, pos) == 0 && s.blocks[a] == Zero()
    requires pos > NDIRECT ==> Addr(s, i, NDIRECT) != 0
    ensures Shape(SetAddr(s, i, pos, a))
    ensures Addr(SetAddr(s, i, pos, a), j, qos) == if i == j && pos == qos then a else Addr(s, j, qos)
  {
    hide GetWord, SetWord, Zero;
    var t := SetAddr(s, i, pos, a);
    assert InodeShape(s.sb, s.inodes[i]) && InodeShape(s.sb, s.inodes[j]);
    assert Shape(t) by {
      forall k | 0 <= k < |t.inodes| ensures InodeShape(t.sb, t.inodes[k]) { assert InodeShape(s.sb, s.inodes[k]); }
    }
    if pos > NDIRECT && qos > NDIRECT && Addr(s, j, NDIRECT) != 0 {
      GetSetWord(s.blocks[Addr(s, i, NDIRECT)], pos - NDIRECT - 1, a, qos - NDIRECT - 1);
    }
    if pos == NDIRECT && qos > NDIRECT {
      ZeroWords(qos - NDIRECT - 1);
    }
  }

  /** Block `a` marked in use and zeroed. */
  ghost function Allocated(s: Fs, a: nat): (t: Fs)
    requires Shape(s) && a < s.sb.size
    ensures Shape(t)
  {
    var t := s.(blocks := Mark(s.sb, s.blocks, a, true)[a := Zero()]);
    assert forall k :: 0 <= k < |t.inodes| ==> InodeShape(s.sb, s.inodes[k]);
    t
  }

  ghost predicate Free(s: Fs, a: nat)
    requires Shape(s)
  {
    0 < a < s.sb.size && !Used(s.sb, s.blocks, a)
  }

  /** A free block is a data block that no slot names. */
  lemma FreeIsUnowned(s: Fs, a: nat)
    requires Good(s) && Free(s, a)
    ensures s.sb.dataStart <= a
    ensures forall j, qos :: IsSlot(s, j, qos) ==> Addr(s, j, qos) != a
  {
    hide Used, Addr;
    assert !Owned(s, a);
  }

  lemma AllocatedFrame(s: Fs, a: nat, j: nat, qos: nat)
    requires Good(s) && Free(s, a) && IsSlot(s, j, qos)
    ensures Addr(Allocated(s, a), j, qos) == Addr(s, j, qos)
  {
    hide GetWord, Used, MarkBit, Zero;
    FreeIsUnowned(s, a);
    BitBlockRange(s.sb, a);
    assert IsSlot(s, j, NDIRECT) && Addr(s, j, NDIRECT) == s.inodes[j].addrs[NDIRECT];
  }

  /** A free block taken and stored in an empty slot. */
  ghost function Attached(s: Fs, i: nat, pos: nat, a: nat): (t: Fs)
    requires Good(s) && Free(s, a) && IsSlot(s, i, pos)
    requires pos > NDIRECT ==> Addr(s, i, NDIRECT) != 0
    ensures t.sb == s.sb && |t.blocks| == |s.blocks| && |t.inodes| == |s.inodes|
    ensures forall j :: 0 <= j < |s.inodes| ==> t.inodes[j].size == s.inodes[j].size
  {
    assert pos > NDIRECT ==> Addr(Allocated(s, a), i, NDIRECT) != 0 by { AllocatedFrame(s, a, i, NDIRECT); }
    SetAddr(Allocated(s, a), i, pos, a)
  }

  lemma AttachedAddr(s: Fs, i: nat, pos: nat, a: nat, j: nat, qos: nat)
    requires Good(s) && Free(s, a) && IsSlot(s, i, pos) && IsSlot(s, j, qos) && Addr(s, i, pos) == 0
    requires pos > NDIRECT ==> Addr(s, i, NDIRECT) != 0
    ensures Shape(Attached(s, i, pos, a))
    ensures Addr(Attached(s, i, pos, a), j, qos) == if i == j && pos == qos then a else Addr(s, j, qos)
  {
    hide GetWord, SetWord, Used, Mark, Zero, Addr;
    var u := Allocated(s, a);
    forall k, p | IsSlot(u, k, p) ensures Addr(u, k, p) == Addr(s, k, p) { AllocatedFrame(s, a, k, p); }
    SetAddrEffect(u, i, pos, a, j, qos);
  }

  /** Outside the new block and the indirect block that names it, no data block changes; the new
      block is blank. */
  lemma AttachedBlocks(s: Fs, i: nat, pos: nat, a: nat, x: nat)
    requires Good(s) && Free(s, a) && IsSlot(s, i, pos) && Addr(s, i, pos) == 0
    requires pos > NDIRECT ==> Addr(s, i, NDIRECT) != 0
    requires s.sb.dataStart <= x < s.sb.size && x != Addr(s, i, NDIRECT)
    ensures Attached(s, i, pos, a).blocks[x] == if x == a then Zero() else s.blocks[x]
  {
    hide GetWord, SetWord, Used, MarkBit, Zero;
    AllocatedFrame(s, a, i, NDIRECT);
    BitBlockRange(s.sb, a);
  }

  lemma AttachedUsed(s: Fs, i: nat, pos: nat, a: nat, x: nat)
    requires Good(s) && Free(s, a) && IsSlot(s, i, pos) && Addr(s, i, pos) == 0 && x < s.sb.size
    requires pos > NDIRECT ==> Addr(s, i, NDIRECT) != 0
    ensures Used(s.sb, Attached(s, i, pos, a).blocks, x) <==> x == a || Used(s.sb, s.blocks, x)
  {
    hide GetWord, SetWord, Used, Mark, Zero;
    FreeIsUnowned(s, a);
    AllocatedFrame(s, a, i, NDIRECT);
    MarkChangesOneBit(s.sb, s.blocks, a, true, x);
    assert IsSlot(s, i, NDIRECT);
    BitmapIgnoresData(s.sb, Mark(s.sb, s.blocks, a, true), Attached(s, i, pos, a).blocks, x);
  }

  /** Naming a free block keeps the ownership invariant. */
  lemma AttachKeepsGood(s: Fs, i: nat, pos: nat, a: nat)
    requires Good(s) && Free(s, a) && IsSlot(s, i, pos) && Addr(s, i, pos) == 0
    requires pos > NDIRECT ==> Addr(s, i, NDIRECT) != 0
    ensures Good(Attached(s, i, pos, a))
  {
    hide Addr, Used, Attached, Allocated, SetAddr;
    AttachedAddr(s, i, pos, a, i, pos);
    var t := Attached(s, i, pos, a);
    forall j, q | IsSlot(s, j, q)
      ensures Addr(t, j, q) == if i == j && pos == q then a else Addr(s, j, q)
    {
      AttachedAddr(s, i, pos, a, j, q);
    }
    FreeIsUnowned(s, a);
    forall x | 0 <= x < s.sb.size
      ensures Used(t.sb, t.blocks, x) <==> x < t.sb.dataStart || Owned(t, x)
    {
      AttachedUsed(s, i, pos, a, x);
      assert Owned(t, x) || Owned(s, x) ==> x == a || x == 0 || (Owned(t, x) <==> Owned(s, x));
      assert IsSlot(t, i, pos);
    }
  }
}
