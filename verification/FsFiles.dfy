/** The bytes of a file, and what taking a block, storing bytes and truncating do to every file. */
module FsFiles {
  import opened Blocks
  import opened Words
  import opened FsState

  /** The slot that names block bn of a file. */
  function DataPos(bn: nat): (pos: nat)
    ensures pos != NDIRECT
  {
    if bn < NDIRECT then bn else bn + 1
  }

  const MAXBYTES: nat := MAXFILE * BSIZE

  lemma BlockOfByte(k: nat)
    requires k < MAXBYTES
    ensures k / BSIZE < MAXFILE && DataPos(k / BSIZE) <= NDIRECT + NINDIRECT
  {}

  /** The block that holds byte k of file i, or 0. */
  ghost function At(s: Fs, i: nat, k: nat): (a: nat)
    requires Shape(s) && InRange(s) && i < |s.inodes| && k < MAXBYTES
    ensures a < s.sb.size && (a != 0 ==> s.sb.dataStart <= a)
  {
    BlockOfByte(k);
    assert IsSlot(s, i, DataPos(k / BSIZE));
    Addr(s, i, DataPos(k / BSIZE))
  }

  /** The first n bytes of file i all have a block. */
  ghost predicate Mapped(s: Fs, i: nat, n: nat)
    requires Shape(s) && InRange(s) && i < |s.inodes|
  {
    n <= MAXBYTES && forall k :: 0 <= k < n ==> At(s, i, k) != 0
  }

  ghost function ByteAt(s: Fs, i: nat, k: nat): bv8
    requires Shape(s) && InRange(s) && i < |s.inodes| && k < MAXBYTES && At(s, i, k) != 0
  {
    BlockOfByte(k);
    s.blocks[At(s, i, k)][k % BSIZE]
  }

  ghost function Bytes(s: Fs, i: nat, n: nat): (c: seq<bv8>)
    requires Shape(s) && InRange(s) && i < |s.inodes| && Mapped(s, i, n)
    ensures |c| == n
  {
    seq(n, k requires 0 <= k < n => assert At(s, i, k) != 0; ByteAt(s, i, k))
  }

  /** No file has a hole below its size. */
  ghost predicate NoHoles(s: Fs)
    requires Shape(s) && InRange(s)
  {
    forall i :: 0 <= i < |s.inodes| ==> Mapped(s, i, s.inodes[i].size)
  }

  ghost predicate FsOk(s: Fs) {
    Good(s) && NoHoles(s)
  }

  ghost function Content(s: Fs, i: nat): (c: seq<bv8>)
    requires FsOk(s) && i < |s.inodes|
    ensures |c| == s.inodes[i].size
  {
    Bytes(s, i, s.inodes[i].size)
  }

  // ---- Keeping a file's bytes

  /** Two volumes in which file j has the same first n bytes in the same blocks. */
  lemma SameBytes(s: Fs, t: Fs, j: nat, n: nat)
    requires Shape(s) && InRange(s) && Shape(t) && InRange(t) && j < |s.inodes| && j < |t.inodes|
    requires t.sb == s.sb && Mapped(s, j, n)
    requires forall k :: 0 <= k < n ==> At(t, j, k) == At(s, j, k)
    requires forall k :: 0 <= k < n ==> t.blocks[At(s, j, k)] == s.blocks[At(s, j, k)]
    ensures Mapped(t, j, n) && Bytes(t, j, n) == Bytes(s, j, n)
  {
    hide At, InRange;
    forall k | 0 <= k < n ensures At(t, j, k) != 0 && ByteAt(t, j, k) == ByteAt(s, j, k) {
      assert At(t, j, k) == At(s, j, k);
    }
  }

  /** A data slot of one file names no other file's block and no indirect block. */
  lemma DataBlockApart(s: Fs, j: nat, k: nat, i: nat)
    requires Good(s) && j < |s.inodes| && i < |s.inodes| && k < MAXBYTES && At(s, j, k) != 0
    ensures s.sb.dataStart <= At(s, j, k) < s.sb.size
    ensures At(s, j, k) != Addr(s, i, NDIRECT)
    ensures forall l :: 0 <= l < MAXBYTES && At(s, i, l) == At(s, j, k) ==> i == j && l / BSIZE == k / BSIZE
  {
    hide Addr, BitmapExact;
    BlockOfByte(k);
    assert IsSlot(s, i, NDIRECT) && IsSlot(s, j, DataPos(k / BSIZE));
    forall l | 0 <= l < MAXBYTES && At(s, i, l) == At(s, j, k) ensures i == j && l / BSIZE == k / BSIZE {
      BlockOfByte(l);
      assert IsSlot(s, i, DataPos(l / BSIZE));
    }
  }

  /** Giving a slot a fresh block changes no byte of any file. */
  lemma AttachKeepsBytes(s: Fs, i: nat, pos: nat, a: nat, j: nat, n: nat)
    requires Good(s) && Free(s, a) && IsSlot(s, i, pos) && Addr(s, i, pos) == 0
    requires pos > NDIRECT ==> Addr(s, i, NDIRECT) != 0
    requires j < |s.inodes| && Mapped(s, j, n)
    ensures Good(Attached(s, i, pos, a))
    ensures Mapped(Attached(s, i, pos, a), j, n)
    ensures Bytes(Attached(s, i, pos, a), j, n) == Bytes(s, j, n)
  {
    hide Addr, Attached, Unshared, BitmapExact, InRange;
    AttachKeepsGood(s, i, pos, a);
    var t := Attached(s, i, pos, a);
    FreeIsUnowned(s, a);
    forall k | 0 <= k < n
      ensures At(t, j, k) == At(s, j, k) && t.blocks[At(s, j, k)] == s.blocks[At(s, j, k)]
    {
      BlockOfByte(k);
      AttachedAddr(s, i, pos, a, j, DataPos(k / BSIZE));
      DataBlockApart(s, j, k, i);
      AttachedBlocks(s, i, pos, a, At(s, j, k));
      assert IsSlot(s, j, DataPos(k / BSIZE));
    }
    SameBytes(s, t, j, n);
  }

  // ---- Storing bytes in a block

  /** `d` stored from byte `off` of file i on, inside one block. */
  ghost function Stored(s: Fs, i: nat, off: nat, d: seq<bv8>): (t: Fs)
    requires Good(s) && i < |s.inodes| && off < MAXBYTES && At(s, i, off) != 0
    requires off % BSIZE + |d| <= BSIZE
    ensures |t.blocks| == |s.blocks| && t.sb == s.sb && t.inodes == s.inodes
    ensures forall x :: 0 <= x < |s.blocks| && x != At(s, i, off) ==> t.blocks[x] == s.blocks[x]
  {
    DataBlockApart(s, i, off, i);
    var a := At(s, i, off);
    s.(blocks := s.blocks[a := Overlay(s.blocks[a], off % BSIZE, d)])
  }

  /** A block with `d` copied in at offset o. */
  function Overlay(b: Block, o: nat, d: seq<bv8>): (r: Block)
    requires o + |d| <= BSIZE
    ensures forall k :: 0 <= k < BSIZE ==> r[k] == if o <= k < o + |d| then d[k - o] else b[k]
  {
    b[..o] + d + b[o + |d|..]
  }

  /** Storing bytes moves no block, and keeps the ownership invariant. */
  lemma StoredKeepsGood(s: Fs, i: nat, off: nat, d: seq<bv8>)
    requires Good(s) && i < |s.inodes| && off < MAXBYTES && At(s, i, off) != 0 && off % BSIZE + |d| <= BSIZE
    ensures Good(Stored(s, i, off, d))
    ensures forall j, qos :: IsSlot(s, j, qos) ==> Addr(Stored(s, i, off, d), j, qos) == Addr(s, j, qos)
  {
    hide GetWord, Used, Stored, At;
    var t := Stored(s, i, off, d);
    assert Shape(t) by {
      forall k | 0 <= k < |t.inodes| ensures InodeShape(t.sb, t.inodes[k]) { assert InodeShape(s.sb, s.inodes[k]); }
    }
    forall j, q | IsSlot(s, j, q) ensures Addr(t, j, q) == Addr(s, j, q) {
      DataBlockApart(s, i, off, j);
      assert IsSlot(s, j, NDIRECT);
    }
    SameAddrsGood(s, t, i, off);
  }

  /** Nothing but the contents of a data block changed, and every slot reads the same. */
  lemma SameAddrsGood(s: Fs, t: Fs, i: nat, off: nat)
    requires Good(s) && Shape(t) && t.sb == s.sb && |t.inodes| == |s.inodes|
    requires i < |s.inodes| && off < MAXBYTES && At(s, i, off) != 0
    requires forall x :: 0 <= x < |s.blocks| && x != At(s, i, off) ==> t.blocks[x] == s.blocks[x]
    requires forall j, qos :: IsSlot(s, j, qos) ==> Addr(t, j, qos) == Addr(s, j, qos)
    ensures Good(t)
  {
    hide Addr, Used, At;
    DataBlockApart(s, i, off, i);
    assert forall j, qos :: IsSlot(s, j, qos) <==> IsSlot(t, j, qos);
    forall x | 0 <= x < s.sb.size
      ensures Used(t.sb, t.blocks, x) <==> x < t.sb.dataStart || Owned(t, x)
    {
      BitmapIgnoresData(s.sb, s.blocks, t.blocks, x);
      assert Owned(t, x) <==> Owned(s, x);
    }
  }

  /** Exactly the stored bytes change, and only in file i. */
  lemma StoredBytes(s: Fs, i: nat, off: nat, d: seq<bv8>, j: nat, k: nat)
    requires Good(s) && i < |s.inodes| && off < MAXBYTES && At(s, i, off) != 0 && off % BSIZE + |d| <= BSIZE
    requires j < |s.inodes| && k < MAXBYTES && At(s, j, k) != 0
    ensures Good(Stored(s, i, off, d)) && At(Stored(s, i, off, d), j, k) == At(s, j, k)
    ensures ByteAt(Stored(s, i, off, d), j, k) ==
            if j == i && off <= k < off + |d| then d[k - off] else ByteAt(s, j, k)
  {
    hide Addr, Unshared, BitmapExact, InRange;
    StoredKeepsGood(s, i, off, d);
    BlockOfByte(k);
    assert IsSlot(s, j, DataPos(k / BSIZE));
    DataBlockApart(s, i, off, j);
    DataBlockApart(s, j, k, i);
    if At(s, j, k) == At(s, i, off) {
      assert k / BSIZE == off / BSIZE && i == j;
    }
  }

  // ---- Growing a file

  /** t is s with, at most, block bn of file i and file i's indirect block newly provided: every other
      slot and every byte already in a file stay as they were. */
  ghost predicate Grown(s: Fs, t: Fs, i: nat, bn: nat) {
    && Good(s) && Good(t) && t.sb == s.sb && |t.inodes| == |s.inodes|
    && (forall j :: 0 <= j < |s.inodes| ==> t.inodes[j].size == s.inodes[j].size)
    && (forall j, q :: IsSlot(s, j, q) && (j != i || (q != DataPos(bn) && q != NDIRECT) || Addr(s, j, q) != 0)
          ==> Addr(t, j, q) == Addr(s, j, q))
    && (forall j, n :: 0 <= j < |s.inodes| && Mapped(s, j, n) ==> Mapped(t, j, n) && Bytes(t, j, n) == Bytes(s, j, n))
  }

  lemma GrownByAttach(s: Fs, i: nat, bn: nat, pos: nat, a: nat)
    requires Good(s) && Free(s, a) && IsSlot(s, i, pos) && Addr(s, i, pos) == 0
    requires pos > NDIRECT ==> Addr(s, i, NDIRECT) != 0
    requires pos == DataPos(bn) || pos == NDIRECT
    ensures Grown(s, Attached(s, i, pos, a), i, bn)
    ensures Addr(Attached(s, i, pos, a), i, pos) == a
  {
    hide InRange, Unshared, BitmapExact, Addr, Attached, Mapped, Bytes, Free;
    AttachKeepsGood(s, i, pos, a);
    var t := Attached(s, i, pos, a);
    forall j, q | IsSlot(s, j, q)
      ensures Addr(t, j, q) == if i == j && pos == q then a else Addr(s, j, q)
    {
      AttachedAddr(s, i, pos, a, j, q);
    }
    forall j, n | 0 <= j < |s.inodes| && Mapped(s, j, n)
      ensures Mapped(t, j, n) && Bytes(t, j, n) == Bytes(s, j, n)
    {
      AttachKeepsBytes(s, i, pos, a, j, n);
    }
  }

  lemma GrownRefl(s: Fs, i: nat, bn: nat)
    requires Good(s)
    ensures Grown(s, s, i, bn)
  {}

  lemma GrownTwice(s: Fs, t: Fs, u: Fs, i: nat, bn: nat)
    requires Grown(s, t, i, bn) && Grown(t, u, i, bn)
    ensures Grown(s, u, i, bn)
  {
    hide InRange, Unshared, BitmapExact, Addr, Mapped, Bytes;
    assert forall j, q :: IsSlot(s, j, q) <==> IsSlot(t, j, q);
  }

  // ---- Splicing a byte sequence

  /** `d` written over c from `off` on, extending it when it runs past the end. */
  function Splice(c: seq<bv8>, off: nat, d: seq<bv8>): (r: seq<bv8>)
    requires off <= |c|
    ensures |r| == if off + |d| > |c| then off + |d| else |c|
    ensures forall k :: 0 <= k < |r| ==> r[k] == if off <= k < off + |d| then d[k - off] else c[k]
  {
    c[..off] + d + if off + |d| < |c| then c[off + |d|..] else []
  }

  /** Reading a written range gives what was written, reading beside it gives what was there. */
  lemma SpliceReads(c: seq<bv8>, off: nat, d: seq<bv8>, lo: nat, hi: nat)
    requires off <= |c| && lo <= hi <= |Splice(c, off, d)|
    ensures lo == off && hi == off + |d| ==> Splice(c, off, d)[lo..hi] == d
    ensures hi <= off ==> Splice(c, off, d)[lo..hi] == c[lo..hi]
    ensures off + |d| <= lo && hi <= |c| ==> Splice(c, off, d)[lo..hi] == c[lo..hi]
  {
    hide Splice;
    var r := Splice(c, off, d);
    if lo == off && hi == off + |d| { assert r[lo..hi] == d; }
    if hi <= off { assert r[lo..hi] == c[lo..hi]; }
    if off + |d| <= lo && hi <= |c| { assert r[lo..hi] == c[lo..hi]; }
  }

  /** The length file i has once it holds `end` bytes. */
  function Reach(size: nat, end: nat): nat {
    if end > size then end else size
  }

  /** The first `tot` bytes of d are in file i from `off` on, and nothing else changed. */
  ghost predicate Writing(s: Fs, t: Fs, i: nat, off: nat, d: seq<bv8>, tot: nat)
    requires FsOk(s) && i < |s.inodes| && off <= s.inodes[i].size && tot <= |d|
  {
    && Good(t) && t.sb == s.sb && |t.inodes| == |s.inodes|
    && (forall j :: 0 <= j < |s.inodes| ==> t.inodes[j].size == s.inodes[j].size)
    && (forall j :: 0 <= j < |s.inodes| && j != i ==>
          Mapped(t, j, s.inodes[j].size) && Bytes(t, j, s.inodes[j].size) == Content(s, j))
    && var n := Reach(s.inodes[i].size, off + tot);
       Mapped(t, i, n) && Bytes(t, i, n) == Splice(Content(s, i), off, d[..tot])
  }

  lemma WritingStarts(s: Fs, i: nat, off: nat, d: seq<bv8>)
    requires FsOk(s) && i < |s.inodes| && off <= s.inodes[i].size
    ensures Writing(s, s, i, off, d, 0)
  {
    hide InRange, Unshared, BitmapExact, Mapped, Bytes;
    assert Splice(Content(s, i), off, d[..0]) == Content(s, i);
  }

  lemma WritingGrown(s: Fs, t: Fs, u: Fs, i: nat, off: nat, d: seq<bv8>, tot: nat, bn: nat)
    requires FsOk(s) && i < |s.inodes| && off <= s.inodes[i].size && tot <= |d|
    requires Writing(s, t, i, off, d, tot) && Grown(t, u, i, bn)
    ensures Writing(s, u, i, off, d, tot)
  {
    hide InRange, Unshared, BitmapExact, Addr, Mapped, Bytes, Splice, Content;
  }

  /** What one chunk stored at byte `at` does to the first n' bytes of file i. */
  lemma StoredPrefix(u: Fs, i: nat, n: nat, at: nat, c: seq<bv8>)
    requires Good(u) && i < |u.inodes| && Mapped(u, i, n) && at <= n
    requires at < MAXBYTES && At(u, i, at) != 0 && at % BSIZE + |c| <= BSIZE
    ensures var v, e := Stored(u, i, at, c), Reach(n, at + |c|);
            Good(v) && Mapped(v, i, e) && Bytes(v, i, e) == Splice(Bytes(u, i, n), at, c)
  {
    hide InRange, Unshared, BitmapExact, At, Stored, ByteAt, Splice;
    var v, e := Stored(u, i, at, c), Reach(n, at + |c|);
    StoredKeepsGood(u, i, at, c);
    SameBlock(at, |c|);
    forall k | 0 <= k < e
      ensures k < MAXBYTES && At(v, i, k) != 0
      ensures ByteAt(v, i, k) == if at <= k < at + |c| then c[k - at] else ByteAt(u, i, k)
    {
      if k >= n { SameBlockAt(u, i, at, k); }
      StoredBytes(u, i, at, c, i, k);
    }
    assert Bytes(v, i, e) == Splice(Bytes(u, i, n), at, c);
  }

  lemma SameBlock(at: nat, m: nat)
    requires at < MAXBYTES && at % BSIZE + m <= BSIZE
    ensures at + m <= MAXBYTES
    ensures forall k :: at <= k < at + m ==> k / BSIZE == at / BSIZE
  {}

  lemma SameBlockAt(u: Fs, i: nat, at: nat, k: nat)
    requires Shape(u) && InRange(u) && i < |u.inodes| && at < MAXBYTES && k < MAXBYTES
    requires at / BSIZE == k / BSIZE
    ensures At(u, i, k) == At(u, i, at)
  {}

  lemma SpliceOn(c: seq<bv8>, off: nat, d: seq<bv8>, tot: nat, m: nat)
    requires off <= |c| && tot + m <= |d|
    ensures Splice(Splice(c, off, d[..tot]), off + tot, d[tot..tot + m]) == Splice(c, off, d[..tot + m])
  {
    hide Splice;
    var a := Splice(Splice(c, off, d[..tot]), off + tot, d[tot..tot + m]);
    var b := Splice(c, off, d[..tot + m]);
    assert |a| == |b|;
    assert forall k :: 0 <= k < |a| ==> a[k] == b[k];
  }

  /** One chunk more. */
  lemma WritingStores(s: Fs, u: Fs, i: nat, off: nat, d: seq<bv8>, tot: nat, m: nat)
    requires FsOk(s) && i < |s.inodes| && off <= s.inodes[i].size && tot + m <= |d|
    requires Writing(s, u, i, off, d, tot)
    requires off + tot < MAXBYTES && At(u, i, off + tot) != 0 && (off + tot) % BSIZE + m <= BSIZE
    ensures Writing(s, Stored(u, i, off + tot, d[tot..tot + m]), i, off, d, tot + m)
  {
    hide InRange, Unshared, BitmapExact, Addr, At, Mapped, Bytes, Splice, Stored, Content;
    var v := Stored(u, i, off + tot, d[tot..tot + m]);
    StoredKeepsGood(u, i, off + tot, d[tot..tot + m]);
    StoredPrefix(u, i, Reach(s.inodes[i].size, off + tot), off + tot, d[tot..tot + m]);
    SpliceOn(Content(s, i), off, d, tot, m);
    forall j | 0 <= j < |s.inodes| && j != i
      ensures Mapped(v, j, s.inodes[j].size) && Bytes(v, j, s.inodes[j].size) == Content(s, j)
    {
      StoredElsewhere(u, i, off + tot, d[tot..tot + m], j, s.inodes[j].size);
    }
  }

  lemma StoredElsewhere(u: Fs, i: nat, at: nat, c: seq<bv8>, j: nat, n: nat)
    requires Good(u) && i < |u.inodes| && j < |u.inodes| && j != i && Mapped(u, j, n)
    requires at < MAXBYTES && At(u, i, at) != 0 && at % BSIZE + |c| <= BSIZE
    ensures Good(Stored(u, i, at, c)) && Mapped(Stored(u, i, at, c), j, n)
    ensures Bytes(Stored(u, i, at, c), j, n) == Bytes(u, j, n)
  {
    hide InRange, Unshared, BitmapExact, At, Stored, ByteAt;
    StoredKeepsGood(u, i, at, c);
    forall k | 0 <= k < n
      ensures At(Stored(u, i, at, c), j, k) != 0 && ByteAt(Stored(u, i, at, c), j, k) == ByteAt(u, j, k)
    {
      StoredBytes(u, i, at, c, j, k);
    }
    assert Bytes(Stored(u, i, at, c), j, n) == Bytes(u, j, n);
  }

  /** Setting the size at the end of a write makes the spliced bytes the file's content. */
  lemma WritingEnds(s: Fs, t: Fs, i: nat, off: nat, d: seq<bv8>, tot: nat)
    requires FsOk(s) && i < |s.inodes| && off <= s.inodes[i].size && tot <= |d|
    requires Writing(s, t, i, off, d, tot)
    ensures var ip := t.inodes[i].(size := Reach(s.inodes[i].size, off + tot));
            var u := t.(inodes := t.inodes[i := ip]);
            && FsOk(u) && Content(u, i) == Splice(Content(s, i), off, d[..tot])
            && forall j :: 0 <= j < |s.inodes| && j != i ==> Content(u, j) == Content(s, j)
  {
    hide InRange, Unshared, BitmapExact, Mapped, Bytes, Splice;
    var n := Reach(s.inodes[i].size, off + tot);
    var u := t.(inodes := t.inodes[i := t.inodes[i].(size := n)]);
    ResizeKeeps(t, i, n, i, n);
    forall j | 0 <= j < |s.inodes| && j != i
      ensures Mapped(u, j, s.inodes[j].size) && Bytes(u, j, s.inodes[j].size) == Content(s, j)
    {
      ResizeKeeps(t, i, n, j, s.inodes[j].size);
    }
  }

  /** The size field matters to no address and no byte. */
  lemma ResizeKeeps(t: Fs, i: nat, size: nat, j: nat, n: nat)
    requires Good(t) && i < |t.inodes| && j < |t.inodes| && Mapped(t, j, n)
    ensures var u := t.(inodes := t.inodes[i := t.inodes[i].(size := size)]);
            Good(u) && Mapped(u, j, n) && Bytes(u, j, n) == Bytes(t, j, n)
  {
    hide GetWord, Used;
    var u := t.(inodes := t.inodes[i := t.inodes[i].(size := size)]);
    assert Shape(u) by {
      forall k | 0 <= k < |u.inodes| ensures InodeShape(u.sb, u.inodes[k]) { assert InodeShape(t.sb, t.inodes[k]); }
    }
    SameSlotsGood(t, u);
    SameBytes(t, u, j, n);
  }

  lemma SameSlotsGood(t: Fs, u: Fs)
    requires Good(t) && Shape(u) && u.sb == t.sb && u.blocks == t.blocks && |u.inodes| == |t.inodes|
    requires forall j :: 0 <= j < |t.inodes| ==> u.inodes[j].addrs == t.inodes[j].addrs
    ensures Good(u)
    ensures forall j, q :: IsSlot(t, j, q) ==> Addr(u, j, q) == Addr(t, j, q)
  {
    hide GetWord, Used;
    assert forall j, q :: IsSlot(t, j, q) <==> IsSlot(u, j, q);
    forall j, q | IsSlot(t, j, q) ensures Addr(u, j, q) == Addr(t, j, q) {}
    SameOwners(t, u);
  }

  lemma SameOwners(t: Fs, u: Fs)
    requires Good(t) && Shape(u) && u.sb == t.sb && u.blocks == t.blocks && |u.inodes| == |t.inodes|
    requires forall j, q :: IsSlot(t, j, q) ==> Addr(u, j, q) == Addr(t, j, q)
    ensures Good(u)
  {
    hide Addr, Used;
    assert forall j, q :: IsSlot(t, j, q) <==> IsSlot(u, j, q);
    forall x ensures Owned(t, x) <==> Owned(u, x) {}
  }

  // ---- Truncation

  function EmptyInode(): Inode {
    Inode(seq(NDIRECT + 1, _ => 0), 0)
  }

  /** A volume of empty files with only its metadata marked, as mkfs leaves it, satisfies everything. */
  lemma FreshVolume(s: Fs)
    requires SuperOk(s.sb) && |s.blocks| == s.sb.size
    requires forall i :: 0 <= i < |s.inodes| ==> s.inodes[i] == EmptyInode()
    requires forall x :: 0 <= x < s.sb.size ==> (Used(s.sb, s.blocks, x) <==> x < s.sb.dataStart)
    ensures FsOk(s)
  {
    hide Used;
    EmptyIsGood(s);
    forall i | 0 <= i < |s.inodes| ensures Mapped(s, i, 0) { MappedNone(s, i); }
  }

  /** t is s with inode i emptied and exactly its blocks released. */
  ghost predicate Truncated(s: Fs, t: Fs, i: nat)
    requires Shape(s) && i < |s.inodes|
  {
    && t.sb == s.sb && |t.blocks| == |s.blocks| && t.inodes == s.inodes[i := EmptyInode()]
    && (forall x :: s.sb.dataStart <= x < s.sb.size ==> t.blocks[x] == s.blocks[x])
    && forall x :: 0 <= x < s.sb.size ==>
         (Used(s.sb, t.blocks, x) <==> Used(s.sb, s.blocks, x) && !OwnedBy(s, i, x))
  }

  lemma TruncatedAddr(s: Fs, t: Fs, i: nat, j: nat, q: nat)
    requires Good(s) && i < |s.inodes| && Truncated(s, t, i) && IsSlot(s, j, q)
    ensures Shape(t) && Addr(t, j, q) == if j == i then 0 else Addr(s, j, q)
  {
    hide GetWord, Used, BitmapExact;
    assert Shape(t) by {
      forall k | 0 <= k < |t.inodes| ensures InodeShape(t.sb, t.inodes[k]) {
        if k != i { assert InodeShape(s.sb, s.inodes[k]); }
      }
    }
    assert IsSlot(s, j, NDIRECT);
  }

  lemma MappedNone(s: Fs, i: nat)
    requires Shape(s) && InRange(s) && i < |s.inodes|
    ensures Mapped(s, i, 0)
  {}

  /** Truncation keeps the ownership invariant, empties its file and leaves every other file alone. */
  lemma TruncateKeeps(s: Fs, t: Fs, i: nat)
    requires FsOk(s) && i < |s.inodes| && Truncated(s, t, i)
    ensures FsOk(t) && Content(t, i) == []
    ensures forall j :: 0 <= j < |s.inodes| && j != i ==> Content(t, j) == Content(s, j)
  {
    hide Addr, Used, Mapped, Bytes;
    TruncatedAddr(s, t, i, i, 0);
    forall j, q | IsSlot(s, j, q) ensures Addr(t, j, q) == if j == i then 0 else Addr(s, j, q) {
      TruncatedAddr(s, t, i, j, q);
    }
    assert forall j, q :: IsSlot(s, j, q) <==> IsSlot(t, j, q);
    TruncateKeepsGood(s, t, i);
    forall j | 0 <= j < |s.inodes| && j != i
      ensures Mapped(t, j, s.inodes[j].size) && Bytes(t, j, s.inodes[j].size) == Content(s, j)
    {
      TruncateKeepsBytes(s, t, i, j, s.inodes[j].size);
    }
    assert Mapped(t, i, 0) by { MappedNone(t, i); }
  }

  lemma TruncateKeepsGood(s: Fs, t: Fs, i: nat)
    requires Good(s) && i < |s.inodes| && Truncated(s, t, i) && Shape(t)
    requires forall j, q :: IsSlot(s, j, q) ==> Addr(t, j, q) == if j == i then 0 else Addr(s, j, q)
    ensures Good(t)
  {
    hide Addr, Used;
    assert forall j, q :: IsSlot(s, j, q) <==> IsSlot(t, j, q);
    forall x | 0 <= x < s.sb.size
      ensures Used(t.sb, t.blocks, x) <==> x < t.sb.dataStart || Owned(t, x)
    {
      OwnersAfter(s, t, i, x);
    }
  }

  /** A block is still owned exactly when it was owned by another inode. */
  lemma OwnersAfter(s: Fs, t: Fs, i: nat, x: nat)
    requires Good(s) && i < |s.inodes| && Shape(t) && |t.inodes| == |s.inodes| && x < s.sb.size
    requires forall j, q :: IsSlot(s, j, q) ==> Addr(t, j, q) == if j == i then 0 else Addr(s, j, q)
    ensures OwnedBy(s, i, x) ==> s.sb.dataStart <= x && !Owned(t, x)
    ensures s.sb.dataStart <= x && Owned(s, x) && !OwnedBy(s, i, x) ==> Owned(t, x)
    ensures s.sb.dataStart <= x && Owned(t, x) ==> Owned(s, x)
  {
    hide Addr, Used, BitmapExact;
    assert forall j, q :: IsSlot(s, j, q) <==> IsSlot(t, j, q);
    if OwnedBy(s, i, x) {
      var p :| IsSlot(s, i, p) && Addr(s, i, p) == x;
      forall j, q | IsSlot(t, j, q) ensures Addr(t, j, q) != x {
        if j != i { assert Addr(s, j, q) != Addr(s, i, p); }
      }
    }
    if Owned(s, x) && !OwnedBy(s, i, x) && s.sb.dataStart <= x {
      var j, q :| IsSlot(s, j, q) && Addr(s, j, q) == x;
      assert IsSlot(t, j, q) && Addr(t, j, q) == x;
    }
    if Owned(t, x) && s.sb.dataStart <= x {
      var j, q :| IsSlot(t, j, q) && Addr(t, j, q) == x;
      assert IsSlot(s, j, q) && Addr(s, j, q) == x;
    }
  }

  lemma TruncateKeepsBytes(s: Fs, t: Fs, i: nat, j: nat, n: nat)
    requires Good(s) && Good(t) && i < |s.inodes| && Truncated(s, t, i) && j < |s.inodes| && j != i
    requires forall q :: IsSlot(s, j, q) ==> Addr(t, j, q) == Addr(s, j, q)
    requires Mapped(s, j, n)
    ensures Mapped(t, j, n) && Bytes(t, j, n) == Bytes(s, j, n)
  {
    hide Addr, Used, Unshared, BitmapExact;
    forall k | 0 <= k < n ensures At(t, j, k) == At(s, j, k) && At(s, j, k) != 0 {
      BlockOfByte(k);
      assert IsSlot(s, j, DataPos(k / BSIZE));
    }
    SameBytes(s, t, j, n);
  }

  /** One of the slots in seen names block x. */
  ghost predicate NamedFrom(s: Fs, i: nat, seen: set<nat>, x: nat)
    requires Shape(s)
  {
    x != 0 && exists q :: q in seen && IsSlot(s, i, q) && Addr(s, i, q) == x
  }

  /** The blocks with the bits cleared of everything the slots in seen name. */
  ghost predicate Released(s: Fs, i: nat, blocks: seq<Block>, seen: set<nat>)
    requires Shape(s)
  {
    && |blocks| == |s.blocks|
    && (forall x :: s.sb.dataStart <= x < s.sb.size ==> blocks[x] == s.blocks[x])
    && forall x :: 0 <= x < s.sb.size ==>
         (Used(s.sb, blocks, x) <==> Used(s.sb, s.blocks, x) && !NamedFrom(s, i, seen, x))
  }

  /** The next slot's block is still marked, and clearing its bit releases it and no other. */
  lemma ReleaseStep(s: Fs, i: nat, blocks: seq<Block>, seen: set<nat>, q: nat)
    requires Good(s) && IsSlot(s, i, q) && q !in seen && Released(s, i, blocks, seen)
    ensures Addr(s, i, q) == 0 ==> Released(s, i, blocks, seen + {q})
    ensures Addr(s, i, q) != 0 ==> Addr(s, i, q) < s.sb.size && Used(s.sb, blocks, Addr(s, i, q))
    ensures Addr(s, i, q) != 0 ==> Released(s, i, Mark(s.sb, blocks, Addr(s, i, q), false), seen + {q})
  {
    hide Addr, Used, Mark, MarkBit;
    var a := Addr(s, i, q);
    forall x ensures NamedFrom(s, i, seen + {q}, x) <==> NamedFrom(s, i, seen, x) || (x != 0 && x == a) {}
    if a != 0 {
      assert Owned(s, a);
      assert !NamedFrom(s, i, seen, a);
      var after := Mark(s.sb, blocks, a, false);
      forall x | 0 <= x < s.sb.size
        ensures Used(s.sb, after, x) <==> if x == a then false else Used(s.sb, blocks, x)
      {
        MarkChangesOneBit(s.sb, blocks, a, false, x);
      }
      MarkKeepsData(s.sb, blocks, a, false);
    }
  }

  lemma MarkKeepsData(sb: Super, blocks: seq<Block>, a: nat, on: bool)
    requires SuperOk(sb) && |blocks| == sb.size && a < sb.size
    ensures forall x :: sb.dataStart <= x < sb.size ==> Mark(sb, blocks, a, on)[x] == blocks[x]
  {
    BitBlockRange(sb, a);
  }

  lemma ReleasedNone(s: Fs, i: nat)
    requires Shape(s)
    ensures Released(s, i, s.blocks, {})
  {}

  lemma ReleasedAll(s: Fs, i: nat, blocks: seq<Block>, seen: set<nat>)
    requires Good(s) && i < |s.inodes| && Released(s, i, blocks, seen)
    requires forall q :: 0 <= q <= NDIRECT + NINDIRECT && q !in seen ==> Addr(s, i, q) == 0
    ensures Truncated(s, Fs(s.sb, blocks, s.inodes[i := EmptyInode()]), i)
  {
    hide Addr, Used, InRange, Unshared, BitmapExact;
    forall x ensures NamedFrom(s, i, seen, x) <==> OwnedBy(s, i, x) {}
  }
}
