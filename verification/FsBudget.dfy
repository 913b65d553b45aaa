/** How many blocks a write to a file logs: what filewrite's chunk size is chosen for. */
module FsBudget {
  import opened Blocks
  import opened FsState
  import opened FsFiles

  ghost predicate SameBut(was: seq<Block>, now: seq<Block>, touched: set<nat>) {
    |was| == |now| && forall b :: 0 <= b < |was| && b !in touched ==> now[b] == was[b]
  }

  /** The inode's indirect block and the bitmap block that marks it. */
  ghost function Around(s: Fs, i: nat): set<nat>
    requires Shape(s) && i < |s.inodes|
  {
    var x := Addr(s, i, NDIRECT);
    if x == 0 then {} else {x, BitBlock(s.sb, x)}
  }

  lemma AroundSize(s: Fs, i: nat)
    requires Shape(s) && i < |s.inodes|
    ensures |Around(s, i)| <= 2
  {
    hide Addr;
  }

  /** Taking a free block changes its bitmap block and itself. */
  lemma AllocatedBlocks(s: Fs, a: nat)
    requires Shape(s) && a < s.sb.size
    ensures SameBut(s.blocks, Allocated(s, a).blocks, {a, BitBlock(s.sb, a)})
  {
    hide MarkBit;
  }

  /** Changes in two steps, the first with no more around it than the second. */
  lemma SameButTwice(a: seq<Block>, b: seq<Block>, c: seq<Block>, x: set<nat>, y: set<nat>, z: set<nat>)
    requires SameBut(a, b, x) && SameBut(b, c, y) && x <= z && y <= z
    ensures SameBut(a, c, z)
  {}

  /** What one chunk of a write logs besides: its block, and the bitmap block if that is a new one. */
  function ChunkBlocks(sb: Super, addr: nat, isNew: bool): set<nat> {
    if addr == 0 then {} else if isNew then {addr, BitBlock(sb, addr)} else {addr}
  }

  lemma AroundSame(s: Fs, t: Fs, i: nat)
    requires Shape(s) && Shape(t) && t.sb == s.sb && t.inodes == s.inodes && i < |s.inodes|
    ensures Around(t, i) == Around(s, i)
  {}

  /** What has been logged so far: data blocks written, bitmap blocks, and those around the inode. Nothing
      else differs from s. */
  ghost predicate Logged(s: Fs, t: Fs, i: nat, logged: set<nat>, data: set<nat>, bits: set<nat>) {
    && Shape(t) && i < |t.inodes| && InVolume(t.sb, logged)
    && SameBut(s.blocks, t.blocks, logged) && logged <= data + bits + Around(t, i)
  }

  /** Bitmap and data blocks. */
  predicate InVolume(sb: Super, logged: set<nat>) {
    forall b :: b in logged ==> sb.bmapStart <= b < sb.size
  }

  lemma LoggedNone(s: Fs, i: nat)
    requires Shape(s) && i < |s.inodes|
    ensures Logged(s, s, i, {}, {}, {})
  {}

  lemma LoggedChunk(s: Fs, t: Fs, u: Fs, i: nat, logged: set<nat>, chunk: set<nat>, data: set<nat>, bits: set<nat>,
                    addr: nat, isNew: bool)
    returns (dataNow: set<nat>, bitsNow: set<nat>)
    requires Logged(s, t, i, logged, data, bits) && Shape(u) && i < |u.inodes| && Around(t, i) <= Around(u, i)
    requires SameBut(t.blocks, u.blocks, chunk) && InVolume(u.sb, chunk) && u.sb == t.sb
    requires chunk <= Around(u, i) + ChunkBlocks(u.sb, addr, isNew)
    ensures Logged(s, u, i, logged + chunk, dataNow, bitsNow)
    ensures |dataNow| <= |data| + (if addr == 0 then 0 else 1) && |bitsNow| <= |bits| + if isNew then 1 else 0
    ensures addr == 0 ==> dataNow == data && bitsNow == bits
  {
    hide Around;
    dataNow := data + if addr == 0 then {} else {addr};
    bitsNow := bits + if addr != 0 && isNew then {BitBlock(u.sb, addr)} else {};
    SameButTwice(s.blocks, t.blocks, u.blocks, logged, chunk, logged + chunk);
  }

  lemma LoggedCount(s: Fs, t: Fs, i: nat, logged: set<nat>, data: set<nat>, bits: set<nat>)
    requires Logged(s, t, i, logged, data, bits)
    ensures SameBut(s.blocks, t.blocks, logged) && InVolume(t.sb, logged) && |logged| <= |data| + |bits| + 2
  {
    hide Around;
    AroundSize(t, i);
    FewerElements(logged, data + bits + Around(t, i));
  }

  lemma {:induction false} FewerElements(a: set<nat>, b: set<nat>)
    requires a <= b
    ensures |a| <= |b|
    decreases |a|
  {
    if x :| x in a {
      FewerElements(a - {x}, b - {x});
    }
  }

  // ---- Every block written is logged

  /** Blocks lo..hi-1 of file i are there and logged. */
  ghost predicate Covered(s: Fs, i: nat, lo: nat, hi: nat, logged: set<nat>)
    requires Shape(s) && i < |s.inodes|
  {
    forall bn :: lo <= bn < hi ==> bn < MAXFILE && Addr(s, i, DataPos(bn)) != 0 && Addr(s, i, DataPos(bn)) in logged
  }

  /** Slots of file i that name a block still name it. */
  ghost predicate KeepsSlots(s: Fs, t: Fs, i: nat) {
    && Shape(s) && Shape(t) && i < |s.inodes| == |t.inodes|
    && forall q :: IsSlot(s, i, q) && Addr(s, i, q) != 0 ==> Addr(t, i, q) == Addr(s, i, q)
  }

  lemma GrownKeeps(s: Fs, t: Fs, i: nat, bn: nat)
    requires Grown(s, t, i, bn) && i < |s.inodes|
    ensures KeepsSlots(s, t, i)
  {
    hide Addr, InRange, Unshared, BitmapExact, Mapped, Bytes;
  }

  lemma KeepsTwice(s: Fs, t: Fs, u: Fs, i: nat)
    requires KeepsSlots(s, t, i) && KeepsSlots(t, u, i)
    ensures KeepsSlots(s, u, i)
  {
    hide Addr;
    forall q | IsSlot(s, i, q) && Addr(s, i, q) != 0 ensures Addr(u, i, q) == Addr(s, i, q) {
      assert IsSlot(t, i, q);
    }
  }

  lemma AddrRange(s: Fs, i: nat, q: nat)
    requires Good(s) && IsSlot(s, i, q) && Addr(s, i, q) != 0
    ensures s.sb.bmapStart <= Addr(s, i, q) < s.sb.size
  {
    hide Addr, Unshared, BitmapExact;
  }

  /** The blocks that providing a block logs are bitmap and data blocks. */
  lemma LoggedRange(s: Fs, i: nat, a: nat)
    requires Good(s) && i < |s.inodes| && Free(s, a)
    ensures s.sb.bmapStart <= BitBlock(s.sb, a) < s.sb.size && s.sb.bmapStart <= a < s.sb.size
    ensures Addr(s, i, NDIRECT) != 0 ==> s.sb.bmapStart <= Addr(s, i, NDIRECT) < s.sb.size
  {
    hide Addr, Unshared;
    BitBlockRange(s.sb, a);
  }

  lemma CoveredSize(s: Fs, t: Fs, i: nat, lo: nat, hi: nat, logged: set<nat>)
    requires Shape(s) && Shape(t) && i < |s.inodes| == |t.inodes| && t.blocks == s.blocks
    requires t.inodes[i].addrs == s.inodes[i].addrs && Covered(s, i, lo, hi, logged)
    ensures Covered(t, i, lo, hi, logged)
  {
    assert forall q :: IsSlot(s, i, q) ==> Addr(t, i, q) == Addr(s, i, q);
    hide Addr;
    CoveredMore(s, t, i, lo, hi, logged, {});
    assert logged + {} == logged;
  }

  lemma CoveredNone(s: Fs, i: nat, lo: nat)
    requires Shape(s) && i < |s.inodes|
    ensures Covered(s, i, lo, lo, {})
  {}

  lemma CoveredMore(s: Fs, t: Fs, i: nat, lo: nat, hi: nat, logged: set<nat>, chunk: set<nat>)
    requires KeepsSlots(s, t, i) && Covered(s, i, lo, hi, logged)
    ensures Covered(t, i, lo, hi, logged + chunk)
  {
    forall bn | lo <= bn < hi
      ensures bn < MAXFILE && Addr(t, i, DataPos(bn)) != 0 && Addr(t, i, DataPos(bn)) in logged + chunk
    {
      var a := Addr(s, i, DataPos(bn));
      assert a in logged && IsSlot(s, i, DataPos(bn));
    }
  }

  lemma CoveredChunk(s: Fs, t: Fs, i: nat, lo: nat, hi: nat, logged: set<nat>, chunk: set<nat>)
    requires KeepsSlots(s, t, i) && Covered(s, i, lo, hi, logged) && hi < MAXFILE
    requires Addr(t, i, DataPos(hi)) != 0 && Addr(t, i, DataPos(hi)) in chunk
    ensures Covered(t, i, lo, hi + 1, logged + chunk)
  {
    hide Addr;
    CoveredMore(s, t, i, lo, hi, logged, chunk);
  }

  // ---- Blocks spanned

  /** Blocks of a file that n bytes from `off` on lie in. */
  function Span(off: nat, n: nat): nat {
    if n == 0 then 0 else (off + n - 1) / BSIZE - off / BSIZE + 1
  }

  /** Those of them that may be new, when the file reaches to `off`. */
  function Fresh(off: nat, n: nat): (r: nat)
    ensures r <= Span(off, n)
  {
    if n == 0 then 0 else (off + n - 1) / BSIZE - off / BSIZE + if off % BSIZE == 0 then 1 else 0
  }

  /** The data blocks, a bitmap block for each new one, and the indirect block with its own. */
  function Budget(off: nat, n: nat): nat {
    Span(off, n) + Fresh(off, n) + 2
  }

  /** One chunk lies in one more block; only the first can be in a block begun before. */
  lemma NextChunk(off: nat, tot: nat, m: nat)
    requires 0 < m <= BSIZE - (off + tot) % BSIZE && (tot > 0 ==> (off + tot) % BSIZE == 0)
    ensures Span(off, tot + m) == Span(off, tot) + 1 && (off + tot) / BSIZE == off / BSIZE + Span(off, tot)
    ensures Fresh(off, tot + m) == Fresh(off, tot) + if tot == 0 && off % BSIZE != 0 then 0 else 1
  {
    var p := off + tot;
    SameBlockLast(p, m);
    if tot > 0 { BoundaryBefore(p); }
  }

  lemma SameBlockLast(p: nat, m: nat)
    requires 0 < m <= BSIZE - p % BSIZE
    ensures (p + m - 1) / BSIZE == p / BSIZE
  {
    var q, r := p / BSIZE, p % BSIZE;
    assert p + m - 1 == BSIZE * q + (r + m - 1);
  }

  lemma BoundaryBefore(p: nat)
    requires p > 0 && p % BSIZE == 0
    ensures (p - 1) / BSIZE == p / BSIZE - 1
  {
    var q := p / BSIZE;
    assert p - 1 == BSIZE * (q - 1) + (BSIZE - 1);
  }

  /** A chunk that does not end the write ends its block. */
  lemma ChunkEnds(p: nat, m: nat, left: nat)
    requires m == if left < BSIZE - p % BSIZE then left else BSIZE - p % BSIZE
    ensures m < left ==> (p + m) % BSIZE == 0
  {
    if m < left {
      assert p + m == BSIZE * (p / BSIZE + 1);
    }
  }

  lemma FewerChunks(off: nat, a: nat, b: nat)
    requires a <= b
    ensures Span(off, a) <= Span(off, b) && Fresh(off, a) <= Fresh(off, b)
  {
    if 0 < a {
      assert (off + a - 1) / BSIZE <= (off + b - 1) / BSIZE;
    }
  }

  // ---- A write so far

  /** `tot` bytes written from `off` on: what is logged covers them and keeps to their share. */
  ghost predicate Budgeted(s: Fs, t: Fs, i: nat, off: nat, tot: nat, logged: set<nat>, data: set<nat>, bits: set<nat>)
  {
    && Logged(s, t, i, logged, data, bits) && |data| <= Span(off, tot) && |bits| <= Fresh(off, tot)
    && Covered(t, i, off / BSIZE, off / BSIZE + Span(off, tot), logged)
  }

  lemma BudgetedStart(s: Fs, i: nat, off: nat)
    requires Shape(s) && i < |s.inodes|
    ensures Budgeted(s, s, i, off, 0, {}, {}, {})
  {
    hide Logged, Covered;
    LoggedNone(s, i);
    CoveredNone(s, i, off / BSIZE);
  }

  /** One more chunk of m bytes, or none for want of a block. */
  lemma BudgetedChunk(s: Fs, t: Fs, u: Fs, i: nat, off: nat, tot: nat, m: nat, logged: set<nat>, chunk: set<nat>,
                      data: set<nat>, bits: set<nat>, addr: nat, isNew: bool)
    returns (dataNow: set<nat>, bitsNow: set<nat>)
    requires Budgeted(s, t, i, off, tot, logged, data, bits) && KeepsSlots(t, u, i) && u.sb == t.sb
    requires Around(t, i) <= Around(u, i) && SameBut(t.blocks, u.blocks, chunk) && InVolume(u.sb, chunk)
    requires chunk <= Around(u, i) + ChunkBlocks(u.sb, addr, isNew)
    requires addr != 0 ==>
               && 0 < m <= BSIZE - (off + tot) % BSIZE && (tot > 0 ==> (off + tot) % BSIZE == 0)
               && (off + tot) / BSIZE < MAXFILE && addr == Addr(u, i, DataPos((off + tot) / BSIZE)) && addr in chunk
               && (tot == 0 && off % BSIZE != 0 ==> !isNew)
    ensures Budgeted(s, u, i, off, if addr == 0 then tot else tot + m, logged + chunk, dataNow, bitsNow)
  {
    hide Addr, Around, Span, Fresh, SameBut, ChunkBlocks, Covered, InVolume, KeepsSlots, Shape;
    ShapesOf(t, u, i);
    dataNow, bitsNow := LoggedChunk(s, t, u, i, logged, chunk, data, bits, addr, isNew);
    if addr == 0 {
      CoveredMore(t, u, i, off / BSIZE, off / BSIZE + Span(off, tot), logged, chunk);
    } else {
      NextChunk(off, tot, m);
      CoveredChunk(t, u, i, off / BSIZE, off / BSIZE + Span(off, tot), logged, chunk);
    }
  }

  lemma ShapesOf(t: Fs, u: Fs, i: nat)
    requires KeepsSlots(t, u, i)
    ensures Shape(t) && Shape(u) && i < |t.inodes| == |u.inodes|
  {}

  lemma BudgetedEnd(s: Fs, t: Fs, i: nat, off: nat, tot: nat, n: nat, logged: set<nat>, data: set<nat>, bits: set<nat>)
    requires Budgeted(s, t, i, off, tot, logged, data, bits) && tot <= n
    ensures SameBut(s.blocks, t.blocks, logged) && InVolume(t.sb, logged) && |logged| <= Budget(off, n)
    ensures Shape(t) && i < |t.inodes| && Covered(t, i, off / BSIZE, off / BSIZE + Span(off, tot), logged)
  {
    hide Around, Span, Fresh, Covered;
    LoggedCount(s, t, i, logged, data, bits);
    FewerChunks(off, tot, n);
  }

  /** filewrite's chunks of (MAXOPBLOCKS-4)/2 blocks: with the inode's block they never exceed MAXOPBLOCKS,
      wherever they start. */
  lemma ChunkFits(off: nat, n: nat, limit: nat)
    requires limit >= 4 && n <= (limit - 4) / 2 * BSIZE
    ensures Budget(off, n) + 1 <= limit
  {
    var k := (limit - 4) / 2;
    if n > 0 { SpanBound(off, n, k); }
  }

  lemma SpanBound(off: nat, n: nat, k: nat)
    requires 0 < n <= k * BSIZE
    ensures (off + n - 1) / BSIZE - off / BSIZE <= if off % BSIZE == 0 then k - 1 else k
  {
    var q, r := off / BSIZE, off % BSIZE;
    assert off + n - 1 == BSIZE * q + (r + n - 1);
    DivBound(q, r + n - 1, if r == 0 then k - 1 else k);
  }

  lemma DivBound(q: nat, x: nat, k: nat)
    requires x < BSIZE * (k + 1)
    ensures (BSIZE * q + x) / BSIZE <= q + k
  {}
}
