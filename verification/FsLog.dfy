/** The file layer over the log: a volume is what its disk says, and writei inside an operation survives a
    crash whole or not at all. */
module FsLog {
  import opened Blocks
  import opened Words
  import opened FsState
  import opened FsFiles
  import opened FsBudget
  import opened FileSystem
  import opened LogDisk
  import opened LogHistory
  import opened LogCache
  import opened RedoLog
  import opened LogRuns
  import BufferCache
  import Admission = LogAdmission

  /** Inodes per block, and words per inode on disk: type, device and links in the first two, then the size,
      then the addresses. */
  const IPB: nat := 16
  const INODE_WORDS: nat := 16

  // ---- Inodes in their blocks

  function SizeWord(k: nat): nat {
    INODE_WORDS * k + 2
  }

  function AddrWord(k: nat, j: nat): nat {
    INODE_WORDS * k + 3 + j
  }

  /** Inode k of a block. */
  function InodeIn(b: Block, k: nat): Inode
    requires k < IPB
  {
    Inode(seq(NDIRECT + 1, j requires 0 <= j <= NDIRECT => GetWord(b, AddrWord(k, j))), GetWord(b, SizeWord(k)))
  }

  predicate InWords(ip: Inode) {
    |ip.addrs| == NDIRECT + 1 && ip.size < WORD_RANGE && forall j :: 0 <= j <= NDIRECT ==> ip.addrs[j] < WORD_RANGE
  }

  function WithAddrs(b: Block, k: nat, ip: Inode, n: nat): Block
    requires k < IPB && InWords(ip) && n <= NDIRECT + 1
  {
    if n == 0 then b else SetWord(WithAddrs(b, k, ip, n - 1), AddrWord(k, n - 1), ip.addrs[n - 1])
  }

  /** iupdate: the inode's size and addresses over those in its block. */
  function WithInode(b: Block, k: nat, ip: Inode): Block
    requires k < IPB && InWords(ip)
  {
    WithAddrs(SetWord(b, SizeWord(k), ip.size), k, ip, NDIRECT + 1)
  }

  lemma {:induction false} WithAddrsWord(b: Block, k: nat, ip: Inode, n: nat, w: nat)
    requires k < IPB && InWords(ip) && n <= NDIRECT + 1 && w < WORDS
    ensures GetWord(WithAddrs(b, k, ip, n), w) ==
            if AddrWord(k, 0) <= w < AddrWord(k, n) then ip.addrs[w - AddrWord(k, 0)] else GetWord(b, w)
    decreases n
  {
    hide GetWord, SetWord;
    if n > 0 {
      WithAddrsWord(b, k, ip, n - 1, w);
      GetSetWord(WithAddrs(b, k, ip, n - 1), AddrWord(k, n - 1), ip.addrs[n - 1], w);
    }
  }

  lemma WithInodeWord(b: Block, k: nat, ip: Inode, w: nat)
    requires k < IPB && InWords(ip) && w < WORDS
    ensures GetWord(WithInode(b, k, ip), w) ==
            if w == SizeWord(k) then ip.size
            else if AddrWord(k, 0) <= w < AddrWord(k, NDIRECT + 1) then ip.addrs[w - AddrWord(k, 0)] else GetWord(b, w)
  {
    hide GetWord, SetWord, WithAddrs;
    WithAddrsWord(SetWord(b, SizeWord(k), ip.size), k, ip, NDIRECT + 1, w);
    GetSetWord(b, SizeWord(k), ip.size, w);
  }

  /** A written-back inode reads back, and the others of its block are as they were. */
  lemma InodeRoundTrip(b: Block, k: nat, ip: Inode, m: nat)
    requires k < IPB && InWords(ip) && m < IPB
    ensures InodeIn(WithInode(b, k, ip), m) == if m == k then ip else InodeIn(b, m)
  {
    hide GetWord, WithInode;
    var now := WithInode(b, k, ip);
    WithInodeWord(b, k, ip, SizeWord(m));
    forall j | 0 <= j <= NDIRECT
      ensures GetWord(now, AddrWord(m, j)) == if m == k then ip.addrs[j] else GetWord(b, AddrWord(m, j))
    {
      WithInodeWord(b, k, ip, AddrWord(m, j));
    }
  }

  // ---- The volume on a disk

  /** Where things are: the log, then the inodes, then the bitmap, then the data. */
  datatype Place = Place(sb: Super, logStart: nat, inodeStart: nat, ninodes: nat)

  predicate PlaceOk(p: Place) {
    && SuperOk(p.sb) && p.logStart + LOGSIZE < p.inodeStart
    && p.inodeStart + p.ninodes / IPB < p.sb.bmapStart
  }

  function InodeBlock(p: Place, i: nat): nat {
    p.inodeStart + i / IPB
  }

  /** The volume that a disk holds. */
  function Mounted(p: Place, d: seq<Block>): Fs
    requires PlaceOk(p) && |d| == p.sb.size
  {
    InodeBlocks(p);
    Fs(p.sb, d, seq(p.ninodes, i requires 0 <= i < p.ninodes => InodeIn(d[InodeBlock(p, i)], i % IPB)))
  }

  lemma InodeBlocks(p: Place)
    requires PlaceOk(p)
    ensures forall i :: 0 <= i < p.ninodes ==>
              p.logStart + LOGSIZE < InodeBlock(p, i) < p.sb.bmapStart && InodeBlock(p, i) < p.sb.size && i % IPB < IPB
  {
    forall i | 0 <= i < p.ninodes ensures i / IPB <= p.ninodes / IPB { DivMonotone(i, p.ninodes); }
  }

  lemma DivMonotone(a: nat, b: nat)
    requires a <= b
    ensures a / IPB <= b / IPB
  {}

  /** Same inodes, same bitmap, same data blocks: the same volume as far as files go. */
  ghost predicate Alike(s: Fs, t: Fs) {
    && t.sb == s.sb && SuperOk(s.sb) && |s.blocks| == |t.blocks| == s.sb.size && t.inodes == s.inodes
    && forall b :: s.sb.bmapStart <= b < s.sb.size ==> t.blocks[b] == s.blocks[b]
  }

  lemma AlikeAddr(s: Fs, t: Fs, i: nat, pos: nat)
    requires Good(s) && Alike(s, t) && IsSlot(s, i, pos)
    ensures Shape(t) && Addr(t, i, pos) == Addr(s, i, pos)
  {
    hide GetWord, Unshared, BitmapExact;
    assert IsSlot(s, i, NDIRECT);
    assert InodeShape(s.sb, s.inodes[i]);
  }

  lemma AlikeUsed(s: Fs, t: Fs, x: nat)
    requires Alike(s, t) && x < s.sb.size
    ensures Used(s.sb, t.blocks, x) <==> Used(s.sb, s.blocks, x)
  {
    BitBlockRange(s.sb, x);
  }

  lemma AlikeGood(s: Fs, t: Fs)
    requires Good(s) && Alike(s, t)
    ensures Good(t)
  {
    hide Addr, Used;
    forall i, pos | IsSlot(s, i, pos) ensures Shape(t) && Addr(t, i, pos) == Addr(s, i, pos) {
      AlikeAddr(s, t, i, pos);
    }
    assert Shape(t);
    forall x | 0 <= x < s.sb.size ensures Used(t.sb, t.blocks, x) <==> x < t.sb.dataStart || Owned(t, x) {
      AlikeUsed(s, t, x);
      AlikeOwned(s, t, x);
    }
  }

  lemma AlikeOwned(s: Fs, t: Fs, x: nat)
    requires Good(s) && Alike(s, t) && Shape(t)
    ensures Owned(t, x) <==> Owned(s, x)
  {
    hide Addr, Used, Good;
    if Owned(s, x) {
      var i, pos :| IsSlot(s, i, pos) && Addr(s, i, pos) == x;
      AlikeAddr(s, t, i, pos);
      assert IsSlot(t, i, pos);
    }
    if Owned(t, x) {
      var i, pos :| IsSlot(t, i, pos) && Addr(t, i, pos) == x;
      assert IsSlot(s, i, pos);
      AlikeAddr(s, t, i, pos);
    }
  }

  /** Alike volumes hold the same files. */
  lemma AlikeFiles(s: Fs, t: Fs)
    requires FsOk(s) && Alike(s, t)
    ensures FsOk(t) && forall i :: 0 <= i < |s.inodes| ==> Content(t, i) == Content(s, i)
  {
    hide Addr, Used, Unshared, BitmapExact, Bytes, At;
    AlikeGood(s, t);
    forall i | 0 <= i < |s.inodes|
      ensures Mapped(t, i, t.inodes[i].size) && Bytes(t, i, t.inodes[i].size) == Bytes(s, i, s.inodes[i].size)
    {
      AlikeBytes(s, t, i);
    }
  }

  lemma AlikeBytes(s: Fs, t: Fs, i: nat)
    requires FsOk(s) && Good(t) && Alike(s, t) && i < |s.inodes|
    ensures Mapped(t, i, s.inodes[i].size) && Bytes(t, i, s.inodes[i].size) == Bytes(s, i, s.inodes[i].size)
  {
    hide Addr, Used, Unshared, BitmapExact, Bytes;
    var n := s.inodes[i].size;
    assert Mapped(s, i, n);
    forall k | 0 <= k < n ensures At(t, i, k) == At(s, i, k) && t.blocks[At(s, i, k)] == s.blocks[At(s, i, k)] {
      BlockOfByte(k);
      AlikeAddr(s, t, i, DataPos(k / BSIZE));
      assert At(s, i, k) != 0;
    }
    SameBytes(s, t, i, n);
  }

  /** Disks that agree outside the log hold alike volumes. */
  lemma SameHomesAlike(p: Place, d: seq<Block>, e: seq<Block>)
    requires PlaceOk(p) && |d| == p.sb.size && OutsideLogSame(d, e, p.logStart)
    ensures Alike(Mounted(p, d), Mounted(p, e))
  {
    hide InodeIn;
    InodeBlocks(p);
    var s, t := Mounted(p, d), Mounted(p, e);
    forall b: nat | p.logStart + LOGSIZE < b < p.sb.size ensures d[b] == e[b] {
      assert LogHistory.Home(p.logStart, |d|, b);
    }
    assert t.inodes == s.inodes;
  }

  // ---- One operation's blocks through the log

  /** Each listed block gets its new contents, by bread, log_write and brelse. */
  method LogAll(log: Log, op: nat, list: seq<nat>, now: seq<Block>)
    requires log.Running() && log.Idle() && op < |log.ops| && |log.ops[op]| + |list| <= Admission.MAXOPBLOCKS
    requires |log.lh| + |list| <= log.cache.nbuf
    requires forall j :: 0 <= j < |list| ==> log.Home(list[j]) && list[j] < |now|
    modifies log`lh, log`ops, log`history
    modifies log.cache`bufs, log.cache`waiting, log.cache`logical
    modifies log.cache`next, log.cache`prev, log.cache`order, log.cache`released
    ensures log.Running() && log.Idle() && log.committing == old(log.committing)
    ensures |log.ops| == |old(log.ops)| && |log.ops[op]| <= |old(log.ops)[op]| + |list|
    ensures |log.lh| <= |old(log.lh)| + |list|
    ensures |log.cache.logical| == |old(log.cache.logical)|
    ensures forall b :: 0 <= b < |log.cache.logical| ==>
              log.cache.logical[b] == if b in list && b < |now| then now[b] else old(log.cache.logical)[b]
  {
    hide Log.Running, Log.Idle, BufferCache.BCache.Valid, BufferCache.BCache.Coherent;
    var j := 0;
    while j < |list|
      invariant 0 <= j <= |list| && log.Running() && log.Idle() && log.committing == old(log.committing)
      invariant |log.ops| == |old(log.ops)| && |log.ops[op]| <= |old(log.ops)[op]| + j
      invariant |log.lh| <= |old(log.lh)| + j && |log.cache.logical| == |old(log.cache.logical)|
      invariant forall b :: 0 <= b < |log.cache.logical| ==>
                  log.cache.logical[b] == if b in list[..j] && b < |now| then now[b] else old(log.cache.logical)[b]
    {
      ghost var was := log.cache.logical;
      LogOne(log, op, list[j], now[list[j]]);
      OneMore(list, j);
      j := j + 1;
    }
    assert list[..j] == list;
  }

  lemma OneMore(list: seq<nat>, j: nat)
    requires j < |list|
    ensures forall b :: b in list[..j + 1] <==> b in list[..j] || b == list[j]
  {
    assert list[..j + 1] == list[..j] + [list[j]];
  }

  /** iupdate: reads the inode's block, writes the inode into it, logs it. */
  method Iupdate(log: Log, op: nat, p: Place, i: nat, ip: Inode)
    requires log.Running() && log.Idle() && op < |log.ops| && |log.ops[op]| < Admission.MAXOPBLOCKS
    requires PlaceOk(p) && p.logStart == log.start && |log.cache.disk| == p.sb.size && i < p.ninodes && InWords(ip)
    requires |log.lh| < log.cache.nbuf
    modifies log`lh, log`ops, log`history
    modifies log.cache`bufs, log.cache`waiting, log.cache`logical
    modifies log.cache`next, log.cache`prev, log.cache`order, log.cache`released
    ensures log.Running() && log.Idle() && log.committing == old(log.committing) && |log.ops| == |old(log.ops)|
    ensures |log.lh| <= |old(log.lh)| + 1
    ensures InodeBlock(p, i) < |old(log.cache.logical)|
    ensures log.cache.logical == old(log.cache.logical)[InodeBlock(p, i) :=
              WithInode(old(log.cache.logical)[InodeBlock(p, i)], i % IPB, ip)]
  {
    hide Log.Running, Log.Idle, WithInode, InWords;
    InodeBlocks(p);
    var b := InodeBlock(p, i);
    assert log.Home(b);
    var k := ReadAlone(log, b);
    var data := log.cache.bufs[k].data;
    LogHeld(log, op, k, WithInode(data, i % IPB, ip));
  }

  /** The logged blocks one by one. */
  method ListOf(logged: set<nat>, lo: nat, hi: nat) returns (list: seq<nat>)
    requires forall b :: b in logged ==> lo <= b < hi
    ensures Admission.Distinct(list) && |list| == |logged| && forall b :: b in list <==> b in logged
    ensures forall j :: 0 <= j < |list| ==> lo <= list[j] < hi
  {
    list := [];
    var b := lo;
    while b < hi
      invariant lo <= b && Admission.Distinct(list) && forall j :: 0 <= j < |list| ==> lo <= list[j] < b && list[j] < hi
      invariant forall x :: x in list <==> x in logged && x < b
    {
      if b in logged {
        list := list + [b];
      }
      b := b + 1;
    }
    SetOfSize(list);
    assert SetOf(list) == logged;
  }

  /** Logging those blocks and the inode's makes the block map hold the new volume. */
  lemma LoggedVolume(p: Place, was: seq<Block>, now: seq<Block>, s: Fs, t: Fs, i: nat, list: seq<nat>)
    requires PlaceOk(p) && |was| == |now| == p.sb.size && Alike(Mounted(p, was), s) && i < p.ninodes
    requires t.sb == s.sb && |t.blocks| == p.sb.size && |t.inodes| == |s.inodes| && InWords(t.inodes[i])
    requires forall j :: 0 <= j < |t.inodes| && j != i ==> t.inodes[j] == s.inodes[j]
    requires forall j :: 0 <= j < |list| ==> p.sb.bmapStart <= list[j] < p.sb.size
    requires forall b :: p.sb.bmapStart <= b < p.sb.size && b !in list ==> t.blocks[b] == s.blocks[b]
    requires InodeBlock(p, i) < p.sb.size
    requires forall b :: 0 <= b < p.sb.size ==>
               now[b] == if b == InodeBlock(p, i) then WithInode(was[b], i % IPB, t.inodes[i])
                         else if b in list then t.blocks[b] else was[b]
    ensures Alike(Mounted(p, now), t)
  {
    hide InodeIn, WithInode, InWords;
    InodeBlocks(p);
    var m := Mounted(p, now);
    forall j | 0 <= j < p.ninodes ensures m.inodes[j] == t.inodes[j] {
      assert Mounted(p, was).inodes[j] == s.inodes[j];
      if InodeBlock(p, j) == InodeBlock(p, i) {
        InodeRoundTrip(was[InodeBlock(p, i)], i % IPB, t.inodes[i], j % IPB);
        SameSlot(i, j);
      }
    }
    assert m.inodes == t.inodes;
  }

  lemma SameSlot(i: nat, j: nat)
    requires i / IPB == j / IPB
    ensures i % IPB == j % IPB <==> i == j
  {}

  lemma InodeFits(s: Fs, i: nat)
    requires FsOk(s) && i < |s.inodes|
    ensures InWords(s.inodes[i])
  {
    hide InRange, Unshared, BitmapExact, At;
    assert InodeShape(s.sb, s.inodes[i]) && Mapped(s, i, s.inodes[i].size);
  }

  // ---- writei inside an operation

  /** What a disk found after a crash must be: the files of `t` if the operation committed, else those of `s`. */
  ghost predicate HoldsFiles(p: Place, r: seq<Block>, s: Fs, t: Fs, committed: bool)
    requires FsOk(s) && FsOk(t) && |s.inodes| == |t.inodes| == p.ninodes
  {
    && PlaceOk(p) && |r| == p.sb.size && FsOk(Mounted(p, r))
    && forall j :: 0 <= j < p.ninodes ==>
         Content(Mounted(p, r), j) == if committed then Content(t, j) else Content(s, j)
  }

  /** A disk alike to one of the two volumes outside the log holds its files. */
  lemma FilesFound(p: Place, d: seq<Block>, r: seq<Block>, u: Fs)
    requires PlaceOk(p) && |d| == p.sb.size && OutsideLogSame(d, r, p.logStart)
    requires FsOk(u) && Alike(Mounted(p, d), u) && |u.inodes| == p.ninodes
    ensures |r| == p.sb.size && FsOk(Mounted(p, r))
    ensures forall j :: 0 <= j < p.ninodes ==> Content(Mounted(p, r), j) == Content(u, j)
  {
    hide Mounted, Content, FsOk;
    SameHomesAlike(p, d, r);
    AlikeBack(Mounted(p, d), u, Mounted(p, r));
    AlikeFiles(u, Mounted(p, r));
  }

  lemma AlikeBack(s: Fs, t: Fs, u: Fs)
    requires Alike(s, t) && Alike(s, u)
    ensures Alike(t, u)
  {}

  /** What filewrite hands to writei in one operation: ((MAXOPBLOCKS-1-1-2) / 2) * BSIZE bytes at most. */
  predicate FilewriteSize(n: nat) {
    Admission.MAXOPBLOCKS >= 4 && n <= (Admission.MAXOPBLOCKS - 4) / 2 * BSIZE
  }

  /** begin_op, writei, end_op: the written file, its bitmap, indirect and data blocks and its inode go to disk
      as one. Cut the commit off after any block write and restart any number of times: either all of
      it is found, when the header with its blocks was written, or nothing of it, and every other file is as
      it was. It is refused when it logs more blocks than one operation may, which a write of filewrite's
      chunk size never does. A cache with one buffer more than an operation may log is large enough. */
  method WriteiLogged(v: Volume, log: Log, p: Place, i: nat, off: nat, data: seq<bv8>,
                      ghost k: nat, ghost boots: seq<Boot>, ghost r: seq<Block>)
    returns (n: int, ok: bool, ghost point: nat, ghost ws: seq<(nat, Block)>)
    requires FsOk(v.View()) && i < |v.inodes| && off < WORD_RANGE && |data| < WORD_RANGE
    requires log.Running() && log.Idle() && log.View() == Admission.LogState([], [], false)
    requires PlaceOk(p) && p.logStart == log.start && v.sb == p.sb && |v.inodes| == p.ninodes
    requires |log.cache.disk| == |log.cache.logical| == p.sb.size && Alike(Mounted(p, log.cache.logical), v.View())
    requires 1 <= Admission.MAXOPBLOCKS <= LOGSIZE && Admission.MAXOPBLOCKS < log.cache.nbuf
    modifies v, log, log.cache
    ensures FsOk(v.View()) && |v.inodes| == p.ninodes
    ensures n == -1 ==> v.View() == old(v.View())
    ensures n != -1 ==>
              && 0 <= n <= |data| && off <= |old(Content(v.View(), i))|
              && Content(v.View(), i) == Splice(old(Content(v.View(), i)), off, data[..n])
    ensures forall j :: 0 <= j < |v.inodes| && j != i ==> Content(v.View(), j) == old(Content(v.View(), j))
    ensures FilewriteSize(|data|) ==> ok
    ensures ok ==>
              && log.Running() && log.AtRest({}) && log.View() == Admission.LogState([], [], false)
              && |log.cache.disk| == p.sb.size && Alike(Mounted(p, log.cache.disk), v.View())
    ensures ok && k <= |ws| && BufferCache.InBytes(old(log.cache.disk), ws[..k])
            && ByteReboots(log.start, BufferCache.ApplyBytes(old(log.cache.disk), ws[..k]), boots, r) ==>
              HoldsFiles(p, r, old(v.View()), v.View(), k > point)
  {
    hide FsOk, Alike, Mounted, Content, Splice, Log.Running, PlaceOk, ByteReboots, Faithful, Snapshot;
    ghost var s, d := v.View(), log.cache.disk;
    EmptyLogOnDisk(log);
    point, ws := 0, [];
    var logged;
    n, logged := v.Writei(i, off, data);
    if FilewriteSize(|data|) {
      ChunkFits(off, |data|, Admission.MAXOPBLOCKS);
    }
    ok := Push(v, log, p, i, logged, s);
    if ok {
      point := |log.lh|;
      FaithfulNow(log);
      ghost var logical, history, durable := log.cache.logical, log.history, log.durable;
      IdleIsAlone(log);
      RoomToCommit(log);
      ok, ws := EndOpSurvivesCrash(log, 0, k, boots, r);
      if ok {
        Committed(p, logical, log.cache.logical, v.View());
        if k <= |ws| && BufferCache.InBytes(d, ws[..k])
          && ByteReboots(log.start, BufferCache.ApplyBytes(d, ws[..k]), boots, r)
        {
          CrashedHomes(log.first, history, durable, logical, d, log.start, r, k > point);
          FilesFound(p, if k > point then logical else d, r, if k > point then v.View() else s);
        }
      }
    }
  }

  /** With nothing logged and nothing held the disk is the block map. */
  lemma EmptyLogOnDisk(log: Log)
    requires log.Running() && log.Idle() && log.lh == []
    ensures log.cache.disk == log.cache.logical
  {
    hide BufferCache.Linked, BufferCache.OrderAfter, BufferCache.DiskIs, Faithful, HeaderClear, BufferCache.NoAlias;
    CountedIsQuiet(log.cache.bufs, log.cache.waiting, SetOf(log.lh));
    assert SetOf(log.lh) == {};
    RestOnDisk(log.cache.bufs, log.cache.disk, log.cache.logical, log.cache.rootDev);
  }

  /** With nobody about, a transaction that leaves a buffer unpinned leaves one free. */
  lemma RoomToCommit(log: Log)
    requires log.Running() && log.Idle()
    ensures HasFree(log.cache.bufs) <==> |log.lh| < log.cache.nbuf
  {
    hide BufferCache.BCache.Valid, BufferCache.BCache.Coherent, Faithful, HeaderClear, ChangedIsListed, Counted;
    hide Admission.Invariant;
    log.IdleFacts();
  }

  lemma FaithfulNow(log: Log)
    requires log.Running()
    ensures Faithful(log.first, log.history, log.durable, log.cache.logical, log.cache.disk, log.start)
  {
    hide Faithful, HeaderClear, ChangedIsListed, Counted;
  }

  lemma Committed(p: Place, was: seq<Block>, now: seq<Block>, t: Fs)
    requires PlaceOk(p) && |was| == p.sb.size && OutsideLogSame(was, now, p.logStart) && Alike(Mounted(p, was), t)
    ensures Alike(Mounted(p, now), t)
  {
    hide Mounted;
    SameHomesAlike(p, was, now);
    AlikeBack(Mounted(p, was), Mounted(p, now), t);
  }

  /** The blocks outside the log after a crash are those of the block map, or of the disk. */
  lemma CrashedHomes(first: seq<Block>, history: seq<Access>, durable: nat, logical: seq<Block>, d: seq<Block>,
                     start: nat, r: seq<Block>, committed: bool)
    requires Faithful(first, history, durable, logical, d, start) && durable <= |history|
    requires Snapshot(first, if committed then history else history[..durable], r, start)
    ensures OutsideLogSame(if committed then logical else d, r, start)
  {
    hide Latest;
  }

  /** What writei logged, and the inode, through the log in one operation of its own. */
  method Push(v: Volume, log: Log, p: Place, i: nat, logged: set<nat>, ghost s: Fs) returns (ok: bool)
    requires log.Running() && log.Idle() && log.View() == Admission.LogState([], [], false)
    requires PlaceOk(p) && p.logStart == log.start && v.sb == p.sb && i < |v.inodes| == p.ninodes && FsOk(v.View())
    requires |log.cache.disk| == |log.cache.logical| == p.sb.size && Alike(Mounted(p, log.cache.logical), s)
    requires FsOk(s) && s.sb == v.sb && |s.inodes| == |v.inodes|
    requires forall j :: 0 <= j < |v.inodes| && j != i ==> v.inodes[j] == s.inodes[j]
    requires 1 <= Admission.MAXOPBLOCKS <= LOGSIZE && Admission.MAXOPBLOCKS < log.cache.nbuf
    requires SameBut(s.blocks, v.blocks, logged) && InVolume(v.sb, logged)
    modifies log`outstanding, log`lh, log`ops, log`history
    modifies log.cache`bufs, log.cache`waiting, log.cache`logical
    modifies log.cache`next, log.cache`prev, log.cache`order, log.cache`released
    ensures ok <==> |logged| + 1 <= Admission.MAXOPBLOCKS
    ensures ok ==>
              && log.Running() && log.Idle() && |log.ops| == 1 && |log.lh| <= Admission.MAXOPBLOCKS
              && |log.cache.logical| == p.sb.size && Alike(Mounted(p, log.cache.logical), v.View())
  {
    hide Alike, Mounted, Content, FsOk, Log.Running, Log.Idle, InWords, WithInode;
    ghost var was, t := log.cache.logical, v.View();
    VolumeShape(t);
    VolumeShape(s);
    var list := ListOf(logged, p.sb.bmapStart, p.sb.size);
    if |list| + 1 > Admission.MAXOPBLOCKS {
      return false;
    }
    var admitted := log.BeginOp();
    LogAll(log, 0, list, v.blocks);
    InodeFits(t, i);
    InodeBlocks(p);
    Iupdate(log, 0, p, i, v.inodes[i]);
    LoggedVolume(p, was, log.cache.logical, s, t, i, list);
    return true;
  }

  lemma VolumeShape(s: Fs)
    requires FsOk(s)
    ensures SuperOk(s.sb) && |s.blocks| == s.sb.size
  {
    hide InRange, Unshared, BitmapExact, NoHoles;
  }
}
