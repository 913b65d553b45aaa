/** Runs of the log: the typical use, a full log, and a restart after a crash. */
module LogRuns {
  import opened Blocks
  import opened BufferCache
  import opened LogDisk
  import opened LogHistory
  import opened LogCache
  import opened RedoLog
  import Admission = LogAdmission
  import Words

  /** Some buffer can take block b: its own, or one left over by the pins. */
  lemma RoomToRead(log: Log, b: nat)
    requires log.Running() && log.Idle() && (b in log.lh || |log.lh| < log.cache.nbuf)
    ensures Cached(log.cache.bufs, log.cache.rootDev, b)
            || exists j :: 0 <= j < |log.cache.bufs| && log.cache.bufs[j].refcnt == 0
  {
    hide Linked, OrderAfter, DiskIs, Faithful, HeaderClear, ChangedIsListed, NoAlias;
    var bufs, pins := log.cache.bufs, SetOf(log.lh);
    CountedIsQuiet(bufs, log.cache.waiting, pins);
    if b in log.lh {
      assert b in pins;
      var j: nat :| j < |bufs| && bufs[j].valid && bufs[j].blockno == b;
      assert CachedAt(bufs, j, log.cache.rootDev, b);
    } else {
      SetOfSize(log.lh);
      FreeBufferIff(bufs, pins, log.cache.rootDev);
    }
  }

  /** The run theorem: after any calls, with commits in between, what a read was shown is the block's last
      update before it, or what the run began with. */
  lemma EveryReadReturnsLastUpdate(log: Log, k: nat)
    requires log.Running() && k < |log.history| && log.history[k].Saw? && log.Home(log.history[k].b)
    ensures |log.first| == |log.cache.disk|
    ensures forall j: nat :: j < k && LastWrite(log.history, j, k, log.history[k].b) ==>
              log.history[k].v == log.history[j].v
    ensures (forall j: nat :: j < k && log.history[j].Wrote? ==> log.history[j].b != log.history[k].b) ==>
              log.history[k].v == log.first[log.history[k].b]
  {
    hide BCache.Valid, HeaderClear, ChangedIsListed, Counted, Admission.Invariant, Latest, DiskIs;
    ReadsReturnLastUpdate(log.first, log.history, log.start, k);
  }

  /** With nobody else about a read gets its buffer at once, and it is the only one locked. */
  method ReadAlone(log: Log, b: nat) returns (i: nat)
    requires log.Running() && log.Idle() && log.Home(b) && (b in log.lh || |log.lh| < log.cache.nbuf)
    modifies log`history, log.cache`bufs, log.cache`waiting
    ensures log.Running() && i < log.cache.nbuf == |log.cache.bufs| && NobodyWaits(log.cache.waiting)
    ensures log.cache.bufs[i].locked && log.cache.bufs[i].blockno == b
    ensures forall j :: 0 <= j < log.cache.nbuf && j != i ==> !log.cache.bufs[j].locked
    ensures b < |log.cache.logical| && log.cache.bufs[i].data == log.cache.logical[b]
    ensures log.history == old(log.history) + [Saw(b, log.cache.logical[b])]
  {
    hide Linked, NoAlias, OrderAfter, BCache.Coherent, Faithful, HeaderClear, ChangedIsListed, Counted, Cached;
    hide Admission.Invariant;
    SameSize(log.cache);
    RoomToRead(log, b);
    var ok, waits;
    ok, i, waits := log.Read(b);
  }

  /** The rest of the typical use: change the one held buffer, log it, release it. */
  method LogHeld(log: Log, op: nat, i: nat, v: Block)
    requires log.Running() && op < |log.ops| && |log.ops[op]| < Admission.MAXOPBLOCKS
    requires i < log.cache.nbuf == |log.cache.bufs| && NobodyWaits(log.cache.waiting) && log.cache.bufs[i].locked
    requires forall j :: 0 <= j < log.cache.nbuf && j != i ==> !log.cache.bufs[j].locked
    requires log.Home(log.cache.bufs[i].blockno)
    modifies log`lh, log`ops, log`history
    modifies log.cache`bufs, log.cache`logical
    modifies log.cache`next, log.cache`prev, log.cache`order, log.cache`released
    ensures log.Running() && log.Idle()
    ensures log.View() == Admission.Do(old(log.View()), Admission.LogWrite(op, old(log.cache.bufs)[i].blockno))
    ensures old(log.cache.bufs)[i].blockno < |old(log.cache.logical)|
    ensures log.cache.logical == old(log.cache.logical)[old(log.cache.bufs)[i].blockno := v]
    ensures log.history == old(log.history) + [Wrote(old(log.cache.bufs)[i].blockno, v)]
  {
    hide BCache.Valid, BCache.Coherent, Faithful, HeaderClear, ChangedIsListed, Counted, SetOf;
    hide Admission.Invariant, Admission.Distinct;
    SameSize(log.cache);
    var b := log.cache.bufs[i].blockno;
    log.Update(i, v);
    log.LogWrite(op, i);
    assert b in log.lh;
    log.Release(i);
  }

  /** The typical use: read a block, change it, log it, release it. */
  method LogOne(log: Log, op: nat, b: nat, v: Block)
    requires log.Running() && log.Idle() && op < |log.ops| && |log.ops[op]| < Admission.MAXOPBLOCKS
    requires log.Home(b) && (b in log.lh || |log.lh| < log.cache.nbuf)
    modifies log`lh, log`ops, log`history
    modifies log.cache`bufs, log.cache`waiting, log.cache`logical
    modifies log.cache`next, log.cache`prev, log.cache`order, log.cache`released
    ensures log.Running() && log.Idle()
    ensures log.View() == Admission.Do(old(log.View()), Admission.LogWrite(op, b))
    ensures b < |old(log.cache.logical)| && log.cache.logical == old(log.cache.logical)[b := v]
    ensures log.history == old(log.history) + [Saw(b, old(log.cache.logical)[b]), Wrote(b, v)]
  {
    hide Log.Running, Log.Idle;
    var i := ReadAlone(log, b);
    LogHeld(log, op, i, v);
  }

  /** A whole transaction of one block: when it returns the block is on disk. */
  method WriteBlock(log: Log, b: nat, v: Block)
    requires log.Running() && log.Idle() && log.View() == Admission.LogState([], [], false) && log.Home(b)
    requires 1 <= Admission.MAXOPBLOCKS <= LOGSIZE && log.cache.nbuf >= 2
    modifies log, log.cache
    ensures log.Running() && log.AtRest({}) && log.View() == Admission.LogState([], [], false)
    ensures log.first == old(log.first) && log.durable == |log.history|
    ensures b < |old(log.cache.logical)|
    ensures log.history == old(log.history) + [Saw(b, old(log.cache.logical)[b]), Wrote(b, v)]
    ensures log.Home(b) && log.cache.disk[b] == v
  {
    hide BCache.Valid, BCache.Coherent, Faithful, HeaderClear, ChangedIsListed, Counted, Admission.Invariant;
    hide CommitBytes, UnlistedOnDisk, TxnOf, Quiet, NobodyWaits;
    var admitted := log.BeginOp();
    LogOne(log, 0, b, v);
    IdleIsAlone(log);
    var ok, ws := log.EndOp(0);
  }

  // ---- A full log

  /** begin_op lets in as many operations as the log has shares. */
  method BeginAll(log: Log, n: nat)
    requires log.Running() && log.View() == Admission.LogState([], [], false) && n * Admission.MAXOPBLOCKS <= LOGSIZE
    modifies log`outstanding, log`ops
    ensures log.Running() && log.lh == [] && !log.committing && |log.ops| == n
    ensures forall o :: 0 <= o < n ==> log.ops[o] == {}
  {
    hide Log.Running;
    var k := 0;
    while k < n
      invariant 0 <= k <= n && log.Running() && log.lh == [] && !log.committing && |log.ops| == k
      invariant forall o :: 0 <= o < k ==> log.ops[o] == {}
    {
      assert (k + 1) * Admission.MAXOPBLOCKS <= n * Admission.MAXOPBLOCKS;
      var admitted := log.BeginOp();
      k := k + 1;
    }
  }

  ghost predicate DistinctHomes(log: Log, blocks: seq<nat>)
    reads log.cache
  {
    Admission.Distinct(blocks) && forall k :: 0 <= k < |blocks| ==> log.Home(blocks[k])
  }

  /** An operation has logged only listed blocks. */
  lemma NewToOp(log: Log, op: nat, b: nat)
    requires log.Running() && op < |log.ops| && b !in log.lh
    ensures b !in log.ops[op]
  {
    hide BCache.Valid, BCache.Coherent, Faithful, HeaderClear, ChangedIsListed, Counted, Admission.Unused;
  }

  /** Operation `op` logs its share: MAXOPBLOCKS blocks of the list. */
  method LogShare(log: Log, op: nat, blocks: seq<nat>, v: Block)
    requires log.Running() && log.Idle() && op < |log.ops| && log.ops[op] == {} && DistinctHomes(log, blocks)
    requires log.lh <= blocks && |log.lh| + Admission.MAXOPBLOCKS <= |blocks| <= log.cache.nbuf
    modifies log`lh, log`ops, log`history
    modifies log.cache`bufs, log.cache`waiting, log.cache`logical
    modifies log.cache`next, log.cache`prev, log.cache`order, log.cache`released
    ensures log.Running() && log.Idle() && log.committing == old(log.committing)
    ensures log.lh == blocks[..|old(log.lh)| + Admission.MAXOPBLOCKS]
    ensures |log.ops| == |old(log.ops)| && forall o :: 0 <= o < |log.ops| && o != op ==> log.ops[o] == old(log.ops)[o]
  {
    hide Log.Running, Log.Idle, BCache.Valid, BCache.Coherent;
    ghost var n := |log.lh|;
    var m := 0;
    while m < Admission.MAXOPBLOCKS
      invariant 0 <= m <= Admission.MAXOPBLOCKS && log.Running() && log.Idle() && log.committing == old(log.committing)
      invariant log.lh == blocks[..n + m] && |log.ops| == |old(log.ops)| && |log.ops[op]| == m
      invariant forall o :: 0 <= o < |log.ops| && o != op ==> log.ops[o] == old(log.ops)[o]
    {
      var b := blocks[|log.lh|];
      NewToOp(log, op, b);
      LogOne(log, op, b, v);
      m := m + 1;
    }
  }

  /** Every operation logs its share, and then the log is full. */
  method LogAllShares(log: Log, blocks: seq<nat>, v: Block, shares: nat)
    requires log.Running() && log.Idle() && log.lh == [] && !log.committing && DistinctHomes(log, blocks)
    requires |log.ops| == shares && forall o :: 0 <= o < shares ==> log.ops[o] == {}
    requires shares * Admission.MAXOPBLOCKS == |blocks| <= log.cache.nbuf
    modifies log`lh, log`ops, log`history
    modifies log.cache`bufs, log.cache`waiting, log.cache`logical
    modifies log.cache`next, log.cache`prev, log.cache`order, log.cache`released
    ensures log.Running() && log.Idle() && log.lh == blocks && !log.committing && |log.ops| == shares
  {
    hide Log.Running, Log.Idle;
    var o := 0;
    while o < shares
      invariant 0 <= o <= shares && log.Running() && log.Idle() && !log.committing && |log.ops| == shares
      invariant 0 <= o * Admission.MAXOPBLOCKS <= |blocks| && log.lh == blocks[..o * Admission.MAXOPBLOCKS]
      invariant forall p :: o <= p < shares ==> log.ops[p] == {}
    {
      assert (o + 1) * Admission.MAXOPBLOCKS <= shares * Admission.MAXOPBLOCKS;
      LogShare(log, o, blocks, v);
      o := o + 1;
    }
  }

  lemma OpsCounted(log: Log)
    requires log.Running()
    ensures log.outstanding == |log.ops|
  {
    hide BCache.Valid, BCache.Coherent, Faithful, HeaderClear, ChangedIsListed, Counted, Admission.Invariant;
  }

  lemma IdleIsAlone(log: Log)
    requires log.Running() && log.Idle()
    ensures log.OnlyBystanders()
  {
    hide BCache.Valid, BCache.Coherent, Faithful, HeaderClear, ChangedIsListed, Counted, Admission.Invariant;
    log.IdleFacts();
  }

  /** All operations but one end. */
  method EndAllButOne(log: Log)
    requires log.Running() && log.Idle() && |log.ops| >= 1 && !log.committing
    modifies log`lh, log`outstanding, log`committing, log`ops, log`durable, log.cache
    ensures log.Running() && log.Idle() && log.lh == old(log.lh) && |log.ops| == 1
  {
    hide Log.Running, Log.Idle, CommitBytes, OutsideLogSame, UnlistedOnDisk, TxnOf;
    OpsCounted(log);
    while log.outstanding > 1
      invariant log.Running() && log.Idle() && log.lh == old(log.lh) && log.outstanding == |log.ops| >= 1
    {
      var ok, ws := log.EndOp(0);
      OpsCounted(log);
    }
  }

  /** A cache of just LOGSIZE buffers, which is what kernel/param.h has, is too small: operations that
      keep to their limits can fill the log, every buffer is then pinned, and the commit finds none left for
      a log slot. EndOp says that one more buffer is enough. */
  method FullLogPanics(log: Log, blocks: seq<nat>, v: Block, shares: nat) returns (ok: bool)
    requires log.Running() && log.Idle() && log.View() == Admission.LogState([], [], false)
    requires DistinctHomes(log, blocks) && |blocks| == LOGSIZE == log.cache.nbuf
    requires shares >= 1 && Admission.MAXOPBLOCKS >= 1 && shares * Admission.MAXOPBLOCKS == LOGSIZE
    modifies log, log.cache
    ensures !ok
  {
    hide Log.Running, Log.Idle, CommitBytes, OutsideLogSame, UnlistedOnDisk, TxnOf;
    BeginAll(log, shares);
    LogAllShares(log, blocks, v, shares);
    EndAllButOne(log);
    IdleIsAlone(log);
    ghost var ws;
    ok, ws := log.EndOp(0);
  }

  // ---- Restart

  lemma FreshIsQuiet(c: BCache)
    requires c.Valid() && forall i :: 0 <= i < c.nbuf ==> !c.bufs[i].valid && c.bufs[i].refcnt == 0
    ensures Quiet(c.bufs, {})
  {
    hide Linked, NoAlias, OrderAfter;
  }

  /** A machine starts on some disk: an empty cache, then initlog. */
  method Reboot(image: seq<Block>, nbuf: nat, dev: nat, start: nat, size: nat) returns (log: Log, ghost boot: Boot)
    requires dev != 0 && nbuf >= 2 && size >= LOGSIZE + 1 && |image| < Words.WORD_RANGE && RecoverReady(start, image)
    ensures fresh(log) && fresh(log.cache) && log.start == start && log.cache.nbuf == nbuf
    ensures log.Running() && log.Idle() && log.View() == Admission.LogState([], [], false)
    ensures log.history == [] && log.first == log.cache.disk
    ensures ByteReboots(start, image, [boot], log.cache.disk)
  {
    hide BCache.Valid, BCache.Coherent, RecoverReady, RecoveryBytes, ApplyBytes, InBytes, Faithful;
    var c := new BCache(nbuf, image, dev);
    FreshIsQuiet(c);
    log := new Log(c, start, size);
    boot := Boot(c.writes, 0);
    assert c.writes[0..] == c.writes;
  }

  /** Restart on the disk a crash left, after any block write of a commit: every block outside the log is
      as the run had it at the end, or at the commit before. Which of the two is decided by the commit's
      first header write. */
  method RestartAfterCommit(image: seq<Block>, nbuf: nat, dev: nat, start: nat, size: nat,
                            ghost first: seq<Block>, ghost history: seq<Access>, ghost durable: nat,
                            ghost d: seq<Block>, ghost logical: seq<Block>, ghost lh: seq<nat>,
                            ghost ws: seq<(nat, Block)>, ghost k: nat)
    returns (log: Log)
    requires dev != 0 && nbuf >= 2 && size >= LOGSIZE + 1 && |d| < Words.WORD_RANGE
    requires Faithful(first, history, durable, logical, d, start) && UnlistedOnDisk(d, logical, lh)
    requires forall i :: 0 <= i < |lh| ==> lh[i] < |logical|
    requires CommitBytes(start, d, TxnOf(start, lh, logical), ws) && k <= |ws|
    requires InBytes(d, ws[..k]) && image == ApplyBytes(d, ws[..k])
    ensures fresh(log) && log.Running() && log.start == start && log.history == []
    ensures Snapshot(first, if k > |lh| then history else history[..durable], log.first, start)
  {
    hide Faithful, UnlistedOnDisk, CommitBytes, TxnOf, ApplyBytes, InBytes, Snapshot, RecoverReady, ByteReboots;
    hide BCache.Valid, BCache.Coherent;
    CommitDecides(start, d, TxnOf(start, lh, logical), ws, k);
    ghost var boot;
    log, boot := Reboot(image, nbuf, dev, start, size);
    CrashKeepsPrefix(first, history, durable, start, d, logical, lh, ws, k, [boot], log.cache.disk);
  }

  /** Restart on the disk of a run that was not committing: it is as the last commit left it. */
  method RestartIdle(image: seq<Block>, nbuf: nat, dev: nat, start: nat, size: nat,
                     ghost first: seq<Block>, ghost history: seq<Access>, ghost durable: nat, ghost logical: seq<Block>)
    returns (log: Log)
    requires dev != 0 && nbuf >= 2 && size >= LOGSIZE + 1 && |image| < Words.WORD_RANGE
    requires Faithful(first, history, durable, logical, image, start) && HeaderClear(start, image)
    ensures fresh(log) && log.Running() && log.start == start && log.history == []
    ensures Snapshot(first, history[..durable], log.first, start)
  {
    hide Snapshot, RecoverReady, ByteReboots, BCache.Valid, BCache.Coherent, HeaderClear;
    ClearIsReady(start, image);
    ghost var boot;
    log, boot := Reboot(image, nbuf, dev, start, size);
    IdleCrashKeepsPrefix(first, history[..durable], start, image, [boot], log.cache.disk);
  }

  /** The two halves together: run end_op's commit, cut its writes off after any `k`, reboot any number of
      times. What is found is the run with or without the operations of this commit. */
  method EndOpSurvivesCrash(log: Log, op: nat, ghost k: nat, ghost boots: seq<Boot>, ghost r: seq<Block>)
    returns (ok: bool, ghost ws: seq<(nat, Block)>)
    requires log.Running() && op < |log.ops| == 1 && log.OnlyBystanders()
    modifies log`lh, log`outstanding, log`committing, log`ops, log`durable, log.cache
    ensures ok <==> old(log.lh) == [] || HasFree(old(log.cache.bufs))
    ensures old(log.Idle()) && log.cache.nbuf > LOGSIZE ==> ok
    ensures ok ==>
              && log.Running() && log.View() == Admission.LogState([], [], false)
              && (old(log.Idle()) ==> log.AtRest({}))
              && log.cache.disk == log.cache.logical && log.durable == |log.history|
              && OutsideLogSame(old(log.cache.logical), log.cache.logical, log.start)
    ensures ok && k <= |ws| && InBytes(old(log.cache.disk), ws[..k])
            && ByteReboots(log.start, ApplyBytes(old(log.cache.disk), ws[..k]), boots, r) ==>
              && HeaderClear(log.start, r)
              && old(log.durable) <= |log.history|
              && Snapshot(log.first, if k > old(|log.lh|) then log.history else log.history[..old(log.durable)],
                          r, log.start)
  {
    hide BCache.Valid, BCache.Coherent, HeaderClear, ChangedIsListed, Counted, Admission.Invariant, Snapshot, ReadsBack;
    hide CommitBytes, UnlistedOnDisk, TxnOf, ApplyBytes, InBytes, ByteReboots, Quiet;
    SameSize(log.cache);
    ghost var d, logical, lh, durable := log.cache.disk, log.cache.logical, log.lh, log.durable;
    ok, ws := log.EndOp(op);
    if ok && k <= |ws| && InBytes(d, ws[..k]) && ByteReboots(log.start, ApplyBytes(d, ws[..k]), boots, r) {
      if lh == [] {
        assert ws[..k] == [] && ApplyBytes(d, []) == d by { NoBytes(d); }
        IdleCrashKeepsPrefix(log.first, log.history[..durable], log.start, d, boots, r);
      } else {
        CrashKeepsPrefix(log.first, log.history, durable, log.start, d, logical, lh, ws, k, boots, r);
      }
    }
  }

  lemma NoBytes(d: seq<Block>)
    ensures InBytes(d, []) && ApplyBytes(d, []) == d
  {}
}
