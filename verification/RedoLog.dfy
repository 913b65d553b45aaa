/** The log at work over the buffer cache: log_write, commit and recovery as the kernel runs them. */
module RedoLog {
  import opened Blocks
  import opened BufferCache
  import opened LogDisk
  import opened LogHistory
  import opened LogCache
  import LogHeader
  import LogCrash
  import Admission = LogAdmission
  import Words

  class Log {
    const cache: BCache
    const start: nat
    /** log.size: the header and room for blocks. */
    const size: nat
    var lh: seq<nat>
    var outstanding: nat
    var committing: bool
    /** For each operation in progress, the blocks it has logged. */
    ghost var ops: seq<set<nat>>
    /** The block map that recovery left, every access to it since, and how many of them the last commit
        made durable. */
    ghost var first: seq<Block>
    ghost var history: seq<Access>
    ghost var durable: nat

    ghost predicate Home(b: nat)
      reads cache
    {
      LogHistory.Home(start, |cache.disk|, b)
    }

    ghost predicate Layout()
      reads this, cache
    {
      && cache.Valid() && cache.Coherent()
      && start + LOGSIZE < |cache.disk| < Words.WORD_RANGE && size >= LOGSIZE + 1
      && |lh| <= LOGSIZE && Admission.Distinct(lh)
      && (forall k :: 0 <= k < |lh| ==> Home(lh[k]))
    }

    /** Nothing is locked or waited for; just the blocks of `pins` are pinned. */
    ghost predicate AtRest(pins: set<nat>)
      reads cache
    {
      Quiet(cache.bufs, pins) && NobodyWaits(cache.waiting)
    }

    /** No process holds a buffer's lock or waits for one. */
    ghost predicate Idle()
      reads cache
    {
      NobodyWaits(cache.waiting) && forall i :: 0 <= i < |cache.bufs| ==> !cache.bufs[i].locked
    }

    /** What the log needs of the cache while it commits or recovers. */
    ghost predicate Shared(pins: set<nat>)
      reads this, cache
    {
      SharedBy(cache.bufs, cache.waiting, cache.disk, start, pins)
    }

    /** Between calls: references are accounted for, the listed blocks are pinned, a released buffer that
        differs from disk is listed, and the log on disk is empty. */
    ghost predicate InUse()
      reads this, cache
    {
      && Layout()
      && outstanding == |ops| && Admission.Invariant(View())
      && Counted(cache.bufs, cache.waiting, SetOf(lh))
      && ChangedIsListed(cache.bufs, cache.disk, lh)
      && HeaderClear(start, cache.disk)
    }

    /** The accesses of this run, as LogHistory.Faithful says. */
    ghost predicate Running()
      reads this, cache
    {
      InUse() && Faithful(first, history, durable, cache.logical, cache.disk, start)
    }

    ghost function View(): Admission.LogState
      reads this
    {
      Admission.LogState(lh, ops, committing)
    }

    lemma InUseIsValid(i: nat)
      requires InUse() && i < cache.nbuf && Users(cache.bufs[i], cache.waiting[i]) > 0
      ensures cache.bufs[i].valid && cache.bufs[i].dev == cache.rootDev && cache.bufs[i].blockno < |cache.disk|
      ensures |cache.disk| == |cache.logical| && cache.bufs[i].data == cache.logical[cache.bufs[i].blockno]
    {
      hide Linked, NoAlias, OrderAfter, DiskIs, ChangedIsListed, HeaderClear, Admission.Invariant;
    }

    /** initlog: whatever disk a crash left, the log recovers it and starts empty. */
    constructor (c: BCache, logStart: nat, logSize: nat)
      requires c.Valid() && c.Coherent() && Quiet(c.bufs, {}) && c.nbuf >= 2
      requires RecoverReady(logStart, c.disk) && |c.disk| < Words.WORD_RANGE && logSize >= LOGSIZE + 1
      modifies c
      ensures cache == c && start == logStart && size == logSize
      ensures Running() && AtRest({}) && View() == Admission.LogState([], [], false)
      ensures c.disk == c.logical == first && history == [] && durable == 0
      ensures Recovered(start, old(c.disk), old(c.writes), c.writes, c.disk)
    {
      hide BCache.Valid, BCache.Coherent, RecoverReady, Recovered, Quiet, NobodyWaits, Faithful, InUse;
      NoUsers(c);
      ReadyFits(logStart, c.disk);
      cache, start, size := c, logStart, logSize;
      lh, outstanding, committing, ops := [], 0, false, [];
      first, history, durable := [], [], 0;
      new;
      RecoverFromLog();
    }

    // ---- What file-system operations do

    /** One pass through begin_op's loop: reserve room, or go to sleep. */
    method BeginOp() returns (admitted: bool)
      requires Running()
      modifies this`outstanding, this`ops
      ensures Running() && admitted == Admission.Admits(old(View()))
      ensures View() == if admitted then Admission.Do(old(View()), Admission.Begin) else old(View())
    {
      hide BCache.Valid, BCache.Coherent, Faithful, HeaderClear, Counted, ChangedIsListed;
      admitted := !committing && |lh| + (outstanding + 1) * Admission.MAXOPBLOCKS <= LOGSIZE;
      if admitted {
        Admission.StepKeeps(View(), Admission.Begin);
        outstanding := outstanding + 1;
        ops := ops + [{}];
      }
    }

    /** A locked buffer of a block, with the contents last given to it; or, if another process has the
        lock, a place in the queue for it. */
    method Read(b: nat) returns (ok: bool, i: nat, waits: bool)
      requires Running() && b < |cache.disk|
      modifies cache`bufs, cache`waiting, this`history
      ensures Running()
      ensures ReadOutcome(old(cache.bufs), old(cache.waiting), cache.bufs, cache.waiting, cache.rootDev, b,
                          cache.logical[b], ok, i, waits)
      ensures history == if ok && !waits then old(history) + [Saw(b, cache.bufs[i].data)] else old(history)
    {
      hide ReadOutcome, Faithful, BCache.Valid, Counted, ChangedIsListed, HeaderClear, Admission.Invariant;
      ok, i, waits := Take(b);
      if ok && !waits {
        TookIt(old(cache.bufs), old(cache.waiting), cache.bufs, cache.waiting, cache.rootDev, b, cache.logical[b], i);
        SawKeeps(first, history, durable, cache.logical, cache.disk, start, b);
        history := history + [Saw(b, cache.logical[b])];
      }
    }

    /** bread's part of a read. */
    method Take(b: nat) returns (ok: bool, i: nat, waits: bool)
      requires InUse() && b < |cache.disk|
      modifies cache`bufs, cache`waiting
      ensures InUse()
      ensures ReadOutcome(old(cache.bufs), old(cache.waiting), cache.bufs, cache.waiting, cache.rootDev, b,
                          cache.logical[b], ok, i, waits)
    {
      hide Linked, NoAlias, OrderAfter, DiskIs, OlderThan, HeaderClear, Admission.Invariant, SetOf, Counted;
      hide ChangedIsListed, ReadOutcome;
      ok, i, waits := cache.Bread(b);
      TakeKeeps(old(cache.bufs), old(cache.waiting), cache.bufs, cache.waiting, cache.rootDev, b, cache.logical[b],
                ok, i, waits, cache.disk, lh);
    }

    /** A process that waited for a buffer's lock gets it, and sees what was last given to the block. */
    method Resume(i: nat)
      requires Running() && i < cache.nbuf && cache.waiting[i] > 0 && !cache.bufs[i].locked
      modifies cache`bufs, cache`waiting, this`history
      ensures Running() && cache.waiting == old(cache.waiting)[i := old(cache.waiting)[i] - 1]
      ensures cache.bufs == old(cache.bufs)[i := old(cache.bufs)[i].(locked := true)]
      ensures history == old(history) + [Saw(cache.bufs[i].blockno, cache.bufs[i].data)]
    {
      hide Linked, NoAlias, OrderAfter, DiskIs, Faithful, HeaderClear, Admission.Invariant, SetOf, ChangedIsListed;
      hide CoherentWith;
      InUseIsValid(i);
      ghost var now := cache.bufs[i].(locked := true);
      CountedUpdate(cache.bufs, cache.waiting, SetOf(lh), i, now, cache.waiting[i] - 1);
      ChangedUpdate(cache.bufs, cache.disk, lh, i, now);
      SawKeeps(first, history, durable, cache.logical, cache.disk, start, now.blockno);
      assert now == now.(valid := true, data := cache.logical[now.blockno]);
      cache.Resume(i);
      assert cache.bufs == old(cache.bufs)[i := now];
      history := history + [Saw(now.blockno, now.data)];
    }

    /** The holder changes a block. */
    method Update(i: nat, v: Block)
      requires Running() && i < cache.nbuf && cache.bufs[i].locked
      modifies cache`bufs, cache`logical, this`history
      ensures Running()
      ensures cache.bufs == old(cache.bufs)[i := old(cache.bufs)[i].(data := v)]
      ensures cache.logical == old(cache.logical)[old(cache.bufs)[i].blockno := v]
      ensures history == old(history) + [Wrote(cache.bufs[i].blockno, v)]
    {
      hide Linked, NoAlias, OrderAfter, DiskIs, Faithful, HeaderClear, Admission.Invariant, SetOf, ChangedIsListed;
      hide CoherentWith;
      InUseIsValid(i);
      ghost var now := cache.bufs[i].(data := v);
      CountedUpdate(cache.bufs, cache.waiting, SetOf(lh), i, now, cache.waiting[i]);
      ChangedUpdate(cache.bufs, cache.disk, lh, i, now);
      WroteKeeps(first, history, durable, cache.logical, cache.disk, start, now.blockno, v);
      assert cache.waiting == cache.waiting[i := cache.waiting[i]];
      cache.Modify(i, v);
      history := history + [Wrote(now.blockno, v)];
    }

    /** Lists a held home block in the transaction and pins it, unless it is listed already. */
    method LogWrite(op: nat, i: nat)
      requires Running() && op < |ops| && |ops[op]| < Admission.MAXOPBLOCKS
      requires i < cache.nbuf && cache.bufs[i].locked && Home(cache.bufs[i].blockno)
      modifies this`lh, this`ops, cache`bufs
      ensures Running()
      ensures View() == Admission.Do(old(View()), Admission.LogWrite(op, old(cache.bufs)[i].blockno))
      ensures cache.bufs == if old(cache.bufs)[i].blockno in old(lh) then old(cache.bufs)
                            else old(cache.bufs)[i := old(cache.bufs)[i].(refcnt := old(cache.bufs)[i].refcnt + 1)]
    {
      hide Linked, OrderAfter, DiskIs, Faithful, HeaderClear, NoAlias, SetOf, CoherentWith, ChangedIsListed, Counted;
      hide Admission.Invariant, Admission.Distinct;
      var b := cache.bufs[i].blockno;
      LogWriteFits(View(), op, b, size);
      var k := Slot(b);
      InUseIsValid(i);
      ops := ops[op := ops[op] + {b}];
      if k == |lh| {
        PinNext(i);
      }
    }

    /** log_write's search: where the block is listed, or where it would be. */
    method Slot(b: nat) returns (k: nat)
      ensures k <= |lh| && b !in lh[..k] && (k < |lh| ==> lh[k] == b) && (k < |lh| <==> b in lh)
    {
      k := 0;
      while k < |lh| && lh[k] != b
        invariant 0 <= k <= |lh|
        invariant forall j :: 0 <= j < k ==> lh[j] != b
      {
        k := k + 1;
      }
    }

    method PinNext(i: nat)
      requires Layout() && Counted(cache.bufs, cache.waiting, SetOf(lh)) && ChangedIsListed(cache.bufs, cache.disk, lh)
      requires i < cache.nbuf && cache.bufs[i].locked && cache.bufs[i].valid && cache.bufs[i].blockno !in lh
      requires |lh| < LOGSIZE && Home(cache.bufs[i].blockno)
      modifies this`lh, cache`bufs
      ensures Layout() && Counted(cache.bufs, cache.waiting, SetOf(lh)) && ChangedIsListed(cache.bufs, cache.disk, lh)
      ensures lh == old(lh) + [old(cache.bufs)[i].blockno]
      ensures cache.bufs == old(cache.bufs)[i := old(cache.bufs)[i].(refcnt := old(cache.bufs)[i].refcnt + 1)]
    {
      hide Linked, OrderAfter, DiskIs, NoAlias, CoherentWith, Counted;
      SetOfSnoc(lh, cache.bufs[i].blockno);
      CountedPin(cache.bufs, cache.waiting, SetOf(lh), i, cache.disk, cache.logical, cache.rootDev);
      cache.Bpin(i);
      lh := lh + [cache.bufs[i].blockno];
    }

    /** Releases a held buffer; a changed block must have been logged first. */
    method Release(i: nat)
      requires Running() && i < cache.nbuf && cache.bufs[i].locked
      requires cache.bufs[i].data != cache.disk[cache.bufs[i].blockno] ==> cache.bufs[i].blockno in lh
      modifies cache`bufs, cache`next, cache`prev, cache`order, cache`released
      ensures Running()
      ensures cache.bufs == old(cache.bufs)[i := old(cache.bufs)[i].(refcnt := old(cache.bufs)[i].refcnt - 1,
                                                                     locked := false)]
      ensures cache.released == if old(cache.bufs)[i].refcnt == 1 then old(cache.released) + [i]
                                else old(cache.released)
    {
      hide Linked, NoAlias, OrderAfter, DiskIs, MoveToFront, Faithful, HeaderClear, Admission.Invariant, SetOf;
      hide Counted, ChangedIsListed, CoherentWith;
      InUseIsValid(i);
      ReleaseKeeps(cache.bufs, cache.waiting, cache.disk, lh, i);
      cache.Brelse(i);
    }

    // ---- Commit

    /** Reads a block of the log, which nobody else uses, into a free buffer. */
    method ReadLogBlock(slot: nat, ghost pins: set<nat>) returns (ok: bool, s: nat)
      requires cache.Valid() && cache.Coherent() && Shared(pins)
      requires LogCrash.InLog(start, slot) && slot < |cache.disk| && slot !in pins
      modifies cache`bufs, cache`waiting
      ensures cache.Valid() && cache.Coherent() && cache.waiting == old(cache.waiting)
      ensures ok <==> HasFree(old(cache.bufs))
      ensures !ok ==> cache.bufs == old(cache.bufs)
      ensures ok ==>
                && s < cache.nbuf && old(cache.bufs)[s].refcnt == 0
                && cache.bufs == old(cache.bufs)[s := Buf(cache.rootDev, slot, true, 1, true, cache.logical[slot])]
                && cache.disk[slot] == cache.logical[slot]
    {
      hide Linked, OrderAfter, DiskIs, OlderThan, NoAlias, SharedBy, CoherentWith;
      SameSize(cache);
      LogBlockFree(cache.bufs, cache.waiting, cache.disk, cache.logical, start, pins, cache.rootDev, slot);
      ghost var waits;
      ok, s, waits := cache.Bread(slot);
    }

    /** Reads a log slot and a pinned home block that nobody has locked, and locks both buffers. */
    method ReadPair(slot: nat, home: nat, ghost pins: set<nat>) returns (ok: bool, s: nat, h: nat)
      requires cache.Valid() && cache.Coherent() && Shared(pins)
      requires LogCrash.InLog(start, slot) && slot < |cache.disk| && slot !in pins
      requires home in pins && home < |cache.disk| && Unlocked(cache.bufs, home)
      modifies cache`bufs, cache`waiting
      ensures cache.Valid() && cache.Coherent() && cache.waiting == old(cache.waiting)
      ensures ok <==> HasFree(old(cache.bufs))
      ensures !ok ==> cache.bufs == old(cache.bufs)
      ensures ok ==>
                && s < cache.nbuf && h < cache.nbuf && s != h && old(cache.bufs)[s].refcnt == 0
                && old(cache.bufs)[h]
                   == Buf(cache.rootDev, home, true, cache.waiting[h] + 1, false, cache.logical[home])
                && cache.bufs
                   == old(cache.bufs)
                      [s := Buf(cache.rootDev, slot, true, 1, true, cache.logical[slot])]
                      [h := Buf(cache.rootDev, home, true, cache.waiting[h] + 2, true, cache.logical[home])]
                && cache.disk[slot] == cache.logical[slot]
    {
      hide Linked, OrderAfter, DiskIs, OlderThan, SharedBy, HasFree, NoAlias, CoherentWith, Unlocked;
      SameSize(cache);
      ghost var k := PinnedBuffer(cache.bufs, cache.waiting, cache.disk, cache.logical, start, pins, cache.rootDev,
                                  home);
      h := 0;
      ok, s := ReadLogBlock(slot, pins);
      if !ok {
        return;
      }
      ghost var b1 := cache.bufs;
      assert CachedAt(b1, k, cache.rootDev, home);
      ghost var waits;
      ok, h, waits := cache.Bread(home);
      OneBuffer(b1, cache.rootDev, home, k, h);
    }

    /** write_log's body: copies a listed block from the cache into its log slot. */
    method CopyToLog(tail: nat) returns (ok: bool)
      requires Layout() && Shared(SetOf(lh)) && tail < |lh| && Unlocked(cache.bufs, lh[tail])
      modifies cache
      ensures ok <==> HasFree(old(cache.bufs))
      ensures ok ==>
                && Layout() && Shared(SetOf(lh)) && HasFree(cache.bufs)
                && cache.waiting == old(cache.waiting) && KeepsUsers(old(cache.bufs), cache.bufs, cache.waiting)
                && StaysPut(old(cache.bufs), cache.bufs)
                && cache.disk == old(cache.disk)[start + 1 + tail := old(cache.logical)[lh[tail]]]
                && cache.logical == old(cache.logical)[start + 1 + tail := old(cache.logical)[lh[tail]]]
                && cache.writes == old(cache.writes) + [(start + 1 + tail, old(cache.logical)[lh[tail]])]
    {
      hide Linked, OrderAfter, DiskIs, NoAlias, SharedBy, CoherentWith, HasFree, Unlocked, KeepsUsers;
      hide Admission.Distinct;
      SameSize(cache);
      var slot := start + 1 + tail;
      assert Home(lh[tail]) && slot !in SetOf(lh) && lh[tail] in SetOf(lh);
      var to, from;
      ok, to, from := ReadPair(slot, lh[tail], SetOf(lh));
      if !ok {
        return;
      }
      ghost var b0, dev := old(cache.bufs), cache.rootDev;
      var v := cache.bufs[from].data;
      Collapse(b0, to, from, cache.bufs[to], cache.bufs[from], Buf(dev, slot, true, 0, false, v));
      StoreAndRelease(to, from, v);
      LogBlockWritten(b0, cache.waiting, old(cache.disk), old(cache.logical), start, SetOf(lh), to,
                      Buf(dev, slot, true, 0, false, v), dev);
    }

    /** Copies into one held buffer, writes it through, and releases both. */
    method StoreAndRelease(to: nat, from: nat, v: Block)
      requires cache.Valid() && cache.Coherent() && to < cache.nbuf && from < cache.nbuf && to != from
      requires cache.bufs[to].valid && cache.bufs[to].locked && cache.bufs[to].refcnt == 1
      requires cache.bufs[from].valid && cache.bufs[from].locked && cache.bufs[from].refcnt >= 2
      modifies cache
      ensures cache.Valid() && cache.Coherent() && cache.waiting == old(cache.waiting)
      ensures cache.bufs == old(cache.bufs)[from := Released(old(cache.bufs)[from])]
                                           [to := Released(old(cache.bufs)[to].(data := v))]
      ensures |cache.disk| == old(|cache.disk|) && old(cache.bufs)[to].blockno < |cache.disk|
      ensures cache.disk == old(cache.disk)[old(cache.bufs)[to].blockno := v]
      ensures |cache.logical| == old(|cache.logical|) == |cache.disk|
      ensures cache.logical == old(cache.logical)[old(cache.bufs)[to].blockno := v]
      ensures cache.writes == old(cache.writes) + [(old(cache.bufs)[to].blockno, v)]
    {
      hide Linked, OrderAfter, DiskIs, NoAlias, CoherentWith;
      ghost var x, y := cache.bufs[to], cache.bufs[from];
      Overwrite(cache.bufs, to, from, x.(data := v), Released(y), Released(x.(data := v)));
      StoreThrough(to, v);
      ReleasePair(from, to);
    }

    /** install_trans's body after a commit: copies a log slot to its home block and unpins it. */
    method InstallPinned(tail: nat, ghost pins: set<nat>)
      requires Layout() && Shared(pins) && HasFree(cache.bufs)
      requires tail < |lh| && lh[tail] in pins && Unlocked(cache.bufs, lh[tail])
      requires start + 1 + tail !in pins && cache.logical[start + 1 + tail] == cache.logical[lh[tail]]
      modifies cache
      ensures Layout() && Shared(pins - {lh[tail]}) && HasFree(cache.bufs)
      ensures cache.waiting == old(cache.waiting) && KeepsUsers(old(cache.bufs), cache.bufs, cache.waiting)
      ensures StaysPut(old(cache.bufs), cache.bufs)
      ensures cache.disk == old(cache.disk)[lh[tail] := cache.logical[lh[tail]]]
      ensures cache.logical == old(cache.logical)
      ensures cache.writes == old(cache.writes) + [(lh[tail], cache.logical[lh[tail]])]
    {
      hide Linked, OrderAfter, DiskIs, NoAlias, SharedBy, CoherentWith, HasFree, Unlocked, KeepsUsers, SetOf;
      hide Admission.Distinct;
      SameSize(cache);
      var slot := start + 1 + tail;
      var ok, s, h := ReadPair(slot, lh[tail], pins);
      ghost var b0, dev, home := old(cache.bufs), cache.rootDev, lh[tail];
      var v := cache.bufs[s].data;
      Settle(b0, s, h, cache.bufs[s], cache.bufs[h], Buf(dev, slot, true, 0, false, v),
             Buf(dev, home, true, cache.waiting[h], false, v));
      StoreHome(s, h, v, true);
      Installed(b0, cache.waiting, old(cache.disk), old(cache.logical), start, pins, s, slot, h, home, v, dev);
      assert old(cache.logical)[lh[tail] := v] == old(cache.logical);
    }

    /** Writes `v` to a held home buffer and through to disk, drops its pin if it has one, and
        releases it and the log slot's buffer. */
    method StoreHome(s: nat, h: nat, v: Block, pinned: bool)
      requires cache.Valid() && cache.Coherent() && h < cache.nbuf && s < cache.nbuf && h != s
      requires cache.bufs[h].valid && cache.bufs[h].locked
      requires cache.bufs[h].refcnt == cache.waiting[h] + if pinned then 2 else 1
      requires cache.bufs[s].valid && cache.bufs[s].locked && cache.bufs[s].refcnt == 1
      requires cache.bufs[s].blockno < |cache.disk| && cache.bufs[s].data == cache.disk[cache.bufs[s].blockno]
      requires cache.bufs[s].blockno != cache.bufs[h].blockno
      modifies cache
      ensures cache.Valid() && cache.Coherent() && cache.waiting == old(cache.waiting)
      ensures cache.bufs == old(cache.bufs)
                            [s := Released(old(cache.bufs)[s])]
                            [h := old(cache.bufs)[h].(refcnt := cache.waiting[h], locked := false, data := v)]
      ensures |cache.disk| == old(|cache.disk|) && old(cache.bufs)[h].blockno < |cache.disk|
      ensures cache.disk == old(cache.disk)[old(cache.bufs)[h].blockno := v]
      ensures |cache.logical| == old(|cache.logical|) == |cache.disk|
      ensures cache.logical == old(cache.logical)[old(cache.bufs)[h].blockno := v]
      ensures cache.writes == old(cache.writes) + [(old(cache.bufs)[h].blockno, v)]
    {
      hide Linked, OrderAfter, DiskIs, NoAlias, CoherentWith;
      ghost var b0, x, y := cache.bufs, cache.bufs[s], cache.bufs[h];
      ghost var y1 := y.(data := v, refcnt := cache.waiting[h] + 1);
      StoreThrough(h, v);
      if pinned {
        cache.Bunpin(h);
      }
      assert cache.bufs == b0[h := y1];
      Overwrite(b0, h, s, y1, Released(x), Released(y1));
      ReleasePair(s, h);
    }

    /** Copies into a held buffer and writes it through. */
    method StoreThrough(h: nat, v: Block)
      requires cache.Valid() && cache.Coherent() && h < cache.nbuf && cache.bufs[h].valid && cache.bufs[h].locked
      modifies cache`bufs, cache`logical, cache`disk, cache`writes
      ensures cache.Valid() && cache.Coherent()
      ensures cache.bufs == old(cache.bufs)[h := old(cache.bufs)[h].(data := v)]
      ensures |cache.disk| == old(|cache.disk|) && old(cache.bufs)[h].blockno < |cache.disk|
      ensures cache.disk == old(cache.disk)[old(cache.bufs)[h].blockno := v]
      ensures |cache.logical| == old(|cache.logical|) == |cache.disk|
      ensures cache.logical == old(cache.logical)[old(cache.bufs)[h].blockno := v]
      ensures cache.writes == old(cache.writes) + [(old(cache.bufs)[h].blockno, v)]
    {
      hide Linked, OrderAfter, DiskIs, NoAlias;
      cache.Modify(h, v);
      cache.Bwrite(h);
    }

    /** Releases two held buffers; one whose last reference goes agrees with disk. */
    method ReleasePair(s: nat, h: nat)
      requires cache.Valid() && cache.Coherent() && h < cache.nbuf && s < cache.nbuf && h != s
      requires cache.bufs[s].locked && cache.bufs[h].locked
      requires cache.bufs[s].refcnt == 1 ==> OnDisk(cache.bufs[s], cache.disk)
      requires cache.bufs[h].refcnt == 1 ==> OnDisk(cache.bufs[h], cache.disk)
      modifies cache`bufs, cache`next, cache`prev, cache`order, cache`released
      ensures cache.Valid() && cache.Coherent() && old(cache.bufs)[s].refcnt >= 1 && old(cache.bufs)[h].refcnt >= 1
      ensures cache.bufs == old(cache.bufs)[s := Released(old(cache.bufs)[s])][h := Released(old(cache.bufs)[h])]
    {
      hide Linked, OrderAfter, DiskIs, MoveToFront, NoAlias, CoherentWith;
      cache.Brelse(s);
      cache.Brelse(h);
    }

    /** write_head: the in-memory header goes to the header block. */
    method WriteHead(ghost pins: set<nat>) returns (ghost x: Block)
      requires Layout() && Shared(pins) && start !in pins && HasFree(cache.bufs)
      modifies cache
      ensures Layout() && Shared(pins) && HasFree(cache.bufs)
      ensures cache.waiting == old(cache.waiting) && KeepsUsers(old(cache.bufs), cache.bufs, cache.waiting)
      ensures StaysPut(old(cache.bufs), cache.bufs)
      ensures Words.GetWord(x, 0) == |lh| && LogHeader.HeadOf(x) == lh
      ensures cache.disk == old(cache.disk)[start := x] && cache.logical == old(cache.logical)[start := x]
      ensures cache.writes == old(cache.writes) + [(start, x)]
    {
      hide Linked, OrderAfter, DiskIs, MoveToFront, NoAlias, LogHeader.HeadOf, Words.GetWord, CoherentWith, SharedBy;
      hide Admission.Distinct, KeepsUsers, HasFree;
      SameSize(cache);
      var ok, i := ReadLogBlock(start, pins);
      var data := LogHeader.FillHead(cache.bufs[i].data, lh);
      ghost var b0 := old(cache.bufs);
      StoreThrough(i, data);
      cache.Brelse(i);
      assert cache.bufs == b0[i := Buf(cache.rootDev, start, true, 0, false, data)];
      LogBlockWritten(b0, cache.waiting, old(cache.disk), old(cache.logical), start, pins, i,
                      Buf(cache.rootDev, start, true, 0, false, data), cache.rootDev);
      x := data;
    }

    /** Partway through write_log: `k` slots filled since `logical0` and `writes0`. */
    ghost predicate Logging(t: LogCrash.Txn, k: nat, logical0: seq<Block>, writes0: seq<(nat, Block)>)
      requires k <= |t.data|
      reads this, cache
    {
      && Layout() && Shared(SetOf(lh))
      && |cache.disk| == |cache.logical| && Describes(cache.logical, start, lh, t)
      && Slotted(cache.logical, start, t.data, k)
      && OutsideLogSame(logical0, cache.logical, start)
      && cache.writes == writes0 + LogBytes(t, k)
    }

    method LogNext(tail: nat, ghost t: LogCrash.Txn, ghost logical0: seq<Block>, ghost writes0: seq<(nat, Block)>)
      returns (ok: bool)
      requires tail < |t.data| && Logging(t, tail, logical0, writes0) && tail < |lh| && Unlocked(cache.bufs, lh[tail])
      modifies cache
      ensures ok <==> HasFree(old(cache.bufs))
      ensures ok ==>
                && Logging(t, tail + 1, logical0, writes0) && HasFree(cache.bufs)
                && cache.waiting == old(cache.waiting) && KeepsUsers(old(cache.bufs), cache.bufs, cache.waiting)
                && StaysPut(old(cache.bufs), cache.bufs)
    {
      hide BCache.Valid, BCache.Coherent, SharedBy, LogBytes, Admission.Distinct, SetOf, HasFree, KeepsUsers, Unlocked;
      assert Home(lh[tail]);
      ok := CopyToLog(tail);
      if !ok {
        return;
      }
      BytesStep(t, tail);
      assert forall k :: 0 <= k < |lh| ==> Home(lh[k]);
      assert cache.writes == writes0 + (LogBytes(t, tail) + [(start + 1 + tail, t.data[tail])]);
    }

    lemma StartsLogging(t: LogCrash.Txn)
      requires Layout() && Shared(SetOf(lh)) && Describes(cache.logical, start, lh, t)
      ensures Logging(t, 0, cache.logical, cache.writes)
    {
      hide BCache.Valid, SharedBy, DiskIs, SetOf;
      SameSize(cache);
      assert LogBytes(t, 0) == [];
    }

    /** write_log: every listed block into its slot. */
    method WriteLog(ghost t: LogCrash.Txn) returns (ok: bool)
      requires Layout() && Shared(SetOf(lh)) && Describes(cache.logical, start, lh, t)
      requires |lh| > 0 && Apart(cache.bufs, cache.waiting, lh)
      modifies cache
      ensures ok <==> HasFree(old(cache.bufs))
      ensures ok ==>
                && |t.data| == |lh| && Logging(t, |lh|, old(cache.logical), old(cache.writes)) && HasFree(cache.bufs)
                && cache.waiting == old(cache.waiting) && KeepsUsers(old(cache.bufs), cache.bufs, cache.waiting)
    {
      hide BCache.Valid, BCache.Coherent, SharedBy, Logging, HasFree, KeepsUsers, Apart, Unlocked, SetOf;
      StartsLogging(t);
      KeepsSelf(cache.bufs, cache.waiting, cache.disk, start, SetOf(lh));
      var tail := 0;
      ok := true;
      while tail < |lh|
        invariant 0 <= tail <= |lh| == |t.data| && Logging(t, tail, old(cache.logical), old(cache.writes))
        invariant cache.waiting == old(cache.waiting) && KeepsUsers(old(cache.bufs), cache.bufs, cache.waiting)
        invariant if tail == 0 then cache.bufs == old(cache.bufs) else HasFree(cache.bufs) && HasFree(old(cache.bufs))
      {
        ghost var was := cache.bufs;
        ApartKept(old(cache.bufs), was, cache.waiting, lh);
        ApartUnlocked(was, cache.waiting, lh, tail);
        ok := LogNext(tail, t, old(cache.logical), old(cache.writes));
        if !ok {
          return;
        }
        KeepsTwice(old(cache.bufs), was, cache.bufs, cache.waiting);
        tail := tail + 1;
      }
    }

    /** Partway through install_trans: `k` blocks home since `writes0`, the block map unchanged. */
    ghost predicate Installing(t: LogCrash.Txn, k: nat, logical0: seq<Block>, writes0: seq<(nat, Block)>)
      requires k <= |t.data| == |t.blocks|
      reads this, cache
    {
      && Layout() && k <= |lh| && Shared(SetOf(lh[k..]))
      && |cache.disk| == |cache.logical| && cache.logical == logical0
      && Describes(cache.logical, start, lh, t) && Slotted(cache.logical, start, t.data, |lh|)
      && cache.writes == writes0 + InstallBytes(t, k)
    }

    method InstallNext(tail: nat, ghost t: LogCrash.Txn, ghost logical0: seq<Block>, ghost writes0: seq<(nat, Block)>)
      requires tail < |t.data| == |t.blocks| && Installing(t, tail, logical0, writes0) && HasFree(cache.bufs)
      requires tail < |lh| && Unlocked(cache.bufs, lh[tail])
      modifies cache
      ensures Installing(t, tail + 1, logical0, writes0) && HasFree(cache.bufs)
      ensures cache.waiting == old(cache.waiting) && KeepsUsers(old(cache.bufs), cache.bufs, cache.waiting)
      ensures StaysPut(old(cache.bufs), cache.bufs)
    {
      hide BCache.Valid, BCache.Coherent, SharedBy, InstallBytes, Admission.Distinct, HasFree, KeepsUsers, Unlocked;
      ghost var pins := SetOf(lh[tail..]);
      SetOfTail(lh, tail);
      SlotUnpinned(lh, tail, start, |cache.disk|);
      InstallPinned(tail, pins);
      BytesStep(t, tail);
      assert cache.writes == writes0 + (InstallBytes(t, tail) + [(lh[tail], t.data[tail])]);
    }

    lemma StartsInstalling(t: LogCrash.Txn)
      requires Layout() && Shared(SetOf(lh)) && |cache.disk| == |cache.logical|
      requires Describes(cache.logical, start, lh, t) && Slotted(cache.logical, start, t.data, |lh|)
      ensures Installing(t, 0, cache.logical, cache.writes)
    {
      hide BCache.Valid, BCache.Coherent, SharedBy, SetOf;
      assert lh[0..] == lh && InstallBytes(t, 0) == [];
    }

    lemma Uninstalled(t: LogCrash.Txn, logical0: seq<Block>, writes0: seq<(nat, Block)>)
      requires |lh| == |t.data| == |t.blocks| && Installing(t, |lh|, logical0, writes0)
      ensures Layout() && Shared({}) && |cache.disk| == |cache.logical| && cache.logical == logical0
      ensures cache.writes == writes0 + InstallBytes(t, |lh|)
    {
      hide BCache.Valid, BCache.Coherent, SharedBy;
      assert SetOf(lh[|lh|..]) == {};
    }

    /** install_trans(0): every slot to its home block, dropping the pins. */
    method InstallTrans(ghost t: LogCrash.Txn)
      requires Layout() && Shared(SetOf(lh)) && HasFree(cache.bufs) && Apart(cache.bufs, cache.waiting, lh)
      requires |cache.disk| == |cache.logical|
      requires Describes(cache.logical, start, lh, t) && Slotted(cache.logical, start, t.data, |lh|)
      modifies cache
      ensures Layout() && Shared({}) && |cache.disk| == |cache.logical| && HasFree(cache.bufs)
      ensures cache.waiting == old(cache.waiting) && KeepsUsers(old(cache.bufs), cache.bufs, cache.waiting)
      ensures |lh| == |t.data| == |t.blocks|
      ensures cache.logical == old(cache.logical) && cache.writes == old(cache.writes) + InstallBytes(t, |lh|)
    {
      hide BCache.Valid, BCache.Coherent, SharedBy, Installing, HasFree, KeepsUsers, Apart, Unlocked, Slotted, SetOf;
      StartsInstalling(t);
      KeepsSelf(cache.bufs, cache.waiting, cache.disk, start, SetOf(lh));
      var tail := 0;
      while tail < |lh|
        invariant 0 <= tail <= |lh| == |t.data| == |t.blocks|
        invariant Installing(t, tail, old(cache.logical), old(cache.writes)) && HasFree(cache.bufs)
        invariant cache.waiting == old(cache.waiting) && KeepsUsers(old(cache.bufs), cache.bufs, cache.waiting)
      {
        ghost var was := cache.bufs;
        ApartKept(old(cache.bufs), was, cache.waiting, lh);
        ApartUnlocked(was, cache.waiting, lh, tail);
        InstallNext(tail, t, old(cache.logical), old(cache.writes));
        KeepsTwice(old(cache.bufs), was, cache.bufs, cache.waiting);
        tail := tail + 1;
      }
      Uninstalled(t, old(cache.logical), old(cache.writes));
    }

    /** The first half of commit: the log slots, then the header that makes it a commit. */
    method Persist(ghost t: LogCrash.Txn) returns (ok: bool, ghost x: Block)
      requires Layout() && Shared(SetOf(lh)) && |lh| > 0 && Apart(cache.bufs, cache.waiting, lh)
      requires Describes(cache.logical, start, lh, t)
      modifies cache
      ensures ok <==> HasFree(old(cache.bufs))
      ensures ok ==>
                && Layout() && Shared(SetOf(lh)) && |cache.disk| == |cache.logical| && HasFree(cache.bufs)
                && cache.waiting == old(cache.waiting) && KeepsUsers(old(cache.bufs), cache.bufs, cache.waiting)
                && Describes(cache.logical, start, lh, t) && Slotted(cache.logical, start, t.data, |lh|)
                && OutsideLogSame(old(cache.logical), cache.logical, start)
                && Words.GetWord(x, 0) == |lh| && LogHeader.HeadOf(x) == lh
                && cache.writes == old(cache.writes) + LogBytes(t, |lh|) + [(start, x)]
    {
      hide BCache.Valid, BCache.Coherent, SharedBy, LogHeader.HeadOf, Words.GetWord, LogBytes, HasFree, KeepsUsers;
      hide Apart, Admission.Distinct;
      ok := WriteLog(t);
      x := Zero();
      if !ok {
        return;
      }
      ghost var was := cache.bufs;
      assert start !in SetOf(lh) by { assert forall k :: 0 <= k < |lh| ==> Home(lh[k]); }
      x := WriteHead(SetOf(lh));
      KeepsTwice(old(cache.bufs), was, cache.bufs, cache.waiting);
      assert forall k :: 0 <= k < |lh| ==> Home(lh[k]);
    }

    /** The second half of commit: blocks to their homes, then the empty header. */
    method Retire(ghost t: LogCrash.Txn) returns (ghost x: Block)
      requires Layout() && Shared(SetOf(lh)) && |lh| > 0 && HasFree(cache.bufs)
      requires Apart(cache.bufs, cache.waiting, lh) && |cache.disk| == |cache.logical|
      requires Describes(cache.logical, start, lh, t) && Slotted(cache.logical, start, t.data, |lh|)
      modifies cache, this`lh
      ensures lh == [] && Layout() && Shared({}) && cache.disk == cache.logical
      ensures cache.waiting == old(cache.waiting) && KeepsUsers(old(cache.bufs), cache.bufs, cache.waiting)
      ensures OutsideLogSame(old(cache.logical), cache.logical, start)
      ensures Words.GetWord(x, 0) == 0 && LogHeader.HeadOf(x) == [] && cache.disk[start] == x
      ensures |t.data| == |t.blocks|
      ensures cache.writes == old(cache.writes) + InstallBytes(t, |t.blocks|) + [(start, x)]
    {
      hide BCache.Valid, BCache.Coherent, SharedBy, LogHeader.HeadOf, Words.GetWord, InstallBytes, HasFree, KeepsUsers;
      hide Apart, SetOf;
      InstallTrans(t);
      ghost var was := cache.bufs;
      x := RetireHead();
      KeepsTwice(old(cache.bufs), was, cache.bufs, cache.waiting);
    }

    /** Empties the list in memory and writes its header. */
    method RetireHead() returns (ghost x: Block)
      requires Layout() && Shared({}) && HasFree(cache.bufs) && |cache.disk| == |cache.logical|
      modifies cache, this`lh
      ensures lh == [] && Layout() && Shared({}) && cache.disk == cache.logical
      ensures cache.waiting == old(cache.waiting) && KeepsUsers(old(cache.bufs), cache.bufs, cache.waiting)
      ensures OutsideLogSame(old(cache.logical), cache.logical, start)
      ensures Words.GetWord(x, 0) == 0 && LogHeader.HeadOf(x) == [] && cache.disk[start] == x
      ensures cache.writes == old(cache.writes) + [(start, x)]
    {
      hide BCache.Valid, CoherentWith, DiskIs, LogHeader.HeadOf, Words.GetWord, HasFree, KeepsUsers, Counted, Clean;
      hide LogUnused;
      lh := [];
      x := WriteHead({});
      AllOnDisk(cache.bufs, cache.disk, cache.logical, cache.rootDev);
    }

    method CommitBody(ghost t: LogCrash.Txn) returns (ok: bool, ghost ws: seq<(nat, Block)>)
      requires Layout() && Shared(SetOf(lh)) && |lh| > 0 && HeaderClear(start, cache.disk)
      requires Apart(cache.bufs, cache.waiting, lh)
      requires Describes(cache.logical, start, lh, t) && LogCrash.ValidTxn(|cache.disk|, t)
      modifies cache, this`lh
      ensures ok <==> HasFree(old(cache.bufs))
      ensures ok ==>
                && lh == [] && Layout() && Shared({}) && HeaderClear(start, cache.disk)
                && cache.waiting == old(cache.waiting) && KeepsUsers(old(cache.bufs), cache.bufs, cache.waiting)
                && cache.disk == cache.logical && OutsideLogSame(old(cache.logical), cache.logical, start)
                && cache.writes == old(cache.writes) + ws && CommitBytes(start, old(cache.disk), t, ws)
    {
      hide BCache.Valid, CoherentWith, SharedBy, LogHeader.HeadOf, Words.GetWord, ApplyBytes, InBytes, DiskIs;
      hide AbsWrites, LogBytes, InstallBytes, LogCrash.CommitWrites, LegibleHeads, HasFree, KeepsUsers, Apart, SetOf;
      ghost var d, x1, x2 := cache.disk, Zero(), Zero();
      ok, x1 := Persist(t);
      ws := [];
      if !ok {
        return;
      }
      ghost var was := cache.bufs;
      ApartKept(old(cache.bufs), was, cache.waiting, lh);
      x2 := Retire(t);
      KeepsTwice(old(cache.bufs), was, cache.bufs, cache.waiting);
      ws := WholeCommit(t, x1, x2);
      assert cache.writes == old(cache.writes) + ws;
      WholeCommitIs(t, x1, x2, d);
      DiskFollows(cache.image, old(cache.writes), d, ws, cache.disk);
    }

    /** commit, while nobody holds or awaits a listed block: goes through unless no buffer is free, the "no
        buffers" panic. It writes to disk exactly what the crash model says, in that order, changes no home
        block of the block map and nothing that anyone holds, and leaves the disk equal to the block map. */
    method Commit() returns (ok: bool, ghost ws: seq<(nat, Block)>)
      requires Layout() && Shared(SetOf(lh)) && Apart(cache.bufs, cache.waiting, lh) && HeaderClear(start, cache.disk)
      modifies cache, this`lh
      ensures ok <==> old(lh) == [] || HasFree(old(cache.bufs))
      ensures ok ==>
                && lh == [] && Layout() && Shared({}) && HeaderClear(start, cache.disk)
                && cache.waiting == old(cache.waiting) && KeepsUsers(old(cache.bufs), cache.bufs, cache.waiting)
                && cache.disk == cache.logical && OutsideLogSame(old(cache.logical), cache.logical, start)
                && cache.writes == old(cache.writes) + ws
                && if old(lh) == [] then ws == []
                   else CommitBytes(start, old(cache.disk), TxnOf(start, old(lh), old(cache.logical)), ws)
    {
      hide BCache.Valid, CoherentWith, DiskIs, LogHeader.HeadOf, Words.GetWord, HasFree, KeepsUsers, Apart, CommitBytes;
      hide Counted, Clean, LogUnused;
      SameSize(cache);
      ghost var t := TxnOf(start, lh, cache.logical);
      ok, ws := true, [];
      if |lh| > 0 {
        ok, ws := CommitBody(t);
      } else {
        assert SetOf(lh) == {};
        KeepsSelf(cache.bufs, cache.waiting, cache.disk, start, SetOf(lh));
        AllOnDisk(cache.bufs, cache.disk, cache.logical, cache.rootDev);
      }
    }

    /** Whoever holds or awaits a buffer has changed nothing, and uses neither a listed block nor the log's. */
    ghost predicate OnlyBystanders()
      reads this, cache
    {
      Bystanders(cache.bufs, cache.waiting, cache.disk, start, lh)
    }

    /** With nobody about, a buffer is free exactly when the transaction does not pin them all. */
    lemma IdleFacts()
      requires InUse() && Idle()
      ensures OnlyBystanders() && (HasFree(cache.bufs) <==> |lh| < cache.nbuf)
    {
      hide Linked, OrderAfter, DiskIs, NoAlias, SetOf, HeaderClear, ChangedIsListed, Counted, Admission.Invariant;
      IdleBystanders(cache.bufs, cache.waiting, cache.disk, start, lh);
      CountedIsQuiet(cache.bufs, cache.waiting, SetOf(lh));
      SetOfSize(lh);
      FreeBufferIff(cache.bufs, SetOf(lh), cache.rootDev);
    }

    /** end_op: the last operation out commits for all of them. Others may meanwhile hold or await blocks
        that are not listed; they keep what they have. It goes through if a buffer is free, and with nobody
        about and a buffer to spare over the log's size one always is. */
    method EndOp(op: nat) returns (ok: bool, ghost ws: seq<(nat, Block)>)
      requires Running() && op < |ops| && (|ops| == 1 ==> OnlyBystanders())
      modifies this`lh, this`outstanding, this`committing, this`ops, this`durable, cache
      ensures old(|ops|) > 1 ==> ok && Running() && View() == Admission.Do(old(View()), Admission.End(op))
      ensures old(|ops|) > 1 ==> unchanged(cache) && durable == old(durable)
      ensures old(|ops|) == 1 ==> (ok <==> old(lh) == [] || HasFree(old(cache.bufs)))
      ensures old(|ops|) == 1 && old(Idle()) ==> (ok <==> old(lh) == [] || old(|lh|) < cache.nbuf)
      ensures old(Idle()) && cache.nbuf > LOGSIZE ==> ok
      ensures old(|ops|) == 1 && ok ==>
                && Running() && View() == Admission.LogState([], [], false) && durable == |history|
                && cache.waiting == old(cache.waiting) && KeepsUsers(old(cache.bufs), cache.bufs, cache.waiting)
                && (old(Idle()) ==> AtRest({}))
                && cache.disk == cache.logical && OutsideLogSame(old(cache.logical), cache.logical, start)
                && UnlistedOnDisk(old(cache.disk), old(cache.logical), old(lh))
                && cache.writes == old(cache.writes) + ws
                && if old(lh) == [] then ws == []
                   else CommitBytes(start, old(cache.disk), TxnOf(start, old(lh), old(cache.logical)), ws)
    {
      hide BCache.Valid, BCache.Coherent, CommitBytes, TxnOf, Quiet, Counted, Faithful, HeaderClear, ChangedIsListed;
      hide SharedBy, KeepsUsers, HasFree, Bystanders, Apart, OutsideLogSame, UnlistedOnDisk, Idle, SetOf, NobodyWaits;
      hide Admission.Invariant, Admission.Distinct;
      if Idle() {
        IdleFacts();
      }
      Leave(op);
      ok, ws := true, [];
      if outstanding == 0 {
        InUseIsShared(cache.bufs, cache.waiting, cache.disk, start, lh);
        ok, ws := CommitForAll();
      }
    }

    /** end_op's first half: one operation fewer. */
    method Leave(op: nat)
      requires Running() && op < |ops|
      modifies this`outstanding, this`ops
      ensures outstanding == |ops| == old(|ops|) - 1
      ensures |ops| > 0 ==> Running() && View() == Admission.Do(old(View()), Admission.End(op))
    {
      hide BCache.Valid, BCache.Coherent, Counted, Faithful, HeaderClear, ChangedIsListed, SetOf;
      ghost var was := View();
      Admission.NoPanics(was, Admission.End(op), size);
      Admission.StepKeeps(was, Admission.End(op));
      assert !committing;
      outstanding := outstanding - 1;
      ops := ops[..op] + ops[op + 1..];
    }

    method CommitForAll() returns (ok: bool, ghost ws: seq<(nat, Block)>)
      requires Layout() && Shared(SetOf(lh)) && Apart(cache.bufs, cache.waiting, lh) && HeaderClear(start, cache.disk)
      requires Faithful(first, history, durable, cache.logical, cache.disk, start) && outstanding == 0 && ops == []
      modifies this`lh, this`committing, this`durable, cache
      ensures ok <==> old(lh) == [] || HasFree(old(cache.bufs))
      ensures ok ==>
                && Running() && View() == Admission.LogState([], [], false) && durable == |history|
                && cache.waiting == old(cache.waiting) && KeepsUsers(old(cache.bufs), cache.bufs, cache.waiting)
                && (old(Idle()) ==> AtRest({}))
                && cache.disk == cache.logical && OutsideLogSame(old(cache.logical), cache.logical, start)
                && UnlistedOnDisk(old(cache.disk), old(cache.logical), old(lh))
                && cache.writes == old(cache.writes) + ws
                && if old(lh) == [] then ws == []
                   else CommitBytes(start, old(cache.disk), TxnOf(start, old(lh), old(cache.logical)), ws)
    {
      hide BCache.Valid, CoherentWith, DiskIs, CommitBytes, TxnOf, Faithful, SharedBy, KeepsUsers, HasFree, Apart;
      hide OutsideLogSame, UnlistedOnDisk, Quiet, Counted, ChangedIsListed, SetOf, HeaderClear;
      UnlistedIsOnDisk(cache.bufs, cache.waiting, cache.disk, cache.logical, start, cache.rootDev, lh);
      ghost var idle := Idle();
      committing := true;
      ok, ws := Commit();
      committing := false;
      if ok {
        SharedIsInUse(cache.bufs, cache.waiting, cache.disk, start);
        CommitKeeps(first, history, durable, old(cache.logical), old(cache.disk), start, cache.logical);
        if idle {
          StillAtRest(old(cache.bufs), cache.bufs, cache.waiting, cache.disk, start, {});
        }
      }
      durable := |history|;
    }

    // ---- Readers while the log commits

    /** bread by a process outside any operation: the block's contents now, or a place in the queue. */
    method Look(b: nat, ghost pins: set<nat>) returns (ok: bool, i: nat, waits: bool)
      requires Layout() && Shared(pins) && Home(b)
      modifies cache`bufs, cache`waiting, this`history
      ensures Layout() && Shared(pins) && |cache.disk| == |cache.logical|
      ensures !ok ==> !waits && !HasFree(cache.bufs)
      ensures ReadOutcome(old(cache.bufs), old(cache.waiting), cache.bufs, cache.waiting, cache.rootDev, b,
                          cache.logical[b], ok, i, waits)
      ensures history == if ok && !waits then old(history) + [Saw(b, cache.logical[b])] else old(history)
    {
      hide Linked, NoAlias, OrderAfter, DiskIs, OlderThan, SharedBy, CoherentWith, Admission.Distinct;
      SameSize(cache);
      ok, i, waits := cache.Bread(b);
      if ok {
        SharedTake(old(cache.bufs), old(cache.waiting), cache.bufs, cache.waiting, cache.rootDev, b, i, waits,
                   cache.disk, cache.logical, start, pins);
        if !waits {
          history := history + [Saw(b, cache.logical[b])];
        }
      }
    }

    /** A reader that waited gets the lock, and sees the block's contents now. */
    method LookResumed(i: nat, ghost pins: set<nat>)
      requires Layout() && Shared(pins)
      requires i < cache.nbuf == |cache.bufs| == |cache.waiting| && cache.waiting[i] > 0 && !cache.bufs[i].locked
      modifies cache`bufs, cache`waiting, this`history
      ensures Layout() && Shared(pins) && Home(old(cache.bufs)[i].blockno) && |cache.disk| == |cache.logical|
      ensures cache.bufs == old(cache.bufs)[i := old(cache.bufs)[i].(locked := true)]
      ensures cache.waiting == old(cache.waiting)[i := old(cache.waiting)[i] - 1]
      ensures history == old(history) + [Saw(old(cache.bufs)[i].blockno, cache.logical[old(cache.bufs)[i].blockno])]
    {
      hide Linked, NoAlias, OrderAfter, DiskIs, SharedBy, CoherentWith, Admission.Distinct;
      SharedAt(cache.bufs, cache.waiting, cache.disk, cache.logical, start, pins, cache.rootDev, i);
      ghost var now := cache.bufs[i].(locked := true);
      SharedUpdate(cache.bufs, cache.waiting, cache.disk, start, pins, i, now, cache.waiting[i] - 1);
      cache.Resume(i);
      assert cache.bufs == old(cache.bufs)[i := now];
      history := history + [Saw(now.blockno, now.data)];
    }

    /** brelse by a reader. */
    method LookDone(i: nat, ghost pins: set<nat>)
      requires Layout() && Shared(pins) && i < cache.nbuf == |cache.bufs| && cache.bufs[i].locked
      modifies cache`bufs, cache`next, cache`prev, cache`order, cache`released
      ensures Layout() && Shared(pins)
      ensures cache.bufs == old(cache.bufs)[i := Released(old(cache.bufs)[i])]
    {
      hide Linked, NoAlias, OrderAfter, DiskIs, SharedBy, CoherentWith, MoveToFront, Admission.Distinct;
      SharedAt(cache.bufs, cache.waiting, cache.disk, cache.logical, start, pins, cache.rootDev, i);
      SharedUpdate(cache.bufs, cache.waiting, cache.disk, start, pins, i, Released(cache.bufs[i]), cache.waiting[i]);
      assert cache.waiting[i := cache.waiting[i]] == cache.waiting;
      cache.Brelse(i);
    }

    // ---- Recovery

    /** install_trans(1)'s body: copies a log slot to its home block; nothing is pinned. */
    method RecoverOne(tail: nat)
      requires Layout() && AtRest({}) && tail < |lh| && cache.nbuf >= 2
      modifies cache
      ensures Layout() && AtRest({})
      ensures cache.disk == old(cache.disk)[lh[tail] := old(cache.logical)[start + 1 + tail]]
      ensures cache.logical == old(cache.logical)[lh[tail] := old(cache.logical)[start + 1 + tail]]
      ensures cache.writes == old(cache.writes) + [(lh[tail], old(cache.logical)[start + 1 + tail])]
    {
      hide Linked, OrderAfter, DiskIs, NoAlias, Admission.Distinct, CoherentWith, Quiet;
      SameSize(cache);
      var slot := start + 1 + tail;
      assert Home(lh[tail]) && slot != lh[tail];
      var s, h := ReadBothUnpinned(slot, lh[tail]);
      ghost var b0, dev := old(cache.bufs), cache.rootDev;
      var v := cache.bufs[s].data;
      Settle(b0, s, h, cache.bufs[s], cache.bufs[h], Buf(dev, slot, true, 0, false, v),
             Buf(dev, lh[tail], true, 0, false, v));
      StoreHome(s, h, v, false);
      QuietPair(b0, s, h, Buf(dev, slot, true, 0, false, v), Buf(dev, lh[tail], true, 0, false, v));
    }

    method ReadBothUnpinned(slot: nat, home: nat) returns (s: nat, h: nat)
      requires cache.Valid() && cache.Coherent() && AtRest({}) && cache.nbuf >= 2
      requires LogCrash.InLog(start, slot) && slot < |cache.disk| && home < |cache.disk| && slot != home
      modifies cache`bufs, cache`waiting
      ensures cache.Valid() && cache.Coherent() && cache.waiting == old(cache.waiting)
      ensures s < cache.nbuf && h < cache.nbuf && s != h
      ensures cache.bufs == old(cache.bufs)[s := Buf(cache.rootDev, slot, true, 1, true, cache.logical[slot])]
                                           [h := Buf(cache.rootDev, home, true, 1, true, cache.logical[home])]
      ensures cache.disk[slot] == cache.logical[slot]
    {
      hide Linked, OrderAfter, DiskIs, NoAlias, CoherentWith, SharedBy, OlderThan;
      SameSize(cache);
      RestIsShared(cache.bufs, cache.waiting, cache.disk, cache.logical, start, cache.rootDev);
      assert cache.bufs[0].refcnt == 0;
      var ok;
      ok, s := ReadLogBlock(slot, {});
      ghost var other := if s == 0 then 1 else 0;
      assert cache.bufs[other].refcnt == 0;
      ghost var waits;
      ok, h, waits := cache.Bread(home);
      assert h != s;
    }

    /** Partway through recovery's install. */
    ghost predicate Recovering(t: LogCrash.Txn, k: nat, writes0: seq<(nat, Block)>)
      requires k <= |t.data| == |t.blocks|
      reads this, cache
    {
      && Layout() && k <= |lh| && AtRest({}) && |cache.disk| == |cache.logical|
      && t.start == start && t.blocks == lh && Slotted(cache.logical, start, t.data, |lh|)
      && cache.writes == writes0 + InstallBytes(t, k)
    }

    method RecoverNext(tail: nat, ghost t: LogCrash.Txn, ghost writes0: seq<(nat, Block)>)
      requires tail < |t.data| == |t.blocks| && Recovering(t, tail, writes0) && cache.nbuf >= 2
      modifies cache
      ensures Recovering(t, tail + 1, writes0) && |cache.disk| == old(|cache.disk|)
    {
      hide Linked, OrderAfter, DiskIs, NoAlias, CoherentWith, Quiet, InstallBytes, Admission.Distinct;
      assert Home(lh[tail]);
      RecoverOne(tail);
      BytesStep(t, tail);
      assert cache.writes == writes0 + (InstallBytes(t, tail) + [(lh[tail], t.data[tail])]);
    }

    /** recover_from_log: reads the header, installs what it lists, clears it. The disk writes are
        those of the crash model, in that order. A new run starts. */
    method RecoverFromLog()
      requires Layout() && AtRest({}) && lh == [] && cache.nbuf >= 2 && RecoverReady(start, cache.disk)
      requires outstanding == 0 && ops == [] && !committing
      modifies this`lh, this`first, this`history, this`durable, cache
      ensures Running() && lh == [] && AtRest({})
      ensures cache.disk == cache.logical == first && history == [] && durable == 0
      ensures Recovered(start, old(cache.disk), old(cache.writes), cache.writes, cache.disk)
    {
      hide Linked, NoAlias, OrderAfter, DiskIs, MoveToFront, LogHeader.HeadOf, Words.GetWord, AbsWrites, Quiet;
      RestOnDisk(cache.bufs, cache.disk, cache.logical, cache.rootDev);
      ghost var t := LogCrash.LoggedTxn(AbsDisk(start, cache.disk), start);
      ghost var writes0 := cache.writes;
      ReadHeader();
      assert Recovering(t, 0, writes0) by { assert InstallBytes(t, 0) == []; }
      hide Recovering;
      var tail := 0;
      while tail < |lh|
        invariant 0 <= tail <= |lh| == |t.data| == |t.blocks| && Recovering(t, tail, writes0)
      {
        RecoverNext(tail, t, writes0);
        tail := tail + 1;
      }
      ghost var ws := FinishRecovery(t, writes0);
      DiskFollows(cache.image, writes0, old(cache.disk), ws, cache.disk);
      assert cache.writes[|writes0|..] == ws;
      StartRun();
    }

    /** read_head into the in-memory header. */
    method ReadHeader()
      requires Layout() && AtRest({}) && cache.nbuf >= 1 && RecoverReady(start, cache.logical)
      modifies this`lh, cache`bufs, cache`waiting, cache`next, cache`prev, cache`order, cache`released
      ensures Layout() && AtRest({}) && lh == LogHeader.HeadOf(cache.logical[start])
    {
      hide Linked, OrderAfter, DiskIs, MoveToFront, NoAlias, LogHeader.HeadOf, Words.GetWord, CoherentWith, SharedBy;
      hide RecoverReady, Admission.Distinct;
      SameSize(cache);
      RestIsShared(cache.bufs, cache.waiting, cache.disk, cache.logical, start, cache.rootDev);
      assert cache.bufs[0].refcnt == 0;
      var ok, i := ReadLogBlock(start, {});
      ReadyHead(start, cache.logical);
      lh := LogHeader.ReadHead(cache.bufs[i].data);
      ghost var nb := cache.bufs[i].(refcnt := 0, locked := false);
      cache.Brelse(i);
      assert cache.bufs == old(cache.bufs)[i := nb];
      QuietReplace(old(cache.bufs), {}, i, nb);
    }

    method FinishRecovery(ghost t: LogCrash.Txn, ghost writes0: seq<(nat, Block)>) returns (ghost ws: seq<(nat, Block)>)
      requires |t.data| == |t.blocks| == |lh| && Recovering(t, |lh|, writes0) && cache.nbuf >= 1
      modifies this`lh, cache
      ensures lh == [] && Layout() && AtRest({}) && cache.disk == cache.logical && HeaderClear(start, cache.disk)
      ensures cache.writes == writes0 + ws && LegibleHeads(start, ws)
      ensures AbsWrites(start, ws) == LogCrash.InstallWrites(t) + [LogCrash.Head([])]
    {
      hide Linked, OrderAfter, DiskIs, NoAlias, LogHeader.HeadOf, Words.GetWord, InstallBytes, AbsWrites, LegibleHeads;
      hide LogCrash.InstallWrites;
      assert forall k :: 0 <= k < |lh| ==> Home(lh[k]);
      InstallBytesAbs(t);
      ghost var x := RetireHeadAlone();
      ws := InstallBytes(t, |t.blocks|) + [(start, x)];
      assert cache.writes == writes0 + ws;
      CommitLegible(t, x, x, |cache.disk|);
      AbsConcat(start, InstallBytes(t, |t.blocks|), [(start, x)]);
      AbsHead(start, x);
    }

    method RetireHeadAlone() returns (ghost x: Block)
      requires Layout() && AtRest({}) && cache.nbuf >= 1 && |cache.disk| == |cache.logical|
      modifies this`lh, cache
      ensures lh == [] && Layout() && AtRest({}) && cache.disk == cache.logical && |cache.disk| == old(|cache.disk|)
      ensures Words.GetWord(x, 0) == 0 && LogHeader.HeadOf(x) == [] && cache.disk[start] == x
      ensures cache.writes == old(cache.writes) + [(start, x)]
    {
      hide Linked, NoAlias, OrderAfter, DiskIs, CoherentWith, SharedBy, KeepsUsers, LogHeader.HeadOf, Words.GetWord;
      RestIsShared(cache.bufs, cache.waiting, cache.disk, cache.logical, start, cache.rootDev);
      assert cache.bufs[0].refcnt == 0;
      x := RetireHead();
      StillAtRest(old(cache.bufs), cache.bufs, cache.waiting, cache.disk, start, {});
    }

    ghost method StartRun()
      requires Layout() && AtRest({}) && lh == [] && cache.disk == cache.logical && HeaderClear(start, cache.disk)
      requires outstanding == 0 && ops == [] && !committing
      modifies this`first, this`history, this`durable
      ensures Running() && first == cache.logical && history == [] && durable == 0
    {
      hide Linked, OrderAfter, DiskIs, NoAlias, HeaderClear;
      first, history, durable := cache.logical, [], 0;
      RestInUse(cache.bufs, cache.waiting, cache.disk, cache.logical, cache.rootDev);
    }
  }

  /** log_write has room, and keeps the books in order. */
  lemma LogWriteFits(s: Admission.LogState, op: nat, b: nat, size: nat)
    requires Admission.Invariant(s) && op < |s.ops| && |s.ops[op]| < Admission.MAXOPBLOCKS && size >= LOGSIZE + 1
    ensures |s.lh| < LOGSIZE && |s.lh| < size - 1 && |s.ops| >= 1
    ensures Admission.Invariant(Admission.Do(s, Admission.LogWrite(op, b)))
    ensures Admission.Distinct(Admission.Do(s, Admission.LogWrite(op, b)).lh)
  {
    Admission.NoPanics(s, Admission.LogWrite(op, b), size);
    Admission.StepKeeps(s, Admission.LogWrite(op, b));
  }
}
