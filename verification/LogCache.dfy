/** The buffer cache as the log uses it: which references there are, what is pinned, and what may differ
    from disk. */
module LogCache {
  import opened Blocks
  import opened BufferCache
  import opened LogDisk
  import opened LogHistory
  import LogCrash
  import Admission = LogAdmission

  // ---- A cache at rest

  /** Nothing is locked, and the only references are one pin for each block of `pins`. */
  ghost predicate Quiet(bufs: seq<Buf>, pins: set<nat>) {
    && (forall i :: 0 <= i < |bufs| ==>
          !bufs[i].locked && bufs[i].refcnt == if bufs[i].valid && bufs[i].blockno in pins then 1 else 0)
    && (forall b :: b in pins ==> Held(bufs, b))
  }

  /** Replacing a free buffer by another free one keeps the cache at rest. */
  lemma QuietReplace(bufs: seq<Buf>, pins: set<nat>, x: nat, b: Buf)
    requires Quiet(bufs, pins) && x < |bufs| && bufs[x].refcnt == 0
    requires b.refcnt == 0 && !b.locked && b.blockno !in pins
    ensures Quiet(bufs[x := b], pins)
  {
    var now := bufs[x := b];
    forall p | p in pins ensures Held(now, p) {
      var i :| 0 <= i < |bufs| && bufs[i].valid && bufs[i].blockno == p;
      assert now[i] == bufs[i];
    }
  }

  /** Distinct cached blocks need as many buffers. */
  lemma {:induction false} PinnedCount(bufs: seq<Buf>, pins: set<nat>, k: nat)
    requires k <= |bufs| && NoAlias(bufs)
    requires forall i :: 0 <= i < k ==> bufs[i].blockno in pins && bufs[i].dev == bufs[0].dev != 0
    ensures k <= |pins|
    decreases k
  {
    if k > 0 {
      var b := bufs[k - 1].blockno;
      forall i | 0 <= i < k - 1 ensures bufs[i].blockno in pins - {b} { }
      PinnedCount(bufs, pins - {b}, k - 1);
    }
  }

  /** Blocks that are all cached outside buffer `x` take at most the other buffers. */
  lemma {:induction false} PinsFit(bufs: seq<Buf>, pins: set<nat>, x: nat, k: nat)
    requires x < k <= |bufs|
    requires forall p :: p in pins ==> exists i :: 0 <= i < k && i != x && bufs[i].blockno == p
    ensures |pins| < k
    decreases k
  {
    var last := k - 1;
    var b := bufs[last].blockno;
    if last == x {
      PinsBound(bufs, pins, last);
    } else {
      forall p | p in pins - {b} ensures exists i :: 0 <= i < last && i != x && bufs[i].blockno == p { }
      PinsFit(bufs, pins - {b}, x, last);
    }
  }

  lemma {:induction false} PinsBound(bufs: seq<Buf>, pins: set<nat>, k: nat)
    requires k <= |bufs|
    requires forall p :: p in pins ==> exists i :: 0 <= i < k && bufs[i].blockno == p
    ensures |pins| <= k
    decreases k
  {
    if k == 0 {
      assert pins == {};
    } else {
      var b := bufs[k - 1].blockno;
      forall p | p in pins - {b} ensures exists i :: 0 <= i < k - 1 && bufs[i].blockno == p { }
      PinsBound(bufs, pins - {b}, k - 1);
    }
  }

  /** At rest some buffer is free exactly when there are fewer pins than buffers. */
  lemma FreeBufferIff(bufs: seq<Buf>, pins: set<nat>, dev: nat)
    requires Quiet(bufs, pins) && NoAlias(bufs) && dev != 0
    requires forall i :: 0 <= i < |bufs| && bufs[i].valid ==> bufs[i].dev == dev
    ensures |pins| < |bufs| <==> exists i :: 0 <= i < |bufs| && bufs[i].refcnt == 0
  {
    if x :| 0 <= x < |bufs| && bufs[x].refcnt == 0 {
      forall p | p in pins ensures exists i :: 0 <= i < |bufs| && i != x && bufs[i].blockno == p {
        var i :| 0 <= i < |bufs| && bufs[i].valid && bufs[i].blockno == p;
      }
      PinsFit(bufs, pins, x, |bufs|);
    } else {
      PinnedCount(bufs, pins, |bufs|);
    }
  }

  // ---- A cache in use

  /** Every reference is accounted for: one for the holder of the lock, one for each process that waits
      for it, and one pin for each block of `pins`. A referenced buffer has been filled. */
  ghost predicate Counted(bufs: seq<Buf>, waiting: seq<nat>, pins: set<nat>) {
    && |waiting| == |bufs|
    && (forall i :: 0 <= i < |bufs| ==>
          bufs[i].refcnt == Users(bufs[i], waiting[i]) + if bufs[i].valid && bufs[i].blockno in pins then 1 else 0)
    && (forall i :: 0 <= i < |bufs| && bufs[i].refcnt > 0 ==> bufs[i].valid)
    && (forall b :: b in pins ==> Held(bufs, b))
  }

  ghost predicate NobodyWaits(waiting: seq<nat>) {
    forall i :: 0 <= i < |waiting| ==> waiting[i] == 0
  }

  lemma SameSize(c: BCache)
    requires c.Coherent()
    ensures |c.logical| == |c.disk|
  {}

  /** Nobody waits for a buffer without references. */
  lemma NoUsers(c: BCache)
    requires c.Valid() && Quiet(c.bufs, {})
    ensures NobodyWaits(c.waiting)
  {
    hide Linked, NoAlias, OrderAfter;
  }

  /** One buffer and its queue change, and the count still fits. */
  lemma CountedUpdate(bufs: seq<Buf>, waiting: seq<nat>, pins: set<nat>, i: nat, nb: Buf, w: nat)
    requires Counted(bufs, waiting, pins) && i < |bufs|
    requires nb.refcnt == Users(nb, w) + if nb.valid && nb.blockno in pins then 1 else 0
    requires nb.refcnt > 0 ==> nb.valid
    requires bufs[i].refcnt > 0 ==> nb.valid && nb.blockno == bufs[i].blockno
    ensures Counted(bufs[i := nb], waiting[i := w], pins)
  {
    var now := bufs[i := nb];
    forall b | b in pins ensures Held(now, b) {
      var j :| 0 <= j < |bufs| && bufs[j].valid && bufs[j].blockno == b;
      assert now[j].valid && now[j].blockno == b;
    }
  }

  /** A free buffer that a read may take is not that of a pinned block. */
  lemma FreeIsUnpinned(bufs: seq<Buf>, waiting: seq<nat>, pins: set<nat>, i: nat, b: nat, dev: nat)
    requires Counted(bufs, waiting, pins) && NoAlias(bufs) && dev != 0
    requires forall j :: 0 <= j < |bufs| && bufs[j].valid ==> bufs[j].dev == dev
    requires i < |bufs| && bufs[i].refcnt == 0 && (Cached(bufs, dev, b) ==> CachedAt(bufs, i, dev, b))
    ensures b !in pins
  {
    if b in pins {
      var j: nat :| j < |bufs| && bufs[j].valid && bufs[j].blockno == b;
      assert CachedAt(bufs, j, dev, b);
    }
  }

  /** Pinning a held buffer adds its block to the pins. */
  lemma CountedPin(bufs: seq<Buf>, waiting: seq<nat>, pins: set<nat>, i: nat,
                   disk: seq<Block>, logical: seq<Block>, dev: nat)
    requires Counted(bufs, waiting, pins) && i < |bufs| && bufs[i].valid && bufs[i].blockno !in pins
    requires NoAlias(bufs) && dev != 0 && CoherentWith(bufs, disk, logical, dev)
    ensures Counted(bufs[i := bufs[i].(refcnt := bufs[i].refcnt + 1)], waiting, pins + {bufs[i].blockno})
  {
    var now := bufs[i := bufs[i].(refcnt := bufs[i].refcnt + 1)];
    forall j | 0 <= j < |bufs| && j != i && bufs[j].valid ensures bufs[j].blockno != bufs[i].blockno {
      assert j < i || i < j;
    }
    forall b | b in pins + {bufs[i].blockno} ensures Held(now, b) {
      if b == bufs[i].blockno {
        assert now[i].valid;
      } else {
        var j :| 0 <= j < |bufs| && bufs[j].valid && bufs[j].blockno == b;
        assert now[j].valid && now[j].blockno == b;
      }
    }
  }

  /** When nothing is locked and nobody waits, only the pins are left. */
  lemma CountedIsQuiet(bufs: seq<Buf>, waiting: seq<nat>, pins: set<nat>)
    requires |waiting| == |bufs| && NobodyWaits(waiting)
    ensures Quiet(bufs, pins) <==> Counted(bufs, waiting, pins) && forall i :: 0 <= i < |bufs| ==> !bufs[i].locked
  {}

  lemma TakeKeeps(was: seq<Buf>, queues: seq<nat>, now: seq<Buf>, queuesNow: seq<nat>, dev: nat, b: nat, v: Block,
                  ok: bool, i: nat, waits: bool, disk: seq<Block>, lh: seq<nat>)
    requires ReadOutcome(was, queues, now, queuesNow, dev, b, v, ok, i, waits)
    requires Counted(was, queues, SetOf(lh)) && ChangedIsListed(was, disk, lh) && NoAlias(was) && dev != 0
    requires forall j :: 0 <= j < |was| && was[j].valid ==> was[j].dev == dev
    ensures Counted(now, queuesNow, SetOf(lh)) && ChangedIsListed(now, disk, lh)
  {
    hide SetOf, NoAlias, ChangedIsListed;
    if ok {
      if was[i].refcnt == 0 {
        FreeIsUnpinned(was, queues, SetOf(lh), i, b, dev);
      }
      var w := if waits then queues[i] + 1 else queues[i];
      CountedUpdate(was, queues, SetOf(lh), i, now[i], w);
      ChangedUpdate(was, disk, lh, i, now[i]);
      assert queuesNow == queues[i := w] && now == was[i := now[i]];
    }
  }

  lemma ReleaseKeeps(bufs: seq<Buf>, waiting: seq<nat>, disk: seq<Block>, lh: seq<nat>, i: nat)
    requires Counted(bufs, waiting, SetOf(lh)) && ChangedIsListed(bufs, disk, lh)
    requires i < |bufs| && bufs[i].locked && bufs[i].valid && bufs[i].blockno < |disk|
    requires bufs[i].data != disk[bufs[i].blockno] ==> bufs[i].blockno in lh
    ensures bufs[i].refcnt == 1 ==> bufs[i].data == disk[bufs[i].blockno]
    ensures bufs[i].refcnt >= 1
    ensures var now := bufs[i := bufs[i].(refcnt := bufs[i].refcnt - 1, locked := false)];
            Counted(now, waiting, SetOf(lh)) && ChangedIsListed(now, disk, lh)
  {
    assert bufs[i].blockno in lh ==> bufs[i].blockno in SetOf(lh);
    hide SetOf, ChangedIsListed;
    var nb := bufs[i].(refcnt := bufs[i].refcnt - 1, locked := false);
    CountedUpdate(bufs, waiting, SetOf(lh), i, nb, waiting[i]);
    ChangedUpdate(bufs, disk, lh, i, nb);
    assert waiting[i := waiting[i]] == waiting;
  }

  lemma TookIt(was: seq<Buf>, queues: seq<nat>, now: seq<Buf>, queuesNow: seq<nat>, dev: nat, b: nat, v: Block, i: nat)
    requires ReadOutcome(was, queues, now, queuesNow, dev, b, v, true, i, false)
    ensures i < |now| == |was| && now[i].data == v
  {}

  // ---- The transaction in memory

  function SetOf(list: seq<nat>): set<nat> {
    set k | 0 <= k < |list| :: list[k]
  }

  /** The first `k` log slots hold the first `k` blocks of `data`. */
  ghost predicate Slotted(logical: seq<Block>, start: nat, data: seq<Block>, k: nat) {
    && k <= |data| <= LOGSIZE && start + LOGSIZE < |logical|
    && forall i :: 0 <= i < k ==> logical[start + 1 + i] == data[i]
  }

  /** `t` is the transaction of the listed blocks with their current contents. */
  ghost predicate Describes(logical: seq<Block>, start: nat, lh: seq<nat>, t: LogCrash.Txn) {
    && t.start == start && t.blocks == lh && |t.data| == |lh|
    && forall k :: 0 <= k < |lh| ==> lh[k] < |logical| && logical[lh[k]] == t.data[k]
  }

  /** Distinct lists: one element fewer, one pin fewer. */
  lemma SetOfTail(list: seq<nat>, k: nat)
    requires k < |list| && Admission.Distinct(list)
    ensures list[k] in SetOf(list[k..])
    ensures SetOf(list[k + 1..]) == SetOf(list[k..]) - {list[k]}
    ensures |SetOf(list[k + 1..])| < |SetOf(list[k..])|
  {
    assert list[k..][0] == list[k];
    forall x | x in SetOf(list[k..]) - {list[k]} ensures x in SetOf(list[k + 1..]) {
      var i :| 0 <= i < |list[k..]| && list[k..][i] == x;
      assert list[k + 1..][i - 1] == x;
    }
    forall x | x in SetOf(list[k + 1..]) ensures x in SetOf(list[k..]) && x != list[k] {
      var i :| 0 <= i < |list[k + 1..]| && list[k + 1..][i] == x;
      assert list[k..][i + 1] == x;
    }
  }

  lemma SetOfSnoc(list: seq<nat>, b: nat)
    ensures SetOf(list + [b]) == SetOf(list) + {b}
  {
    var now := list + [b];
    assert now[|list|] == b;
    forall x | x in SetOf(list) ensures x in SetOf(now) {
      var k :| 0 <= k < |list| && list[k] == x;
      assert now[k] == x;
    }
  }

  /** A released buffer differs from disk only if its block is listed. */
  ghost predicate ChangedIsListed(bufs: seq<Buf>, disk: seq<Block>, lh: seq<nat>) {
    forall i :: 0 <= i < |bufs| && bufs[i].valid && !bufs[i].locked ==>
      bufs[i].blockno < |disk| && (bufs[i].data == disk[bufs[i].blockno] || bufs[i].blockno in lh)
  }

  lemma ChangedUpdate(bufs: seq<Buf>, disk: seq<Block>, lh: seq<nat>, i: nat, nb: Buf)
    requires ChangedIsListed(bufs, disk, lh) && i < |bufs|
    requires nb.locked || (nb.blockno < |disk| && (nb.data == disk[nb.blockno] || nb.blockno in lh))
    ensures ChangedIsListed(bufs[i := nb], disk, lh)
  {}

  lemma {:induction false} SetOfBound(list: seq<nat>)
    ensures |SetOf(list)| <= |list|
  {
    if list != [] {
      var m := |list| - 1;
      SetOfBound(list[..m]);
      assert list == list[..m] + [list[m]];
      SetOfSnoc(list[..m], list[m]);
    }
  }

  lemma {:induction false} SetOfSize(list: seq<nat>)
    requires Admission.Distinct(list)
    ensures |SetOf(list)| == |list|
  {
    if list != [] {
      SetOfTail(list, 0);
      assert list[0..] == list;
      SetOfSize(list[1..]);
    }
  }

  // ---- A cache that the log shares with readers

  /** What is not pinned is on disk, whoever holds it. */
  ghost predicate Clean(bufs: seq<Buf>, disk: seq<Block>, pins: set<nat>) {
    forall i :: 0 <= i < |bufs| && bufs[i].valid && bufs[i].blockno !in pins ==>
      bufs[i].blockno < |disk| && bufs[i].data == disk[bufs[i].blockno]
  }

  /** Nobody holds or waits for a block of the log. */
  ghost predicate LogUnused(bufs: seq<Buf>, waiting: seq<nat>, start: nat) {
    |waiting| == |bufs| && forall i :: 0 <= i < |bufs| && Users(bufs[i], waiting[i]) > 0 ==>
      !LogCrash.InLog(start, bufs[i].blockno)
  }

  /** The cache while the log commits or recovers, with readers about: every reference is accounted for,
      what is not pinned is on disk, and the log's own blocks are left alone. */
  ghost predicate SharedBy(bufs: seq<Buf>, waiting: seq<nat>, disk: seq<Block>, start: nat, pins: set<nat>) {
    Counted(bufs, waiting, pins) && Clean(bufs, disk, pins) && LogUnused(bufs, waiting, start)
  }

  /** A buffer after its holder has let go. */
  function Released(b: Buf): Buf {
    b.(refcnt := if b.refcnt == 0 then 0 else b.refcnt - 1, locked := false)
  }

  ghost predicate OnDisk(b: Buf, disk: seq<Block>) {
    b.blockno < |disk| && b.data == disk[b.blockno]
  }

  predicate HasFree(bufs: seq<Buf>) {
    exists i :: 0 <= i < |bufs| && bufs[i].refcnt == 0
  }

  /** No process has the lock of the block's buffer. */
  predicate Unlocked(bufs: seq<Buf>, b: nat) {
    forall i :: 0 <= i < |bufs| && bufs[i].valid && bufs[i].blockno == b ==> !bufs[i].locked
  }

  /** Locks are as they were, and whoever holds or awaits a buffer has the same block with the same contents. */
  ghost predicate KeepsUsers(was: seq<Buf>, now: seq<Buf>, waiting: seq<nat>) {
    |was| == |now| == |waiting| && forall i :: 0 <= i < |was| ==>
      && now[i].locked == was[i].locked
      && (Users(was[i], waiting[i]) > 0 ==> now[i] == was[i].(refcnt := now[i].refcnt))
  }

  /** A referenced buffer keeps its block. */
  ghost predicate StaysPut(was: seq<Buf>, now: seq<Buf>) {
    |was| == |now| && forall i :: 0 <= i < |was| && was[i].refcnt > 0 ==>
      now[i].valid == was[i].valid && now[i].blockno == was[i].blockno
  }

  lemma SelfStays(bufs: seq<Buf>)
    ensures StaysPut(bufs, bufs)
  {}

  lemma KeepsSelf(bufs: seq<Buf>, waiting: seq<nat>, disk: seq<Block>, start: nat, pins: set<nat>)
    requires SharedBy(bufs, waiting, disk, start, pins)
    ensures KeepsUsers(bufs, bufs, waiting)
  {}

  lemma KeepsTwice(a: seq<Buf>, b: seq<Buf>, c: seq<Buf>, waiting: seq<nat>)
    requires KeepsUsers(a, b, waiting) && KeepsUsers(b, c, waiting)
    ensures KeepsUsers(a, c, waiting)
  {
    forall i | 0 <= i < |a| && Users(a[i], waiting[i]) > 0 ensures c[i] == a[i].(refcnt := c[i].refcnt) {
      assert Users(b[i], waiting[i]) > 0;
    }
  }

  /** Nobody holds or waits for a block of the list. */
  ghost predicate Apart(bufs: seq<Buf>, waiting: seq<nat>, list: seq<nat>) {
    |waiting| == |bufs| && forall i :: 0 <= i < |bufs| && Users(bufs[i], waiting[i]) > 0 ==> bufs[i].blockno !in list
  }

  lemma ApartKept(was: seq<Buf>, now: seq<Buf>, waiting: seq<nat>, list: seq<nat>)
    requires KeepsUsers(was, now, waiting) && Apart(was, waiting, list)
    ensures Apart(now, waiting, list)
  {
    forall i | 0 <= i < |now| && Users(now[i], waiting[i]) > 0 ensures now[i].blockno !in list {
      assert Users(was[i], waiting[i]) > 0;
    }
  }

  lemma ApartUnlocked(bufs: seq<Buf>, waiting: seq<nat>, list: seq<nat>, k: nat)
    requires Apart(bufs, waiting, list) && k < |list|
    ensures Unlocked(bufs, list[k])
  {}

  /** The buffer of a log block is free, and the block is on disk. */
  lemma LogBlockFree(bufs: seq<Buf>, waiting: seq<nat>, disk: seq<Block>, logical: seq<Block>, start: nat,
                     pins: set<nat>, dev: nat, slot: nat)
    requires SharedBy(bufs, waiting, disk, start, pins) && CoherentWith(bufs, disk, logical, dev)
    requires LogCrash.InLog(start, slot) && slot < |disk| && slot !in pins
    ensures forall i: nat :: CachedAt(bufs, i, dev, slot) ==> bufs[i].refcnt == 0
    ensures forall i :: 0 <= i < |bufs| && bufs[i].refcnt == 0 ==> !bufs[i].locked
    ensures disk[slot] == logical[slot]
  {
    if Held(bufs, slot) {
      var i :| 0 <= i < |bufs| && bufs[i].valid && bufs[i].blockno == slot;
    }
  }

  /** A pinned block has a buffer; with the lock free its references are the pin and those that wait. */
  lemma PinnedBuffer(bufs: seq<Buf>, waiting: seq<nat>, disk: seq<Block>, logical: seq<Block>, start: nat,
                     pins: set<nat>, dev: nat, home: nat) returns (k: nat)
    requires SharedBy(bufs, waiting, disk, start, pins) && CoherentWith(bufs, disk, logical, dev)
    requires home in pins && home < |disk| && Unlocked(bufs, home)
    ensures k < |bufs| == |waiting| && |disk| == |logical|
    ensures bufs[k] == Buf(dev, home, true, waiting[k] + 1, false, logical[home])
  {
    k :| k < |bufs| && bufs[k].valid && bufs[k].blockno == home;
  }

  lemma OneBuffer(bufs: seq<Buf>, dev: nat, b: nat, i: nat, j: nat)
    requires NoAlias(bufs) && dev != 0 && CachedAt(bufs, i, dev, b) && CachedAt(bufs, j, dev, b)
    ensures i == j
  {}

  lemma UnpinnedIsOnDisk(bufs: seq<Buf>, disk: seq<Block>, logical: seq<Block>, pins: set<nat>, dev: nat, b: nat)
    requires Clean(bufs, disk, pins) && CoherentWith(bufs, disk, logical, dev) && b < |disk| && b !in pins
    ensures disk[b] == logical[b]
  {
    if Held(bufs, b) {
      var i :| 0 <= i < |bufs| && bufs[i].valid && bufs[i].blockno == b;
    }
  }

  /** A free buffer now holds a log block that has been written through. */
  lemma LogBlockWritten(bufs: seq<Buf>, waiting: seq<nat>, disk: seq<Block>, logical: seq<Block>, start: nat,
                        pins: set<nat>, s: nat, nb: Buf, dev: nat)
    requires SharedBy(bufs, waiting, disk, start, pins) && s < |bufs| && bufs[s].refcnt == 0
    requires nb.valid && nb.refcnt == 0 && !nb.locked && nb.dev == dev && nb.blockno < |disk| && nb.blockno !in pins
    requires NoAlias(bufs[s := nb]) && dev != 0 && CoherentWith(bufs, disk, logical, dev)
    ensures SharedBy(bufs[s := nb], waiting, disk[nb.blockno := nb.data], start, pins)
    ensures HasFree(bufs[s := nb]) && KeepsUsers(bufs, bufs[s := nb], waiting) && StaysPut(bufs, bufs[s := nb])
  {
    var now := bufs[s := nb];
    CountedUpdate(bufs, waiting, pins, s, nb, 0);
    assert waiting[s := 0] == waiting;
    OthersElsewhere(now, s, dev);
    assert now[s].refcnt == 0;
  }

  lemma OthersElsewhere(bufs: seq<Buf>, h: nat, dev: nat)
    requires NoAlias(bufs) && h < |bufs| && bufs[h].dev == dev != 0
    requires forall i :: 0 <= i < |bufs| && bufs[i].valid ==> bufs[i].dev == dev
    ensures forall i :: 0 <= i < |bufs| && i != h && bufs[i].valid ==> bufs[i].blockno != bufs[h].blockno
  {
    forall i | 0 <= i < |bufs| && i != h && bufs[i].valid ensures bufs[i].blockno != bufs[h].blockno {
      assert i < h || h < i;
    }
  }

  lemma StillHeld(bufs: seq<Buf>, h: nat, hb: Buf, p: nat)
    requires h < |bufs| && hb.valid && hb.blockno == bufs[h].blockno && Held(bufs, p)
    ensures Held(bufs[h := hb], p)
  {
    var i :| 0 <= i < |bufs| && bufs[i].valid && bufs[i].blockno == p;
    assert bufs[h := hb][i].valid && bufs[h := hb][i].blockno == p;
  }

  /** A home block has been written through and its pin dropped. */
  lemma HomeWritten(bufs: seq<Buf>, waiting: seq<nat>, disk: seq<Block>, start: nat, pins: set<nat>,
                    h: nat, hb: Buf, dev: nat)
    requires SharedBy(bufs, waiting, disk, start, pins) && h < |bufs|
    requires bufs[h].valid && !bufs[h].locked && bufs[h].blockno in pins && bufs[h].blockno < |disk|
    requires |waiting| == |bufs| && hb == bufs[h].(refcnt := waiting[h]) && hb.dev == dev != 0 && NoAlias(bufs[h := hb])
    requires forall i :: 0 <= i < |bufs| && bufs[i].valid ==> bufs[i].dev == dev
    ensures SharedBy(bufs[h := hb], waiting, disk[hb.blockno := hb.data], start, pins - {hb.blockno})
    ensures KeepsUsers(bufs, bufs[h := hb], waiting)
  {
    var now, home := bufs[h := hb], hb.blockno;
    OthersElsewhere(now, h, dev);
    forall p | p in pins - {home} ensures Held(now, p) {
      StillHeld(bufs, h, hb, p);
    }
  }

  /** Both: the slot's buffer is free again and its home block is on disk. */
  lemma Installed(bufs: seq<Buf>, waiting: seq<nat>, disk: seq<Block>, logical: seq<Block>, start: nat,
                  pins: set<nat>, s: nat, slot: nat, h: nat, home: nat, v: Block, dev: nat)
    requires SharedBy(bufs, waiting, disk, start, pins) && CoherentWith(bufs, disk, logical, dev) && dev != 0
    requires |waiting| == |bufs| && s < |bufs| && h < |bufs| && s != h && bufs[s].refcnt == 0
    requires slot < |disk| && slot !in pins && disk[slot] == v && home in pins && home < |disk|
    requires bufs[h] == Buf(dev, home, true, waiting[h] + 1, false, v)
    requires NoAlias(bufs[s := Buf(dev, slot, true, 0, false, v)][h := Buf(dev, home, true, waiting[h], false, v)])
    ensures var now := bufs[s := Buf(dev, slot, true, 0, false, v)][h := Buf(dev, home, true, waiting[h], false, v)];
            && SharedBy(now, waiting, disk[home := v], start, pins - {home})
            && HasFree(now) && KeepsUsers(bufs, now, waiting) && StaysPut(bufs, now)
  {
    hide SharedBy, KeepsUsers, CoherentWith;
    var sb, hb := Buf(dev, slot, true, 0, false, v), Buf(dev, home, true, waiting[h], false, v);
    var mid := bufs[s := sb];
    var now := mid[h := hb];
    SameKeys(now, mid);
    LogBlockWritten(bufs, waiting, disk, logical, start, pins, s, sb, dev);
    assert disk[slot := v] == disk;
    DevsKept(bufs, disk, logical, s, sb, dev, mid);
    HomeWritten(mid, waiting, disk, start, pins, h, hb, dev);
    KeepsTwice(bufs, mid, now, waiting);
    assert now[s].refcnt == 0;
  }

  lemma SameKeys(was: seq<Buf>, now: seq<Buf>)
    requires NoAlias(was) && |was| == |now|
    requires forall i :: 0 <= i < |was| ==> now[i].dev == was[i].dev && now[i].blockno == was[i].blockno
    ensures NoAlias(now)
  {}

  lemma DevsKept(bufs: seq<Buf>, disk: seq<Block>, logical: seq<Block>, s: nat, sb: Buf, dev: nat, now: seq<Buf>)
    requires CoherentWith(bufs, disk, logical, dev) && s < |bufs| && sb.dev == dev && now == bufs[s := sb]
    ensures forall i :: 0 <= i < |now| && now[i].valid ==> now[i].dev == dev
  {}

  /** One buffer and its queue change, and the log can still share the cache. */
  lemma SharedUpdate(bufs: seq<Buf>, waiting: seq<nat>, disk: seq<Block>, start: nat, pins: set<nat>,
                     i: nat, nb: Buf, w: nat)
    requires SharedBy(bufs, waiting, disk, start, pins) && i < |bufs|
    requires nb.refcnt == Users(nb, w) + if nb.valid && nb.blockno in pins then 1 else 0
    requires nb.refcnt > 0 ==> nb.valid
    requires bufs[i].refcnt > 0 ==> nb.valid && nb.blockno == bufs[i].blockno
    requires nb.valid && nb.blockno !in pins ==> OnDisk(nb, disk)
    requires Users(nb, w) > 0 ==> !LogCrash.InLog(start, nb.blockno)
    ensures SharedBy(bufs[i := nb], waiting[i := w], disk, start, pins)
  {
    CountedUpdate(bufs, waiting, pins, i, nb, w);
    hide Counted;
  }

  /** A reader takes a block outside the log, or joins the queue for it. */
  lemma SharedTake(was: seq<Buf>, queues: seq<nat>, now: seq<Buf>, queuesNow: seq<nat>, dev: nat, b: nat,
                   i: nat, waits: bool, disk: seq<Block>, logical: seq<Block>, start: nat, pins: set<nat>)
    requires SharedBy(was, queues, disk, start, pins) && CoherentWith(was, disk, logical, dev)
    requires NoAlias(was) && dev != 0 && LogHistory.Home(start, |disk|, b)
    requires ReadOutcome(was, queues, now, queuesNow, dev, b, logical[b], true, i, waits)
    ensures SharedBy(now, queuesNow, disk, start, pins) && i < |now|
    ensures !waits ==> now[i].locked && now[i].blockno == b && now[i].data == logical[b]
  {
    hide NoAlias, Counted, Clean, LogUnused;
    var w := if waits then queues[i] + 1 else queues[i];
    CountAt(was, queues, pins, i);
    if was[i].refcnt == 0 {
      FreeIsUnpinned(was, queues, pins, i, b, dev);
    }
    if b !in pins {
      UnpinnedIsOnDisk(was, disk, logical, pins, dev, b);
    }
    SharedUpdate(was, queues, disk, start, pins, i, now[i], w);
    assert queuesNow == queues[i := w] && now == was[i := now[i]];
  }

  lemma CountAt(bufs: seq<Buf>, waiting: seq<nat>, pins: set<nat>, i: nat)
    requires Counted(bufs, waiting, pins) && i < |bufs|
    ensures |waiting| == |bufs| && (bufs[i].refcnt > 0 ==> bufs[i].valid)
    ensures bufs[i].refcnt == Users(bufs[i], waiting[i]) + if bufs[i].valid && bufs[i].blockno in pins then 1 else 0
  {}

  /** What holds of a buffer that someone holds or awaits. */
  lemma SharedAt(bufs: seq<Buf>, waiting: seq<nat>, disk: seq<Block>, logical: seq<Block>, start: nat, pins: set<nat>,
                 dev: nat, i: nat)
    requires SharedBy(bufs, waiting, disk, start, pins) && CoherentWith(bufs, disk, logical, dev)
    requires i < |bufs| == |waiting| && Users(bufs[i], waiting[i]) > 0
    ensures bufs[i].valid && bufs[i].dev == dev && LogHistory.Home(start, |disk|, bufs[i].blockno)
    ensures |disk| == |logical| && bufs[i].data == logical[bufs[i].blockno]
    ensures bufs[i].refcnt == Users(bufs[i], waiting[i]) + if bufs[i].blockno in pins then 1 else 0
    ensures bufs[i].blockno !in pins ==> OnDisk(bufs[i], disk)
  {}

  // ---- How many buffers are in use

  /** Holders of the first k buffers' locks and those who wait for them. */
  ghost function UserCount(bufs: seq<Buf>, waiting: seq<nat>, k: nat): nat
    requires k <= |bufs| == |waiting|
  {
    if k == 0 then 0 else UserCount(bufs, waiting, k - 1) + Users(bufs[k - 1], waiting[k - 1])
  }

  lemma {:induction false} UserCountUpdate(bufs: seq<Buf>, waiting: seq<nat>, i: nat, nb: Buf, w: nat, k: nat)
    requires k <= |bufs| == |waiting| && i < |bufs|
    ensures UserCount(bufs[i := nb], waiting[i := w], k) + (if i < k then Users(bufs[i], waiting[i]) else 0)
         == UserCount(bufs, waiting, k) + if i < k then Users(nb, w) else 0
    decreases k
  {
    hide Users;
    if k > 0 {
      UserCountUpdate(bufs, waiting, i, nb, w, k - 1);
    }
  }

  lemma {:induction false} UserCountKept(was: seq<Buf>, now: seq<Buf>, waiting: seq<nat>, k: nat)
    requires KeepsUsers(was, now, waiting) && k <= |was|
    ensures UserCount(now, waiting, k) == UserCount(was, waiting, k)
    decreases k
  {
    if k > 0 {
      UserCountKept(was, now, waiting, k - 1);
    }
  }

  /** Buffers that nobody uses but the log has pinned are as many as their blocks. */
  lemma {:induction false} UsersAndPins(bufs: seq<Buf>, waiting: seq<nat>, pins: set<nat>, k: nat, dev: nat)
    requires k <= |bufs| == |waiting| && NoAlias(bufs) && dev != 0
    requires forall i :: 0 <= i < k && Users(bufs[i], waiting[i]) == 0 ==> bufs[i].dev == dev && bufs[i].blockno in pins
    ensures k <= UserCount(bufs, waiting, k) + |pins|
    decreases k
  {
    if k > 0 {
      var last := k - 1;
      var rest := if Users(bufs[last], waiting[last]) > 0 then pins else pins - {bufs[last].blockno};
      UsersAndPins(bufs, waiting, rest, last, dev);
    }
  }

  /** With fewer users and pins than buffers one is free. */
  lemma RoomLeft(bufs: seq<Buf>, waiting: seq<nat>, disk: seq<Block>, logical: seq<Block>, start: nat, pins: set<nat>,
                 dev: nat)
    requires SharedBy(bufs, waiting, disk, start, pins) && CoherentWith(bufs, disk, logical, dev)
    requires NoAlias(bufs) && dev != 0
    ensures |waiting| == |bufs|
    ensures UserCount(bufs, waiting, |bufs|) + |pins| < |bufs| ==> HasFree(bufs)
  {
    if !HasFree(bufs) {
      UsersAndPins(bufs, waiting, pins, |bufs|, dev);
    }
  }

  /** With nothing pinned the disk is the block map. */
  lemma AllOnDisk(bufs: seq<Buf>, disk: seq<Block>, logical: seq<Block>, dev: nat)
    requires Clean(bufs, disk, {}) && CoherentWith(bufs, disk, logical, dev)
    ensures disk == logical
  {
    forall b | 0 <= b < |disk| ensures disk[b] == logical[b] { UnpinnedIsOnDisk(bufs, disk, logical, {}, dev, b); }
  }

  lemma UnlistedIsOnDisk(bufs: seq<Buf>, waiting: seq<nat>, disk: seq<Block>, logical: seq<Block>, start: nat,
                         dev: nat, lh: seq<nat>)
    requires SharedBy(bufs, waiting, disk, start, SetOf(lh)) && CoherentWith(bufs, disk, logical, dev)
    ensures UnlistedOnDisk(disk, logical, lh)
  {
    forall b: nat | b < |disk| && b !in lh ensures disk[b] == logical[b] {
      UnpinnedIsOnDisk(bufs, disk, logical, SetOf(lh), dev, b);
    }
  }

  /** Processes that hold or await buffers while the last operation ends: they have changed nothing, and
      use neither listed blocks nor the log's. */
  ghost predicate Bystanders(bufs: seq<Buf>, waiting: seq<nat>, disk: seq<Block>, start: nat, lh: seq<nat>) {
    && Apart(bufs, waiting, lh) && LogUnused(bufs, waiting, start)
    && forall i :: 0 <= i < |bufs| && bufs[i].locked && bufs[i].valid ==>
         bufs[i].blockno < |disk| && bufs[i].data == disk[bufs[i].blockno]
  }

  lemma InUseIsShared(bufs: seq<Buf>, waiting: seq<nat>, disk: seq<Block>, start: nat, lh: seq<nat>)
    requires Counted(bufs, waiting, SetOf(lh)) && ChangedIsListed(bufs, disk, lh)
    requires Bystanders(bufs, waiting, disk, start, lh)
    ensures SharedBy(bufs, waiting, disk, start, SetOf(lh)) && Apart(bufs, waiting, lh)
  {}

  lemma SharedIsInUse(bufs: seq<Buf>, waiting: seq<nat>, disk: seq<Block>, start: nat)
    requires SharedBy(bufs, waiting, disk, start, {})
    ensures Counted(bufs, waiting, SetOf([])) && ChangedIsListed(bufs, disk, [])
  {
    assert SetOf([]) == {};
  }

  /** At rest nobody is about. */
  lemma IdleBystanders(bufs: seq<Buf>, waiting: seq<nat>, disk: seq<Block>, start: nat, lh: seq<nat>)
    requires |waiting| == |bufs| && NobodyWaits(waiting) && forall i :: 0 <= i < |bufs| ==> !bufs[i].locked
    ensures Bystanders(bufs, waiting, disk, start, lh)
  {}

  /** A commit that found nobody about leaves the cache at rest. */
  lemma StillAtRest(was: seq<Buf>, now: seq<Buf>, waiting: seq<nat>, disk: seq<Block>, start: nat, pins: set<nat>)
    requires SharedBy(now, waiting, disk, start, pins) && KeepsUsers(was, now, waiting) && NobodyWaits(waiting)
    requires forall i :: 0 <= i < |was| ==> !was[i].locked
    ensures Quiet(now, pins)
  {
    CountedIsQuiet(now, waiting, pins);
  }

  lemma RestIsShared(bufs: seq<Buf>, waiting: seq<nat>, disk: seq<Block>, logical: seq<Block>, start: nat, dev: nat)
    requires |waiting| == |bufs| && Quiet(bufs, {}) && NobodyWaits(waiting) && CoherentWith(bufs, disk, logical, dev)
    ensures SharedBy(bufs, waiting, disk, start, {})
  {
    CountedIsQuiet(bufs, waiting, {});
  }

  /** A cache at rest with no pins is one in use, for an empty log. */
  lemma RestInUse(bufs: seq<Buf>, waiting: seq<nat>, disk: seq<Block>, logical: seq<Block>, dev: nat)
    requires |waiting| == |bufs| && NobodyWaits(waiting) && Quiet(bufs, {}) && CoherentWith(bufs, disk, logical, dev)
    ensures Counted(bufs, waiting, SetOf([])) && ChangedIsListed(bufs, disk, [])
  {
    assert SetOf([]) == {};
    CountedIsQuiet(bufs, waiting, {});
  }

  /** With no pins at rest the disk is the block map. */
  lemma RestOnDisk(bufs: seq<Buf>, disk: seq<Block>, logical: seq<Block>, dev: nat)
    requires Quiet(bufs, {}) && CoherentWith(bufs, disk, logical, dev)
    ensures disk == logical
  {
    forall b | 0 <= b < |disk| ensures disk[b] == logical[b] {
      UnpinnedOnDisk(bufs, {}, disk, logical, dev, b);
    }
  }

  /** At rest an unpinned block is the same in the block map and on disk. */
  lemma UnpinnedOnDisk(bufs: seq<Buf>, pins: set<nat>, disk: seq<Block>, logical: seq<Block>, dev: nat, b: nat)
    requires Quiet(bufs, pins) && CoherentWith(bufs, disk, logical, dev) && b < |disk| && b !in pins
    ensures disk[b] == logical[b]
  {
    if Held(bufs, b) {
      var i :| 0 <= i < |bufs| && bufs[i].valid && bufs[i].blockno == b;
    }
  }

  lemma QuietPair(bufs: seq<Buf>, s: nat, h: nat, x: Buf, y: Buf)
    requires Quiet(bufs, {}) && s < |bufs| && h < |bufs|
    requires x.refcnt == 0 && !x.locked && y.refcnt == 0 && !y.locked
    ensures Quiet(bufs[s := x][h := y], {})
  {}

  lemma SlotUnpinned(lh: seq<nat>, k: nat, start: nat, size: nat)
    requires |lh| <= LOGSIZE && k < |lh| && forall i :: 0 <= i < |lh| ==> LogHistory.Home(start, size, lh[i])
    ensures start + 1 + k !in SetOf(lh[k..])
  {}

  lemma Settle(b: seq<Buf>, s: nat, h: nat, x1: Buf, y1: Buf, x2: Buf, y2: Buf)
    requires s < |b| && h < |b| && s != h
    ensures b[s := x1][h := y1][s] == x1
    ensures b[s := x1][h := y1][s := x2][h := y2] == b[s := x2][h := y2]
  {}

  lemma Collapse(b: seq<Buf>, i: nat, j: nat, x: Buf, y: Buf, z: Buf)
    requires i < |b| && j < |b| && i != j
    ensures b[i := x][j := y][j := b[j]][i := z] == b[i := z]
  {}

  lemma Overwrite(b: seq<Buf>, i: nat, j: nat, x: Buf, y: Buf, z: Buf)
    requires i < |b| && j < |b| && i != j
    ensures b[i := x][j := y][i := z] == b[j := y][i := z]
    ensures b[i := x][j := y][i] == x && b[i := x][j] == b[j]
  {}
}
