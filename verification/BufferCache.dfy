/** The buffer cache: a pool of buffers on a circular doubly linked list kept in order of last use. */
module BufferCache {
  import opened Blocks

  /** `locked` is the buffer's sleep lock. */
  datatype Buf = Buf(dev: nat, blockno: nat, valid: bool, refcnt: nat, locked: bool, data: Block)

  // ---- The circular list

  /** The list as walked from the head and back to it. */
  function Chain(head: nat, order: seq<nat>): seq<nat> {
    [head] + order + [head]
  }

  ghost predicate Distinct(order: seq<nat>) {
    forall j, k :: 0 <= j < k < |order| ==> order[j] != order[k]
  }

  ghost predicate Below(head: nat, order: seq<nat>) {
    forall k :: 0 <= k < |order| ==> order[k] < head
  }

  /** The next and prev links of the head and the listed buffers form one circle in this order. */
  ghost predicate Linked(head: nat, order: seq<nat>, next: seq<nat>, prev: seq<nat>) {
    && |next| == head + 1 && |prev| == head + 1
    && Below(head, order) && Distinct(order)
    && (forall k :: 0 <= k <= |order| ==> Step(Chain(head, order), k, next, prev))
  }

  ghost predicate Step(c: seq<nat>, k: nat, next: seq<nat>, prev: seq<nat>)
    requires k + 1 < |c|
  {
    && c[k] < |next| && c[k + 1] < |prev|
    && next[c[k]] == c[k + 1] && prev[c[k + 1]] == c[k]
  }

  lemma ChainPositions(head: nat, order: seq<nat>, j: nat, k: nat)
    requires Below(head, order) && Distinct(order) && j <= |order| && k <= |order|
    ensures Chain(head, order)[j] == Chain(head, order)[k] <==> j == k
    ensures Chain(head, order)[j + 1] == Chain(head, order)[k + 1] <==> j == k
  {}

  /** Linking `b` in right behind the head puts it first in the order. */
  lemma PushFrontLinks(head: nat, order: seq<nat>, next: seq<nat>, prev: seq<nat>, b: nat)
    requires Linked(head, order, next, prev) && b < head && b !in order
    ensures var f := next[head];
            f <= head &&
            Linked(head, [b] + order, next[b := f][head := b], prev[b := head][f := b])
  {
    var c, c' := Chain(head, order), Chain(head, [b] + order);
    var f := next[head];
    assert Step(c, 0, next, prev);
    var next', prev' := next[b := f][head := b], prev[b := head][f := b];
    forall k | 0 <= k <= |order| + 1 ensures Step(c', k, next', prev') {
      if k >= 1 {
        assert c'[k + 1] == c[k] && (k >= 2 ==> c'[k] == c[k - 1]);
        assert Step(c, k - 1, next, prev);
        ChainPositions(head, order, k - 1, 0);
      }
    }
  }

  /** Unlinking the buffer at position `p` takes just it out of the order. */
  lemma UnlinkLinks(head: nat, order: seq<nat>, next: seq<nat>, prev: seq<nat>, p: nat)
    requires Linked(head, order, next, prev) && p < |order|
    ensures var b := order[p];
            && |next| == head + 1 && |prev| == head + 1 && b < head && next[b] <= head && prev[b] <= head
            && b !in order[..p] + order[p + 1..]
            && Linked(head, order[..p] + order[p + 1..], next[prev[b] := next[b]], prev[next[b] := prev[b]])
  {
    var b := order[p];
    var rest := order[..p] + order[p + 1..];
    var c, c' := Chain(head, order), Chain(head, rest);
    assert Step(c, p, next, prev) && Step(c, p + 1, next, prev);
    assert c[p + 1] == b;
    var next', prev' := next[prev[b] := next[b]], prev[next[b] := prev[b]];
    forall k | 0 <= k <= |rest| ensures Step(c', k, next', prev') {
      var j := if k < p then k else k + 1;
      assert Step(c, j, next, prev);
      assert c'[k] == c[if k <= p then k else k + 1] && c'[k + 1] == c[if k < p then k + 1 else k + 2];
      ChainPositions(head, order, j, p);
      ChainPositions(head, order, j, p + 1);
    }
  }

  /** The list order after a release to zero. */
  function MoveToFront(order: seq<nat>, b: nat): seq<nat>
    requires b in order
  {
    var p := IndexOf(order, b);
    [b] + order[..p] + order[p + 1..]
  }

  function IndexOf(order: seq<nat>, b: nat): (p: nat)
    requires b in order
    ensures p < |order| && order[p] == b && b !in order[..p]
  {
    if order[0] == b then 0 else 1 + IndexOf(order[1..], b)
  }

  // ---- List order is order of last release

  /** The list after a run of releases to zero, oldest first. */
  function AfterReleases(order: seq<nat>, released: seq<nat>): (r: seq<nat>)
    requires Distinct(order) && forall i :: 0 <= i < |released| ==> released[i] in order
    ensures Distinct(r) && |r| == |order| && forall a :: a in order <==> a in r
    decreases |released|
  {
    if released == [] then order
    else
      var n := |released| - 1;
      var before := AfterReleases(order, released[..n]);
      MoveToFrontPermutes(before, released[n]);
      MoveToFront(before, released[n])
  }

  /** When buffer `a` was last released, or -1. */
  function LastRelease(released: seq<nat>, a: nat): (t: int)
    ensures -1 <= t < |released|
    ensures t >= 0 ==> released[t] == a
    ensures forall k :: t < k < |released| ==> released[k] != a
  {
    if released == [] then -1
    else if released[|released| - 1] == a then |released| - 1
    else LastRelease(released[..|released| - 1], a)
  }

  lemma MoveToFrontPermutes(order: seq<nat>, b: nat)
    requires Distinct(order) && b in order
    ensures Distinct(MoveToFront(order, b)) && |MoveToFront(order, b)| == |order|
    ensures forall a :: a in order <==> a in MoveToFront(order, b)
  {
    var p := IndexOf(order, b);
    assert order == order[..p] + [b] + order[p + 1..];
  }

  /** The position of a buffer is where it sits in a duplicate-free list. */
  lemma IndexIs(order: seq<nat>, b: nat, p: nat)
    requires Distinct(order) && p < |order| && order[p] == b
    ensures IndexOf(order, b) == p
  {}

  /** Moving `b` to the front puts it before all others and leaves their relative order alone. */
  lemma MoveToFrontOrder(order: seq<nat>, b: nat, a: nat)
    requires Distinct(order) && b in order && a in order
    ensures a in MoveToFront(order, b)
    ensures IndexOf(MoveToFront(order, b), a) ==
            if a == b then 0
            else if IndexOf(order, a) < IndexOf(order, b) then IndexOf(order, a) + 1
            else IndexOf(order, a)
  {
    MoveToFrontPermutes(order, b);
    var r, p, q := MoveToFront(order, b), IndexOf(order, b), IndexOf(order, a);
    IndexIs(r, a, if a == b then 0 else if q < p then q + 1 else q);
  }

  predicate Precedes(order: seq<nat>, a: nat, b: nat)
    requires a in order && b in order
  {
    IndexOf(order, a) < IndexOf(order, b)
  }

  lemma MoveToFrontPrecedes(order: seq<nat>, m: nat, a: nat, b: nat)
    requires Distinct(order) && m in order && a in order && b in order && a != b
    ensures a in MoveToFront(order, m) && b in MoveToFront(order, m)
    ensures Precedes(MoveToFront(order, m), a, b) <==> m == a || (m != b && Precedes(order, a, b))
  {
    MoveToFrontOrder(order, m, a);
    MoveToFrontOrder(order, m, b);
  }

  /** After any run of releases the list is sorted by last release, most recent first; buffers never
      released keep their initial order behind the others. */
  lemma {:induction false} OrderIsLastRelease(order: seq<nat>, released: seq<nat>, a: nat, b: nat)
    requires Distinct(order) && a in order && b in order && a != b
    requires forall i :: 0 <= i < |released| ==> released[i] in order
    ensures var ta, tb := LastRelease(released, a), LastRelease(released, b);
            Precedes(AfterReleases(order, released), a, b) <==> ta > tb || (ta == tb && Precedes(order, a, b))
    decreases |released|
  {
    hide MoveToFront, Distinct, Precedes;
    if released != [] {
      var n := |released| - 1;
      OrderIsLastRelease(order, released[..n], a, b);
      MoveToFrontPrecedes(AfterReleases(order, released[..n]), released[n], a, b);
    }
  }

  // ---- The cache

  /** References of processes that hold the buffer's lock or wait for it. */
  function Users(b: Buf, waiting: nat): nat {
    waiting + if b.locked then 1 else 0
  }

  ghost predicate NoAlias(bufs: seq<Buf>) {
    forall i, j :: 0 <= i < j < |bufs| && bufs[i].dev != 0 ==>
      !(bufs[i].dev == bufs[j].dev && bufs[i].blockno == bufs[j].blockno)
  }

  ghost predicate CachedAt(bufs: seq<Buf>, i: nat, dev: nat, blockno: nat) {
    i < |bufs| && bufs[i].dev == dev && bufs[i].blockno == blockno
  }

  lemma RecycleKeepsNoAlias(bufs: seq<Buf>, i: nat, b: Buf)
    requires NoAlias(bufs) && i < |bufs|
    requires forall j: nat :: !CachedAt(bufs, j, b.dev, b.blockno)
    ensures NoAlias(bufs[i := b])
  {
    var now := bufs[i := b];
    forall j, k | 0 <= j < k < |now| && now[j].dev != 0
      ensures !(now[j].dev == now[k].dev && now[j].blockno == now[k].blockno)
    {
      assert !CachedAt(bufs, j, b.dev, b.blockno) && !CachedAt(bufs, k, b.dev, b.blockno);
    }
  }

  ghost predicate Cached(bufs: seq<Buf>, dev: nat, blockno: nat) {
    exists i: nat :: CachedAt(bufs, i, dev, blockno)
  }

  /** Buffer `i` is the least recently released buffer that nobody references. */
  ghost predicate IsVictim(bufs: seq<Buf>, order: seq<nat>, i: nat) {
    exists p :: 0 <= p < |order| && order[p] == i && VictimAt(bufs, order, p)
  }

  ghost predicate VictimAt(bufs: seq<Buf>, order: seq<nat>, p: nat)
    requires p < |order|
  {
    && order[p] < |bufs| && bufs[order[p]].refcnt == 0
    && (forall q :: p < q < |order| && order[q] < |bufs| ==> bufs[order[q]].refcnt > 0)
  }

  lemma InitialHasAll(n: nat, order: seq<nat>)
    requires |order| == n && forall k :: 0 <= k < n ==> order[k] == n - 1 - k
    ensures Distinct(order) && forall i: nat :: i in order <==> i < n
  {
    forall i: nat | i < n ensures i in order { assert order[n - 1 - i] == i; }
  }

  /** The list as binit leaves it: each buffer was put behind the head in turn. */
  function InitialOrder(n: nat): (order: seq<nat>)
    ensures |order| == n && Distinct(order) && forall i: nat :: i in order <==> i < n
  {
    var order := seq<nat>(n, i requires 0 <= i < n => n - 1 - i);
    InitialHasAll(n, order);
    order
  }

  /** The list after a run of releases of buffers 0..n-1. */
  ghost function OrderAfter(n: nat, released: seq<nat>): (r: seq<nat>)
    requires forall k :: 0 <= k < |released| ==> released[k] < n
    ensures |r| == n && Distinct(r) && forall i: nat :: i in r <==> i < n
  {
    AfterReleases(InitialOrder(n), released)
  }

  lemma OrderAfterRelease(n: nat, released: seq<nat>, b: nat)
    requires (forall k :: 0 <= k < |released| ==> released[k] < n) && b < n
    ensures OrderAfter(n, released + [b]) == MoveToFront(OrderAfter(n, released), b)
  {
    assert (released + [b])[..|released|] == released;
  }

  /** Buffer `i` was given up before `j`; of two that never were, the lower numbered comes first. */
  predicate OlderThan(released: seq<nat>, i: nat, j: nat) {
    var ti, tj := LastRelease(released, i), LastRelease(released, j);
    ti < tj || (ti == tj && i < j)
  }

  /** In a list kept by releases, the later of two buffers is the older one. */
  lemma LaterIsOlder(n: nat, released: seq<nat>, p: nat, q: nat)
    requires (forall k :: 0 <= k < |released| ==> released[k] < n) && p < q < n
    ensures OlderThan(released, OrderAfter(n, released)[q], OrderAfter(n, released)[p])
  {
    hide AfterReleases;
    var order, start := OrderAfter(n, released), InitialOrder(n);
    var i, j := order[q], order[p];
    IndexIs(order, i, q);
    IndexIs(order, j, p);
    OrderIsLastRelease(start, released, j, i);
    InitialPlaces(n, i);
    InitialPlaces(n, j);
  }

  lemma InitialPlaces(n: nat, i: nat)
    requires i < n
    ensures IndexOf(InitialOrder(n), i) == n - 1 - i
  {
    IndexIs(InitialOrder(n), i, n - 1 - i);
  }

  /** What a miss evicts: of all unreferenced buffers the one given up the longest ago. */
  lemma VictimIsOldest(bufs: seq<Buf>, released: seq<nat>, i: nat)
    requires forall k :: 0 <= k < |released| ==> released[k] < |bufs|
    requires IsVictim(bufs, OrderAfter(|bufs|, released), i)
    ensures forall j: nat :: j < |bufs| && j != i && bufs[j].refcnt == 0 ==> OlderThan(released, i, j)
  {
    hide OrderAfter, OlderThan, Distinct;
    var n, order := |bufs|, OrderAfter(|bufs|, released);
    var q :| 0 <= q < |order| && order[q] == i && VictimAt(bufs, order, q);
    forall j: nat | j < n && j != i && bufs[j].refcnt == 0 ensures OlderThan(released, i, j) {
      assert j in order;
      var p :| 0 <= p < |order| && order[p] == j;
      LaterIsOlder(n, released, p, q);
    }
  }

  // ---- Disk writes

  ghost predicate InBytes(d: seq<Block>, ws: seq<(nat, Block)>) {
    forall i :: 0 <= i < |ws| ==> ws[i].0 < |d|
  }

  /** The bytes on disk after a run of block writes. */
  ghost function ApplyBytes(d: seq<Block>, ws: seq<(nat, Block)>): (r: seq<Block>)
    requires InBytes(d, ws)
    ensures |r| == |d|
    decreases |ws|
  {
    if ws == [] then d else ApplyBytes(d, ws[..|ws| - 1])[ws[|ws| - 1].0 := ws[|ws| - 1].1]
  }

  lemma {:induction false} BytesConcat(d: seq<Block>, a: seq<(nat, Block)>, b: seq<(nat, Block)>)
    requires InBytes(d, a) && InBytes(d, b)
    ensures InBytes(d, a + b) && ApplyBytes(d, a + b) == ApplyBytes(ApplyBytes(d, a), b)
    decreases |b|
  {
    if b == [] {
      assert a + b == a;
    } else {
      var n := |b| - 1;
      assert (a + b)[..|a + b| - 1] == a + b[..n];
      BytesConcat(d, a, b[..n]);
    }
  }

  /** The disk is what the writes so far made of the image the cache started with. */
  ghost predicate DiskIs(image: seq<Block>, writes: seq<(nat, Block)>, disk: seq<Block>) {
    InBytes(image, writes) && disk == ApplyBytes(image, writes)
  }

  lemma WriteKeepsDiskIs(image: seq<Block>, writes: seq<(nat, Block)>, disk: seq<Block>, b: nat, v: Block)
    requires DiskIs(image, writes, disk) && b < |disk|
    ensures DiskIs(image, writes + [(b, v)], disk[b := v])
  {
    assert (writes + [(b, v)])[..|writes|] == writes;
  }

  /** A later disk is the earlier one with the writes in between made to it. */
  lemma DiskFollows(image: seq<Block>, writes: seq<(nat, Block)>, was: seq<Block>, ws: seq<(nat, Block)>,
                    now: seq<Block>)
    requires DiskIs(image, writes, was) && DiskIs(image, writes + ws, now)
    ensures InBytes(was, ws) && now == ApplyBytes(was, ws)
  {
    forall i | 0 <= i < |ws| ensures ws[i].0 < |image| { assert (writes + ws)[|writes| + i] == ws[i]; }
    BytesConcat(image, writes, ws);
  }

  /** Some valid buffer holds block `b`. */
  ghost predicate Held(bufs: seq<Buf>, b: nat) {
    exists i :: 0 <= i < |bufs| && bufs[i].valid && bufs[i].blockno == b
  }

  /** Cached blocks are the logical ones, uncached blocks are on disk, and nothing that could be
      recycled differs from disk. */
  ghost predicate CoherentWith(bufs: seq<Buf>, disk: seq<Block>, logical: seq<Block>, dev: nat) {
    && |logical| == |disk|
    && (forall i :: 0 <= i < |bufs| && bufs[i].valid ==>
          && bufs[i].dev == dev && bufs[i].blockno < |disk|
          && bufs[i].data == logical[bufs[i].blockno]
          && (bufs[i].refcnt == 0 ==> bufs[i].data == disk[bufs[i].blockno]))
    && (forall b :: 0 <= b < |disk| && !Held(bufs, b) ==> disk[b] == logical[b])
  }

  /** Changing only lock and count of a buffer keeps coherence, if a freed buffer agrees with disk. */
  lemma RecountKeepsCoherence(bufs: seq<Buf>, i: nat, n: nat, locked: bool,
                              disk: seq<Block>, logical: seq<Block>, dev: nat)
    requires CoherentWith(bufs, disk, logical, dev) && i < |bufs|
    requires n == 0 && bufs[i].valid ==> bufs[i].data == disk[bufs[i].blockno]
    ensures CoherentWith(bufs[i := bufs[i].(refcnt := n, locked := locked)], disk, logical, dev)
  {
    var now := bufs[i := bufs[i].(refcnt := n, locked := locked)];
    forall b: nat | Held(bufs, b) ensures Held(now, b) {
      var j :| 0 <= j < |bufs| && bufs[j].valid && bufs[j].blockno == b;
      assert now[j].valid && now[j].blockno == b;
    }
  }

  /** Recycling a free buffer loses nothing: it agreed with disk. */
  lemma RecycleKeepsCoherence(bufs: seq<Buf>, i: nat, blockno: nat,
                              disk: seq<Block>, logical: seq<Block>, dev: nat)
    requires CoherentWith(bufs, disk, logical, dev) && i < |bufs| && bufs[i].refcnt == 0
    ensures CoherentWith(bufs[i := Buf(dev, blockno, false, 1, true, bufs[i].data)], disk, logical, dev)
  {
    var now := bufs[i := Buf(dev, blockno, false, 1, true, bufs[i].data)];
    forall b: nat | Held(bufs, b) ensures Held(now, b) || (b < |disk| && disk[b] == logical[b]) {
      var j :| 0 <= j < |bufs| && bufs[j].valid && bufs[j].blockno == b;
      assert j != i ==> now[j].valid && now[j].blockno == b;
    }
  }

  /** Filling a referenced invalid buffer from disk, when no other buffer holds the block. */
  lemma FillKeepsCoherence(bufs: seq<Buf>, i: nat, disk: seq<Block>, logical: seq<Block>, dev: nat)
    requires CoherentWith(bufs, disk, logical, dev) && NoAlias(bufs) && dev != 0
    requires i < |bufs| && !bufs[i].valid && bufs[i].dev == dev && bufs[i].blockno < |disk| && bufs[i].refcnt > 0
    ensures disk[bufs[i].blockno] == logical[bufs[i].blockno]
    ensures CoherentWith(bufs[i := bufs[i].(data := disk[bufs[i].blockno], valid := true)], disk, logical, dev)
  {
    var b0 := bufs[i].blockno;
    var now := bufs[i := bufs[i].(data := disk[b0], valid := true)];
    assert !Held(bufs, b0);
    forall b: nat | Held(bufs, b) ensures Held(now, b) {
      var j :| 0 <= j < |bufs| && bufs[j].valid && bufs[j].blockno == b;
      assert now[j].valid && now[j].blockno == b;
    }
  }

  /** Changing a referenced valid buffer changes the block map at that block and nowhere else. */
  lemma ModifyKeepsCoherence(bufs: seq<Buf>, i: nat, v: Block, disk: seq<Block>, logical: seq<Block>, dev: nat)
    requires CoherentWith(bufs, disk, logical, dev) && NoAlias(bufs) && dev != 0
    requires i < |bufs| && bufs[i].valid && bufs[i].refcnt > 0
    ensures CoherentWith(bufs[i := bufs[i].(data := v)], disk, logical[bufs[i].blockno := v], dev)
  {
    var now := bufs[i := bufs[i].(data := v)];
    assert now[i].valid;
    forall b: nat | Held(bufs, b) ensures Held(now, b) {
      var j :| 0 <= j < |bufs| && bufs[j].valid && bufs[j].blockno == b;
      assert now[j].valid && now[j].blockno == b;
    }
  }

  /** Writing a referenced buffer through to disk. */
  lemma WriteKeepsCoherence(bufs: seq<Buf>, i: nat, disk: seq<Block>, logical: seq<Block>, dev: nat)
    requires CoherentWith(bufs, disk, logical, dev) && NoAlias(bufs) && dev != 0
    requires i < |bufs| && bufs[i].valid && bufs[i].refcnt > 0
    ensures CoherentWith(bufs, disk[bufs[i].blockno := bufs[i].data], logical, dev)
  {
    assert Held(bufs, bufs[i].blockno);
    forall j | 0 <= j < |bufs| && bufs[j].valid && bufs[j].refcnt == 0
      ensures bufs[j].blockno != bufs[i].blockno
    {
      assert i != j;
    }
  }

  /** What a read of block b does to buffers and queues. It fails only if the block has no buffer and no
      buffer is free; it waits if the block's buffer is locked; otherwise it locks and fills one. */
  ghost predicate ReadOutcome(was: seq<Buf>, queues: seq<nat>, now: seq<Buf>, queuesNow: seq<nat>,
                              dev: nat, b: nat, v: Block, ok: bool, i: nat, waits: bool)
  {
    && (ok <==> Cached(was, dev, b) || exists j :: 0 <= j < |was| && was[j].refcnt == 0)
    && (!ok ==> !waits && now == was && queuesNow == queues)
    && (ok ==>
          && i < |was| == |queues| && (CachedAt(was, i, dev, b) || was[i].refcnt == 0)
          && (Cached(was, dev, b) ==> CachedAt(was, i, dev, b))
          && (waits <==> was[i].locked)
          && queuesNow == (if waits then queues[i := queues[i] + 1] else queues)
          && now == was[i := if waits then was[i].(refcnt := was[i].refcnt + 1)
                             else Buf(dev, b, true, was[i].refcnt + 1, true, v)])
  }

  class BCache {
    const nbuf: nat
    const rootDev: nat
    var next: seq<nat>
    var prev: seq<nat>
    var bufs: seq<Buf>
    var disk: seq<Block>
    /** Buffers from most to least recently used. */
    ghost var order: seq<nat>
    /** Every release of a buffer's last reference, oldest first. */
    ghost var released: seq<nat>
    /** For each buffer, the processes asleep on its lock. */
    var waiting: seq<nat>
    /** The plain block map that cache and disk together stand for. */
    ghost var logical: seq<Block>
    /** The disk as the cache found it, and every block write since, oldest first. */
    ghost const image: seq<Block>
    ghost var writes: seq<(nat, Block)>

    ghost predicate Valid()
      reads this
    {
      && rootDev != 0
      && |bufs| == nbuf && |waiting| == nbuf
      && Linked(nbuf, order, next, prev)
      && (forall k :: 0 <= k < |released| ==> released[k] < nbuf) && order == OrderAfter(nbuf, released)
      && NoAlias(bufs)
      && (forall i :: 0 <= i < nbuf ==> bufs[i].refcnt >= Users(bufs[i], waiting[i]))
    }

    ghost predicate Coherent()
      reads this
    {
      CoherentWith(bufs, disk, logical, rootDev) && DiskIs(image, writes, disk)
    }

    constructor (n: nat, contents: seq<Block>, dev: nat)
      requires dev != 0
      ensures Valid() && Coherent()
      ensures nbuf == n && rootDev == dev && disk == logical == image == contents && writes == []
      ensures released == [] && forall i :: 0 <= i < n ==> !bufs[i].valid && bufs[i].refcnt == 0 && waiting[i] == 0
    {
      nbuf := n;
      rootDev := dev;
      disk, logical, image, writes := contents, contents, contents, [];
      bufs := seq(n, _ => Buf(0, 0, false, 0, false, Zero()));
      next, prev, order := seq(n + 1, _ => n), seq(n + 1, _ => n), [];
      released, waiting := [], seq(n, _ => 0);
      new;
      var b := 0;
      while b < nbuf
        modifies this`next, this`prev, this`order
        invariant 0 <= b <= nbuf && |order| == b
        invariant Linked(nbuf, order, next, prev)
        invariant forall i :: 0 <= i < b ==> order[i] == b - 1 - i
      {
        LinkBehindHead(b);
        b := b + 1;
      }
      assert order == InitialOrder(nbuf);
    }

    /** b->next = head.next; b->prev = head; head.next->prev = b; head.next = b */
    method LinkBehindHead(b: nat)
      requires Linked(nbuf, order, next, prev) && b < nbuf && b !in order
      modifies this`next, this`prev, this`order
      ensures Linked(nbuf, order, next, prev) && order == [b] + old(order)
    {
      PushFrontLinks(nbuf, order, next, prev, b);
      next := next[b := next[nbuf]];
      prev := prev[b := nbuf];
      prev := prev[next[nbuf] := b];
      next := next[nbuf := b];
      order := [b] + order;
    }

    /** bget's first loop, from the head on: the block's buffer, or nbuf. */
    method Lookup(dev: nat, blockno: nat) returns (i: nat)
      requires Valid()
      ensures i <= nbuf
      ensures if i < nbuf then CachedAt(bufs, i, dev, blockno) else !Cached(bufs, dev, blockno)
    {
      hide NoAlias, OrderAfter;
      i := next[nbuf];
      ghost var k := 0;
      ghost var c := Chain(nbuf, order);
      assert Step(c, 0, next, prev);
      while i != nbuf
        invariant 0 <= k <= nbuf && i == c[k + 1]
        invariant forall m :: 0 <= m < k ==> !CachedAt(bufs, order[m], dev, blockno)
        decreases nbuf - k
      {
        if bufs[i].dev == dev && bufs[i].blockno == blockno {
          return;
        }
        assert Step(c, k + 1, next, prev);
        i, k := next[i], k + 1;
      }
      forall j: nat ensures !CachedAt(bufs, j, dev, blockno) {
        if j < nbuf { assert j in order; var m :| 0 <= m < |order| && order[m] == j; }
      }
    }

    /** bget's second loop, from the tail back: the least recently used free buffer, or nbuf. */
    method OldestFree() returns (i: nat)
      requires Valid()
      ensures i <= nbuf
      ensures if i < nbuf then IsVictim(bufs, order, i) else forall j :: 0 <= j < nbuf ==> bufs[j].refcnt > 0
    {
      hide NoAlias, OrderAfter;
      ghost var c := Chain(nbuf, order);
      ghost var k := nbuf;
      assert Step(c, nbuf, next, prev);
      i := prev[nbuf];
      while i != nbuf
        invariant 0 <= k <= nbuf && i == c[k]
        invariant forall m :: k <= m < nbuf ==> bufs[order[m]].refcnt > 0
        decreases k
      {
        if bufs[i].refcnt == 0 {
          assert VictimAt(bufs, order, k - 1);
          return;
        }
        assert Step(c, k - 1, next, prev);
        i, k := prev[i], k - 1;
      }
      forall j | 0 <= j < nbuf ensures bufs[j].refcnt > 0 {
        assert j in order;
        var m :| 0 <= m < |order| && order[m] == j;
      }
    }

    /** Finds the buffer of a block, or recycles the free one given up the longest ago; either way the
        caller has a reference. It also has the buffer's lock, unless another process does: then it
        waits. No buffer at all is the "no buffers" panic. */
    method Bget(dev: nat, blockno: nat) returns (ok: bool, i: nat, waits: bool)
      requires Valid() && dev != 0
      modifies this`bufs, this`waiting
      ensures Valid()
      ensures ok <==> Cached(old(bufs), dev, blockno) || exists j :: 0 <= j < nbuf && old(bufs)[j].refcnt == 0
      ensures !ok ==> bufs == old(bufs)
      ensures ok ==> i < nbuf
      ensures waits <==> ok && Cached(old(bufs), dev, blockno) && old(bufs)[i].locked
      ensures waiting == if waits then old(waiting)[i := old(waiting)[i] + 1] else old(waiting)
      ensures ok && Cached(old(bufs), dev, blockno) ==>
                && CachedAt(old(bufs), i, dev, blockno)
                && bufs == old(bufs)[i := old(bufs)[i].(refcnt := old(bufs)[i].refcnt + 1, locked := true)]
      ensures ok && !Cached(old(bufs), dev, blockno) ==>
                && IsVictim(old(bufs), order, i)
                && (forall j: nat :: j < nbuf && j != i && old(bufs)[j].refcnt == 0 ==> OlderThan(released, i, j))
                && bufs == old(bufs)[i := Buf(dev, blockno, false, 1, true, old(bufs)[i].data)]
    {
      hide Linked, OrderAfter, OlderThan;
      waits := false;
      i := Lookup(dev, blockno);
      if i < nbuf {
        waits := bufs[i].locked;
        if waits {
          waiting := waiting[i := waiting[i] + 1];
        }
        bufs := bufs[i := bufs[i].(refcnt := bufs[i].refcnt + 1, locked := true)];
        return true, i, waits;
      }
      i := OldestFree();
      if i == nbuf {
        return false, 0, false;
      }
      VictimIsOldest(bufs, released, i);
      RecycleKeepsNoAlias(bufs, i, Buf(dev, blockno, false, 1, true, bufs[i].data));
      bufs := bufs[i := Buf(dev, blockno, false, 1, true, bufs[i].data)];
      return true, i, false;
    }

    /** The buffer of a block, with a reference for the caller. If the caller also has its lock, the
        buffer holds the block's contents: always the logical contents. */
    method Bread(blockno: nat) returns (ok: bool, i: nat, waits: bool)
      requires Valid() && Coherent() && blockno < |disk|
      modifies this`bufs, this`waiting
      ensures Valid() && Coherent()
      ensures ReadOutcome(old(bufs), old(waiting), bufs, waiting, rootDev, blockno, logical[blockno], ok, i, waits)
      ensures ok && !Cached(old(bufs), rootDev, blockno) ==>
                && IsVictim(old(bufs), order, i)
                && forall j: nat :: j < nbuf && j != i && old(bufs)[j].refcnt == 0 ==> OlderThan(released, i, j)
    {
      hide Linked, OrderAfter, OlderThan, DiskIs;
      ok, i, waits := Bget(rootDev, blockno);
      if !ok {
        return;
      }
      if CachedAt(old(bufs), i, rootDev, blockno) {
        RecountKeepsCoherence(old(bufs), i, bufs[i].refcnt, true, disk, logical, rootDev);
      } else {
        RecycleKeepsCoherence(old(bufs), i, blockno, disk, logical, rootDev);
      }
      if !waits {
        Fill(i);
      }
    }

    /** bread's last step: reads the block unless the buffer already holds it. */
    method Fill(i: nat)
      requires Valid() && Coherent() && i < nbuf && bufs[i].locked && bufs[i].dev == rootDev && bufs[i].blockno < |disk|
      modifies this`bufs
      ensures Valid() && Coherent()
      ensures bufs == old(bufs)[i := old(bufs)[i].(valid := true, data := logical[old(bufs)[i].blockno])]
    {
      hide Linked, OrderAfter, DiskIs;
      if !bufs[i].valid {
        FillKeepsCoherence(bufs, i, disk, logical, rootDev);
        bufs := bufs[i := bufs[i].(data := disk[bufs[i].blockno], valid := true)];
      }
    }

    /** A process that waited for the buffer's lock finds it free: bread returns after all. */
    method Resume(i: nat)
      requires Valid() && Coherent() && i < nbuf && waiting[i] > 0 && !bufs[i].locked
      requires bufs[i].dev == rootDev && bufs[i].blockno < |disk|
      modifies this`bufs, this`waiting
      ensures Valid() && Coherent() && waiting == old(waiting)[i := old(waiting)[i] - 1]
      ensures bufs == old(bufs)[i := old(bufs)[i].(locked := true, valid := true,
                                                   data := logical[old(bufs)[i].blockno])]
    {
      hide Linked, OrderAfter, DiskIs;
      RecountKeepsCoherence(bufs, i, bufs[i].refcnt, true, disk, logical, rootDev);
      waiting := waiting[i := waiting[i] - 1];
      bufs := bufs[i := bufs[i].(locked := true)];
      assert bufs == old(bufs)[i := old(bufs)[i].(refcnt := old(bufs)[i].refcnt, locked := true)];
      Fill(i);
    }

    /** The holder of a buffer changes its contents: the only operation that changes the block map. */
    method Modify(i: nat, v: Block)
      requires Valid() && Coherent() && i < nbuf && bufs[i].locked && bufs[i].valid
      modifies this`bufs, this`logical
      ensures Valid() && Coherent()
      ensures bufs == old(bufs)[i := old(bufs)[i].(data := v)]
      ensures logical == old(logical)[old(bufs)[i].blockno := v]
    {
      hide Linked, OrderAfter, DiskIs;
      ModifyKeepsCoherence(bufs, i, v, disk, logical, rootDev);
      logical := logical[bufs[i].blockno := v];
      bufs := bufs[i := bufs[i].(data := v)];
    }

    /** Writes a held buffer through to disk. */
    method Bwrite(i: nat)
      requires Valid() && Coherent() && i < nbuf && bufs[i].locked && bufs[i].valid
      modifies this`disk, this`writes
      ensures Valid() && Coherent()
      ensures disk == old(disk)[bufs[i].blockno := bufs[i].data]
      ensures writes == old(writes) + [(bufs[i].blockno, bufs[i].data)]
    {
      hide Linked, OrderAfter, DiskIs;
      WriteKeepsCoherence(bufs, i, disk, logical, rootDev);
      WriteKeepsDiskIs(image, writes, disk, bufs[i].blockno, bufs[i].data);
      disk := disk[bufs[i].blockno := bufs[i].data];
      writes := writes + [(bufs[i].blockno, bufs[i].data)];
    }

    /** Drops the holder's reference; the last one moves the buffer to the front of the list. A
        buffer that becomes free must agree with disk, or its contents would be lost. */
    method Brelse(i: nat)
      requires Valid() && Coherent() && i < nbuf && bufs[i].locked
      requires bufs[i].refcnt == 1 && bufs[i].valid ==> bufs[i].data == disk[bufs[i].blockno]
      modifies this`bufs, this`next, this`prev, this`order, this`released
      ensures Valid() && Coherent()
      ensures bufs == old(bufs)[i := old(bufs)[i].(refcnt := old(bufs)[i].refcnt - 1, locked := false)]
      ensures released == if old(bufs)[i].refcnt == 1 then old(released) + [i] else old(released)
      ensures i in old(order)
      ensures order == if old(bufs)[i].refcnt == 1 then MoveToFront(old(order), i) else old(order)
    {
      hide Linked, OrderAfter, DiskIs, MoveToFront, CoherentWith, NoAlias;
      Drop(i);
      if bufs[i].refcnt == 0 {
        OrderAfterRelease(nbuf, released, i);
        Relink(i);
        released := released + [i];
      }
    }

    /** brelse's first half: releasesleep, then one reference fewer. */
    method Drop(i: nat)
      requires Valid() && Coherent() && i < nbuf && bufs[i].locked
      requires bufs[i].refcnt == 1 && bufs[i].valid ==> bufs[i].data == disk[bufs[i].blockno]
      modifies this`bufs
      ensures Valid() && Coherent() && old(bufs)[i].refcnt >= 1
      ensures bufs == old(bufs)[i := old(bufs)[i].(refcnt := old(bufs)[i].refcnt - 1, locked := false)]
    {
      hide Linked, OrderAfter, DiskIs;
      RecountKeepsCoherence(bufs, i, bufs[i].refcnt - 1, false, disk, logical, rootDev);
      bufs := bufs[i := bufs[i].(locked := false)];
      bufs := bufs[i := bufs[i].(refcnt := bufs[i].refcnt - 1)];
      assert bufs == old(bufs)[i := old(bufs)[i].(refcnt := old(bufs)[i].refcnt - 1, locked := false)];
    }

    /** Takes buffer i out of the list and puts it back in at the front. */
    method Relink(i: nat)
      requires Linked(nbuf, order, next, prev) && i in order && i < nbuf
      modifies this`next, this`prev, this`order
      ensures Linked(nbuf, order, next, prev)
      ensures order == MoveToFront(old(order), i)
    {
      hide Linked;
      ghost var p := IndexOf(order, i);
      UnlinkLinks(nbuf, order, next, prev, p);
      ghost var rest := order[..p] + order[p + 1..];
      prev := prev[next[i] := prev[i]];
      next := next[prev[i] := next[i]];
      assert order == order[..p] + [i] + order[p + 1..];
      order := rest;
      LinkBehindHead(i);
      assert [i] + rest == MoveToFront(old(order), i);
    }

    method Bpin(i: nat)
      requires Valid() && Coherent() && i < nbuf && bufs[i].refcnt > 0
      modifies this`bufs
      ensures Valid() && Coherent()
      ensures bufs == old(bufs)[i := old(bufs)[i].(refcnt := old(bufs)[i].refcnt + 1)]
    {
      hide Linked, OrderAfter, DiskIs;
      RecountKeepsCoherence(bufs, i, bufs[i].refcnt + 1, bufs[i].locked, disk, logical, rootDev);
      bufs := bufs[i := bufs[i].(refcnt := bufs[i].refcnt + 1)];
    }

    /** Drops a pin while the buffer is still held, as install_trans does. */
    method Bunpin(i: nat)
      requires Valid() && Coherent() && i < nbuf && bufs[i].refcnt > Users(bufs[i], waiting[i]) && bufs[i].refcnt > 1
      modifies this`bufs
      ensures Valid() && Coherent()
      ensures bufs == old(bufs)[i := old(bufs)[i].(refcnt := old(bufs)[i].refcnt - 1)]
    {
      hide Linked, OrderAfter, DiskIs;
      RecountKeepsCoherence(bufs, i, bufs[i].refcnt - 1, bufs[i].locked, disk, logical, rootDev);
      bufs := bufs[i := bufs[i].(refcnt := bufs[i].refcnt - 1)];
    }
  }
}
