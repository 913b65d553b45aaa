/** The user allocator's memory as values: free blocks in address order, live blocks, and the regions
    obtained from sbrk. Addresses and sizes count header-sized units. */
module HeapModel {
  datatype Block = Block(at: nat, size: nat)

  function End(b: Block): nat {
    b.at + b.size
  }

  predicate Inside(b: Block, u: nat) {
    b.at <= u < End(b)
  }

  predicate Disjoint(a: Block, b: Block) {
    End(a) <= b.at || End(b) <= a.at
  }

  /** The empty base header first, then the free blocks by address, no two of them touching. */
  ghost predicate Sorted(f: seq<Block>) {
    && f != [] && f[0].size == 0
    && (forall i :: 1 <= i < |f| ==> f[i].size > 0)
    && (forall i, j :: 0 <= i < j < |f| ==> End(f[i]) < f[j].at)
  }

  /** Unit u is in a free block. */
  ghost predicate Covers(f: seq<Block>, u: nat) {
    exists i :: 0 <= i < |f| && Inside(f[i], u)
  }

  /** Block b lies between free block i and the next. */
  ghost predicate Fits(f: seq<Block>, i: nat, b: Block) {
    i < |f| && b.size > 0 && f[0].at < b.at && End(f[i]) <= b.at && (i + 1 < |f| ==> End(b) <= f[i + 1].at)
  }

  // ---- free

  /** b with the free block right behind it, if it touches it. */
  function JoinUp(f: seq<Block>, i: nat, b: Block): Block
    requires i < |f|
  {
    if i + 1 < |f| && End(b) == f[i + 1].at then Block(b.at, b.size + f[i + 1].size) else b
  }

  function AfterUp(f: seq<Block>, i: nat, b: Block): seq<Block>
    requires i < |f|
  {
    if i + 1 < |f| && End(b) == f[i + 1].at then f[i + 2..] else f[i + 1..]
  }

  /** The free list with b put behind block i, joined with the neighbours it touches. */
  function Insert(f: seq<Block>, i: nat, b: Block): seq<Block>
    requires i < |f|
  {
    var c, rest := JoinUp(f, i, b), AfterUp(f, i, b);
    if End(f[i]) == b.at then f[..i] + [Block(f[i].at, f[i].size + c.size)] + rest
    else f[..i + 1] + [c] + rest
  }

  /** Joining with the block behind: same units, and still before everything else. */
  lemma JoinedUp(f: seq<Block>, i: nat, b: Block)
    requires Sorted(f) && Fits(f, i, b)
    ensures var c, rest := JoinUp(f, i, b), AfterUp(f, i, b);
            && c.at == b.at && c.size >= b.size
            && (forall j :: 0 <= j < |rest| ==> End(c) < rest[j].at && rest[j].size > 0 && End(f[i]) < rest[j].at)
            && (forall j, l :: 0 <= j < l < |rest| ==> End(rest[j]) < rest[l].at)
  {}

  lemma InsertSorted(f: seq<Block>, i: nat, b: Block)
    requires Sorted(f) && Fits(f, i, b)
    ensures Sorted(Insert(f, i, b)) && Insert(f, i, b)[0] == f[0]
  {
    hide JoinUp, AfterUp;
    JoinedUp(f, i, b);
    var c, rest := JoinUp(f, i, b), AfterUp(f, i, b);
    var front := if End(f[i]) == b.at then f[..i] + [Block(f[i].at, f[i].size + c.size)] else f[..i + 1] + [c];
    assert Insert(f, i, b) == front + rest;
    assert forall j :: 0 <= j < |front| - 1 ==> front[j] == f[j];
    assert forall j :: 0 <= j < |front| - 1 ==> End(front[j]) < front[|front| - 1].at;
    assert End(front[|front| - 1]) == End(c);
  }

  lemma AfterUpCovers(f: seq<Block>, i: nat, b: Block, u: nat)
    requires Sorted(f) && Fits(f, i, b)
    ensures Inside(JoinUp(f, i, b), u) || Covers(AfterUp(f, i, b), u) <==> Inside(b, u) || Covers(f[i + 1..], u)
  {
    var rest, all := AfterUp(f, i, b), f[i + 1..];
    if i + 1 < |f| && End(b) == f[i + 1].at {
      assert all == [f[i + 1]] + rest;
      CoversConcat([f[i + 1]], rest, u);
      CoversOne(f[i + 1], u);
    }
  }

  lemma CoversConcat(a: seq<Block>, b: seq<Block>, u: nat)
    ensures Covers(a + b, u) <==> Covers(a, u) || Covers(b, u)
  {
    if Covers(a, u) {
      var i :| 0 <= i < |a| && Inside(a[i], u);
      assert (a + b)[i] == a[i];
    }
    if Covers(b, u) {
      var i :| 0 <= i < |b| && Inside(b[i], u);
      assert (a + b)[|a| + i] == b[i];
    }
  }

  lemma CoversOne(b: Block, u: nat)
    ensures Covers([b], u) <==> Inside(b, u)
  {
    if Inside(b, u) { assert Inside([b][0], u); }
  }

  /** free puts back exactly the units of the block. */
  lemma InsertCovers(f: seq<Block>, i: nat, b: Block, u: nat)
    requires Sorted(f) && Fits(f, i, b)
    ensures Covers(Insert(f, i, b), u) <==> Covers(f, u) || Inside(b, u)
  {
    hide Covers, JoinUp, AfterUp, Sorted;
    var c, rest := JoinUp(f, i, b), AfterUp(f, i, b);
    JoinUpAt(f, i, b);
    AfterUpCovers(f, i, b, u);
    assert f == f[..i] + [f[i]] + f[i + 1..];
    CoversConcat(f[..i] + [f[i]], f[i + 1..], u);
    CoversConcat(f[..i], [f[i]], u);
    CoversOne(f[i], u);
    if End(f[i]) == b.at {
      var d := Block(f[i].at, f[i].size + c.size);
      CoversConcat(f[..i] + [d], rest, u);
      CoversConcat(f[..i], [d], u);
      CoversOne(d, u);
    } else {
      assert f[..i + 1] == f[..i] + [f[i]];
      CoversConcat(f[..i + 1] + [c], rest, u);
      CoversConcat(f[..i + 1], [c], u);
      CoversOne(c, u);
    }
  }

  lemma JoinUpAt(f: seq<Block>, i: nat, b: Block)
    requires i < |f|
    ensures JoinUp(f, i, b).at == b.at && JoinUp(f, i, b).size >= b.size
  {}

  // ---- malloc

  /** The free list after n units are taken from the end of block i. */
  function Take(f: seq<Block>, i: nat, n: nat): seq<Block>
    requires i < |f| && n <= f[i].size
  {
    if f[i].size == n then f[..i] + f[i + 1..] else f[i := Block(f[i].at, f[i].size - n)]
  }

  function Taken(f: seq<Block>, i: nat, n: nat): Block
    requires i < |f| && n <= f[i].size
  {
    Block(f[i].at + f[i].size - n, n)
  }

  lemma TakeSorted(f: seq<Block>, i: nat, n: nat)
    requires Sorted(f) && 0 < i < |f| && 0 < n <= f[i].size
    ensures Sorted(Take(f, i, n)) && Take(f, i, n)[0] == f[0]
  {}

  /** The units taken are no longer free, and all the others still are. */
  lemma TakeCovers(f: seq<Block>, i: nat, n: nat, u: nat)
    requires Sorted(f) && 0 < i < |f| && 0 < n <= f[i].size
    ensures Covers(f, u) <==> Covers(Take(f, i, n), u) || Inside(Taken(f, i, n), u)
    ensures !(Covers(Take(f, i, n), u) && Inside(Taken(f, i, n), u))
  {
    hide Covers;
    var b := Block(f[i].at, f[i].size - n);
    assert f == f[..i] + [f[i]] + f[i + 1..];
    CoversConcat(f[..i] + [f[i]], f[i + 1..], u);
    CoversConcat(f[..i], [f[i]], u);
    CoversOne(f[i], u);
    Others(f, i, u);
    if f[i].size == n {
      CoversConcat(f[..i], f[i + 1..], u);
    } else {
      assert Take(f, i, n) == f[..i] + [b] + f[i + 1..];
      CoversConcat(f[..i] + [b], f[i + 1..], u);
      CoversConcat(f[..i], [b], u);
      CoversOne(b, u);
    }
  }

  /** A unit of one free block is in no other. */
  lemma Others(f: seq<Block>, i: nat, u: nat)
    requires Sorted(f) && i < |f|
    ensures Inside(f[i], u) ==> !Covers(f[..i], u) && !Covers(f[i + 1..], u)
  {}

  // ---- The whole heap

  /** Free blocks, live blocks by address, the regions sbrk has given, and the end of the last. */
  datatype Heap = Heap(free: seq<Block>, live: map<nat, nat>, regions: seq<Block>, brk: nat)

  ghost predicate InLive(live: map<nat, nat>, u: nat) {
    exists p :: p in live && Inside(Block(p, live[p]), u)
  }

  /** Block b touches no free and no live block. */
  ghost predicate Loose(h: Heap, b: Block) {
    && b.size > 0 && h.free != [] && h.free[0].at < b.at
    && (forall i :: 0 <= i < |h.free| ==> Disjoint(h.free[i], b))
    && (forall p :: p in h.live ==> Disjoint(Block(p, h.live[p]), b))
  }

  /** Live blocks overlap neither each other nor a free block. */
  ghost predicate Laid(h: Heap) {
    && Sorted(h.free)
    && (forall i :: 0 <= i < |h.free| ==> End(h.free[i]) <= h.brk)
    && (forall p :: p in h.live ==> h.live[p] > 0 && h.free[0].at < p && p + h.live[p] <= h.brk)
    && (forall p, i :: p in h.live && 0 <= i < |h.free| ==> Disjoint(h.free[i], Block(p, h.live[p])))
    && (forall p, q :: p in h.live && q in h.live && p != q ==> Disjoint(Block(p, h.live[p]), Block(q, h.live[q])))
  }

  /** Every unit obtained from sbrk, and no other, is in a free or a live block. */
  ghost predicate Good(h: Heap) {
    Laid(h) && forall u :: Covers(h.regions, u) <==> Covers(h.free, u) || InLive(h.live, u)
  }

  /** No unit is both free and live. */
  lemma FreeOrLive(h: Heap, u: nat)
    requires Good(h)
    ensures !(Covers(h.free, u) && InLive(h.live, u))
  {}

  ghost function Released(h: Heap, p: nat): Heap {
    h.(live := h.live - {p})
  }

  /** A live block can be put back. */
  lemma LiveIsLoose(h: Heap, p: nat)
    requires Good(h) && p in h.live
    ensures Loose(Released(h, p), Block(p, h.live[p]))
  {
    hide Covers, InLive;
  }

  lemma ReleasedInLive(h: Heap, p: nat, u: nat)
    requires Good(h) && p in h.live
    ensures InLive(h.live, u) <==> InLive(h.live - {p}, u) || Inside(Block(p, h.live[p]), u)
  {
    hide Sorted, Covers;
    if InLive(h.live, u) {
      var q :| q in h.live && Inside(Block(q, h.live[q]), u);
      assert q == p || q in h.live - {p};
    }
    if InLive(h.live - {p}, u) {
      var q :| q in h.live - {p} && Inside(Block(q, (h.live - {p})[q]), u);
      assert q in h.live && h.live[q] == (h.live - {p})[q];
    }
  }

  /** A block that is disjoint from every unit-bearing neighbour stays so when b joins the list. */
  lemma InsertApart(f: seq<Block>, i: nat, b: Block, c: Block)
    requires Sorted(f) && Fits(f, i, b) && c.size > 0 && f[0].at < c.at && Disjoint(b, c)
    requires forall j :: 0 <= j < |f| ==> Disjoint(f[j], c)
    ensures forall j :: 0 <= j < |Insert(f, i, b)| ==> Disjoint(Insert(f, i, b)[j], c)
  {
    hide Insert;
    forall j | 0 <= j < |Insert(f, i, b)| ensures Disjoint(Insert(f, i, b)[j], c) { InsertElement(f, i, b, j); }
  }

  lemma InsertEnds(f: seq<Block>, i: nat, b: Block, brk: nat)
    requires Sorted(f) && Fits(f, i, b) && End(b) <= brk && forall j :: 0 <= j < |f| ==> End(f[j]) <= brk
    ensures forall j :: 0 <= j < |Insert(f, i, b)| ==> End(Insert(f, i, b)[j]) <= brk
  {
    hide Insert;
    forall j | 0 <= j < |Insert(f, i, b)| ensures End(Insert(f, i, b)[j]) <= brk { InsertElement(f, i, b, j); }
  }

  /** Each block of the new list is an old one or the one b went into. */
  lemma InsertElement(f: seq<Block>, i: nat, b: Block, j: nat)
    requires i < |f| && j < |Insert(f, i, b)|
    ensures var x := Insert(f, i, b)[j];
            || (exists l :: 0 <= l < |f| && x == f[l])
            || (End(x) == End(JoinUp(f, i, b)) && (x.at == b.at || (x.at == f[i].at && End(f[i]) == b.at)))
  {
    var x, c, rest := Insert(f, i, b)[j], JoinUp(f, i, b), AfterUp(f, i, b);
    var front := if End(f[i]) == b.at then f[..i] + [Block(f[i].at, f[i].size + c.size)] else f[..i + 1] + [c];
    assert Insert(f, i, b) == front + rest;
    if j < |front| - 1 {
      assert x == f[j];
    } else if j >= |front| {
      assert x == rest[j - |front|] == f[|f| - |rest| + (j - |front|)];
    }
  }

  lemma InsertLaid(h: Heap, i: nat, b: Block)
    requires Laid(h) && Fits(h.free, i, b) && Loose(h, b) && End(b) <= h.brk
    ensures Laid(h.(free := Insert(h.free, i, b)))
  {
    hide Insert, Sorted;
    InsertSorted(h.free, i, b);
    InsertEnds(h.free, i, b, h.brk);
    var g := Insert(h.free, i, b);
    forall p, j | p in h.live && 0 <= j < |g| ensures Disjoint(g[j], Block(p, h.live[p])) {
      InsertApart(h.free, i, b, Block(p, h.live[p]));
    }
    SortedHead(h.free, g);
  }

  lemma SortedHead(f: seq<Block>, g: seq<Block>)
    requires Sorted(f) && Sorted(g) && g[0] == f[0]
    ensures f != [] && g != [] && g[0].at == f[0].at
  {}

  /** free of a live block: the heap stays good, and the block's units are free. */
  lemma FreeGood(h: Heap, p: nat, i: nat)
    requires Good(h) && p in h.live && Fits(h.free, i, Block(p, h.live[p]))
    ensures Good(Released(h, p).(free := Insert(h.free, i, Block(p, h.live[p]))))
  {
    hide Insert, Sorted, Covers, InLive;
    var b := Block(p, h.live[p]);
    LiveIsLoose(h, p);
    InsertLaid(Released(h, p), i, b);
    forall u ensures Covers(h.regions, u) <==> Covers(Insert(h.free, i, b), u) || InLive(h.live - {p}, u) {
      InsertCovers(h.free, i, b, u);
      ReleasedInLive(h, p, u);
    }
  }

  ghost function Grown(h: Heap, r: Block, i: nat): Heap
    requires i < |h.free|
  {
    Heap(Insert(h.free, i, r), h.live, h.regions + [r], End(r))
  }

  /** A region beyond everything so far joins the heap. */
  lemma GrowGood(h: Heap, r: Block, i: nat)
    requires Good(h) && r.size > 0 && h.brk <= r.at && h.free[0].at < r.at && Fits(h.free, i, r)
    ensures Good(Grown(h, r, i))
  {
    hide Insert, Sorted, Covers, InLive;
    var k := h.(brk := End(r));
    InsertLaid(k, i, r);
    forall u ensures Covers(h.regions + [r], u) <==> Covers(Insert(h.free, i, r), u) || InLive(h.live, u) {
      InsertCovers(h.free, i, r, u);
      CoversConcat(h.regions, [r], u);
      CoversOne(r, u);
    }
  }

  /** n units of free block i become a live block. */
  ghost function Allocated(h: Heap, i: nat, n: nat): Heap
    requires i < |h.free| && n <= h.free[i].size
  {
    h.(free := Take(h.free, i, n), live := h.live[Taken(h.free, i, n).at := n])
  }

  lemma TakeApart(f: seq<Block>, i: nat, n: nat, c: Block)
    requires Sorted(f) && 0 < i < |f| && 0 < n <= f[i].size && forall j :: 0 <= j < |f| ==> Disjoint(f[j], c)
    requires c.size > 0
    ensures forall j :: 0 <= j < |Take(f, i, n)| ==> Disjoint(Take(f, i, n)[j], c)
    ensures Disjoint(Taken(f, i, n), c)
  {}

  lemma TakeOwn(f: seq<Block>, i: nat, n: nat, brk: nat)
    requires Sorted(f) && 0 < i < |f| && 0 < n <= f[i].size && forall j :: 0 <= j < |f| ==> End(f[j]) <= brk
    ensures forall j :: 0 <= j < |Take(f, i, n)| ==> Disjoint(Take(f, i, n)[j], Taken(f, i, n))
    ensures forall j :: 0 <= j < |Take(f, i, n)| ==> End(Take(f, i, n)[j]) <= brk
    ensures End(Taken(f, i, n)) <= brk && f[0].at < Taken(f, i, n).at
  {}

  lemma AllocatedLaid(h: Heap, i: nat, n: nat)
    requires Good(h) && 0 < i < |h.free| && 0 < n <= h.free[i].size
    ensures Laid(Allocated(h, i, n)) && Taken(h.free, i, n).at !in h.live
  {
    hide Sorted, Covers, InLive, Take;
    TakeSorted(h.free, i, n);
    TakeOwn(h.free, i, n, h.brk);
    SortedHead(h.free, Take(h.free, i, n));
    forall p | p in h.live
      ensures Disjoint(Taken(h.free, i, n), Block(p, h.live[p]))
      ensures forall j :: 0 <= j < |Take(h.free, i, n)| ==> Disjoint(Take(h.free, i, n)[j], Block(p, h.live[p]))
    {
      TakeApart(h.free, i, n, Block(p, h.live[p]));
    }
  }

  /** malloc hands out a block that was free and overlaps nothing live. */
  lemma AllocateGood(h: Heap, i: nat, n: nat)
    requires Good(h) && 0 < i < |h.free| && 0 < n <= h.free[i].size
    ensures Good(Allocated(h, i, n)) && Taken(h.free, i, n).at !in h.live
  {
    hide Sorted, Covers, Take;
    AllocatedLaid(h, i, n);
    var b := Taken(h.free, i, n);
    forall u ensures Covers(h.regions, u) <==> Covers(Take(h.free, i, n), u) || InLive(h.live[b.at := n], u) {
      TakeCovers(h.free, i, n, u);
      LiveAdded(h.live, b, u);
    }
  }

  lemma LiveAdded(live: map<nat, nat>, b: Block, u: nat)
    requires b.at !in live
    ensures InLive(live[b.at := b.size], u) <==> InLive(live, u) || Inside(b, u)
  {
    var more := live[b.at := b.size];
    if InLive(live, u) {
      var p :| p in live && Inside(Block(p, live[p]), u);
      assert p in more && more[p] == live[p];
    }
    if Inside(b, u) { assert b.at in more && Inside(Block(b.at, more[b.at]), u); }
  }
}
