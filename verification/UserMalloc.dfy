/** The Kernighan and Ritchie allocator: a ring of free headers linked through memory, searched, cut and
    joined in place. */
module UserMalloc {
  import opened HeapModel

  /** The headers of s link to each other in order, and the last one to `last`. */
  ghost predicate Chain(s: seq<Block>, ptr: map<nat, nat>, last: nat) {
    forall j :: 0 <= j < |s| ==> s[j].at in ptr && ptr[s[j].at] == Next(s, j, last)
  }

  function Next(s: seq<Block>, j: nat, last: nat): nat {
    if j + 1 < |s| then s[j + 1].at else last
  }

  ghost predicate Sized(s: seq<Block>, size: map<nat, nat>) {
    forall j :: 0 <= j < |s| ==> s[j].at in size && size[s[j].at] == s[j].size
  }

  function First(s: seq<Block>, last: nat): nat {
    if s == [] then last else s[0].at
  }

  lemma ChainSplit(a: seq<Block>, b: seq<Block>, ptr: map<nat, nat>, last: nat)
    requires Chain(a + b, ptr, last)
    ensures Chain(a, ptr, First(b, last)) && Chain(b, ptr, last)
  {
    forall j | 0 <= j < |a| ensures a[j].at in ptr && ptr[a[j].at] == Next(a, j, First(b, last)) {
      assert (a + b)[j] == a[j];
      if j + 1 < |a| { assert (a + b)[j + 1] == a[j + 1]; } else if b != [] { assert (a + b)[j + 1] == b[0]; }
    }
    forall j | 0 <= j < |b| ensures b[j].at in ptr && ptr[b[j].at] == Next(b, j, last) {
      assert (a + b)[|a| + j] == b[j];
      if j + 1 < |b| { assert (a + b)[|a| + j + 1] == b[j + 1]; }
    }
  }

  lemma ChainJoin(a: seq<Block>, b: seq<Block>, ptr: map<nat, nat>, last: nat)
    requires Chain(a, ptr, First(b, last)) && Chain(b, ptr, last)
    ensures Chain(a + b, ptr, last)
  {
    var s := a + b;
    forall j | 0 <= j < |s| ensures s[j].at in ptr && ptr[s[j].at] == Next(s, j, last) {
      if j < |a| { assert s[j] == a[j]; } else { assert s[j] == b[j - |a|]; }
      if j + 1 < |a| { assert s[j + 1] == a[j + 1]; } else if j + 1 < |s| { assert s[j + 1] == b[j + 1 - |a|]; }
    }
  }

  lemma SizedConcat(a: seq<Block>, b: seq<Block>, size: map<nat, nat>)
    ensures Sized(a + b, size) <==> Sized(a, size) && Sized(b, size)
  {
    if Sized(a + b, size) {
      forall j | 0 <= j < |a| ensures a[j].at in size && size[a[j].at] == a[j].size { assert (a + b)[j] == a[j]; }
      forall j | 0 <= j < |b| ensures b[j].at in size && size[b[j].at] == b[j].size { assert (a + b)[|a| + j] == b[j]; }
    }
  }

  // ---- The links that free writes

  /** After the first half of free: the new header carries the joined size and the next link. */
  ghost predicate UpDone(f: seq<Block>, i: nat, b: Block, ptr: map<nat, nat>, size: map<nat, nat>, base: nat)
    requires i < |f|
  {
    && b.at in ptr && ptr[b.at] == First(AfterUp(f, i, b), base)
    && b.at in size && size[b.at] == JoinUp(f, i, b).size
  }

  /** The ring cut at n. */
  lemma ChainAt(f: seq<Block>, n: nat, ptr: map<nat, nat>, size: map<nat, nat>, last: nat)
    requires n <= |f| && Chain(f, ptr, last) && Sized(f, size)
    ensures Chain(f[..n], ptr, First(f[n..], last)) && Sized(f[..n], size)
    ensures Chain(f[n..], ptr, last) && Sized(f[n..], size)
  {
    hide Chain, Sized;
    assert f == f[..n] + f[n..];
    ChainSplit(f[..n], f[n..], ptr, last);
    SizedConcat(f[..n], f[n..], size);
  }

  /** Only headers at x and y differ between two memories. */
  ghost predicate Except(m: map<nat, nat>, m': map<nat, nat>, x: nat, y: nat) {
    forall a :: a in m && a != x && a != y ==> a in m' && m'[a] == m[a]
  }

  /** A stretch of the list that contains neither x nor y is untouched. */
  lemma PieceFrame(s: seq<Block>, ptr: map<nat, nat>, size: map<nat, nat>, ptr': map<nat, nat>, size': map<nat,
                   nat>, last: nat, x: nat, y: nat)
    requires Chain(s, ptr, last) && Sized(s, size) && Except(ptr, ptr', x, y) && Except(size, size', x, y)
    requires forall j :: 0 <= j < |s| ==> s[j].at != x && s[j].at != y
    ensures Chain(s, ptr', last) && Sized(s, size')
  {}

  /** Where block b goes, no header of the list stands. */
  lemma PiecesApart(f: seq<Block>, i: nat, b: Block)
    requires Sorted(f) && Fits(f, i, b)
    ensures forall j :: 0 <= j < i ==> f[..i][j].at != f[i].at && f[..i][j].at != b.at
    ensures var rest := AfterUp(f, i, b); forall j :: 0 <= j < |rest| ==> rest[j].at != f[i].at && rest[j].at != b.at
    ensures f[i].at != b.at
  {}

  function RestAt(f: seq<Block>, i: nat, b: Block): (n: nat)
    requires i < |f|
    ensures n <= |f| && f[n..] == AfterUp(f, i, b)
  {
    if i + 1 < |f| && End(b) == f[i + 1].at then i + 2 else i + 1
  }

  /** The two stretches of the ring that free does not touch. */
  lemma RingPieces(f: seq<Block>, i: nat, b: Block, ptr: map<nat, nat>, size: map<nat, nat>, ptr': map<nat, nat>,
                   size': map<nat, nat>)
    requires i < |f| && Sorted(f) && Fits(f, i, b) && Chain(f, ptr, f[0].at) && Sized(f, size)
    requires Except(ptr, ptr', f[i].at, b.at) && Except(size, size', f[i].at, b.at)
    ensures Chain(f[..i], ptr', f[i].at) && Sized(f[..i], size')
    ensures Chain(AfterUp(f, i, b), ptr', f[0].at) && Sized(AfterUp(f, i, b), size')
  {
    hide Chain, Sized, Except, Sorted, Fits;
    PiecesApart(f, i, b);
    ChainAt(f, i, ptr, size, f[0].at);
    ChainAt(f, RestAt(f, i, b), ptr, size, f[0].at);
    PieceFrame(f[..i], ptr, size, ptr', size', f[i].at, f[i].at, b.at);
    PieceFrame(AfterUp(f, i, b), ptr, size, ptr', size', f[0].at, f[i].at, b.at);
  }

  /** The ring after free, from the ring before: only the new header and its predecessor are written. */
  lemma RingAfterFree(f: seq<Block>, i: nat, b: Block, ptr: map<nat, nat>, size: map<nat, nat>, ptr': map<nat,
                      nat>, size': map<nat, nat>)
    requires i < |f| && Sorted(f) && Fits(f, i, b) && Chain(f, ptr, f[0].at) && Sized(f, size)
    requires Except(ptr, ptr', f[i].at, b.at) && Except(size, size', f[i].at, b.at)
    requires f[i].at in ptr' && f[i].at in size'
    requires End(f[i]) == b.at ==>
               && ptr'[f[i].at] == First(AfterUp(f, i, b), f[0].at)
               && size'[f[i].at] == f[i].size + JoinUp(f, i, b).size
    requires End(f[i]) != b.at ==>
               ptr'[f[i].at] == b.at && size'[f[i].at] == f[i].size && UpDone(f, i, b, ptr', size', f[0].at)
    ensures Chain(Insert(f, i, b), ptr', f[0].at) && Sized(Insert(f, i, b), size')
  {
    hide Sorted, Fits, Except;
    var base, c, rest := f[0].at, JoinUp(f, i, b), AfterUp(f, i, b);
    RingPieces(f, i, b, ptr, size, ptr', size');
    JoinUpAt(f, i, b);
    var mid := if End(f[i]) == b.at then [Block(f[i].at, f[i].size + c.size)] else [f[i], c];
    assert Chain(mid, ptr', First(rest, base)) && Sized(mid, size');
    InsertIs(f, i, b, mid);
    ThreePieces(f[..i], mid, rest, ptr', size', base);
  }

  lemma InsertIs(f: seq<Block>, i: nat, b: Block, mid: seq<Block>)
    requires i < |f|
    requires mid == if End(f[i]) == b.at then [Block(f[i].at, f[i].size + JoinUp(f, i, b).size)]
                    else [f[i], JoinUp(f, i, b)]
    ensures Insert(f, i, b) == f[..i] + mid + AfterUp(f, i, b)
  {
    if End(f[i]) != b.at { assert f[..i + 1] + [JoinUp(f, i, b)] == f[..i] + mid; }
  }

  lemma ThreePieces(a: seq<Block>, m: seq<Block>, r: seq<Block>, ptr: map<nat, nat>, size: map<nat, nat>, last: nat)
    requires m != [] && Chain(a, ptr, m[0].at) && Chain(m, ptr, First(r, last)) && Chain(r, ptr, last)
    requires Sized(a, size) && Sized(m, size) && Sized(r, size)
    ensures Chain(a + m + r, ptr, last) && Sized(a + m + r, size)
  {
    hide Chain, Sized;
    ChainJoin(m, r, ptr, last);
    ChainJoin(a, m + r, ptr, last);
    assert a + (m + r) == a + m + r;
    SizedConcat(m, r, size);
    SizedConcat(a, m + r, size);
  }

  // ---- Searching the ring

  /** The last header below x. */
  ghost function PredIndex(f: seq<Block>, x: nat): (i: nat)
    requires f != [] && f[0].at < x
    ensures i < |f| && f[i].at < x && (i + 1 < |f| ==> x <= f[i + 1].at)
  {
    if |f| == 1 then 0
    else if f[|f| - 1].at < x then |f| - 1
    else PredIndex(f[..|f| - 1], x)
  }

  /** Steps around a ring of n from position c to position t. */
  function Steps(n: nat, c: nat, t: nat): nat
    requires c <= n
  {
    if c <= t then t - c else t + n - c
  }

  function Succ(n: nat, c: nat): nat {
    if c + 1 < n then c + 1 else 0
  }

  /** free's two exit tests succeed at the place of the block and nowhere else. */
  lemma SearchStops(f: seq<Block>, c: nat, x: nat)
    requires Sorted(f) && c < |f| && f[0].at < x && forall j :: 0 <= j < |f| ==> f[j].at != x
    ensures var p, q, t := f[c].at, Next(f, c, f[0].at), PredIndex(f, x);
            && ((x > p && x < q) || (p >= q && (x > p || x < q)) <==> c == t)
            && (c != t ==> Steps(|f|, Succ(|f|, c), t) < Steps(|f|, c, t))
  {
    hide PredIndex;
    var t := PredIndex(f, x);
    if c < t { assert f[c + 1].at <= f[t].at; }
    if t < c { assert f[t + 1].at <= f[c].at; }
  }

  /** A block apart from every free one fits where its address says. */
  lemma FitsAtPred(f: seq<Block>, b: Block)
    requires Sorted(f) && b.size > 0 && f[0].at < b.at && forall j :: 0 <= j < |f| ==> Disjoint(f[j], b)
    ensures forall j :: 0 <= j < |f| ==> f[j].at != b.at
    ensures Fits(f, PredIndex(f, b.at), b)
  {
    hide PredIndex;
    forall j | 0 <= j < |f| ensures f[j].at != b.at { assert Disjoint(f[j], b); }
    var i := PredIndex(f, b.at);
    assert Disjoint(f[i], b);
    if i + 1 < |f| { assert Disjoint(f[i + 1], b); }
  }

  class Allocator {
    /** Address of the static base header. */
    const base: nat
    /** s.ptr and s.size of the headers in memory. */
    var ptr: map<nat, nat>
    var size: map<nat, nat>
    var freep: nat
    /** End of the data segment. */
    var brk: nat
    ghost var free: seq<Block>
    ghost var live: map<nat, nat>
    ghost var regions: seq<Block>

    ghost function View(): Heap
      reads this
    {
      Heap(free, live, regions, brk)
    }

    /** freep is a header of the ring. */
    ghost predicate InRing()
      reads this
    {
      exists i :: 0 <= i < |free| && free[i].at == freep
    }

    /** The headers in memory form the ring of free blocks. */
    ghost predicate Ring()
      reads this
    {
      && 0 < base && Sorted(free) && free[0].at == base
      && Chain(free, ptr, base) && Sized(free, size) && InRing()
    }

    /** Before the first malloc the ring is not linked yet. */
    ghost predicate Ok()
      reads this
    {
      && Good(View()) && 0 < base < brk && free[0].at == base
      && (if freep == 0 then free == [Block(base, 0)] && live == map[] else Ring())
      && forall p :: p in live ==> p in size && size[p] == live[p]
    }

    constructor (start: nat, end: nat)
      requires 0 < start < end
      ensures Ok() && base == start && brk == end && freep == 0 && live == map[] && regions == []
    {
      base, ptr, size, freep, brk := start, map[], map[], 0, end;
      free, live, regions := [Block(start, 0)], map[], [];
      new;
      NothingCovered();
      assert forall u :: !Covers(free, u);
    }

    /** Puts the block of header ap - 1 into the ring, joined with its neighbours. */
    method Free(ap: nat) returns (ghost i: nat)
      requires ap > 0 && Ring() && ap - 1 in size
      requires size[ap - 1] > 0 && base < ap - 1
      requires forall j :: 0 <= j < |free| ==> Disjoint(free[j], Block(ap - 1, size[ap - 1]))
      modifies this`ptr, this`size, this`freep, this`free
      ensures Ring() && freep != 0
      ensures var b := Block(ap - 1, old(size)[ap - 1]);
              Fits(old(free), i, b) && free == Insert(old(free), i, b)
      ensures forall a :: a in old(size) && a != ap - 1
                          && (forall j :: 0 <= j < |old(free)| ==> old(free)[j].at != a) ==>
                a in size && size[a] == old(size)[a]
    {
      hide Sorted, Insert, Fits, Chain, Sized, Disjoint, UpDone, Except;
      var bp := ap - 1;
      ghost var f, b, ptr0, size0 := free, Block(bp, size[bp]), ptr, size;
      var p;
      p, i := FindPlace(bp, b);
      LinkUp(bp, p, f, i, b);
      ghost var ptr1, size1 := ptr, size;
      LinkDown(bp, p, f, i, b);
      ExceptBoth(ptr0, ptr1, ptr, p, bp);
      ExceptBoth(size0, size1, size, p, bp);
      RingAfterFree(f, i, b, ptr0, size0, ptr, size);
      free := Insert(f, i, b);
      InsertSorted(f, i, b);
      StillInRing(f, i, b);
      BaseLowest(f, i);
      OthersSame(f, i, size0, size, bp);
    }

    /** The search loop of free: the last header below bp, going round from freep. */
    method FindPlace(bp: nat, ghost b: Block) returns (p: nat, ghost i: nat)
      requires Ring() && b.at == bp && b.size > 0 && base < bp
      requires forall j :: 0 <= j < |free| ==> Disjoint(free[j], b)
      ensures i < |free| && Fits(free, i, b) && p == free[i].at
    {
      hide Sorted, PredIndex, Fits, Disjoint;
      ghost var f := free;
      FitsAtPred(f, b);
      i := PredIndex(f, bp);
      p := freep;
      ghost var c :| 0 <= c < |f| && f[c].at == p;
      while !(bp > p && bp < ptr[p])
        invariant 0 <= c < |f| && p == f[c].at && p in ptr && ptr[p] == Next(f, c, base)
        decreases Steps(|f|, c, i)
      {
        SearchStops(f, c, bp);
        if p >= ptr[p] && (bp > p || bp < ptr[p]) {
          break;
        }
        p := ptr[p];
        c := Succ(|f|, c);
      }
      SearchStops(f, c, bp);
      assert c == i;
    }

    /** The second half of free: join the block in front, or link it to the new one. */
    method LinkDown(bp: nat, p: nat, ghost f: seq<Block>, ghost i: nat, ghost b: Block)
      requires i < |f| && UpDone(f, i, b, ptr, size, f[0].at) && bp == b.at && p == f[i].at && p != bp
      requires p in ptr && p in size && size[p] == f[i].size
      modifies this`ptr, this`size, this`freep
      ensures freep == p && Except(old(ptr), ptr, p, p) && Except(old(size), size, p, p) && p in ptr && p in size
      ensures End(f[i]) == b.at ==>
                ptr[p] == First(AfterUp(f, i, b), f[0].at) && size[p] == f[i].size + JoinUp(f, i, b).size
      ensures End(f[i]) != b.at ==> ptr[p] == bp && size[p] == f[i].size && UpDone(f, i, b, ptr, size, f[0].at)
    {
      hide JoinUp, AfterUp;
      if p + size[p] == bp {
        size := size[p := size[p] + size[bp]];
        ptr := ptr[p := ptr[bp]];
      } else {
        ptr := ptr[p := bp];
      }
      freep := p;
    }

    /** The first half of free: take over the block right behind, or link to it. */
    method LinkUp(bp: nat, p: nat, ghost f: seq<Block>, ghost i: nat, ghost b: Block)
      requires f == free && Sorted(f) && i < |f| && Fits(f, i, b) && Chain(f, ptr, f[0].at) && Sized(f, size)
      requires bp == b.at && p == f[i].at && bp in size && size[bp] == b.size
      modifies this`ptr, this`size
      ensures UpDone(f, i, b, ptr, size, f[0].at)
      ensures Except(old(ptr), ptr, bp, bp) && Except(old(size), size, bp, bp)
      ensures p != bp && p in ptr && p in size && size[p] == f[i].size
    {
      var q := ptr[p];
      assert q == Next(f, i, f[0].at);
      PiecesApart(f, i, b);
      if bp + size[bp] == q {
        assert i + 1 < |f| && q == f[i + 1].at;
        size := size[bp := size[bp] + size[q]];
        ptr := ptr[bp := ptr[q]];
      } else {
        ptr := ptr[bp := q];
      }
    }

    /** free of a block malloc returned: its units are free again and nothing else changed. */
    method FreeLive(ap: nat) returns (ghost i: nat)
      requires Ok() && ap > 0 && ap - 1 in live
      modifies this
      ensures Ok() && Fits(old(free), i, Block(ap - 1, old(live)[ap - 1]))
      ensures View() == Released(old(View()), ap - 1).(free := Insert(old(free), i, Block(ap - 1, old(live)[ap - 1])))
    {
      hide Laid, Sorted, Insert, Fits, Chain, Sized, Covers, InLive;
      ghost var h, p := View(), ap - 1;
      LiveIsLoose(h, p);
      LiveNotHeaders(h);
      live := live - {p};
      i := Free(ap);
      FreeGood(h, p, i);
      GoodHead(h.free, i, Block(p, h.live[p]));
    }

    /** sbrk: more memory at or beyond the end of the data segment, or none. */
    method Sbrk(nu: nat) returns (p: nat)
      modifies this`brk
      ensures p == 0 ==> brk == old(brk)
      ensures p != 0 ==> old(brk) <= p && brk == p + nu
    {
      var enough: bool := *;
      var gap: nat :| true;
      if enough {
        p := brk + gap;
        if p != 0 {
          brk := p + nu;
        }
      } else {
        p := 0;
      }
    }

    /** Gets at least nu units and puts them into the ring; 0 when there are none. `wild` says that sbrk was
        asked for something else: the code then goes on with memory it did not get, and the model stops. */
    method Morecore(n: nat) returns (p: nat, wild: bool, ghost r: Block, ghost i: nat)
      requires Ok() && freep != 0 && n > 0
      modifies this
      ensures Ok() && p == (if p == 0 then 0 else freep) && freep != 0
      ensures wild <==> Misread(n)
      ensures wild ==> p == 0
      ensures p == 0 ==> View() == old(View()) && freep == old(freep)
      ensures p != 0 ==> r.size >= n && old(brk) <= r.at && i < |old(free)| && View() == Grown(old(View()), r, i)
    {
      hide Laid, Sorted, Insert, Fits, Chain, Sized, Covers, InLive;
      ghost var h := View();
      hide SbrkArgument;
      var nu := Rounded(n);
      r, i, p := Block(0, 0), 0, 0;
      wild := SbrkArgument(nu) != UNIT * nu;
      if wild {
        return;
      }
      p := Sbrk(nu);
      if p == 0 {
        return;
      }
      r := Block(p, nu);
      BeyondIsLoose(h, r);
      LiveNotHeaders(h);
      NotBeyond(h, p);
      size := size[p := nu];
      assert Sized(free, size) by { SizedFrame(h.free, old(size), size, p); }
      i := Free(p + 1);
      GrowGood(h, r, i);
      GoodHead(h.free, i, r);
      regions := regions + [r];
      p := freep;
    }

    /** morecore when no free block has n units. */
    method Enlarge(n: nat, ghost w: Heap) returns (p: nat, wild: bool)
      requires Ok() && freep != 0 && n > 0 && View() == w && forall j :: 0 <= j < |free| ==> free[j].size < n
      modifies this
      ensures Ok() && freep != 0 && (wild <==> Misread(n)) && (wild ==> p == 0)
      ensures p == 0 ==> View() == w && freep == old(freep)
      ensures p != 0 ==> p == freep && Enlarged(w, View(), n) && HasRoom(free, n)
    {
      hide Laid, Sorted, Chain, Sized, Covers, InLive, Take, Insert, Enlarged, Misread;
      ghost var r, i;
      p, wild, r, i := Morecore(n);
      if p != 0 {
        EnlargedNow(w, r, i, n);
      }
    }

    /** Takes n units from the block at p, whose predecessor in the ring is prevp. */
    method Carve(p: nat, prevp: nat, n: nat, ghost i: nat) returns (q: nat)
      requires Ok() && freep != 0 && 0 < i < |free| && 0 < n <= free[i].size
      requires p == free[i].at && prevp == free[i - 1].at
      modifies this
      ensures Ok() && freep == prevp && View() == Allocated(old(View()), i, n)
      ensures q == Taken(old(free), i, n).at && q !in old(live)
    {
      hide Good, Sorted, Chain, Sized, Take;
      ghost var h, f, ptr0, size0 := View(), free, ptr, size;
      HeaderAt(i);
      HeaderAt(i - 1);
      if size[p] == n {
        ptr := ptr[prevp := ptr[p]];
        q := p;
      } else {
        size := size[p := size[p] - n];
        q := p + size[p];
        size := size[q := n];
      }
      freep := prevp;
      Carved(h, i, n, ptr0, size0, ptr, size, base);
      free, live := Take(f, i, n), live[q := n];
    }

    /** Once round the ring from freep: the first block with n units and its predecessor. */
    method Search(n: nat) returns (found: bool, p: nat, prevp: nat, ghost i: nat)
      requires Ok() && freep != 0 && n > 0
      ensures found ==> 0 < i < |free| && p == free[i].at && prevp == free[i - 1].at && free[i].size >= n
      ensures !found ==> forall j :: 0 <= j < |free| ==> free[j].size < n
    {
      hide Allocator.Ok, InRing, Sorted;
      InRingNow();
      ghost var fi: nat := RingIndex();
      ghost var c: nat := 0;
      HeaderAt(fi);
      prevp := freep;
      p := ptr[prevp];
      while true
        invariant 0 <= c < |free| && p == free[Off(|free|, fi, c)].at && prevp == free[Before(|free|, fi, c)].at
        invariant forall x :: 0 <= x < c ==> free[Off(|free|, fi, x)].size < n
        decreases |free| - c
      {
        i := Off(|free|, fi, c);
        HeaderAt(i);
        if size[p] >= n {
          Positive(free, i, n);
          BeforeIs(|free|, fi, c);
          return true, p, prevp, i;
        }
        SameHeader(free, fi, i);
        if p == freep {
          WentRound(|free|, fi, c);
          AllSmall(free, fi, n);
          return false, p, prevp, i;
        }
        NotLast(|free|, fi, c);
        prevp, p, c := p, ptr[p], c + 1;
      }
    }

    /** A block of at least nbytes bytes behind its header, or 0. The search goes once round the ring, and
        after getting more memory at most once again. It goes wild exactly when no free block will do and
        the request is too large for sbrk's argument. */
    method Malloc(nbytes: nat) returns (ap: nat, wild: bool, ghost h: Heap, ghost i: nat)
      requires Ok() && nbytes < UINT_RANGE
      modifies this
      ensures Ok()
      ensures wild <==> Units(nbytes) >= TOO_MANY
                        && forall j :: 0 <= j < |old(free)| ==> old(free)[j].size < Units(nbytes)
      ensures wild ==> ap == 0
      ensures ap == 0 ==> View() == old(View()) && forall j :: 0 <= j < |free| ==> free[j].size < Units(nbytes)
      ensures ap != 0 ==> h == old(View()) || Enlarged(old(View()), h, Units(nbytes))
      ensures ap != 0 ==>
                0 < i < |h.free| && Units(nbytes) <= h.free[i].size && View() == Allocated(h, i, Units(nbytes))
      ensures ap != 0 ==> ap - 1 == Taken(h.free, i, Units(nbytes)).at && ap - 1 !in old(live)
    {
      hide Allocator.Ok, Enlarged, Misread, Units, Allocated, Taken;
      ghost var w := View();
      wild, h := false, w;
      var n := Units(nbytes);
      RequestFits(nbytes);
      if freep == 0 {
        Initialise();
      }
      var found, p, prevp;
      found, p, prevp, i := Search(n);
      if !found {
        p, wild := Enlarge(n, w);
        if p == 0 {
          return 0, wild, h, i;
        }
        h := View();
        EnlargedLive(w, h, n);
        found, p, prevp, i := Search(n);
      }
      var q := Carve(p, prevp, n, i);
      ap := q + 1;
    }

    lemma InRingNow()
      requires Ok() && freep != 0
      ensures InRing() && 0 < |free|
    {}

    /** The header of the i-th free block. */
    lemma HeaderAt(i: nat)
      requires Ok() && freep != 0 && i < |free|
      ensures free[i].at in ptr && ptr[free[i].at] == free[Succ(|free|, i)].at
      ensures free[i].at in size && size[free[i].at] == free[i].size && Succ(|free|, i) == Off(|free|, i, 0)
      ensures Sorted(free)
    {
      hide Chain, Sized, Laid, Covers;
      HeaderOf(free, i, ptr, size, base);
    }

    /** The index of freep in the ring. */
    ghost function RingIndex(): (i: nat)
      requires InRing()
      reads this
      ensures i < |free| && free[i].at == freep
    {
      var i :| 0 <= i < |free| && free[i].at == freep; i
    }

    /** The first call: the ring is the base header alone. */
    method Initialise()
      requires Ok() && freep == 0
      modifies this`ptr, this`size, this`freep
      ensures Ok() && freep != 0
    {
      ptr := ptr[base := base];
      freep := base;
      size := size[base := 0];
      assert free[0].at == freep;
    }
  }

  /** Units for nbytes bytes and the header, which is 16 bytes. */
  function Units(nbytes: nat): (n: nat)
    ensures n > 0 && (n - 1) * 16 >= nbytes && (n > 1 ==> (n - 2) * 16 < nbytes)
  {
    (nbytes + 16 - 1) / 16 + 1
  }

  const UNIT: nat := 16
  const UINT_RANGE: nat := 0x1_0000_0000
  /** The first number of units whose size in bytes is no C int. */
  const TOO_MANY: nat := 0x800_0000

  /** What sbrk is asked for: the size in bytes of nu units, cut down to a C int. */
  function SbrkArgument(nu: nat): int {
    var bytes := UNIT * nu % UINT_RANGE;
    if bytes < UINT_RANGE / 2 then bytes else bytes - UINT_RANGE
  }

  /** morecore asks for no less than 4096 units. */
  function Rounded(n: nat): nat {
    if n < 4096 then 4096 else n
  }

  predicate Misread(n: nat) {
    SbrkArgument(Rounded(n)) != UNIT * Rounded(n)
  }

  /** A request below 2 to the 27 units is asked for as it is. From there on sbrk is told to shrink the
      process, and for the two largest requests of all to grow it by nothing, or by one unit. */
  lemma LargeRequests(nu: nat)
    requires nu <= 2 * TOO_MANY + 1
    ensures SbrkArgument(nu) == UNIT * nu <==> nu < TOO_MANY
    ensures TOO_MANY <= nu < 2 * TOO_MANY ==> SbrkArgument(nu) < 0
    ensures nu >= 2 * TOO_MANY ==> SbrkArgument(nu) == UNIT * (nu - 2 * TOO_MANY)
  {}

  lemma RequestFits(nbytes: nat)
    requires nbytes < UINT_RANGE
    ensures Units(nbytes) <= 2 * TOO_MANY + 1 && (Misread(Units(nbytes)) <==> Units(nbytes) >= TOO_MANY)
  {
    LargeRequests(Rounded(Units(nbytes)));
  }

  /** h is w after one more region of at least n units, asked for because no free block of w had n. */
  ghost predicate Enlarged(w: Heap, h: Heap, n: nat) {
    && (forall j :: 0 <= j < |w.free| ==> w.free[j].size < n)
    && exists r: Block, i: nat :: i < |w.free| && r.size >= n && w.brk <= r.at && h == Grown(w, r, i)
  }

  lemma EnlargedLive(w: Heap, h: Heap, n: nat)
    requires Enlarged(w, h, n)
    ensures h.live == w.live
  {}

  ghost predicate HasRoom(f: seq<Block>, n: nat) {
    exists j :: 0 <= j < |f| && f[j].size >= n
  }

  /** The c-th header after freep's, and the one before it. */
  function Off(n: nat, fi: nat, c: nat): (x: nat)
    requires fi < n && c < n
    ensures x < n
  {
    if fi + 1 + c < n then fi + 1 + c else fi + 1 + c - n
  }

  function Before(n: nat, fi: nat, c: nat): (x: nat)
    requires fi < n && c < n
    ensures x < n
  {
    if c == 0 then fi else Off(n, fi, c - 1)
  }

  lemma BeforeIs(n: nat, fi: nat, c: nat)
    requires fi < n && c < n
    ensures Off(n, fi, c) > 0 ==> Before(n, fi, c) == Off(n, fi, c) - 1
  {}

  lemma WentRound(n: nat, fi: nat, c: nat)
    requires fi < n && c < n && Off(n, fi, c) == fi
    ensures c == n - 1
  {}

  lemma NotLast(n: nat, fi: nat, c: nat)
    requires fi < n && c < n && Off(n, fi, c) != fi
    ensures c + 1 < n && Off(n, fi, c + 1) == Succ(n, Off(n, fi, c)) && Before(n, fi, c + 1) == Off(n, fi, c)
  {}

  /** What memory holds for a header of the ring. */
  lemma HeaderOf(f: seq<Block>, i: nat, ptr: map<nat, nat>, size: map<nat, nat>, base: nat)
    requires i < |f| && Chain(f, ptr, base) && Sized(f, size) && f[0].at == base
    ensures f[i].at in ptr && ptr[f[i].at] == f[Succ(|f|, i)].at && f[i].at in size && size[f[i].at] == f[i].size
    ensures Succ(|f|, i) == Off(|f|, i, 0)
  {}

  lemma Positive(f: seq<Block>, i: nat, n: nat)
    requires Sorted(f) && i < |f| && 0 < n <= f[i].size
    ensures i > 0
  {}

  lemma SameHeader(f: seq<Block>, a: nat, b: nat)
    requires Sorted(f) && a < |f| && b < |f|
    ensures f[a].at == f[b].at <==> a == b
  {}

  /** Once round without success means no block has n units. */
  lemma AllSmall(f: seq<Block>, fi: nat, n: nat)
    requires fi < |f| && (forall x :: 0 <= x < |f| - 1 ==> f[Off(|f|, fi, x)].size < n) && f[fi].size < n
    ensures !HasRoom(f, n) && forall j :: 0 <= j < |f| ==> f[j].size < n
  {
    forall j | 0 <= j < |f| ensures f[j].size < n {
      if j != fi {
        var x := if j > fi then j - fi - 1 else j + |f| - fi - 1;
        assert Off(|f|, fi, x) == j;
      }
    }
  }

  lemma EnlargedNow(w: Heap, r: Block, i: nat, n: nat)
    requires (forall j :: 0 <= j < |w.free| ==> w.free[j].size < n) && i < |w.free| && r.size >= n && w.brk <= r.at
    ensures Enlarged(w, Grown(w, r, i), n) && HasRoom(Grown(w, r, i).free, n)
  {
    var g := Insert(w.free, i, r);
    JoinUpAt(w.free, i, r);
    if End(w.free[i]) == r.at {
      assert g[i].size >= n;
    } else {
      assert g[i + 1] == JoinUp(w.free, i, r);
    }
  }

  /** What is left of heap and ring once n units are taken from free block i. */
  lemma Carved(h: Heap, i: nat, n: nat, ptr: map<nat, nat>, size: map<nat, nat>, ptr': map<nat, nat>,
               size': map<nat, nat>, base: nat)
    requires Good(h) && Sorted(h.free) && 0 < i < |h.free| && 0 < n <= h.free[i].size
    requires Chain(h.free, ptr, base) && Sized(h.free, size) && h.free[0].at == base
    requires h.free[i].size == n ==>
               && h.free[i - 1].at in ptr && h.free[i].at in ptr
               && ptr' == ptr[h.free[i - 1].at := ptr[h.free[i].at]] && size' == size
    requires h.free[i].size != n ==>
               ptr' == ptr && size' == size[h.free[i].at := h.free[i].size - n][h.free[i].at + h.free[i].size - n := n]
    ensures var g := Take(h.free, i, n);
            && Chain(g, ptr', base) && Sized(g, size') && Sorted(g) && g[0].at == base
            && i - 1 < |g| && g[i - 1].at == h.free[i - 1].at && base <= h.free[i - 1].at
    ensures Good(Allocated(h, i, n)) && Taken(h.free, i, n).at !in h.live
    ensures forall p, j :: p in h.live && 0 <= j < |h.free| ==> h.free[j].at != p
  {
    hide Good, Chain, Sized, Sorted, Take;
    AllocateGood(h, i, n);
    RingAfterTake(h.free, i, n, ptr, size, ptr', size', base);
    LiveNotHeaders(h);
    TakeSorted(h.free, i, n);
    PrevStays(h.free, i, n);
    BaseLowest(h.free, i - 1);
    TakeHead(h.free, i, n);
  }

  lemma RingAfterTake(f: seq<Block>, i: nat, n: nat, ptr: map<nat, nat>, size: map<nat, nat>, ptr': map<nat, nat>,
                      size': map<nat, nat>, base: nat)
    requires Sorted(f) && 0 < i < |f| && 0 < n <= f[i].size && Chain(f, ptr, base) && Sized(f, size) && f[0].at == base
    requires f[i].size == n ==>
               && f[i - 1].at in ptr && f[i].at in ptr
               && ptr' == ptr[f[i - 1].at := ptr[f[i].at]] && size' == size
    requires f[i].size != n ==> ptr' == ptr && size' == size[f[i].at := f[i].size - n][f[i].at + f[i].size - n := n]
    ensures Chain(Take(f, i, n), ptr', base) && Sized(Take(f, i, n), size')
  {
    if f[i].size == n {
      CutOut(f, i, ptr, size, base);
    } else {
      Shortened(f, i, n, ptr, size, base);
    }
  }

  lemma CutOut(f: seq<Block>, i: nat, ptr: map<nat, nat>, size: map<nat, nat>, base: nat)
    requires Sorted(f) && 0 < i < |f| && Chain(f, ptr, base) && Sized(f, size) && f[i - 1].at in ptr && f[i].at in ptr
    ensures var ptr' := ptr[f[i - 1].at := ptr[f[i].at]];
            Chain(f[..i] + f[i + 1..], ptr', base) && Sized(f[..i] + f[i + 1..], size)
  {
    hide Sorted, Chain, Sized;
    var ptr' := ptr[f[i - 1].at := ptr[f[i].at]];
    NextOf(f, i, ptr, base);
    ChainAt(f, i - 1, ptr, size, base);
    ChainAt(f, i, ptr, size, base);
    ChainAt(f, i + 1, ptr, size, base);
    CutApart(f, i);
    PieceFrame(f[..i - 1], ptr, size, ptr', size, f[i - 1].at, f[i - 1].at, f[i - 1].at);
    PieceFrame(f[i + 1..], ptr, size, ptr', size, base, f[i - 1].at, f[i - 1].at);
    SingleChain(f[i - 1], ptr', First(f[i + 1..], base));
    ChainJoin([f[i - 1]], f[i + 1..], ptr', base);
    ChainJoin(f[..i - 1], [f[i - 1]] + f[i + 1..], ptr', base);
    assert f[..i - 1] + ([f[i - 1]] + f[i + 1..]) == f[..i] + f[i + 1..];
    SizedConcat(f[..i], f[i + 1..], size);
  }

  lemma NextOf(f: seq<Block>, i: nat, ptr: map<nat, nat>, base: nat)
    requires i < |f| && Chain(f, ptr, base)
    ensures f[i].at in ptr && ptr[f[i].at] == First(f[i + 1..], base)
  {}

  lemma SingleChain(b: Block, ptr: map<nat, nat>, last: nat)
    requires b.at in ptr && ptr[b.at] == last
    ensures Chain([b], ptr, last)
  {}

  lemma CutApart(f: seq<Block>, i: nat)
    requires Sorted(f) && 0 < i < |f|
    ensures var a := f[..i - 1]; forall j :: 0 <= j < |a| ==> a[j].at != f[i - 1].at
    ensures var c := f[i + 1..]; forall j :: 0 <= j < |c| ==> c[j].at != f[i - 1].at
  {}

  lemma Shortened(f: seq<Block>, i: nat, n: nat, ptr: map<nat, nat>, size: map<nat, nat>, base: nat)
    requires Sorted(f) && 0 < i < |f| && 0 < n < f[i].size && Chain(f, ptr, base) && Sized(f, size)
    ensures var size' := size[f[i].at := f[i].size - n][f[i].at + f[i].size - n := n];
            var g := f[i := Block(f[i].at, f[i].size - n)];
            Chain(g, ptr, base) && Sized(g, size')
  {
    var g := f[i := Block(f[i].at, f[i].size - n)];
    var size' := size[f[i].at := f[i].size - n][f[i].at + f[i].size - n := n];
    forall j | 0 <= j < |g| ensures g[j].at in ptr && ptr[g[j].at] == Next(g, j, base) { assert g[j].at == f[j].at; }
    forall j | 0 <= j < |g| ensures g[j].at in size' && size'[g[j].at] == g[j].size {
      if j < i { assert End(f[j]) < f[i].at; }
      if j > i { assert End(f[i]) < f[j].at; }
    }
  }

  lemma PrevStays(f: seq<Block>, i: nat, n: nat)
    requires 0 < i < |f| && n <= f[i].size
    ensures i - 1 < |Take(f, i, n)| && Take(f, i, n)[i - 1].at == f[i - 1].at
  {}

  lemma TakeHead(f: seq<Block>, i: nat, n: nat)
    requires 0 < i < |f| && n <= f[i].size
    ensures Take(f, i, n) != [] && Take(f, i, n)[0].at == f[0].at
  {}

  /** Addresses of live blocks are not headers of the ring. */
  lemma LiveNotHeaders(h: Heap)
    requires Good(h)
    ensures forall p, j :: p in h.live && 0 <= j < |h.free| ==> h.free[j].at != p
  {
    hide Covers, InLive;
    forall p, j | p in h.live && 0 <= j < |h.free| ensures h.free[j].at != p {
      assert Disjoint(h.free[j], Block(p, h.live[p]));
    }
  }

  lemma GoodHead(f: seq<Block>, i: nat, b: Block)
    requires Sorted(f) && Fits(f, i, b)
    ensures f != [] && i < |f| && Insert(f, i, b) != [] && Insert(f, i, b)[0] == f[0]
  {
    InsertSorted(f, i, b);
  }

  /** A region beyond the end of the data segment touches nothing. */
  lemma BeyondIsLoose(h: Heap, r: Block)
    requires Good(h) && h.brk <= r.at && h.free[0].at < h.brk
    ensures forall j :: 0 <= j < |h.free| ==> Disjoint(h.free[j], r)
    ensures h.free[0].at < r.at
  {}

  lemma NotBeyond(h: Heap, p: nat)
    requires Good(h) && h.brk <= p && h.free[0].at < h.brk
    ensures p !in h.live && forall j :: 0 <= j < |h.free| ==> h.free[j].at != p
  {
    hide Covers, InLive;
    BelowBrk(h);
  }

  lemma BelowBrk(h: Heap)
    requires Good(h) && h.free[0].at < h.brk
    ensures forall j :: 0 <= j < |h.free| ==> h.free[j].at < h.brk
    ensures forall p :: p in h.live ==> p < h.brk
  {}

  lemma SizedFrame(f: seq<Block>, m: map<nat, nat>, m': map<nat, nat>, p: nat)
    requires Sized(f, m) && Except(m, m', p, p) && forall j :: 0 <= j < |f| ==> f[j].at != p
    ensures Sized(f, m')
  {}

  lemma BaseLowest(f: seq<Block>, i: nat)
    requires Sorted(f) && i < |f|
    ensures f[0].at <= f[i].at
  {}

  lemma ExceptBoth(m: map<nat, nat>, m1: map<nat, nat>, m2: map<nat, nat>, p: nat, bp: nat)
    requires Except(m, m1, bp, bp) && Except(m1, m2, p, p)
    ensures Except(m, m2, p, bp)
  {}

  lemma OthersSame(f: seq<Block>, i: nat, m: map<nat, nat>, m': map<nat, nat>, bp: nat)
    requires i < |f| && Except(m, m', f[i].at, bp)
    ensures forall a :: a in m && a != bp && (forall j :: 0 <= j < |f| ==> f[j].at != a) ==> a in m' && m'[a] == m[a]
  {}

  lemma NothingCovered()
    ensures forall u :: !Covers([], u)
  {}

  /** The predecessor's header is still in the ring. */
  lemma StillInRing(f: seq<Block>, i: nat, b: Block)
    requires i < |f|
    ensures i < |Insert(f, i, b)| && Insert(f, i, b)[i].at == f[i].at
  {}
}
