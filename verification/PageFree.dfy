/** Taking a page-table tree apart, table by table. */
module PageFree {
  import opened PageTable
  import opened PageSteps
  import opened PageMemory

  /** o and every table below it. */
  ghost predicate Under(q: Owner, o: Owner)
    requires IsTable(o)
  {
    || q == o
    || (o.TopTable? && q.MidTable? && q.k == o.k && q.i2 < PTES)
    || (o.TopTable? && q.LowTable? && q.k == o.k && q.i2 < PTES && q.i1 < PTES)
    || (o.MidTable? && q.LowTable? && q.k == o.k && q.i2 == o.i2 && q.i1 < PTES)
  }

  /** The table that entry j of table o names. */
  function ChildOwner(o: Owner, j: nat): (c: Owner)
    requires o.TopTable? || o.MidTable?
    ensures IsTable(c) && c.k == o.k
  {
    if o.TopTable? then MidTable(o.k, j) else LowTable(o.k, o.i2, j)
  }

  /** The tables below the first n entries of o. */
  ghost predicate Below(q: Owner, o: Owner, n: nat)
    requires IsTable(o)
  {
    !o.LowTable? && exists j :: 0 <= j < n && Under(q, ChildOwner(o, j))
  }

  ghost function UnderSet(o: Owner): iset<Owner>
    requires IsTable(o)
  {
    iset q | Under(q, o)
  }

  ghost function BelowSet(o: Owner, n: nat): iset<Owner>
    requires IsTable(o)
  {
    iset q | Below(q, o, n)
  }

  lemma BelowNone(o: Owner)
    requires IsTable(o)
    ensures BelowSet(o, 0) == iset{}
  {}

  lemma BelowMore(o: Owner, n: nat)
    requires IsTable(o) && !o.LowTable?
    ensures BelowSet(o, n + 1) == BelowSet(o, n) + UnderSet(ChildOwner(o, n))
  {
    forall q ensures Below(q, o, n + 1) <==> Below(q, o, n) || Under(q, ChildOwner(o, n)) {
      if Under(q, ChildOwner(o, n)) { assert 0 <= n < n + 1; }
    }
  }

  lemma BelowAll(o: Owner)
    requires IsTable(o)
    ensures UnderSet(o) == (if o.LowTable? then iset{} else BelowSet(o, PTES)) + iset{o}
  {
    forall q ensures Under(q, o) <==> (!o.LowTable? && Below(q, o, PTES)) || q == o {
      if o.TopTable? && Under(q, o) && q != o { assert Under(q, ChildOwner(o, q.i2)); }
      if o.MidTable? && Under(q, o) && q != o { assert Under(q, ChildOwner(o, q.i1)); }
    }
  }

  /** z is w without the tables in `dead`, all of space k, which owns no pages: their pages are free. */
  ghost predicate Less(w: Vm, z: Vm, k: nat, dead: iset<Owner>) {
    && Good(w) && Good(z) && z.first == w.first && |z.ram| == |w.ram| && z.kept == w.kept
    && |z.spaces| == |w.spaces| && k < |w.spaces|
    && (forall k' :: 0 <= k' < |w.spaces| && k' != k ==> z.spaces[k'] == w.spaces[k'])
    && w.spaces[k].owned == {} && z.spaces[k].owned == {}
    && (forall q :: q in dead ==> IsTable(q) && q.k == k)
    && (forall q :: IsTable(q) ==> PageOf(z, q) == if q in dead then 0 else PageOf(w, q))
    && (forall q: Owner :: (q.LowTable? || q.Data? || q.Kept?) && 0 < PageOf(z, q) < |w.ram| ==>
          PageOf(w, q) == PageOf(z, q) && z.ram[PageOf(z, q)] == w.ram[PageOf(z, q)])
  }

  lemma LessNone(w: Vm, k: nat)
    requires Good(w) && k < |w.spaces| && w.spaces[k].owned == {}
    ensures Less(w, w, k, iset{})
  {
    hide Good, PageOf;
  }

  lemma LessTrans(w: Vm, u: Vm, z: Vm, k: nat, d: iset<Owner>, e: iset<Owner>)
    requires Less(w, u, k, d) && Less(u, z, k, e)
    ensures Less(w, z, k, d + e)
  {
    hide Good, PageOf;
  }

  /** Tables that were not there can be counted as removed. */
  lemma LessAbsent(w: Vm, z: Vm, k: nat, d: iset<Owner>, e: iset<Owner>)
    requires Less(w, z, k, d) && forall q :: q in e ==> IsTable(q) && q.k == k && PageOf(z, q) == 0
    ensures Less(w, z, k, d + e)
  {
    hide Good, PageOf;
  }

  lemma AbsentBelow(w: Vm, c: Owner)
    requires IsTable(c) && PageOf(w, c) == 0
    ensures forall q :: q in UnderSet(c) ==> IsTable(q) && q.k == c.k && PageOf(w, q) == 0
  {}

  /** No leaf appears. */
  lemma LessNoLeaves(w: Vm, z: Vm, k: nat, d: iset<Owner>)
    requires Less(w, z, k, d) && NoLeaves(w, k)
    ensures NoLeaves(z, k)
  {
    hide Good, Low, Valid;
    forall i2: nat, i1: nat, j | 0 < Low(z, k, i2, i1) < |z.ram| && 0 <= j < PTES
      ensures !Valid(z.ram[Low(z, k, i2, i1)][j])
    {
      assert PageOf(z, LowTable(k, i2, i1)) == Low(z, k, i2, i1);
      assert PageOf(w, LowTable(k, i2, i1)) == Low(w, k, i2, i1);
    }
  }

  /** Translations of other spaces stay. */
  lemma LessOthers(w: Vm, z: Vm, k: nat, d: iset<Owner>, k': nat, v: nat)
    requires Less(w, z, k, d) && k' != k
    ensures Pte(z, k', v) == Pte(w, k', v)
  {
    hide Good, Low;
    var o := LowTable(k', I2(v), I1(v));
    assert PageOf(z, o) == Low(z, k', I2(v), I1(v)) && PageOf(w, o) == Low(w, k', I2(v), I1(v));
  }

  // ---- Freeing one table

  /** The link to table o removed. */
  ghost function Unlink(w: Vm, o: Owner): Vm
    requires IsTable(o)
  {
    match o
    case TopTable(k) => if k < |w.spaces| then w.(spaces := w.spaces[k := Space(0, {})]) else w
    case MidTable(k, i) => if Top(w, k) < |w.ram| && i < PTES then SetEntry(w, Top(w, k), i, 0) else w
    case LowTable(k, i2, i) => if Mid(w, k, i2) < |w.ram| && i < PTES then SetEntry(w, Mid(w, k, i2), i, 0) else w
  }

  /** Cutting a table off and freeing its page is the same as freeing it and then removing the link. */
  lemma CutThenFree(w: Vm, o: Owner)
    requires Good(w) && IsTable(o) && Childless(w, o) && PageOf(w, o) !in w.kept
    ensures PageOf(w, o) < |w.ram|
    ensures Unlink(Returned(w, PageOf(w, o)), o) == Returned(Cut(w, o), PageOf(w, o))
  {
    hide Good, Valid, Ppn, Pte, I0, I1, I2;
    var p := PageOf(w, o);
    TableIndex(w, o);
    TableFacts(w, Parent(o), o);
    TableFacts(w, o, Parent(o));
    TableFacts(w, o, TopTable(o.k));
    assert w.kept + {p} - {p} == w.kept - {p};
    var f := Returned(w, p);
    assert Top(f, o.k) == Top(w, o.k);
    if o.LowTable? {
      assert Mid(f, o.k, o.i2) == Mid(w, o.k, o.i2);
      UpdatesCommute(w.ram, Mid(w, o.k, o.i2), p);
    } else if o.MidTable? {
      UpdatesCommute(w.ram, Top(w, o.k), p);
    }
  }

  lemma UpdatesCommute(ram: seq<Page>, a: nat, b: nat)
    requires a < |ram| && b < |ram| && a != b
    ensures forall x: Page, y: Page {:trigger ram[a := x][b := y]} :: ram[a := x][b := y] == ram[b := y][a := x]
  {}

  lemma TableFreed(w: Vm, o: Owner)
    requires Good(w) && IsTable(o) && Childless(w, o) && o.k < |w.spaces| && w.spaces[o.k].owned == {}
    ensures PageOf(w, o) < |w.ram| && PageOf(w, o) !in w.kept
    ensures Less(w, Unlink(Returned(w, PageOf(w, o)), o), o.k, iset{o})
  {
    hide Good, PageOf, Childless, Cut, Returned, Unlink;
    var p := PageOf(w, o);
    CutGood(w, o);
    CutThenFree(w, o);
    CutPages(w, o);
    var c := Cut(w, o);
    ReturnedGood(c, p);
    var z := Returned(c, p);
    ReturnedFields(c, p);
    assert z.kept == w.kept;
    forall q: Owner | (q.LowTable? || q.Data? || q.Kept?) && 0 < PageOf(z, q) < |w.ram|
      ensures PageOf(w, q) == PageOf(z, q) && z.ram[PageOf(z, q)] == w.ram[PageOf(z, q)]
    {
      FreedContents(w, o, q);
    }
    forall q | IsTable(q) ensures PageOf(z, q) == if q in iset{o} then 0 else PageOf(w, q) {
      assert q != Free(p) && q != Kept(p);
    }
  }

  lemma ReturnedFields(c: Vm, p: nat)
    requires p < |c.ram|
    ensures var z := Returned(c, p);
            && z.first == c.first && |z.ram| == |c.ram| && z.spaces == c.spaces && z.kept == c.kept - {p}
            && forall x :: 0 <= x < |c.ram| && x != p ==> z.ram[x] == c.ram[x]
  {}

  lemma FreedContents(w: Vm, o: Owner, q: Owner)
    requires Good(w) && IsTable(o) && Childless(w, o) && o.k < |w.spaces| && w.spaces[o.k].owned == {}
    requires (q.LowTable? || q.Data? || q.Kept?) && 0 < PageOf(w, o) < |w.ram|
    requires 0 < PageOf(Returned(Cut(w, o), PageOf(w, o)), q) < |w.ram|
    ensures var z := Returned(Cut(w, o), PageOf(w, o));
            |z.ram| == |w.ram| && PageOf(w, q) == PageOf(z, q) && z.ram[PageOf(z, q)] == w.ram[PageOf(z, q)]
  {
    hide Good, PageOf, Childless, Cut, Returned;
    var p := PageOf(w, o);
    CutGood(w, o);
    CutPages(w, o);
    var c := Cut(w, o);
    ReturnedGood(c, p);
    ReturnedFields(c, p);
    var z := Returned(c, p);
    assert q != Free(p);
    NotKeptAfter(c, p, q);
    assert PageOf(z, q) == PageOf(c, q);
    assert q != o;
    assert PageOf(c, q) == PageOf(w, q);
    TableFacts(w, o, q);
  }

  lemma NotKeptAfter(c: Vm, p: nat, q: Owner)
    requires p < |c.ram| && PageOf(Returned(c, p), q) != 0
    ensures q != Kept(p)
  {}

  // ---- What freewalk sees

  /** A valid entry is never a leaf: it names the next table. In a lowest-level table there is none. */
  lemma EntryKind(u: Vm, o: Owner, i: nat)
    requires Good(u) && IsTable(o) && PageOf(u, o) != 0 && i < PTES && NoLeaves(u, o.k)
    ensures PageOf(u, o) < |u.ram|
    ensures var pte := u.ram[PageOf(u, o)][i];
            && (Valid(pte) ==> !IsLeaf(pte) && !o.LowTable? && PageOf(u, ChildOwner(o, i)) == Ppn(pte) != 0)
            && (!Valid(pte) && !o.LowTable? ==> PageOf(u, ChildOwner(o, i)) == 0)
  {
    hide InRange, OneOwner, AllOwned, Leaves, MakePte, IsLeaf, Valid, Ppn;
    TableFacts(u, o, o);
    if !o.LowTable? && Valid(u.ram[PageOf(u, o)][i]) {
      PteRoundTrip(PageOf(u, ChildOwner(o, i)), 0);
      NotLeaf();
    }
  }

  lemma NotLeaf()
    ensures !IsLeaf(0)
  {}

  lemma NotBelowSelf(o: Owner, n: nat)
    requires IsTable(o)
    ensures o !in BelowSet(o, n) && (!o.TopTable? ==> Parent(o) !in BelowSet(o, n))
    ensures !o.TopTable? ==> Parent(o) !in UnderSet(o)
  {}

  /** With every table below o gone, o has no valid entry. */
  lemma AllGone(w: Vm, u: Vm, o: Owner)
    requires IsTable(o) && Less(w, u, o.k, if o.LowTable? then iset{} else BelowSet(o, PTES)) && NoLeaves(u, o.k)
    requires PageOf(u, o) != 0
    ensures Childless(u, o)
  {
    hide Good, PageOf, Valid, IsLeaf, Ppn, NoLeaves;
    forall j | 0 <= j < PTES ensures PageOf(u, o) < |u.ram| && !Valid(u.ram[PageOf(u, o)][j]) {
      EntryKind(u, o, j);
      if !o.LowTable? {
        assert Under(ChildOwner(o, j), ChildOwner(o, j));
        assert ChildOwner(o, j) in BelowSet(o, PTES);
      }
    }
    EntryKind(u, o, 0);
  }

  /** Freeing the table's page does not move the link to it. */
  lemma LinkStays(u: Vm, o: Owner)
    requires Good(u) && IsTable(o) && !o.TopTable? && PageOf(u, o) != 0
    ensures PageOf(u, o) < |u.ram| && PageOf(Returned(u, PageOf(u, o)), Parent(o)) == PageOf(u, Parent(o))
    ensures 0 < PageOf(u, Parent(o)) < |u.ram|
  {
    hide InRange, AllOwned, Leaves, Interior, MakePte, Valid, Ppn;
    TableIndex(u, o);
    TableFacts(u, o, Parent(o));
    TableFacts(u, Parent(o), o);
    TableFacts(u, o, TopTable(o.k));
  }

  // ---- A whole space

  lemma EntryVpn(i2: nat, i1: nat, j: nat)
    requires i2 < 256 && i1 < PTES && j < PTES
    ensures var v := i2 * 262144 + i1 * 512 + j; v < MAXVPN && I2(v) == i2 && I1(v) == i1 && I0(v) == j
  {
    var v := i2 * 262144 + i1 * 512 + j;
    assert v / 512 == i2 * 512 + i1;
    assert v / 262144 == i2;
  }

  lemma NoLeavesFrom(z: Vm, k: nat)
    requires Good(z) && forall v :: 0 <= v < MAXVPN ==> !Valid(Pte(z, k, v))
    ensures NoLeaves(z, k)
  {
    hide InRange, OneOwner, AllOwned, Leaves, MakePte, Ppn, I0, I1, I2;
    forall i2: nat, i1: nat, j | 0 < Low(z, k, i2, i1) < |z.ram| && 0 <= j < PTES
      ensures !Valid(z.ram[Low(z, k, i2, i1)][j])
    {
      TableIndex(z, LowTable(k, i2, i1));
      TableFacts(z, TopTable(k), TopTable(k));
      EntryVpn(i2, i1, j);
      assert !Valid(Pte(z, k, i2 * 262144 + i1 * 512 + j));
    }
  }

  predicate InSpace(o: Owner, k: nat) {
    !o.Free? && !o.Kept? && o.k == k
  }

  /** Space k is gone, every page it held is free, and everyone else's pages are as they were. */
  ghost predicate SpaceFreed(w: Vm, z: Vm, k: nat) {
    && Good(w) && Good(z) && z.first == w.first && |z.ram| == |w.ram| && z.kept == w.kept && k < |w.spaces|
    && z.spaces == w.spaces[k := Space(0, {})]
    && (forall k', v :: k' != k && 0 <= v < MAXVPN ==> Pte(z, k', v) == Pte(w, k', v))
    && (forall o: Owner :: InSpace(o, k) ==> PageOf(z, o) == 0 && (PageOf(w, o) != 0 ==> PageOf(w, o) in z.free))
    && (forall o: Owner :: (o.Data? || o.Kept?) && 0 < PageOf(z, o) < |w.ram| ==>
          PageOf(w, o) == PageOf(z, o) && z.ram[PageOf(z, o)] == w.ram[PageOf(z, o)])
  }

  lemma UnmappedThenFreed(w: Vm, u: Vm, z: Vm, k: nat, n: nat)
    requires Unmapped(w, u, k, 0, n, true) && Less(u, z, k, UnderSet(TopTable(k)))
    requires z.spaces == u.spaces[k := Space(0, {})]
    ensures SpaceFreed(w, z, k)
  {
    hide Good, PageOf, Pte, UnderSet, Range, FreedPages;
    assert z.spaces == w.spaces[k := Space(0, {})];
    forall k', v | k' != k && 0 <= v < MAXVPN ensures Pte(z, k', v) == Pte(w, k', v) {
      LessOthers(u, z, k, UnderSet(TopTable(k)), k', v);
    }
    forall o: Owner | InSpace(o, k) ensures PageOf(z, o) == 0 { SpaceEmpty(u, z, k, o); }
    forall o: Owner | InSpace(o, k) && PageOf(w, o) != 0 ensures PageOf(w, o) in z.free {
      NowFree(w, u, z, k, n, o);
    }
  }

  lemma SpaceEmpty(u: Vm, z: Vm, k: nat, o: Owner)
    requires InSpace(o, k) && Less(u, z, k, UnderSet(TopTable(k)))
    ensures PageOf(z, o) == 0
  {
    hide Good, Mid, Low, Pte;
    if IsTable(o) && o !in UnderSet(TopTable(o.k)) { OutOfRange(z, o); }
  }

  lemma OutOfRange(z: Vm, o: Owner)
    requires IsTable(o) && !Under(o, TopTable(o.k))
    ensures PageOf(z, o) == 0
  {}

  /** A page the space held is not held by anyone else now, so it is free. */
  lemma NowFree(w: Vm, u: Vm, z: Vm, k: nat, n: nat, o: Owner)
    requires Unmapped(w, u, k, 0, n, true) && Less(u, z, k, UnderSet(TopTable(k)))
    requires InSpace(o, k) && PageOf(w, o) != 0 && forall q: Owner :: InSpace(q, k) ==> PageOf(z, q) == 0
    ensures PageOf(w, o) in z.free
  {
    hide InRange, OneOwner, AllOwned, Interior, Leaves, PageOf, Pte, UnderSet, Range, FreedPages;
    var p := PageOf(w, o);
    Holder(w, z, o);
    var q :| PageOf(z, q) == p;
    if !q.Free? {
      assert !InSpace(q, k);
      assert PageOf(w, q) == p by {
        TableFacts(w, o, o);
        if IsTable(q) { assert PageOf(u, q) == PageOf(w, q); }
      }
      TableFacts(w, o, q);
    }
    FreeOwner(z, q);
  }

  lemma Holder(w: Vm, z: Vm, o: Owner)
    requires Good(w) && Good(z) && z.first == w.first && |z.ram| == |w.ram| && PageOf(w, o) != 0
    ensures exists q :: PageOf(z, q) == PageOf(w, o)
  {
    hide PageOf;
    assert Held(z, PageOf(w, o));
  }

  lemma FreeOwner(z: Vm, q: Owner)
    requires PageOf(z, q) != 0
    ensures q.Free? ==> PageOf(z, q) in z.free
  {}

  // ---- A new space, and the start

  ghost function WithRoot(w: Vm, p: nat): Vm {
    w.(spaces := w.spaces + [Space(p, {})], kept := w.kept - {p})
  }

  /** A blank page becomes the root of a new, empty space. */
  lemma WithRootGood(w: Vm, p: nat)
    requires Good(w) && Blank(w, p)
    ensures Good(WithRoot(w, p)) && Transfer(w, WithRoot(w, p), Kept(p), TopTable(|w.spaces|), p)
    ensures forall k, v :: Pte(WithRoot(w, p), k, v) == Pte(w, k, v)
  {
    hide MakePte, Ppn, IsLeaf, I0, I1, I2, InRange, OneOwner, AllOwned;
    var t, n := WithRoot(w, p), |w.spaces|;
    KeptFacts(w, p, Kept(p));
    forall k: nat | k != n ensures Top(t, k) == Top(w, k) {}
    forall i: nat ensures Mid(t, n, i) == 0 { ZeroHasNoChild(t, p, i); }
    forall k: nat, i: nat ensures Mid(t, k, i) == Mid(w, k, i) {}
    forall k: nat, i: nat, j: nat ensures Low(t, k, i, j) == Low(w, k, i, j) {}
    forall k: nat, v: nat ensures Pte(t, k, v) == Pte(w, k, v) {}
    WithRootKeeps(w, p);
  }

  lemma WithRootKeeps(w: Vm, p: nat)
    requires Good(w) && Blank(w, p) && p != 0
    requires var t, n := WithRoot(w, p), |w.spaces|;
             && (forall k :: k != n ==> Top(t, k) == Top(w, k))
             && (forall k, i :: Mid(t, k, i) == Mid(w, k, i)) && (forall k, i, j :: Low(t, k, i, j) == Low(w, k, i, j))
             && (forall k, v :: Pte(t, k, v) == Pte(w, k, v))
    ensures Good(WithRoot(w, p)) && Transfer(w, WithRoot(w, p), Kept(p), TopTable(|w.spaces|), p)
  {
    hide Mid, Low, Pte, MakePte, Ppn, IsLeaf, I0, I1, I2, InRange, OneOwner, AllOwned;
    var t, n := WithRoot(w, p), |w.spaces|;
    assert Transfer(w, t, Kept(p), TopTable(n), p);
    TransferKeeps(w, t, Kept(p), TopTable(n), p);
    assert forall j :: 0 <= j < PTES ==> !Valid(t.ram[p][j]);
  }

  /** Right after start-up every page is free. */
  lemma AllFree(w: Vm)
    requires 0 < w.first <= |w.ram| && w.spaces == [] && w.kept == {} && Distinct(w.free)
    requires forall p :: p in w.free <==> w.first <= p < |w.ram|
    ensures Good(w)
  {
    forall o: Owner ensures PageOf(w, o) != 0 ==> o.Free? {}
    forall p | w.first <= p < |w.ram| ensures Held(w, p) { assert PageOf(w, Free(p)) == p; }
  }
}
