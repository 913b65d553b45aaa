/** The single steps of the allocator and the page-table code, each with what it does to every
    translation and every owner. */
module PageSteps {
  import opened PageTable

  predicate IsTable(o: Owner) {
    o.TopTable? || o.MidTable? || o.LowTable?
  }

  /** t has the tables of w, entry for entry. */
  ghost predicate SameTables(w: Vm, t: Vm) {
    && |t.ram| == |w.ram| && |t.spaces| == |w.spaces|
    && (forall k :: 0 <= k < |w.spaces| ==> t.spaces[k].root == w.spaces[k].root)
    && (forall o :: IsTable(o) && 0 < PageOf(w, o) < |w.ram| ==> t.ram[PageOf(w, o)] == w.ram[PageOf(w, o)])
  }

  lemma SameTablesSameEntries(w: Vm, t: Vm, k: nat)
    requires SameTables(w, t)
    ensures Top(t, k) == Top(w, k)
    ensures forall i :: Mid(t, k, i) == Mid(w, k, i)
    ensures forall i, j :: Low(t, k, i, j) == Low(w, k, i, j)
    ensures forall v :: Pte(t, k, v) == Pte(w, k, v)
  {
    assert PageOf(w, TopTable(k)) == Top(w, k);
    forall i ensures Mid(t, k, i) == Mid(w, k, i) {}
    forall i: nat ensures PageOf(w, MidTable(k, i)) == Mid(w, k, i) {}
    forall i: nat, j: nat ensures Low(t, k, i, j) == Low(w, k, i, j) {
      assert PageOf(w, MidTable(k, i)) == Mid(w, k, i);
    }
    forall v: nat ensures Pte(t, k, v) == Pte(w, k, v) {
      assert PageOf(w, LowTable(k, I2(v), I1(v))) == Low(w, k, I2(v), I1(v));
    }
  }

  /** Same tables and same owned sets: the structural half of the invariant carries over. */
  lemma SameTablesKeep(w: Vm, t: Vm)
    requires Good(w) && SameTables(w, t) && t.first == w.first
    requires forall k :: 0 <= k < |w.spaces| ==> t.spaces[k].owned == w.spaces[k].owned
    ensures Interior(t) && Leaves(t)
    ensures forall o: Owner :: !o.Free? && !o.Kept? ==> PageOf(t, o) == PageOf(w, o)
  {
    hide Child, Mid, Low, Pte, MakePte, IsLeaf;
    forall k: nat ensures Top(t, k) == Top(w, k) { SameTablesSameEntries(w, t, k); }
    forall k: nat, i: nat ensures Mid(t, k, i) == Mid(w, k, i) { SameTablesSameEntries(w, t, k); }
    forall k: nat, i: nat, j: nat ensures Low(t, k, i, j) == Low(w, k, i, j) { SameTablesSameEntries(w, t, k); }
    forall k: nat, v: nat ensures Pte(t, k, v) == Pte(w, k, v) { SameTablesSameEntries(w, t, k); }
    forall k: nat | 0 < Top(w, k) < |w.ram| ensures t.ram[Top(w, k)] == w.ram[Top(w, k)] {
      assert PageOf(w, TopTable(k)) == Top(w, k);
    }
    forall k: nat, i: nat | 0 < Mid(w, k, i) < |w.ram| ensures t.ram[Mid(w, k, i)] == w.ram[Mid(w, k, i)] {
      assert PageOf(w, MidTable(k, i)) == Mid(w, k, i);
    }
    forall o: Owner | !o.Free? && !o.Kept? ensures PageOf(t, o) == PageOf(w, o) {}
  }

  // ---- Contents of a page that is no table

  lemma WriteNonTable(w: Vm, p: nat, x: Page)
    requires Good(w) && 0 < p < |w.ram| && forall o :: IsTable(o) ==> PageOf(w, o) != p
    ensures var t := w.(ram := w.ram[p := x]);
            Good(t) && SameTables(w, t) && forall o :: PageOf(t, o) == PageOf(w, o)
  {
    hide PageOf, Top, Mid, Low, Pte;
    var t := w.(ram := w.ram[p := x]);
    SameTablesKeep(w, t);
    forall o ensures PageOf(t, o) == PageOf(w, o) { ListOwners(w, t, o); }
    SameOwners(w, t);
  }

  lemma ListOwners(w: Vm, t: Vm, o: Owner)
    requires (o.Free? ==> (o.p in w.free <==> o.p in t.free)) && (o.Kept? ==> (o.p in w.kept <==> o.p in t.kept))
    requires !o.Free? && !o.Kept? ==> PageOf(t, o) == PageOf(w, o)
    ensures PageOf(t, o) == PageOf(w, o)
  {}

  lemma SameOwners(w: Vm, t: Vm)
    requires t.first == w.first && |t.ram| == |w.ram| && forall o :: PageOf(t, o) == PageOf(w, o)
    requires InRange(w) && OneOwner(w) && AllOwned(w)
    ensures InRange(t) && OneOwner(t) && AllOwned(t)
  {
    hide PageOf;
    forall q | t.first <= q < |t.ram| ensures Held(t, q) {
      assert Held(w, q);
      var o :| PageOf(w, o) == q;
      assert PageOf(t, o) == q;
    }
  }

  // ---- The free list

  /** kalloc: the first free page is now in the kernel's hands. */
  lemma TakeFree(w: Vm)
    requires Good(w) && w.free != []
    ensures var t := w.(free := w.free[1..], kept := w.kept + {w.free[0]});
            Good(t) && w.free[0] !in w.kept && Transfer(w, t, Free(w.free[0]), Kept(w.free[0]), w.free[0])
  {
    hide Top, Mid, Low, Pte, Interior, Leaves;
    var p := w.free[0];
    var t := w.(free := w.free[1..], kept := w.kept + {p});
    assert PageOf(w, Free(p)) == p;
    FreeIsPage(w, 0);
    FreeNotKept(w, p);
    SameTablesKeep(w, t);
    assert p !in t.free;
    forall o: Owner | o != Free(p) && o != Kept(p) ensures PageOf(t, o) == PageOf(w, o) {
      if o.Free? { assert o.p in t.free <==> o.p in w.free by { assert w.free == [p] + w.free[1..]; } }
    }
    TransferKeeps(w, t, Free(p), Kept(p), p);
  }

  lemma FreeNotKept(w: Vm, p: nat)
    requires Good(w)
    ensures !(p in w.free && p in w.kept)
  {
    assert PageOf(w, Free(p)) != PageOf(w, Kept(p)) || PageOf(w, Free(p)) == 0;
  }

  lemma FreeIsPage(w: Vm, j: nat)
    requires Good(w) && j < |w.free|
    ensures w.first <= w.free[j] < |w.ram|
  {
    assert PageOf(w, Free(w.free[j])) == w.free[j];
  }

  /** kfree: a page in the kernel's hands goes on the free list. */
  lemma GiveFree(w: Vm, p: nat)
    requires Good(w) && p in w.kept
    ensures var t := w.(free := [p] + w.free, kept := w.kept - {p});
            Good(t) && p !in w.free && Transfer(w, t, Kept(p), Free(p), p)
  {
    hide Top, Mid, Low, Pte, Interior, Leaves;
    var t := w.(free := [p] + w.free, kept := w.kept - {p});
    assert PageOf(w, Kept(p)) == p;
    FreeNotKept(w, p);
    SameTablesKeep(w, t);
    TransferKeeps(w, t, Kept(p), Free(p), p);
  }

  // ---- Writing one entry of a table

  /** Table page table with entry i set to e. */
  function SetEntry(w: Vm, table: nat, i: nat, e: nat): Vm
    requires table < |w.ram| && i < PTES
  {
    var page: Page := w.ram[table][i := e];
    w.(ram := w.ram[table := page])
  }

  function ChildOf(e: nat): nat {
    if Valid(e) then Ppn(e) else 0
  }

  /** A table page's number, range and uniqueness. */
  lemma TableFacts(w: Vm, o: Owner, o': Owner)
    requires Good(w) && PageOf(w, o) != 0
    ensures 0 < PageOf(w, o) < |w.ram|
    ensures o != o' ==> PageOf(w, o') != PageOf(w, o)
  {
    hide PageOf;
  }

  lemma TopEntry(w: Vm, k: nat, i: nat, e: nat)
    requires Good(w) && Top(w, k) != 0 && i < PTES
    ensures Top(w, k) < |w.ram|
    ensures var t := SetEntry(w, Top(w, k), i, e);
            && (forall k', i' :: Mid(t, k', i') == if k' == k && i' == i then ChildOf(e) else Mid(w, k', i'))
            && (forall k', i2, i1 :: k' != k || i2 != i ==> Low(t, k', i2, i1) == Low(w, k', i2, i1))
            && (forall k', v :: k' != k || I2(v) != i ==> Pte(t, k', v) == Pte(w, k', v))
  {
    hide Good, Ppn, Valid, I0, I1, I2;
    TableFacts(w, TopTable(k), TopTable(k));
    var table := Top(w, k);
    var t := SetEntry(w, table, i, e);
    forall k': nat, i': nat ensures Mid(t, k', i') == if k' == k && i' == i then ChildOf(e) else Mid(w, k', i') {
      TableFacts(w, TopTable(k), TopTable(k'));
    }
    forall k': nat, i2: nat, i1: nat | k' != k || i2 != i ensures Low(t, k', i2, i1) == Low(w, k', i2, i1) {
      TableFacts(w, TopTable(k), MidTable(k', i2));
    }
    forall k': nat, v: nat | k' != k || I2(v) != i ensures Pte(t, k', v) == Pte(w, k', v) {
      TableFacts(w, TopTable(k), LowTable(k', I2(v), I1(v)));
    }
  }

  lemma MidEntry(w: Vm, k: nat, i2: nat, i: nat, e: nat)
    requires Good(w) && Mid(w, k, i2) != 0 && i < PTES
    ensures Mid(w, k, i2) < |w.ram|
    ensures var t := SetEntry(w, Mid(w, k, i2), i, e);
            && (forall k', i' :: Mid(t, k', i') == Mid(w, k', i'))
            && (forall k', a, b ::
                  Low(t, k', a, b) == if k' == k && a == i2 && b == i then ChildOf(e) else Low(w, k', a, b))
            && (forall k', v :: k' != k || I2(v) != i2 || I1(v) != i ==> Pte(t, k', v) == Pte(w, k', v))
  {
    hide Good, Ppn, Valid, I0, I1, I2;
    var o := MidTable(k, i2);
    TableFacts(w, o, o);
    var table := Mid(w, k, i2);
    var t := SetEntry(w, table, i, e);
    forall k': nat, i': nat ensures Mid(t, k', i') == Mid(w, k', i') { TableFacts(w, o, TopTable(k')); }
    forall k': nat, a: nat, b: nat
      ensures Low(t, k', a, b) == if k' == k && a == i2 && b == i then ChildOf(e) else Low(w, k', a, b)
    {
      assert Mid(t, k', a) == Mid(w, k', a);
      TableFacts(w, o, MidTable(k', a));
    }
    forall k': nat, v: nat | k' != k || I2(v) != i2 || I1(v) != i ensures Pte(t, k', v) == Pte(w, k', v) {
      assert Low(t, k', I2(v), I1(v)) == Low(w, k', I2(v), I1(v));
      TableFacts(w, o, LowTable(k', I2(v), I1(v)));
    }
  }

  lemma LowEntry(w: Vm, k: nat, i2: nat, i1: nat, i: nat, e: nat)
    requires Good(w) && Low(w, k, i2, i1) != 0 && i < PTES
    ensures Low(w, k, i2, i1) < |w.ram|
    ensures var t := SetEntry(w, Low(w, k, i2, i1), i, e);
            && (forall k', i' :: Mid(t, k', i') == Mid(w, k', i'))
            && (forall k', a, b :: Low(t, k', a, b) == Low(w, k', a, b))
            && (forall k', v :: Pte(t, k', v) ==
                  if k' == k && I2(v) == i2 && I1(v) == i1 && I0(v) == i then e else Pte(w, k', v))
  {
    hide Good, Ppn, Valid, I1, I2;
    var o := LowTable(k, i2, i1);
    TableFacts(w, o, o);
    var t := SetEntry(w, Low(w, k, i2, i1), i, e);
    forall k': nat, i': nat ensures Mid(t, k', i') == Mid(w, k', i') { TableFacts(w, o, TopTable(k')); }
    forall k': nat, a: nat, b: nat ensures Low(t, k', a, b) == Low(w, k', a, b) {
      assert Mid(t, k', a) == Mid(w, k', a);
      TableFacts(w, o, MidTable(k', a));
    }
    forall k': nat, v: nat
      ensures Pte(t, k', v) == if k' == k && I2(v) == i2 && I1(v) == i1 && I0(v) == i then e else Pte(w, k', v)
    {
      assert Low(t, k', I2(v), I1(v)) == Low(w, k', I2(v), I1(v));
      TableFacts(w, o, LowTable(k', I2(v), I1(v)));
    }
  }

  // ---- Adding a table

  /** A blank page in the kernel's hands becomes the table below entry i of space k's root. */
  function WithMid(w: Vm, k: nat, i: nat, p: nat): Vm
    requires Top(w, k) < |w.ram| && i < PTES
  {
    SetEntry(w, Top(w, k), i, MakePte(p, 0)).(kept := w.kept - {p})
  }

  function WithLow(w: Vm, k: nat, i2: nat, i: nat, p: nat): Vm
    requires Mid(w, k, i2) < |w.ram| && i < PTES
  {
    SetEntry(w, Mid(w, k, i2), i, MakePte(p, 0)).(kept := w.kept - {p})
  }

  lemma KeptFacts(w: Vm, p: nat, o: Owner)
    requires Good(w) && p in w.kept
    ensures 0 < p < |w.ram| && (o != Kept(p) ==> PageOf(w, o) != p)
  {
    assert PageOf(w, Kept(p)) == p;
  }

  /** A zeroed page in the kernel's hands. */
  predicate Blank(w: Vm, p: nat) {
    p in w.kept && p < |w.ram| && w.ram[p] == ZeroPage()
  }

  lemma ZeroHasNoChild(w: Vm, p: nat, j: nat)
    requires p < |w.ram| && w.ram[p] == ZeroPage()
    ensures Child(w.ram, p, j) == 0
  {}

  lemma WithMidEntries(w: Vm, k: nat, i: nat, p: nat)
    requires Good(w) && Top(w, k) != 0 && i < PTES && Mid(w, k, i) == 0 && Blank(w, p)
    ensures Top(w, k) < |w.ram|
    ensures var t := WithMid(w, k, i, p);
            && (forall k' :: Top(t, k') == Top(w, k'))
            && (forall k', i' :: Mid(t, k', i') == if k' == k && i' == i then p else Mid(w, k', i'))
            && (forall k', i2, i1 :: Low(t, k', i2, i1) == Low(w, k', i2, i1))
            && (forall k', v :: Pte(t, k', v) == Pte(w, k', v))
  {
    hide Good, InRange, OneOwner, I0, I1, I2;
    TopEntry(w, k, i, MakePte(p, 0));
    PteRoundTrip(p, 0);
    var u := SetEntry(w, Top(w, k), i, MakePte(p, 0));
    var t := WithMid(w, k, i, p);
    KeptFacts(w, p, TopTable(k));
    forall k': nat, i': nat ensures Mid(t, k', i') == Mid(u, k', i') {}
    forall k': nat, i2: nat, i1: nat ensures Low(t, k', i2, i1) == Low(w, k', i2, i1) {
      if k' == k && i2 == i { ZeroHasNoChild(u, p, i1); }
      else { assert Low(u, k', i2, i1) == Low(w, k', i2, i1); }
    }
    forall k': nat, v: nat ensures Pte(t, k', v) == Pte(w, k', v) {
      assert Low(t, k', I2(v), I1(v)) == Low(w, k', I2(v), I1(v));
      if k' != k || I2(v) != i { assert Pte(u, k', v) == Pte(w, k', v); }
    }
  }

  lemma WithMidGood(w: Vm, k: nat, i: nat, p: nat)
    requires Good(w) && Top(w, k) != 0 && i < 256 && Mid(w, k, i) == 0 && Blank(w, p)
    ensures Top(w, k) < |w.ram| && Good(WithMid(w, k, i, p))
    ensures Transfer(w, WithMid(w, k, i, p), Kept(p), MidTable(k, i), p)
  {
    hide Mid, Low, Pte, MakePte, Valid, IsLeaf, Ppn, ZeroPage;
    WithMidEntries(w, k, i, p);
    var t := WithMid(w, k, i, p);
    KeptFacts(w, p, Kept(p));
    assert Transfer(w, t, Kept(p), MidTable(k, i), p);
    TransferKeeps(w, t, Kept(p), MidTable(k, i), p);
    assert Leaves(t);
    WithMidInterior(w, k, i, p);
  }

  lemma WithMidInterior(w: Vm, k: nat, i: nat, p: nat)
    requires Good(w) && Top(w, k) != 0 && i < 256 && Mid(w, k, i) == 0 && Blank(w, p)
    ensures Top(w, k) < |w.ram| && Interior(WithMid(w, k, i, p))
  {
    hide Mid, Low, Pte, MakePte, IsLeaf, Ppn, OneOwner, AllOwned, Leaves, InRange;
    WithMidEntries(w, k, i, p);
    var t := WithMid(w, k, i, p);
    var table := Top(w, k);
    KeptFacts(w, p, TopTable(k));
    TableFacts(w, TopTable(k), TopTable(k));
    forall k': nat | 0 < Top(w, k') < |w.ram| && k' != k ensures t.ram[Top(w, k')] == w.ram[Top(w, k')] {
      TableFacts(w, TopTable(k), TopTable(k'));
    }
    forall k': nat, i2: nat | 0 < Mid(w, k', i2) < |w.ram| ensures t.ram[Mid(w, k', i2)] == w.ram[Mid(w, k', i2)] {
      TableFacts(w, TopTable(k), MidTable(k', i2));
    }
    assert forall j :: 0 <= j < PTES ==> !Valid(t.ram[p][j]);
  }

  lemma WithLowEntries(w: Vm, k: nat, i2: nat, i: nat, p: nat)
    requires Good(w) && Mid(w, k, i2) != 0 && i < PTES && Low(w, k, i2, i) == 0 && Blank(w, p)
    ensures Mid(w, k, i2) < |w.ram|
    ensures var t := WithLow(w, k, i2, i, p);
            && (forall k' :: Top(t, k') == Top(w, k'))
            && (forall k', i' :: Mid(t, k', i') == Mid(w, k', i'))
            && (forall k', a, b :: Low(t, k', a, b) == if k' == k && a == i2 && b == i then p else Low(w, k', a, b))
            && (forall k', v :: Pte(t, k', v) == Pte(w, k', v))
  {
    hide Good, InRange, OneOwner, I0, I1, I2;
    MidEntry(w, k, i2, i, MakePte(p, 0));
    PteRoundTrip(p, 0);
    var u := SetEntry(w, Mid(w, k, i2), i, MakePte(p, 0));
    var t := WithLow(w, k, i2, i, p);
    KeptFacts(w, p, MidTable(k, i2));
    forall k': nat, i': nat ensures Mid(t, k', i') == Mid(w, k', i') {
      assert Mid(u, k', i') == Mid(w, k', i');
    }
    forall k': nat, a: nat, b: nat
      ensures Low(t, k', a, b) == if k' == k && a == i2 && b == i then p else Low(w, k', a, b)
    {
      assert Low(t, k', a, b) == Low(u, k', a, b);
    }
    forall k': nat, v: nat ensures Pte(t, k', v) == Pte(w, k', v) {
      assert Low(t, k', I2(v), I1(v)) == Low(u, k', I2(v), I1(v));
      if k' != k || I2(v) != i2 || I1(v) != i { assert Pte(u, k', v) == Pte(w, k', v); }
    }
  }

  lemma WithLowGood(w: Vm, k: nat, i2: nat, i: nat, p: nat)
    requires Good(w) && Mid(w, k, i2) != 0 && i < PTES && Low(w, k, i2, i) == 0 && Blank(w, p)
    ensures Mid(w, k, i2) < |w.ram| && Good(WithLow(w, k, i2, i, p))
    ensures Transfer(w, WithLow(w, k, i2, i, p), Kept(p), LowTable(k, i2, i), p)
  {
    hide Mid, Low, Pte, MakePte, Valid, IsLeaf, Ppn, ZeroPage;
    WithLowEntries(w, k, i2, i, p);
    var t := WithLow(w, k, i2, i, p);
    KeptFacts(w, p, Kept(p));
    assert Transfer(w, t, Kept(p), LowTable(k, i2, i), p);
    TransferKeeps(w, t, Kept(p), LowTable(k, i2, i), p);
    assert Leaves(t);
    WithLowInterior(w, k, i2, i, p);
  }

  lemma WithLowInterior(w: Vm, k: nat, i2: nat, i: nat, p: nat)
    requires Good(w) && Mid(w, k, i2) != 0 && i < PTES && Low(w, k, i2, i) == 0 && Blank(w, p)
    ensures Mid(w, k, i2) < |w.ram| && Interior(WithLow(w, k, i2, i, p))
  {
    hide Mid, Low, Pte, MakePte, IsLeaf, Ppn, OneOwner, AllOwned, Leaves, InRange, Top;
    WithLowEntries(w, k, i2, i, p);
    var t := WithLow(w, k, i2, i, p);
    var o := MidTable(k, i2);
    KeptFacts(w, p, o);
    TableFacts(w, o, o);
    forall k': nat | 0 < Top(w, k') < |w.ram| ensures t.ram[Top(w, k')] == w.ram[Top(w, k')] {
      TableFacts(w, o, TopTable(k'));
    }
    forall k': nat, a: nat | 0 < Mid(w, k', a) < |w.ram| && !(k' == k && a == i2)
      ensures t.ram[Mid(w, k', a)] == w.ram[Mid(w, k', a)]
    {
      TableFacts(w, o, MidTable(k', a));
    }
  }

  // ---- Leaves

  /** The entry for page v of space k set to e. */
  function WithLeaf(w: Vm, k: nat, v: nat, e: nat): Vm
    requires Low(w, k, I2(v), I1(v)) < |w.ram|
  {
    SetEntry(w, Low(w, k, I2(v), I1(v)), I0(v), e)
  }

  /** Setting one entry changes the translation of that page and of no other. */
  lemma WithLeafEntries(w: Vm, k: nat, v: nat, e: nat)
    requires Good(w) && v < MAXVPN && Low(w, k, I2(v), I1(v)) != 0
    ensures Low(w, k, I2(v), I1(v)) < |w.ram|
    ensures var t := WithLeaf(w, k, v, e);
            && (forall k' :: Top(t, k') == Top(w, k'))
            && (forall k', i' :: Mid(t, k', i') == Mid(w, k', i'))
            && (forall k', a, b :: Low(t, k', a, b) == Low(w, k', a, b))
            && (forall k', u :: 0 <= u < MAXVPN ==> Pte(t, k', u) == if k' == k && u == v then e else Pte(w, k', u))
  {
    hide Good, Mid, Low, Pte, I0, I1, I2;
    LowEntry(w, k, I2(v), I1(v), I0(v), e);
    var t := WithLeaf(w, k, v, e);
    forall k': nat, u | 0 <= u < MAXVPN ensures Pte(t, k', u) == if k' == k && u == v then e else Pte(w, k', u) {
      if I2(u) == I2(v) && I1(u) == I1(v) && I0(u) == I0(v) { IndicesInjective(u, v); }
    }
  }

  /** Entries outside the owned pages can be written without touching ownership. */
  lemma WithLeafGood(w: Vm, k: nat, v: nat, e: nat)
    requires Good(w) && v < MAXVPN && Low(w, k, I2(v), I1(v)) != 0
    requires k < |w.spaces| && v !in w.spaces[k].owned
    ensures Low(w, k, I2(v), I1(v)) < |w.ram| && Good(WithLeaf(w, k, v, e))
    ensures forall o :: PageOf(WithLeaf(w, k, v, e), o) == PageOf(w, o)
  {
    hide Mid, Low, Pte, MakePte, Valid, IsLeaf, Ppn, InRange, OneOwner, AllOwned, I0, I1, I2;
    WithLeafEntries(w, k, v, e);
    var t := WithLeaf(w, k, v, e);
    forall o ensures PageOf(t, o) == PageOf(w, o) {
      if o.Data? && o.k < |w.spaces| && o.v in w.spaces[o.k].owned {
        assert o.v < MAXVPN;
      }
    }
    SameOwners(w, t);
    assert Leaves(t);
    WithLeafInterior(w, k, v, e);
  }

  lemma WithLeafInterior(w: Vm, k: nat, v: nat, e: nat)
    requires Good(w) && v < MAXVPN && Low(w, k, I2(v), I1(v)) != 0
    ensures Low(w, k, I2(v), I1(v)) < |w.ram| && Interior(WithLeaf(w, k, v, e))
  {
    hide Mid, Low, Pte, MakePte, Valid, IsLeaf, Ppn, OneOwner, AllOwned, Leaves, InRange, Top, I0, I1, I2;
    WithLeafEntries(w, k, v, e);
    var t := WithLeaf(w, k, v, e);
    var o := LowTable(k, I2(v), I1(v));
    forall k': nat | 0 < Top(w, k') < |w.ram| ensures t.ram[Top(w, k')] == w.ram[Top(w, k')] {
      TableFacts(w, o, TopTable(k'));
    }
    forall k': nat, a: nat | 0 < Mid(w, k', a) < |w.ram| ensures t.ram[Mid(w, k', a)] == w.ram[Mid(w, k', a)] {
      TableFacts(w, o, MidTable(k', a));
    }
  }

  function SetOwned(w: Vm, k: nat, owned: set<nat>): Vm
    requires k < |w.spaces|
  {
    w.(spaces := w.spaces[k := w.spaces[k].(owned := owned)])
  }

  /** A mapped page in the kernel's hands becomes the address space's own. */
  lemma Adopt(w: Vm, k: nat, v: nat)
    requires Good(w) && k < |w.spaces| && v < MAXVPN && v !in w.spaces[k].owned
    requires Valid(Pte(w, k, v)) && IsLeaf(Pte(w, k, v)) && Ppn(Pte(w, k, v)) in w.kept
    ensures var p := Ppn(Pte(w, k, v));
            var t := SetOwned(w, k, w.spaces[k].owned + {v}).(kept := w.kept - {p});
            Good(t) && SameTables(w, t) && Transfer(w, t, Kept(p), Data(k, v), p)
  {
    hide Child, I0, I1, I2, MakePte, Ppn, IsLeaf, Valid, InRange, OneOwner, AllOwned;
    var p := Ppn(Pte(w, k, v));
    var t := SetOwned(w, k, w.spaces[k].owned + {v}).(kept := w.kept - {p});
    KeptFacts(w, p, Kept(p));
    MoveOwned(w, t);
    assert Transfer(w, t, Kept(p), Data(k, v), p);
    TransferKeeps(w, t, Kept(p), Data(k, v), p);
  }

  /** The reverse: the page is the kernel's again, though still mapped. */
  lemma Disown(w: Vm, k: nat, v: nat)
    requires Good(w) && k < |w.spaces| && v in w.spaces[k].owned
    ensures var p := Ppn(Pte(w, k, v));
            var t := SetOwned(w, k, w.spaces[k].owned - {v}).(kept := w.kept + {p});
            && Good(t) && SameTables(w, t) && p !in w.kept && Transfer(w, t, Data(k, v), Kept(p), p)
  {
    hide Child, I0, I1, I2, MakePte, Ppn, IsLeaf, Valid, InRange, AllOwned;
    var p := Ppn(Pte(w, k, v));
    var t := SetOwned(w, k, w.spaces[k].owned - {v}).(kept := w.kept + {p});
    assert PageOf(w, Data(k, v)) == p != 0;
    assert PageOf(w, Kept(p)) == 0;
    MoveOwned(w, t);
    assert Transfer(w, t, Data(k, v), Kept(p), p);
    TransferKeeps(w, t, Data(k, v), Kept(p), p);
  }

  /** Only the owned sets and the kernel's pages differ: tables and entries do not. */
  lemma MoveOwned(w: Vm, t: Vm)
    requires Good(w) && t.first == w.first && t.ram == w.ram && |t.spaces| == |w.spaces|
    requires forall k :: 0 <= k < |w.spaces| ==> t.spaces[k].root == w.spaces[k].root
    ensures SameTables(w, t) && Interior(t)
    ensures forall k :: Top(t, k) == Top(w, k)
    ensures forall k, i :: Mid(t, k, i) == Mid(w, k, i)
    ensures forall k, i, j :: Low(t, k, i, j) == Low(w, k, i, j)
    ensures forall k, v :: Pte(t, k, v) == Pte(w, k, v)
  {
    hide Child, I0, I1, I2, MakePte, Ppn, IsLeaf, Valid, InRange, OneOwner, AllOwned, Leaves;
    forall k: nat ensures Top(t, k) == Top(w, k) {}
    forall k: nat, i: nat ensures Mid(t, k, i) == Mid(w, k, i) {}
    forall k: nat, i: nat, j: nat ensures Low(t, k, i, j) == Low(w, k, i, j) {}
  }

  // ---- Removing a table

  /** No entry of a lowest-level table of space k is valid. */
  ghost predicate NoLeaves(w: Vm, k: nat) {
    forall i2, i1, j :: 0 < Low(w, k, i2, i1) < |w.ram| && 0 <= j < PTES ==> !Valid(w.ram[Low(w, k, i2, i1)][j])
  }

  /** The link to a table removed, and the table's page in the kernel's hands. */
  function Cut(w: Vm, o: Owner): Vm
    requires IsTable(o)
  {
    match o
    case TopTable(k) =>
      if k < |w.spaces| then w.(spaces := w.spaces[k := Space(0, {})], kept := w.kept + {PageOf(w, o)}) else w
    case MidTable(k, i) =>
      if Top(w, k) < |w.ram| && i < PTES then SetEntry(w, Top(w, k), i, 0).(kept := w.kept + {PageOf(w, o)}) else w
    case LowTable(k, i2, i) =>
      if Mid(w, k, i2) < |w.ram| && i < PTES then SetEntry(w, Mid(w, k, i2), i, 0).(kept := w.kept + {PageOf(w, o)})
      else w
  }

  /** The table has no valid entry. */
  ghost predicate Childless(w: Vm, o: Owner) {
    0 < PageOf(w, o) < |w.ram| && forall j :: 0 <= j < PTES ==> !Valid(w.ram[PageOf(w, o)][j])
  }

  lemma ChildlessMeans(w: Vm, o: Owner, j: nat)
    requires Childless(w, o)
    ensures o.TopTable? ==> Mid(w, o.k, j) == 0
    ensures o.MidTable? ==> Low(w, o.k, o.i2, j) == 0
  {}

  lemma TableIndex(w: Vm, o: Owner)
    requires IsTable(o) && PageOf(w, o) != 0
    ensures o.k < |w.spaces|
    ensures o.MidTable? ==> Top(w, o.k) != 0 && o.i2 < PTES
    ensures o.LowTable? ==> Top(w, o.k) != 0 && Mid(w, o.k, o.i2) != 0 && o.i1 < PTES && o.i2 < PTES
  {}

  lemma CutEntries(w: Vm, o: Owner)
    requires Good(w) && IsTable(o) && Childless(w, o)
    ensures var t := Cut(w, o);
            && (forall q: Owner :: IsTable(q) ==> PageOf(t, q) == if q == o then 0 else PageOf(w, q))
            && (forall k, v :: k != o.k ==> Pte(t, k, v) == Pte(w, k, v))
  {
    hide Good, MakePte, Ppn, I0, I1, I2;
    TableIndex(w, o);
    var t := Cut(w, o);
    match o
    case TopTable(k) =>
      forall q: Owner | IsTable(q) ensures PageOf(t, q) == if q == o then 0 else PageOf(w, q) {
        if q.MidTable? { ChildlessMeans(w, o, q.i2); }
        if q.LowTable? { ChildlessMeans(w, o, q.i2); }
      }
    case MidTable(k, i) =>
      TopEntry(w, k, i, 0);
      var u := SetEntry(w, Top(w, k), i, 0);
      forall q: Owner | IsTable(q) ensures PageOf(t, q) == if q == o then 0 else PageOf(w, q) {
        assert PageOf(t, q) == PageOf(u, q);
        if q.LowTable? { ChildlessMeans(w, o, q.i1); }
      }
      forall k', v | k' != o.k ensures Pte(t, k', v) == Pte(w, k', v) { assert Pte(t, k', v) == Pte(u, k', v); }
    case LowTable(k, i2, i) =>
      MidEntry(w, k, i2, i, 0);
      var u := SetEntry(w, Mid(w, k, i2), i, 0);
      forall q: Owner | IsTable(q) ensures PageOf(t, q) == if q == o then 0 else PageOf(w, q) {
        assert PageOf(t, q) == PageOf(u, q);
      }
      forall k', v | k' != o.k ensures Pte(t, k', v) == Pte(w, k', v) { assert Pte(t, k', v) == Pte(u, k', v); }
  }

  /** The page holding the link to a table. */
  function Parent(o: Owner): Owner
    requires IsTable(o)
  {
    if o.LowTable? then MidTable(o.k, o.i2) else TopTable(o.k)
  }

  lemma CutPages(w: Vm, o: Owner)
    requires Good(w) && IsTable(o) && Childless(w, o)
    ensures var t := Cut(w, o);
            && t.first == w.first && |t.ram| == |w.ram| && |t.spaces| == |w.spaces| && t.free == w.free
            && t.kept == w.kept + {PageOf(w, o)}
            && (forall k :: 0 <= k < |w.spaces| && !(o.TopTable? && k == o.k) ==> t.spaces[k] == w.spaces[k])
            && (o.TopTable? ==> t.spaces[o.k] == Space(0, {}))
            && (forall q :: 0 < PageOf(w, q) < |w.ram| && q != Parent(o) ==> t.ram[PageOf(w, q)] == w.ram[PageOf(w, q)])
  {
    hide Good, Child, Pte, MakePte, Ppn, I0, I1, I2, Valid;
    TableIndex(w, o);
    TableFacts(w, Parent(o), Parent(o));
    forall q | 0 < PageOf(w, q) < |w.ram| && q != Parent(o)
      ensures Cut(w, o).ram[PageOf(w, q)] == w.ram[PageOf(w, q)]
    {
      TableFacts(w, Parent(o), q);
    }
  }

  lemma CutGood(w: Vm, o: Owner)
    requires Good(w) && IsTable(o) && Childless(w, o) && o.k < |w.spaces| && w.spaces[o.k].owned == {}
    ensures Good(Cut(w, o)) && PageOf(w, o) !in w.kept
    ensures Transfer(w, Cut(w, o), o, Kept(PageOf(w, o)), PageOf(w, o))
  {
    hide Top, Mid, Low, Pte, Childless, Interior, MakePte, Ppn, Valid, IsLeaf, Cut, Child, InRange, AllOwned;
    var p := PageOf(w, o);
    var t := Cut(w, o);
    CutEntries(w, o);
    CutPages(w, o);
    assert p != 0 by { ChildlessPage(w, o); }
    assert PageOf(w, Kept(p)) == 0;
    forall q | q != o && q != Kept(p) ensures PageOf(t, q) == PageOf(w, q) {
      if q.Data? && q.k < |w.spaces| { assert q.k != o.k ==> t.spaces[q.k] == w.spaces[q.k]; }
    }
    assert Transfer(w, t, o, Kept(p), p);
    TransferKeeps(w, t, o, Kept(p), p);
    assert Leaves(t);
    CutInterior(w, o);
  }

  lemma ChildlessPage(w: Vm, o: Owner)
    requires Childless(w, o)
    ensures PageOf(w, o) != 0
  {}

  lemma CutInterior(w: Vm, o: Owner)
    requires Good(w) && IsTable(o) && Childless(w, o)
    ensures Interior(Cut(w, o))
  {
    hide Mid, Low, Pte, Top, MakePte, Ppn, Valid, IsLeaf, Cut, Child, InRange, AllOwned, OneOwner, Leaves, Childless;
    var t := Cut(w, o);
    CutEntries(w, o);
    CutPages(w, o);
    forall k: nat, i | 0 < Top(t, k) < |t.ram| && 0 <= i < PTES && Valid(t.ram[Top(t, k)][i])
      ensures i < 256 && Mid(t, k, i) != 0 && t.ram[Top(t, k)][i] == MakePte(Mid(t, k, i), 0)
    {
      CutTopEntry(w, o, k, i);
    }
    forall k: nat, i2: nat, i | 0 < Mid(t, k, i2) < |t.ram| && 0 <= i < PTES && Valid(t.ram[Mid(t, k, i2)][i])
      ensures Low(t, k, i2, i) != 0 && t.ram[Mid(t, k, i2)][i] == MakePte(Low(t, k, i2, i), 0)
    {
      CutMidEntry(w, o, k, i2, i);
    }
  }

  lemma CutTopEntry(w: Vm, o: Owner, k: nat, i: nat)
    requires Good(w) && IsTable(o) && Childless(w, o) && i < PTES
    requires var t := Cut(w, o); 0 < Top(t, k) < |t.ram| && Valid(t.ram[Top(t, k)][i])
    ensures var t := Cut(w, o); i < 256 && Mid(t, k, i) != 0 && t.ram[Top(t, k)][i] == MakePte(Mid(t, k, i), 0)
  {
    hide Mid, Low, Pte, MakePte, Ppn, IsLeaf, Child, InRange, AllOwned, OneOwner, Leaves, Childless, I0, I1, I2;
    var t := Cut(w, o);
    CutEntries(w, o);
    CutPages(w, o);
    assert PageOf(t, TopTable(k)) == Top(t, k) && PageOf(w, TopTable(k)) == Top(w, k);
    assert PageOf(t, MidTable(k, i)) == Mid(t, k, i) && PageOf(w, MidTable(k, i)) == Mid(w, k, i);
    assert t.ram[Top(t, k)][i] == w.ram[Top(w, k)][i] && MidTable(k, i) != o;
  }

  lemma CutMidEntry(w: Vm, o: Owner, k: nat, i2: nat, i: nat)
    requires Good(w) && IsTable(o) && Childless(w, o) && i < PTES
    requires var t := Cut(w, o); 0 < Mid(t, k, i2) < |t.ram| && Valid(t.ram[Mid(t, k, i2)][i])
    ensures var t := Cut(w, o); Low(t, k, i2, i) != 0 && t.ram[Mid(t, k, i2)][i] == MakePte(Low(t, k, i2, i), 0)
  {
    hide Mid, Low, Pte, MakePte, Ppn, IsLeaf, Child, InRange, AllOwned, OneOwner, Leaves, Childless, I0, I1, I2;
    var t := Cut(w, o);
    CutEntries(w, o);
    CutPages(w, o);
    assert PageOf(t, MidTable(k, i2)) == Mid(t, k, i2) && PageOf(w, MidTable(k, i2)) == Mid(w, k, i2);
    assert PageOf(t, LowTable(k, i2, i)) == Low(t, k, i2, i) && PageOf(w, LowTable(k, i2, i)) == Low(w, k, i2, i);
    assert t.ram[Mid(t, k, i2)][i] == w.ram[Mid(w, k, i2)][i] && LowTable(k, i2, i) != o;
  }
}
