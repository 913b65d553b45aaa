/** Physical page allocator and page tables as the kernel runs them. Addresses of whole pages are page
    numbers; page 0 is the null pointer. */
module PageMemory {
  import opened PageTable
  import opened PageSteps

  /** A page filled with one byte value. */
  function Junk(b: nat): Page {
    seq(PTES, _ => b * 0x0101_0101_0101_0101)
  }

  function HeadOf(s: seq<nat>): nat {
    if s == [] then 0 else s[0]
  }

  /** The free pages are linked through their first words. */
  ghost predicate Chain(ram: seq<Page>, head: nat, free: seq<nat>) {
    && head == HeadOf(free)
    && forall j :: 0 <= j < |free| ==> 0 < free[j] < |ram| && ram[free[j]][0] == HeadOf(free[j + 1..])
  }

  /** The state after kalloc hands out the first free page. */
  ghost function Taken(w: Vm): Vm
    requires w.free != [] && w.free[0] < |w.ram|
  {
    var p := w.free[0];
    w.(ram := w.ram[p := Junk(5)], free := w.free[1..], kept := w.kept + {p})
  }

  /** The state after kfree puts page p on the list. */
  ghost function Returned(w: Vm, p: nat): Vm
    requires p < |w.ram|
  {
    var page: Page := Junk(1)[0 := HeadOf(w.free)];
    w.(ram := w.ram[p := page], free := [p] + w.free, kept := w.kept - {p})
  }

  /** Nothing a process can see changed: same spaces, same translations, same contents; at most free
      pages have become tables. */
  ghost predicate Extends(w: Vm, t: Vm) {
    && Good(w) && Good(t) && t.first == w.first && |t.ram| == |w.ram| && t.spaces == w.spaces && t.kept == w.kept
    && |t.free| <= |w.free| && t.free == w.free[|w.free| - |t.free|..]
    && (forall k, v :: Pte(t, k, v) == Pte(w, k, v))
    && (forall o: Owner :: (o.Data? || o.Kept?) && 0 < PageOf(w, o) < |w.ram| ==>
          t.ram[PageOf(w, o)] == w.ram[PageOf(w, o)])
  }

  lemma ExtendsRefl(w: Vm)
    requires Good(w)
    ensures Extends(w, w)
  {}

  lemma ExtendsFields(w: Vm, t: Vm)
    requires Extends(w, t)
    ensures Good(t) && t.first == w.first && |t.ram| == |w.ram| && t.spaces == w.spaces && t.kept == w.kept
    ensures forall k, v :: Pte(t, k, v) == Pte(w, k, v)
    ensures forall k :: Top(t, k) == Top(w, k)
  {
    hide Good, Pte;
  }

  lemma SameUserPages(w: Vm, t: Vm, o: Owner)
    requires Extends(w, t) && (o.Data? || o.Kept?)
    ensures PageOf(t, o) == PageOf(w, o)
  {
    hide Good, Pte;
  }

  lemma ExtendsTrans(w: Vm, t: Vm, u: Vm)
    requires Extends(w, t) && Extends(t, u)
    ensures Extends(w, u)
  {
    hide Good, Pte, PageOf;
    forall o: Owner | (o.Data? || o.Kept?) && 0 < PageOf(w, o) < |w.ram|
      ensures u.ram[PageOf(w, o)] == w.ram[PageOf(w, o)]
    {
      SameUserPages(w, t, o);
    }
  }

  lemma TakenGood(w: Vm)
    requires Good(w) && w.free != []
    ensures 0 < w.free[0] < |w.ram| && w.free[0] !in w.kept && Good(Taken(w)) && SameTables(w, Taken(w))
    ensures forall o :: o != Free(w.free[0]) && o != Kept(w.free[0]) ==> PageOf(Taken(w), o) == PageOf(w, o)
  {
    hide InRange, OneOwner, AllOwned, Interior, Leaves, PageOf;
    TakeFree(w);
    FreeIsPage(w, 0);
    var p := w.free[0];
    var t := w.(free := w.free[1..], kept := w.kept + {p});
    NotATable(w, t, p);
    WriteNonTable(t, p, Junk(5));
    assert Taken(w) == t.(ram := t.ram[p := Junk(5)]);
    TakenTables(w);
  }

  lemma NotATable(w: Vm, t: Vm, p: nat)
    requires Good(w) && p in w.free && Transfer(w, t, Free(p), Kept(p), p)
    ensures forall o :: IsTable(o) ==> PageOf(t, o) != p
  {
    hide InRange, AllOwned, Interior, Leaves;
    assert PageOf(w, Free(p)) == p;
    forall o | IsTable(o) ensures PageOf(t, o) != p { assert PageOf(t, o) == PageOf(w, o); }
  }

  lemma TakenTables(w: Vm)
    requires Good(w) && w.free != [] && w.free[0] < |w.ram|
    ensures SameTables(w, Taken(w))
  {
    hide InRange, AllOwned, Interior, Leaves, Top, Mid, Low, Pte, Junk;
    assert PageOf(w, Free(w.free[0])) == w.free[0];
  }

  /** kfree of a page in the kernel's hands. */
  lemma ReturnedGood(w: Vm, p: nat)
    requires Good(w) && p in w.kept
    ensures 0 < p < |w.ram| && p !in w.free && Good(Returned(w, p)) && SameTables(w, Returned(w, p))
    ensures forall o :: o != Free(p) && o != Kept(p) ==> PageOf(Returned(w, p), o) == PageOf(w, o)
  {
    hide InRange, AllOwned, Interior, Leaves, Top, Mid, Low, Pte, Junk;
    KeptFacts(w, p, Kept(p));
    GiveFree(w, p);
    var t := w.(free := [p] + w.free, kept := w.kept - {p});
    assert PageOf(w, Kept(p)) == p;
    forall o | IsTable(o) ensures PageOf(t, o) != p { assert PageOf(t, o) == PageOf(w, o); }
    var page: Page := Junk(1)[0 := HeadOf(w.free)];
    WriteNonTable(t, p, page);
    assert Returned(w, p) == t.(ram := t.ram[p := page]);
  }

  // ---- Growing a table tree

  /** kalloc, and then contents c: a page in the kernel's hands. */
  ghost function Filled(w: Vm, c: Page): Vm
    requires w.free != [] && w.free[0] < |w.ram|
  {
    var t := Taken(w);
    t.(ram := t.ram[w.free[0] := c])
  }

  ghost function Blanked(w: Vm): Vm
    requires w.free != [] && w.free[0] < |w.ram|
  {
    Filled(w, ZeroPage())
  }

  lemma FilledGood(w: Vm, c: Page)
    requires Good(w) && w.free != []
    ensures 0 < w.free[0] < |w.ram| && w.free[0] !in w.kept && Good(Filled(w, c)) && SameTables(w, Filled(w, c))
    ensures forall o :: o != Free(w.free[0]) && o != Kept(w.free[0]) ==> PageOf(Filled(w, c), o) == PageOf(w, o)
  {
    hide InRange, AllOwned, Interior, Leaves, Top, Mid, Low, Pte, Junk, SameTables;
    TakenGood(w);
    var p := w.free[0];
    assert PageOf(w, Free(p)) == p;
    forall o | IsTable(o) ensures PageOf(Taken(w), o) != p { assert PageOf(Taken(w), o) == PageOf(w, o); }
    WriteNonTable(Taken(w), p, c);
    FilledTables(w, c);
  }

  lemma FilledTables(w: Vm, c: Page)
    requires Good(w) && w.free != [] && w.free[0] < |w.ram|
    ensures SameTables(w, Filled(w, c))
  {
    hide InRange, AllOwned, Interior, Leaves, Top, Mid, Low, Pte, Junk;
    assert PageOf(w, Free(w.free[0])) == w.free[0];
  }

  lemma BlankedGood(w: Vm)
    requires Good(w) && w.free != []
    ensures 0 < w.free[0] < |w.ram| && w.free[0] !in w.kept && Good(Blanked(w)) && Blank(Blanked(w), w.free[0])
    ensures SameTables(w, Blanked(w))
    ensures forall o :: o != Free(w.free[0]) && o != Kept(w.free[0]) ==> PageOf(Blanked(w), o) == PageOf(w, o)
  {
    hide InRange, AllOwned, OneOwner, Interior, Leaves, PageOf, Junk, ZeroPage, SameTables;
    FilledGood(w, ZeroPage());
  }

  /** Contents of user and kernel pages survive when only page p, free before, and one table change. */
  lemma UserPagesApart(w: Vm, table: Owner, o: Owner)
    requires Good(w) && w.free != [] && IsTable(table) && PageOf(w, table) != 0
    requires (o.Data? || o.Kept?) && PageOf(w, o) != 0
    ensures PageOf(w, o) != PageOf(w, table) && PageOf(w, o) != w.free[0]
  {
    hide InRange, AllOwned, Interior, Leaves, Top, Mid, Low, Pte;
    assert PageOf(w, Free(w.free[0])) == w.free[0];
  }

  lemma GrowMid(w: Vm, k: nat, i: nat)
    requires Good(w) && w.free != [] && Top(w, k) != 0 && i < 256 && Mid(w, k, i) == 0
    ensures w.free[0] < |w.ram| && Top(w, k) < |w.ram|
    ensures var t := WithMid(Blanked(w), k, i, w.free[0]);
            Extends(w, t) && Mid(t, k, i) == w.free[0] && Top(t, k) == Top(w, k)
  {
    hide InRange, AllOwned, OneOwner, Interior, Leaves, Child, Junk, ZeroPage, I0, I1, I2, MakePte;
    BlankedGood(w);
    var p := w.free[0];
    var u := Blanked(w);
    SameTablesSameEntries(w, u, k);
    TableFacts(w, TopTable(k), TopTable(k));
    WithMidGood(u, k, i, p);
    WithMidEntries(u, k, i, p);
    var t := WithMid(u, k, i, p);
    assert t.kept == w.kept;
    forall k', v ensures Pte(t, k', v) == Pte(w, k', v) { SameTablesSameEntries(w, u, k'); }
    forall o: Owner | (o.Data? || o.Kept?) && 0 < PageOf(w, o) < |w.ram|
      ensures t.ram[PageOf(w, o)] == w.ram[PageOf(w, o)]
    {
      UserPagesApart(w, TopTable(k), o);
    }
  }

  lemma GrowLow(w: Vm, k: nat, i2: nat, i: nat)
    requires Good(w) && w.free != [] && Mid(w, k, i2) != 0 && i < PTES && Low(w, k, i2, i) == 0
    ensures w.free[0] < |w.ram| && Mid(w, k, i2) < |w.ram| && Mid(Blanked(w), k, i2) == Mid(w, k, i2)
    ensures var t := WithLow(Blanked(w), k, i2, i, w.free[0]);
            Extends(w, t) && Low(t, k, i2, i) == w.free[0]
  {
    hide InRange, AllOwned, OneOwner, Interior, Leaves, Child, Junk, ZeroPage, I0, I1, I2, MakePte;
    BlankedGood(w);
    var p := w.free[0];
    var u := Blanked(w);
    SameTablesSameEntries(w, u, k);
    TableFacts(w, MidTable(k, i2), MidTable(k, i2));
    WithLowGood(u, k, i2, i, p);
    WithLowEntries(u, k, i2, i, p);
    var t := WithLow(u, k, i2, i, p);
    assert t.kept == w.kept;
    forall k', v ensures Pte(t, k', v) == Pte(w, k', v) { SameTablesSameEntries(w, u, k'); }
    forall o: Owner | (o.Data? || o.Kept?) && 0 < PageOf(w, o) < |w.ram|
      ensures t.ram[PageOf(w, o)] == w.ram[PageOf(w, o)]
    {
      UserPagesApart(w, MidTable(k, i2), o);
    }
  }

  /** The table that walk has reached when `level` levels are left. */
  function TableFor(w: Vm, k: nat, v: nat, level: nat): nat {
    if level == 2 then Top(w, k) else if level == 1 then Mid(w, k, I2(v)) else Low(w, k, I2(v), I1(v))
  }

  function TableOwner(k: nat, v: nat, level: nat): Owner {
    if level == 2 then TopTable(k) else if level == 1 then MidTable(k, I2(v)) else LowTable(k, I2(v), I1(v))
  }

  /** The index walk uses at a level. */
  function LevelIndex(v: nat, level: nat): (i: nat)
    ensures i < PTES
  {
    if level == 2 then I2(v) else if level == 1 then I1(v) else I0(v)
  }

  /** A valid entry leads to the next table, an invalid one means it is missing. */
  lemma Descend(w: Vm, k: nat, v: nat, level: nat)
    requires Good(w) && 0 < level <= 2 && TableFor(w, k, v, level) != 0
    ensures var t := TableFor(w, k, v, level);
            && t < |w.ram|
            && (Valid(w.ram[t][LevelIndex(v, level)]) ==>
                  TableFor(w, k, v, level - 1) == Ppn(w.ram[t][LevelIndex(v, level)]) != 0)
            && (!Valid(w.ram[t][LevelIndex(v, level)]) ==> TableFor(w, k, v, level - 1) == 0)
  {
    hide InRange, AllOwned, OneOwner, Leaves, I0, I1, I2, MakePte, Valid, Ppn;
    TableFacts(w, TableOwner(k, v, level), TableOwner(k, v, level));
  }

  /** The tree with a new table, linked into the one walk has reached. */
  ghost function Linked(w: Vm, k: nat, v: nat, level: nat): Vm
    requires 0 < level <= 2 && w.free != [] && w.free[0] < |w.ram| && TableFor(w, k, v, level) < |w.ram|
  {
    var u := Blanked(w);
    SetEntry(u, TableFor(w, k, v, level), LevelIndex(v, level), MakePte(w.free[0], 0)).(kept := u.kept - {w.free[0]})
  }

  lemma LinkedGood(w: Vm, k: nat, v: nat, level: nat)
    requires Good(w) && 0 < level <= 2 && w.free != [] && v < MAXVPN
    requires TableFor(w, k, v, level) != 0 && TableFor(w, k, v, level - 1) == 0
    ensures w.free[0] < |w.ram| && TableFor(w, k, v, level) < |w.ram|
    ensures Extends(w, Linked(w, k, v, level)) && TableFor(Linked(w, k, v, level), k, v, level - 1) == w.free[0]
  {
    hide Good, Extends, Child, Mid, Low, I0, I1, I2, MakePte;
    Recompose(v);
    if level == 2 { GrowMid(w, k, I2(v)); } else { GrowLow(w, k, I2(v), I1(v)); }
  }

  // ---- Mapping a run of pages

  /** t is w with pages a..a+n of space k mapped to physical pages pa..pa+n, and no other translation,
      no owner and no contents changed. */
  ghost predicate Mapped(w: Vm, t: Vm, k: nat, a: nat, n: nat, pa: nat, perm: nat) {
    && Good(w) && Good(t) && t.first == w.first && |t.ram| == |w.ram| && t.spaces == w.spaces && t.kept == w.kept
    && |t.free| <= |w.free| && t.free == w.free[|w.free| - |t.free|..]
    && (forall k', u :: 0 <= u < MAXVPN ==>
          Pte(t, k', u) == if k' == k && a <= u < a + n then MakePte(pa + (u - a), perm) else Pte(w, k', u))
    && (forall o: Owner :: (o.Data? || o.Kept?) && 0 < PageOf(w, o) < |w.ram| ==>
          t.ram[PageOf(w, o)] == w.ram[PageOf(w, o)])
  }

  lemma MappedNone(w: Vm, t: Vm, k: nat, a: nat, pa: nat, perm: nat)
    requires Extends(w, t)
    ensures Mapped(w, t, k, a, 0, pa, perm)
  {
    hide Good, Pte, PageOf, MakePte;
  }

  /** A page of the address space that was not mapped stays the same page in user terms. */
  lemma MappedUserPage(w: Vm, t: Vm, k: nat, a: nat, n: nat, pa: nat, perm: nat, o: Owner)
    requires Mapped(w, t, k, a, n, pa, perm) && (o.Data? || o.Kept?)
    requires k < |w.spaces| && forall u :: a <= u < a + n ==> u !in w.spaces[k].owned
    ensures PageOf(t, o) == PageOf(w, o)
  {
    hide Pte, InRange, OneOwner, AllOwned, Interior, MakePte;
    if o.Data? && o.k < |w.spaces| && o.v in w.spaces[o.k].owned {
      assert o.v < MAXVPN;
    }
  }

  lemma MappedExtends(w: Vm, t: Vm, u: Vm, k: nat, a: nat, n: nat, pa: nat, perm: nat)
    requires Mapped(w, t, k, a, n, pa, perm) && Extends(t, u)
    requires k < |w.spaces| && forall x :: a <= x < a + n ==> x !in w.spaces[k].owned
    ensures Mapped(w, u, k, a, n, pa, perm)
  {
    hide Good, Pte, PageOf, MakePte;
    forall o: Owner | (o.Data? || o.Kept?) && 0 < PageOf(w, o) < |w.ram|
      ensures u.ram[PageOf(w, o)] == w.ram[PageOf(w, o)]
    {
      MappedUserPage(w, t, k, a, n, pa, perm, o);
    }
  }

  lemma MappedOneMore(w: Vm, t: Vm, k: nat, a: nat, n: nat, pa: nat, perm: nat)
    requires Mapped(w, t, k, a, n, pa, perm) && a + n < MAXVPN && Low(t, k, I2(a + n), I1(a + n)) != 0
    requires k < |w.spaces| && forall x :: a <= x <= a + n ==> x !in w.spaces[k].owned
    ensures Low(t, k, I2(a + n), I1(a + n)) < |t.ram|
    ensures Mapped(w, WithLeaf(t, k, a + n, MakePte(pa + n, perm)), k, a, n + 1, pa, perm)
  {
    hide Pte, MakePte, I0, I1, I2, Mid, Low, Top, Child, InRange, OneOwner, AllOwned, Interior, Leaves;
    var e := MakePte(pa + n, perm);
    WithLeafEntries(t, k, a + n, e);
    WithLeafGood(t, k, a + n, e);
    var u := WithLeaf(t, k, a + n, e);
    forall o: Owner | (o.Data? || o.Kept?) && 0 < PageOf(w, o) < |w.ram|
      ensures u.ram[PageOf(w, o)] == w.ram[PageOf(w, o)]
    {
      MappedUserPage(w, t, k, a, n, pa, perm, o);
      TableFacts(t, LowTable(k, I2(a + n), I1(a + n)), o);
    }
  }

  // ---- Unmapping

  /** Page v of space k is the kernel's to free, though still mapped. */
  ghost function Disowned(w: Vm, k: nat, v: nat): Vm
    requires k < |w.spaces|
  {
    SetOwned(w, k, w.spaces[k].owned - {v}).(kept := w.kept + {Ppn(Pte(w, k, v))})
  }

  /** kfree of an owned page and then `*pte = 0`. */
  ghost function LeafFreed(w: Vm, k: nat, v: nat): (t: Vm)
    ensures t.first == w.first && |t.ram| == |w.ram| && |t.spaces| == |w.spaces|
  {
    var p := Ppn(Pte(w, k, v));
    var l := Low(w, k, I2(v), I1(v));
    if k < |w.spaces| && p < |w.ram| && l < |w.ram| then
      SetEntry(Returned(Disowned(w, k, v), p), l, I0(v), 0)
    else w
  }

  lemma LeafFacts(w: Vm, k: nat, v: nat)
    requires Good(w) && k < |w.spaces| && v in w.spaces[k].owned
    ensures v < MAXVPN && Valid(Pte(w, k, v)) && 0 < Ppn(Pte(w, k, v)) < |w.ram|
    ensures 0 < Low(w, k, I2(v), I1(v)) < |w.ram|
    ensures PageOf(w, Data(k, v)) == Ppn(Pte(w, k, v)) && Ppn(Pte(w, k, v)) !in w.free
  {
    hide Mid, Low, I0, I1, I2, AllOwned, Interior, Ppn, MakePte;
    var p := PageOf(w, Data(k, v));
    assert p == Ppn(Pte(w, k, v));
    assert PageOf(w, Free(p)) == 0;
    assert PageOf(w, LowTable(k, I2(v), I1(v))) == Low(w, k, I2(v), I1(v));
  }

  /** Exactly that page is unmapped and freed. */
  lemma LeafFreedGood(w: Vm, k: nat, v: nat)
    requires Good(w) && k < |w.spaces| && v in w.spaces[k].owned
    ensures var t := LeafFreed(w, k, v);
            && Good(t) && t.kept == w.kept && t.free == [Ppn(Pte(w, k, v))] + w.free
            && t.spaces == w.spaces[k := w.spaces[k].(owned := w.spaces[k].owned - {v})]
            && (forall o :: IsTable(o) ==> PageOf(t, o) == PageOf(w, o))
            && (forall k', u :: 0 <= u < MAXVPN ==> Pte(t, k', u) == if k' == k && u == v then 0 else Pte(w, k', u))
  {
    hide Mid, Low, Pte, Top, Child, I0, I1, I2, AllOwned;
    hide Interior, Ppn, MakePte, InRange, OneOwner, Leaves, Valid, IsLeaf, Junk;
    LeafFacts(w, k, v);
    var p := Ppn(Pte(w, k, v));
    Disown(w, k, v);
    var d := Disowned(w, k, v);
    ReturnedGood(d, p);
    var u := Returned(d, p);
    TwoSame(w, d, u);
    WithLeafGood(u, k, v, 0);
    WithLeafEntries(u, k, v, 0);
    assert d.kept - {p} == w.kept;
    assert LeafFreed(w, k, v) == WithLeaf(u, k, v, 0);
    forall o | IsTable(o) ensures PageOf(WithLeaf(u, k, v, 0), o) == PageOf(w, o) {
      assert PageOf(d, o) == PageOf(w, o);
    }
  }

  lemma TwoSame(w: Vm, d: Vm, u: Vm)
    requires SameTables(w, d) && SameTables(d, u)
    ensures forall k, i2, i1 :: Low(u, k, i2, i1) == Low(w, k, i2, i1)
    ensures forall k, v :: Pte(u, k, v) == Pte(w, k, v)
  {
    hide Mid, Low, Pte, Top, SameTables;
    forall k: nat, i2: nat, i1: nat ensures Low(u, k, i2, i1) == Low(w, k, i2, i1) {
      SameTablesSameEntries(w, d, k);
      SameTablesSameEntries(d, u, k);
    }
    forall k: nat, v: nat ensures Pte(u, k, v) == Pte(w, k, v) {
      SameTablesSameEntries(w, d, k);
      SameTablesSameEntries(d, u, k);
    }
  }

  /** Every other user or kernel page keeps its number and its contents. */
  lemma LeafFreedContents(w: Vm, k: nat, v: nat, o: Owner)
    requires Good(w) && k < |w.spaces| && v in w.spaces[k].owned && (o.Data? || o.Kept?) && o != Data(k, v)
    requires PageOf(w, o) != 0
    ensures PageOf(w, o) < |w.ram|
    ensures LeafFreed(w, k, v).ram[PageOf(w, o)] == w.ram[PageOf(w, o)]
  {
    hide Mid, Low, Pte, Top, Child, I0, I1, I2, AllOwned;
    hide Interior, Ppn, MakePte, InRange, OneOwner, Leaves, Valid, Junk, Good;
    LeafFacts(w, k, v);
    TableFacts(w, Data(k, v), o);
    TableFacts(w, LowTable(k, I2(v), I1(v)), o);
    TableFacts(w, o, o);
  }

  /** The pages freed by unmapping n pages from a on, last one first. */
  function FreedPages(w: Vm, k: nat, a: nat, n: nat): seq<nat> {
    if n == 0 then [] else [Ppn(Pte(w, k, a + n - 1))] + FreedPages(w, k, a, n - 1)
  }

  /** The virtual pages a..a+n. */
  function Range(a: nat, n: nat): set<nat> {
    if n == 0 then {} else Range(a, n - 1) + {a + n - 1}
  }

  lemma {:induction false} InRangeIff(a: nat, n: nat, v: nat)
    ensures v in Range(a, n) <==> a <= v < a + n
  {
    if n > 0 { InRangeIff(a, n - 1, v); }
  }

  /** Physical pages that space k owns and maps at a..a+n. */
  function OwnedPages(w: Vm, k: nat, a: nat, n: nat): set<nat>
    requires k < |w.spaces|
  {
    if n == 0 then {}
    else OwnedPages(w, k, a, n - 1) + if a + n - 1 in w.spaces[k].owned then {Ppn(Pte(w, k, a + n - 1))} else {}
  }

  /** t is w with pages a..a+n of space k unmapped. When freeing, their physical pages are on the free list;
      otherwise those the space owned are left in the kernel's hands. No other translation, owner or
      contents changed. */
  ghost predicate Unmapped(w: Vm, t: Vm, k: nat, a: nat, n: nat, freeing: bool) {
    && Good(w) && Good(t) && t.first == w.first && |t.ram| == |w.ram| && k < |w.spaces|
    && t.spaces == w.spaces[k := w.spaces[k].(owned := w.spaces[k].owned - Range(a, n))]
    && t.kept == (if freeing then w.kept else w.kept + OwnedPages(w, k, a, n))
    && t.free == (if freeing then FreedPages(w, k, a, n) + w.free else w.free)
    && (forall o :: IsTable(o) ==> PageOf(t, o) == PageOf(w, o))
    && (forall k', u :: 0 <= u < MAXVPN ==> Pte(t, k', u) == if k' == k && a <= u < a + n then 0 else Pte(w, k', u))
    && (forall o: Owner :: (o.Data? || o.Kept?) && 0 < PageOf(t, o) < |t.ram| ==>
          && (PageOf(w, o) == PageOf(t, o) || (o.Kept? && o.p in t.kept - w.kept))
          && t.ram[PageOf(t, o)] == w.ram[PageOf(t, o)])
  }

  lemma UnmappedNone(w: Vm, k: nat, a: nat, freeing: bool)
    requires Good(w) && k < |w.spaces|
    ensures Unmapped(w, w, k, a, 0, freeing)
  {
    hide Good, Pte, PageOf;
    assert w.spaces[k].owned - Range(a, 0) == w.spaces[k].owned;
  }

  lemma UnmappedFree(w: Vm, t: Vm, k: nat, a: nat, n: nat)
    requires Unmapped(w, t, k, a, n, true) && k < |w.spaces| && a + n in w.spaces[k].owned
    ensures k < |t.spaces| && a + n in t.spaces[k].owned
    ensures Unmapped(w, LeafFreed(t, k, a + n), k, a, n + 1, true)
  {
    hide Mid, Low, Pte, Top, Child, I0, I1, I2, AllOwned;
    hide Interior, Leaves, Ppn, MakePte, InRange, OneOwner, Valid, IsLeaf, LeafFreed, PageOf;
    var v := a + n;
    InRangeIff(a, n, v);
    LeafFreedGood(t, k, v);
    LeafFacts(w, k, v);
    var u := LeafFreed(t, k, v);
    assert u.spaces == w.spaces[k := w.spaces[k].(owned := w.spaces[k].owned - Range(a, n + 1))] by {
      assert w.spaces[k].owned - Range(a, n + 1) == t.spaces[k].owned - {v};
    }
    assert u.free == FreedPages(w, k, a, n + 1) + w.free by {
      assert Pte(t, k, v) == Pte(w, k, v);
      assert u.free == [Ppn(Pte(w, k, v))] + (FreedPages(w, k, a, n) + w.free);
    }
    UnmappedFreeContents(w, t, k, a, n);
  }

  lemma UnmappedFreeContents(w: Vm, t: Vm, k: nat, a: nat, n: nat)
    requires Unmapped(w, t, k, a, n, true) && k < |t.spaces| && a + n in t.spaces[k].owned
    ensures |t.ram| == |w.ram|
    ensures var u := LeafFreed(t, k, a + n);
            forall o: Owner :: (o.Data? || o.Kept?) && 0 < PageOf(u, o) < |u.ram| ==>
                 PageOf(w, o) == PageOf(u, o) && u.ram[PageOf(u, o)] == w.ram[PageOf(u, o)]
  {
    hide Mid, Low, Pte, Top, Child, I0, I1, I2, AllOwned;
    hide Interior, Leaves, Ppn, MakePte, InRange, OneOwner, Valid, IsLeaf, LeafFreed, PageOf;
    var u := LeafFreed(t, k, a + n);
    forall o: Owner | (o.Data? || o.Kept?) && 0 < PageOf(u, o) < |u.ram|
      ensures PageOf(w, o) == PageOf(u, o) && u.ram[PageOf(u, o)] == w.ram[PageOf(u, o)]
    {
      LeafFreedOwner(t, k, a + n, o);
      LeafFreedContents(t, k, a + n, o);
    }
  }

  lemma LeafFreedOwner(w: Vm, k: nat, v: nat, o: Owner)
    requires Good(w) && k < |w.spaces| && v in w.spaces[k].owned && (o.Data? || o.Kept?)
    ensures PageOf(LeafFreed(w, k, v), o) == if o == Data(k, v) then 0 else PageOf(w, o)
  {
    hide Mid, Low, Pte, Top, Child, I0, I1, I2;
    hide AllOwned, Interior, Ppn, MakePte, InRange, OneOwner, Valid, IsLeaf, LeafFreed;
    LeafFreedGood(w, k, v);
  }

  /** `*pte = 0` alone: an owned page stays behind in the kernel's hands. */
  ghost function LeafCleared(w: Vm, k: nat, v: nat): (t: Vm)
    ensures t.first == w.first && |t.ram| == |w.ram| && |t.spaces| == |w.spaces|
  {
    var d := if k < |w.spaces| && v in w.spaces[k].owned then Disowned(w, k, v) else w;
    var l := Low(w, k, I2(v), I1(v));
    if l < |w.ram| then SetEntry(d, l, I0(v), 0) else w
  }

  lemma LeafClearedGood(w: Vm, k: nat, v: nat)
    requires Good(w) && k < |w.spaces| && v < MAXVPN && Low(w, k, I2(v), I1(v)) != 0
    ensures Low(w, k, I2(v), I1(v)) < |w.ram|
    ensures var t := LeafCleared(w, k, v);
            && Good(t) && t.free == w.free
            && t.kept == w.kept + (if v in w.spaces[k].owned then {Ppn(Pte(w, k, v))} else {})
            && t.spaces == w.spaces[k := w.spaces[k].(owned := w.spaces[k].owned - {v})]
            && (forall o :: IsTable(o) ==> PageOf(t, o) == PageOf(w, o))
            && (forall k', u :: 0 <= u < MAXVPN ==> Pte(t, k', u) == if k' == k && u == v then 0 else Pte(w, k', u))
  {
    hide Mid, Low, Pte, Top, Child, I0, I1, I2, AllOwned;
    hide Interior, Ppn, MakePte, InRange, OneOwner, Leaves, Valid, IsLeaf;
    var d := w;
    if v in w.spaces[k].owned {
      Disown(w, k, v);
      d := Disowned(w, k, v);
    } else {
      assert w.spaces[k].owned - {v} == w.spaces[k].owned;
    }
    SameTo(w, d);
    WithLeafGood(d, k, v, 0);
    WithLeafEntries(d, k, v, 0);
    assert LeafCleared(w, k, v) == WithLeaf(d, k, v, 0);
    forall o | IsTable(o) ensures PageOf(WithLeaf(d, k, v, 0), o) == PageOf(w, o) {
      assert PageOf(d, o) == PageOf(w, o);
    }
  }

  lemma SameTo(w: Vm, d: Vm)
    requires d == w || SameTables(w, d)
    ensures forall k, i2, i1 :: Low(d, k, i2, i1) == Low(w, k, i2, i1)
    ensures forall k, v :: Pte(d, k, v) == Pte(w, k, v)
  {
    hide Mid, Low, Pte, Top, SameTables;
    forall k: nat, i2: nat, i1: nat ensures Low(d, k, i2, i1) == Low(w, k, i2, i1) {
      if d != w { SameTablesSameEntries(w, d, k); }
    }
    forall k: nat, v: nat ensures Pte(d, k, v) == Pte(w, k, v) {
      if d != w { SameTablesSameEntries(w, d, k); }
    }
  }

  /** Every page of a process or the kernel keeps its contents, also the one that changed hands. */
  lemma LeafClearedContents(w: Vm, k: nat, v: nat, o: Owner)
    requires Good(w) && k < |w.spaces| && v < MAXVPN && Low(w, k, I2(v), I1(v)) != 0
    requires (o.Data? || o.Kept?) && 0 < PageOf(LeafCleared(w, k, v), o) < |w.ram|
    ensures var t := LeafCleared(w, k, v);
            && t.ram[PageOf(t, o)] == w.ram[PageOf(t, o)]
            && (PageOf(w, o) == PageOf(t, o)
                || (o.Kept? && o.p !in w.kept && o.p == PageOf(t, o) == PageOf(w, Data(k, v))))
  {
    hide Mid, Low, Pte, Top, Child, I0, I1, I2, AllOwned;
    hide Interior, Ppn, MakePte, InRange, OneOwner, Leaves, Valid, IsLeaf;
    LeafClearedGood(w, k, v);
    var t := LeafCleared(w, k, v);
    assert PageOf(t, LowTable(k, I2(v), I1(v))) == Low(w, k, I2(v), I1(v)) by { LowIsPage(w, k, I2(v), I1(v)); }
    TableFacts(t, LowTable(k, I2(v), I1(v)), o);
    if o.Data? {
      LeafFacts(t, o.k, o.v);
      assert o != Data(k, v) && PageOf(t, o) == PageOf(w, o);
    } else {
      KeptPages(t, o);
      assert o.p in w.kept || o.p == PageOf(w, Data(k, v));
    }
  }

  lemma UnmappedKeep(w: Vm, t: Vm, k: nat, a: nat, n: nat)
    requires Unmapped(w, t, k, a, n, false) && a + n < MAXVPN && Low(t, k, I2(a + n), I1(a + n)) != 0
    ensures Low(t, k, I2(a + n), I1(a + n)) < |t.ram|
    ensures Unmapped(w, LeafCleared(t, k, a + n), k, a, n + 1, false)
  {
    hide Mid, Low, Pte, Top, Child, I0, I1, I2, AllOwned;
    hide Interior, Ppn, MakePte, InRange, OneOwner, Leaves, Valid, IsLeaf, PageOf, LeafCleared;
    var v := a + n;
    InRangeIff(a, n, v);
    LeafClearedGood(t, k, v);
    var u := LeafCleared(t, k, v);
    assert u.spaces == w.spaces[k := w.spaces[k].(owned := w.spaces[k].owned - Range(a, n + 1))] by {
      assert w.spaces[k].owned - Range(a, n + 1) == t.spaces[k].owned - {v};
    }
    assert u.kept == w.kept + OwnedPages(w, k, a, n + 1) by { assert Pte(t, k, v) == Pte(w, k, v); }
    UnmappedKeepContents(w, t, k, a, n);
  }

  lemma UnmappedKeepContents(w: Vm, t: Vm, k: nat, a: nat, n: nat)
    requires Unmapped(w, t, k, a, n, false) && a + n < MAXVPN && Low(t, k, I2(a + n), I1(a + n)) != 0
    ensures |t.ram| == |w.ram|
    ensures var u := LeafCleared(t, k, a + n);
            forall o: Owner :: (o.Data? || o.Kept?) && 0 < PageOf(u, o) < |u.ram| ==>
              && (PageOf(w, o) == PageOf(u, o) || (o.Kept? && o.p in u.kept - w.kept))
              && u.ram[PageOf(u, o)] == w.ram[PageOf(u, o)]
  {
    hide Mid, Low, Pte, Top, Child, I0, I1, I2, AllOwned;
    hide Interior, Ppn, MakePte, InRange, OneOwner, Leaves, Valid, IsLeaf, PageOf, LeafCleared, OwnedPages;
    var u := LeafCleared(t, k, a + n);
    LeafClearedGood(t, k, a + n);
    forall o: Owner | (o.Data? || o.Kept?) && 0 < PageOf(u, o) < |u.ram|
      ensures PageOf(w, o) == PageOf(u, o) || (o.Kept? && o.p in u.kept - w.kept)
      ensures u.ram[PageOf(u, o)] == w.ram[PageOf(u, o)]
    {
      LeafClearedContents(t, k, a + n, o);
      if o.Kept? { KeptPages(u, o); }
      assert t.ram[PageOf(u, o)] == w.ram[PageOf(u, o)];
    }
  }

  lemma KeptPages(w: Vm, o: Owner)
    requires o.Kept? && PageOf(w, o) != 0
    ensures o.p in w.kept
  {}

  lemma LowIsPage(w: Vm, k: nat, i2: nat, i1: nat)
    ensures PageOf(w, LowTable(k, i2, i1)) == Low(w, k, i2, i1)
  {}

  // ---- Giving an address space pages of its own

  /** t is w with space k owning pages from a on, one for each (permissions, contents) listed; no other
      translation, owner or contents changed, though tables may have been added. */
  ghost predicate Provided(w: Vm, t: Vm, k: nat, a: nat, pages: seq<(nat, Page)>) {
    && Good(w) && Good(t) && t.first == w.first && |t.ram| == |w.ram| && t.kept == w.kept && k < |w.spaces|
    && t.spaces == w.spaces[k := w.spaces[k].(owned := w.spaces[k].owned + Range(a, |pages|))]
    && (forall k', u :: 0 <= u < MAXVPN && !(k' == k && a <= u < a + |pages|) ==> Pte(t, k', u) == Pte(w, k', u))
    && (forall j :: 0 <= j < |pages| ==> HasPage(t, k, a + j, pages[j]))
    && (forall o: Owner :: (o.Data? || o.Kept?) && 0 < PageOf(w, o) < |w.ram| ==>
          PageOf(t, o) == PageOf(w, o) && t.ram[PageOf(w, o)] == w.ram[PageOf(w, o)])
  }

  /** Virtual page v is mapped with these permissions to a page with these contents. */
  ghost predicate HasPage(t: Vm, k: nat, v: nat, page: (nat, Page)) {
    && v < MAXVPN && Valid(Pte(t, k, v)) && Flags(Pte(t, k, v)) == WithV(page.0)
    && 0 < Ppn(Pte(t, k, v)) < |t.ram| && t.ram[Ppn(Pte(t, k, v))] == page.1
  }

  lemma ProvidedNone(w: Vm, k: nat, a: nat)
    requires Good(w) && k < |w.spaces|
    ensures Provided(w, w, k, a, [])
  {
    hide Good, Pte, PageOf;
    assert w.spaces[k].owned + Range(a, 0) == w.spaces[k].owned;
  }

  /** The page the kernel holds, mapped at v, handed to space k. */
  ghost function Adopted(w: Vm, k: nat, v: nat): Vm
    requires k < |w.spaces|
  {
    SetOwned(w, k, w.spaces[k].owned + {v}).(kept := w.kept - {Ppn(Pte(w, k, v))})
  }

  /** One page more: kalloc and fill, map it, hand it over. */
  ghost predicate OnePage(t: Vm, m: Vm, u: Vm, k: nat, v: nat, perm: nat, c: Page) {
    && Good(t) && t.free != [] && t.free[0] < |t.ram| && k < |t.spaces|
    && v < MAXVPN && v !in t.spaces[k].owned && perm < 1024 && IsLeaf(perm)
    && Mapped(Filled(t, c), m, k, v, 1, t.free[0], perm)
    && k < |m.spaces| && u == Adopted(m, k, v)
  }

  lemma OnePageEntry(t: Vm, m: Vm, u: Vm, k: nat, v: nat, perm: nat, c: Page)
    requires OnePage(t, m, u, k, v, perm, c)
    ensures t.free[0] !in t.kept && Pte(m, k, v) == MakePte(t.free[0], perm) && Ppn(Pte(m, k, v)) == t.free[0]
    ensures Valid(Pte(m, k, v)) && IsLeaf(Pte(m, k, v)) && Flags(Pte(m, k, v)) == WithV(perm)
    ensures forall k', x :: 0 <= x < MAXVPN && !(k' == k && x == v) ==> Pte(m, k', x) == Pte(t, k', x)
    ensures Good(m) && m.spaces == t.spaces && m.kept == t.kept + {t.free[0]}
    ensures m.first == t.first && |m.ram| == |t.ram|
    ensures t.free[0] in m.kept && 0 < t.free[0] < |m.ram| && m.ram[t.free[0]] == c
  {
    hide Good, Pte, PageOf, MakePte, Valid, Flags, Ppn, IsLeaf, Junk;
    FilledGood(t, c);
    PteRoundTrip(t.free[0], perm);
    var f := Filled(t, c);
    forall k', x | 0 <= x < MAXVPN && !(k' == k && x == v) ensures Pte(m, k', x) == Pte(t, k', x) {
      SameTablesSameEntries(t, f, k');
    }
    assert PageOf(f, Kept(t.free[0])) == t.free[0] by { KeptPage(f, t.free[0]); }
  }

  lemma KeptPage(w: Vm, p: nat)
    requires p in w.kept
    ensures PageOf(w, Kept(p)) == p
  {}

  lemma OnePageGood(t: Vm, m: Vm, u: Vm, k: nat, v: nat, perm: nat, c: Page)
    requires OnePage(t, m, u, k, v, perm, c)
    ensures Good(u) && u.kept == t.kept && u.first == t.first && |u.ram| == |t.ram|
    ensures u.spaces == t.spaces[k := t.spaces[k].(owned := t.spaces[k].owned + {v})]
    ensures HasPage(u, k, v, (perm, c))
    ensures forall k', x :: 0 <= x < MAXVPN && !(k' == k && x == v) ==> Pte(u, k', x) == Pte(t, k', x)
  {
    hide Good, Pte, PageOf, MakePte, Valid, Flags, Ppn, IsLeaf, Junk, SameTables;
    OnePageEntry(t, m, u, k, v, perm, c);
    Adopt(m, k, v);
    SameTablesSameEntries(m, u, k);
    assert u.kept == t.kept;
    forall k', x | 0 <= x < MAXVPN && !(k' == k && x == v) ensures Pte(u, k', x) == Pte(t, k', x) {
      SameTablesSameEntries(m, u, k');
    }
  }

  lemma OnePageContents(t: Vm, m: Vm, u: Vm, k: nat, v: nat, perm: nat, c: Page, o: Owner)
    requires OnePage(t, m, u, k, v, perm, c) && (o.Data? || o.Kept?) && 0 < PageOf(t, o) < |t.ram|
    ensures |u.ram| == |t.ram| && PageOf(u, o) == PageOf(t, o) && u.ram[PageOf(t, o)] == t.ram[PageOf(t, o)]
  {
    hide Good, Pte, PageOf, MakePte, Valid, Flags, Ppn, IsLeaf, Junk, Filled;
    OnePageGood(t, m, u, k, v, perm, c);
    FilledGood(t, c);
    var f := Filled(t, c);
    FreePageApart(t, o);
    assert PageOf(f, o) == PageOf(t, o);
    FilledContents(t, c, PageOf(t, o));
    UserOwner(t, u, k, v, o);
  }

  /** A user or kernel page is not free. */
  lemma FreePageApart(t: Vm, o: Owner)
    requires Good(t) && t.free != [] && (o.Data? || o.Kept?) && PageOf(t, o) != 0
    ensures PageOf(t, o) != t.free[0] && o != Kept(t.free[0])
  {
    hide InRange, AllOwned, Interior, Leaves, Pte;
    assert PageOf(t, Free(t.free[0])) == t.free[0];
  }

  lemma FilledContents(t: Vm, c: Page, p: nat)
    requires t.free != [] && t.free[0] < |t.ram| && p < |t.ram| && p != t.free[0]
    ensures |Filled(t, c).ram| == |t.ram| && Filled(t, c).ram[p] == t.ram[p]
  {}

  lemma UserOwner(t: Vm, u: Vm, k: nat, v: nat, o: Owner)
    requires Good(t) && k < |t.spaces| && v !in t.spaces[k].owned && u.kept == t.kept
    requires u.spaces == t.spaces[k := t.spaces[k].(owned := t.spaces[k].owned + {v})]
    requires forall k', x :: 0 <= x < MAXVPN && !(k' == k && x == v) ==> Pte(u, k', x) == Pte(t, k', x)
    requires (o.Data? || o.Kept?) && PageOf(t, o) != 0
    ensures PageOf(u, o) == PageOf(t, o)
  {
    hide InRange, AllOwned, Interior, OneOwner, Pte;
    if o.Data? { assert o.v in t.spaces[o.k].owned && o.v < MAXVPN; }
  }

  lemma ProvidedMore(w: Vm, t: Vm, m: Vm, u: Vm, k: nat, a: nat, pages: seq<(nat, Page)>, perm: nat, c: Page)
    requires Provided(w, t, k, a, pages) && OnePage(t, m, u, k, a + |pages|, perm, c)
    ensures Provided(w, u, k, a, pages + [(perm, c)])
  {
    hide Good, Pte, PageOf, HasPage, OnePage;
    var v, more := a + |pages|, pages + [(perm, c)];
    OnePageGood(t, m, u, k, v, perm, c);
    assert w.spaces[k].owned + Range(a, |more|) == t.spaces[k].owned + {v};
    forall j | 0 <= j < |more| ensures HasPage(u, k, a + j, more[j]) {
      if j < |pages| { StillHasPage(w, t, m, u, k, a, pages, perm, c, j); }
    }
    forall o: Owner | (o.Data? || o.Kept?) && 0 < PageOf(w, o) < |w.ram|
      ensures PageOf(u, o) == PageOf(w, o) && u.ram[PageOf(w, o)] == w.ram[PageOf(w, o)]
    {
      OnePageContents(t, m, u, k, v, perm, c, o);
    }
  }

  lemma StillHasPage(w: Vm, t: Vm, m: Vm, u: Vm, k: nat, a: nat, pages: seq<(nat, Page)>, perm: nat, c: Page, j: nat)
    requires Provided(w, t, k, a, pages) && OnePage(t, m, u, k, a + |pages|, perm, c) && j < |pages|
    ensures HasPage(u, k, a + j, pages[j])
  {
    hide Good, Pte, PageOf, OnePage, Valid, Flags, Ppn;
    OnePageGood(t, m, u, k, a + |pages|, perm, c);
    assert HasPage(t, k, a + j, pages[j]);
    InRangeIff(a, |pages|, a + j);
    var o := Data(k, a + j);
    DataPage(t, k, a + j);
    OnePageContents(t, m, u, k, a + |pages|, perm, c, o);
  }

  lemma DataPage(w: Vm, k: nat, v: nat)
    requires k < |w.spaces| && v in w.spaces[k].owned
    ensures PageOf(w, Data(k, v)) == Ppn(Pte(w, k, v))
  {}

  /** The page could not be mapped and goes back to the free list. */
  ghost predicate GivenBack(t: Vm, m: Vm, z: Vm, k: nat, v: nat, perm: nat, c: Page) {
    && Good(t) && t.free != [] && t.free[0] < |t.ram| && k < |t.spaces|
    && Mapped(Filled(t, c), m, k, v, 0, t.free[0], perm)
    && t.free[0] < |m.ram| && z == Returned(m, t.free[0])
  }

  lemma GivenBackGood(t: Vm, m: Vm, z: Vm, k: nat, v: nat, perm: nat, c: Page)
    requires GivenBack(t, m, z, k, v, perm, c)
    ensures Good(z) && z.kept == t.kept && z.first == t.first && |z.ram| == |t.ram| && z.spaces == t.spaces
    ensures t.free[0] in m.kept && t.free[0] !in t.kept
    ensures forall k', x :: 0 <= x < MAXVPN ==> Pte(z, k', x) == Pte(t, k', x)
  {
    hide Good, Pte, PageOf, MakePte, Junk, SameTables, Filled;
    FilledGood(t, c);
    var f, p := Filled(t, c), t.free[0];
    FilledFields(t, c);
    ReturnedGood(m, p);
    assert z.kept == t.kept;
    forall k', x | 0 <= x < MAXVPN ensures Pte(z, k', x) == Pte(t, k', x) {
      SameTablesSameEntries(t, f, k');
      SameTablesSameEntries(m, z, k');
    }
  }

  lemma FilledFields(t: Vm, c: Page)
    requires t.free != [] && t.free[0] < |t.ram|
    ensures var f := Filled(t, c);
            f.kept == t.kept + {t.free[0]} && f.spaces == t.spaces && f.first == t.first && |f.ram| == |t.ram|
  {}

  lemma GivenBackContents(t: Vm, m: Vm, z: Vm, k: nat, v: nat, perm: nat, c: Page, o: Owner)
    requires GivenBack(t, m, z, k, v, perm, c) && (o.Data? || o.Kept?) && 0 < PageOf(t, o) < |t.ram|
    ensures |z.ram| == |t.ram| && PageOf(z, o) == PageOf(t, o) && z.ram[PageOf(t, o)] == t.ram[PageOf(t, o)]
  {
    hide Good, Pte, PageOf, MakePte, Junk, Filled;
    GivenBackGood(t, m, z, k, v, perm, c);
    FilledGood(t, c);
    FreePageApart(t, o);
    assert PageOf(Filled(t, c), o) == PageOf(t, o);
    FilledContents(t, c, PageOf(t, o));
    assert m.ram[PageOf(t, o)] == t.ram[PageOf(t, o)];
    SameUser(t, z, o);
  }

  lemma SameUser(t: Vm, z: Vm, o: Owner)
    requires Good(t) && z.kept == t.kept && z.spaces == t.spaces && (o.Data? || o.Kept?)
    requires forall k', x :: 0 <= x < MAXVPN ==> Pte(z, k', x) == Pte(t, k', x)
    ensures PageOf(z, o) == PageOf(t, o)
  {
    hide InRange, AllOwned, Interior, OneOwner, Pte;
    if o.Data? && o.k < |t.spaces| && o.v in t.spaces[o.k].owned { assert o.v < MAXVPN; }
  }

  lemma ProvidedAfterFailure(w: Vm, t: Vm, m: Vm, z: Vm, k: nat, a: nat, pages: seq<(nat, Page)>, v: nat,
                             perm: nat, c: Page)
    requires Provided(w, t, k, a, pages) && GivenBack(t, m, z, k, v, perm, c)
    ensures Provided(w, z, k, a, pages)
  {
    hide Good, Pte, PageOf, GivenBack, Valid, Flags, Ppn;
    GivenBackGood(t, m, z, k, v, perm, c);
    forall j | 0 <= j < |pages| ensures HasPage(z, k, a + j, pages[j]) {
      assert HasPage(t, k, a + j, pages[j]);
      InRangeIff(a, |pages|, a + j);
      DataPage(t, k, a + j);
      GivenBackContents(t, m, z, k, v, perm, c, Data(k, a + j));
    }
    forall o: Owner | (o.Data? || o.Kept?) && 0 < PageOf(w, o) < |w.ram|
      ensures PageOf(z, o) == PageOf(w, o) && z.ram[PageOf(w, o)] == w.ram[PageOf(w, o)]
    {
      GivenBackContents(t, m, z, k, v, perm, c, o);
    }
  }

  // ---- Undoing

  /** The translation of a page: its entry if valid, else 0. */
  function Maps(w: Vm, k: nat, v: nat): nat {
    if Valid(Pte(w, k, v)) then Pte(w, k, v) else 0
  }

  /** Every translation, every owned page and every page's contents are as they were; only tables may
      have been added. */
  ghost predicate Restored(w: Vm, z: Vm) {
    && Good(w) && Good(z) && z.first == w.first && |z.ram| == |w.ram| && z.kept == w.kept && z.spaces == w.spaces
    && (forall k, v :: 0 <= v < MAXVPN ==> Maps(z, k, v) == Maps(w, k, v))
    && (forall o: Owner :: (o.Data? || o.Kept?) && 0 < PageOf(w, o) < |w.ram| ==>
          PageOf(z, o) == PageOf(w, o) && z.ram[PageOf(w, o)] == w.ram[PageOf(w, o)])
  }

  lemma ProvidedThenUnmapped(w: Vm, t: Vm, z: Vm, k: nat, a: nat, pages: seq<(nat, Page)>)
    requires Provided(w, t, k, a, pages) && Unmapped(t, z, k, a, |pages|, true)
    requires forall v :: a <= v < a + |pages| && v < MAXVPN ==> !Valid(Pte(w, k, v))
    ensures Restored(w, z)
  {
    hide Good, Pte, PageOf, HasPage, Ppn;
    NewNotOwned(w, k, a, |pages|);
    assert z.spaces == w.spaces by {
      assert w.spaces[k].owned + Range(a, |pages|) - Range(a, |pages|) == w.spaces[k].owned;
    }
    forall o: Owner | (o.Data? || o.Kept?) && 0 < PageOf(w, o) < |w.ram|
      ensures PageOf(z, o) == PageOf(w, o) && z.ram[PageOf(w, o)] == w.ram[PageOf(w, o)]
    {
      UndoneOwner(w, t, z, k, a, |pages|, o);
    }
  }

  lemma NewNotOwned(w: Vm, k: nat, a: nat, n: nat)
    requires Good(w) && k < |w.spaces|
    requires forall v :: a <= v < a + n && v < MAXVPN ==> !Valid(Pte(w, k, v))
    ensures w.spaces[k].owned !! Range(a, n)
  {
    hide Pte, InRange, OneOwner, AllOwned, Interior;
    forall v | v in w.spaces[k].owned ensures v !in Range(a, n) { InRangeIff(a, n, v); }
  }

  lemma UndoneOwner(w: Vm, t: Vm, z: Vm, k: nat, a: nat, n: nat, o: Owner)
    requires Good(w) && k < |w.spaces| && w.spaces[k].owned !! Range(a, n) && (o.Data? || o.Kept?)
    requires PageOf(t, o) == PageOf(w, o) != 0 && z.spaces == w.spaces && z.kept == w.kept
    requires forall k', u :: 0 <= u < MAXVPN ==> Pte(z, k', u) == if k' == k && a <= u < a + n then 0 else Pte(t, k', u)
    requires forall k', u :: 0 <= u < MAXVPN && !(k' == k && a <= u < a + n) ==> Pte(t, k', u) == Pte(w, k', u)
    ensures PageOf(z, o) == PageOf(w, o)
  {
    hide Pte, InRange, OneOwner, AllOwned, Interior;
    if o.Data? {
      InRangeIff(a, n, o.v);
      assert o.v < MAXVPN;
    }
  }
}
