/** Sv39 page tables in physical memory, and who owns each physical page. */
module PageTable {
  const PGSIZE: nat := 4096
  const PTES: nat := 512
  /** Page numbers below MAXVA; one bit less than Sv39 allows. */
  const MAXVPN: nat := 256 * 512 * 512
  const MAXVA: nat := MAXVPN * PGSIZE

  /** A physical page as 512 64-bit words. */
  type Page = p: seq<nat> | |p| == PTES witness seq(PTES, _ => 0)

  function ZeroPage(): Page {
    seq(PTES, _ => 0)
  }

  // ---- Page-table entries: page number above ten flag bits

  const PTE_V: nat := 1
  const PTE_R: nat := 2
  const PTE_W: nat := 4
  const PTE_X: nat := 8
  const PTE_U: nat := 16

  predicate Valid(pte: nat) {
    pte % 2 == 1
  }

  /** One of R, W, X is set: the entry maps a page instead of naming a table. */
  predicate IsLeaf(pte: nat) {
    pte / 2 % 8 != 0
  }

  function Flags(pte: nat): nat {
    pte % 1024
  }

  function Ppn(pte: nat): nat {
    pte / 1024
  }

  /** `perm | PTE_V` */
  function WithV(perm: nat): nat {
    if perm % 2 == 1 then perm else perm + 1
  }

  function MakePte(ppn: nat, perm: nat): nat {
    ppn * 1024 + WithV(perm)
  }

  lemma PteRoundTrip(ppn: nat, perm: nat)
    requires perm < 1024
    ensures Ppn(MakePte(ppn, perm)) == ppn && Flags(MakePte(ppn, perm)) == WithV(perm)
    ensures Valid(MakePte(ppn, perm)) && (IsLeaf(MakePte(ppn, perm)) <==> IsLeaf(perm))
  {
    var f := WithV(perm);
    Halves(ppn, f);
    assert f / 2 == perm / 2;
  }

  lemma Halves(ppn: nat, f: nat)
    requires f < 1024
    ensures (ppn * 1024 + f) / 1024 == ppn && (ppn * 1024 + f) % 1024 == f
    ensures (ppn * 1024 + f) % 2 == f % 2 && (ppn * 1024 + f) / 2 % 8 == f / 2 % 8
  {
    HalvesLow(ppn * 64, f / 2, f % 2);
  }

  lemma HalvesLow(q: nat, h: nat, odd: nat)
    requires odd < 2
    ensures (16 * q + 2 * h + odd) % 2 == odd && (16 * q + 2 * h + odd) / 2 == 8 * q + h && (8 * q + h) % 8 == h % 8
  {}

  // ---- The three 9-bit indices

  function I2(v: nat): (i: nat)
    ensures i < PTES
  {
    v / 262144 % 512
  }

  function I1(v: nat): (i: nat)
    ensures i < PTES
  {
    v / 512 % 512
  }

  function I0(v: nat): (i: nat)
    ensures i < PTES
  {
    v % 512
  }

  /** `PX(level, va)` */
  function Px(level: nat, va: nat): (i: nat)
    requires level < 3
    ensures i < PTES
  {
    if level == 2 then va / 0x4000_0000 % 512 else if level == 1 then va / 0x20_0000 % 512 else va / 0x1000 % 512
  }

  lemma PxOfPage(va: nat)
    ensures Px(2, va) == I2(va / PGSIZE) && Px(1, va) == I1(va / PGSIZE) && Px(0, va) == I0(va / PGSIZE)
  {
    assert va / 0x4000_0000 == va / 4096 / 262144;
    assert va / 0x20_0000 == va / 4096 / 512;
  }

  /** Below MAXVA the indices identify the page. */
  lemma IndicesInjective(v: nat, u: nat)
    requires v < MAXVPN && u < MAXVPN && I2(v) == I2(u) && I1(v) == I1(u) && I0(v) == I0(u)
    ensures v == u
  {
    hide I0, I1, I2;
    Recompose(v);
    Recompose(u);
  }

  lemma Recompose(v: nat)
    requires v < MAXVPN
    ensures I2(v) < 256 && v == I2(v) * 262144 + I1(v) * 512 + I0(v)
  {
    var q := v / 512;
    assert q / 512 == v / 262144;
    assert q == q / 512 * 512 + q % 512;
  }

  // ---- Address spaces

  /** A page table and the pages of it that own their physical page. */
  datatype Space = Space(root: nat, owned: set<nat>)

  /** Pages from `first` on are handed out; `kept` are those held by the kernel outside any table. */
  datatype Vm = Vm(first: nat, ram: seq<Page>, free: seq<nat>, spaces: seq<Space>, kept: set<nat>)

  /** The page an entry of table t points to, or 0. */
  function Child(ram: seq<Page>, t: nat, i: nat): nat {
    if 0 < t < |ram| && i < PTES && Valid(ram[t][i]) then Ppn(ram[t][i]) else 0
  }

  function Top(w: Vm, k: nat): nat {
    if k < |w.spaces| then w.spaces[k].root else 0
  }

  function Mid(w: Vm, k: nat, i2: nat): nat {
    Child(w.ram, Top(w, k), i2)
  }

  function Low(w: Vm, k: nat, i2: nat, i1: nat): nat {
    Child(w.ram, Mid(w, k, i2), i1)
  }

  /** The entry for virtual page v in space k; 0 when its table is missing. */
  function Pte(w: Vm, k: nat, v: nat): nat {
    var l := Low(w, k, I2(v), I1(v));
    if 0 < l < |w.ram| then w.ram[l][I0(v)] else 0
  }

  // ---- Ownership

  /** The ways a physical page can be held. */
  datatype Owner =
    | TopTable(k: nat)
    | MidTable(k: nat, i2: nat)
    | LowTable(k: nat, i2: nat, i1: nat)
    | Data(k: nat, v: nat)
    | Free(p: nat)
    | Kept(p: nat)

  function PageOf(w: Vm, o: Owner): nat {
    match o
    case TopTable(k) => Top(w, k)
    case MidTable(k, i2) => Mid(w, k, i2)
    case LowTable(k, i2, i1) => Low(w, k, i2, i1)
    case Data(k, v) => if k < |w.spaces| && v in w.spaces[k].owned then Ppn(Pte(w, k, v)) else 0
    case Free(p) => if p in w.free then p else 0
    case Kept(p) => if p in w.kept then p else 0
  }

  ghost predicate InRange(w: Vm) {
    forall o :: PageOf(w, o) != 0 ==> w.first <= PageOf(w, o) < |w.ram|
  }

  ghost predicate OneOwner(w: Vm) {
    forall o, o' :: PageOf(w, o) != 0 && PageOf(w, o) == PageOf(w, o') ==> o == o'
  }

  ghost predicate Held(w: Vm, p: nat) {
    exists o :: PageOf(w, o) == p
  }

  ghost predicate AllOwned(w: Vm) {
    forall p :: w.first <= p < |w.ram| ==> Held(w, p)
  }

  /** Valid entries above the lowest level name tables: no R, W or X, and below MAXVA. */
  ghost predicate Interior(w: Vm) {
    && (forall k, i :: 0 < Top(w, k) < |w.ram| && 0 <= i < PTES && Valid(w.ram[Top(w, k)][i]) ==>
          i < 256 && Mid(w, k, i) != 0 && w.ram[Top(w, k)][i] == MakePte(Mid(w, k, i), 0))
    && (forall k, i2, i :: 0 < Mid(w, k, i2) < |w.ram| && 0 <= i < PTES && Valid(w.ram[Mid(w, k, i2)][i]) ==>
          Low(w, k, i2, i) != 0 && w.ram[Mid(w, k, i2)][i] == MakePte(Low(w, k, i2, i), 0))
  }

  /** An owned virtual page is mapped. */
  ghost predicate Leaves(w: Vm) {
    forall k, v :: 0 <= k < |w.spaces| && v in w.spaces[k].owned ==>
      v < MAXVPN && Valid(Pte(w, k, v)) && IsLeaf(Pte(w, k, v)) && PageOf(w, Data(k, v)) != 0
  }

  ghost predicate Distinct(s: seq<nat>) {
    forall i, j :: 0 <= i < j < |s| ==> s[i] != s[j]
  }

  /** Every page handed out by the allocator has exactly one owner. */
  ghost predicate Good(w: Vm) {
    && 0 < w.first <= |w.ram|
    && InRange(w) && OneOwner(w) && AllOwned(w) && Interior(w) && Leaves(w)
    && Distinct(w.free) && 0 !in w.free && 0 !in w.kept
  }

  // ---- Handing a page from one owner to another

  /** Owner `a` gives page p to owner b; nobody else is affected. */
  ghost predicate Transfer(w: Vm, t: Vm, a: Owner, b: Owner, p: nat) {
    && t.first == w.first && |t.ram| == |w.ram| && p != 0
    && PageOf(w, a) == p && PageOf(t, a) == 0 && PageOf(w, b) == 0 && PageOf(t, b) == p
    && forall o :: o != a && o != b ==> PageOf(t, o) == PageOf(w, o)
  }

  lemma Before(w: Vm, t: Vm, a: Owner, b: Owner, p: nat, o: Owner)
    requires Transfer(w, t, a, b, p) && PageOf(t, o) != 0
    ensures o != a && PageOf(t, o) == if o == b then PageOf(w, a) else PageOf(w, o)
  {
    hide PageOf;
    if o != a && o != b { assert PageOf(t, o) == PageOf(w, o); }
  }

  /** Handing over a page keeps the partition of physical memory. */
  lemma TransferKeeps(w: Vm, t: Vm, a: Owner, b: Owner, p: nat)
    requires 0 < w.first && InRange(w) && OneOwner(w) && AllOwned(w) && Transfer(w, t, a, b, p)
    ensures InRange(t) && OneOwner(t) && AllOwned(t)
  {
    hide PageOf;
    forall o ensures PageOf(t, o) != 0 ==> t.first <= PageOf(t, o) < |t.ram| {
      if o != b && o != a { assert PageOf(t, o) == PageOf(w, o); }
    }
    forall o, o' | PageOf(t, o) != 0 && PageOf(t, o) == PageOf(t, o') ensures o == o' {
      Before(w, t, a, b, p, o);
      Before(w, t, a, b, p, o');
    }
    forall q | t.first <= q < |t.ram| ensures Held(t, q) {
      assert Held(w, q);
      var o :| PageOf(w, o) == q;
      if o == a { assert PageOf(t, b) == q; } else { assert PageOf(t, o) == q; }
    }
  }
}
