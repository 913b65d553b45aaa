/** vm.c and kalloc.c: the page allocator, walking and changing page tables, growing, copying and
    freeing address spaces. */
module VirtualMemory {
  import opened PageTable
  import opened PageSteps
  import opened PageMemory
  import opened PageFree

  /** Writing a page that is not free leaves the list of free pages linked. */
  lemma ChainFrame(ram: seq<Page>, ram': seq<Page>, head: nat, free: seq<nat>)
    requires Chain(ram, head, free) && |ram'| == |ram|
    requires forall j :: 0 <= j < |free| ==> 0 <= free[j] < |ram| ==> ram'[free[j]] == ram[free[j]]
    ensures Chain(ram', head, free)
  {}

  lemma FreeIsNoTable(w: Vm, o: Owner)
    requires Good(w) && IsTable(o) && PageOf(w, o) != 0
    ensures PageOf(w, o) < |w.ram| && PageOf(w, o) !in w.free
  {
    hide Top, Mid, Low, Pte, AllOwned, Interior, Leaves;
    var p := PageOf(w, o);
    assert PageOf(w, Free(p)) == 0;
  }

  class Memory {
    const first: nat
    var ram: seq<Page>
    /** kmem.freelist: the first free page, 0 for none. */
    var freelist: nat
    ghost var free: seq<nat>
    ghost var spaces: seq<Space>
    ghost var kept: set<nat>

    ghost function View(): Vm
      reads this
    {
      Vm(first, ram, free, spaces, kept)
    }

    ghost predicate ListOk()
      reads this
    {
      Distinct(free) && Chain(ram, freelist, free)
    }

    ghost predicate Ok()
      reads this
    {
      Good(View()) && ListOk()
    }

    // ---- kalloc.c

    method Kalloc() returns (p: nat)
      requires ListOk()
      modifies this
      ensures ListOk()
      ensures old(free) == [] ==> p == 0 && View() == old(View())
      ensures old(free) != [] ==> p == old(free)[0] && 0 < p < |ram| && View() == Taken(old(View()))
    {
      p := freelist;
      if p != 0 {
        assert free[1..] == free[0 + 1..];
        freelist := ram[p][0];
        ram := ram[p := Junk(5)];
        free, kept := free[1..], kept + {p};
        assert Chain(ram, freelist, free) by {
          forall j | 0 <= j < |free| ensures 0 < free[j] < |ram| && ram[free[j]][0] == HeadOf(free[j + 1..]) {
            assert free[j] == old(free)[j + 1] != p && free[j + 1..] == old(free)[j + 2..];
          }
        }
      }
    }

    /** The range check of kfree is the precondition; it panics otherwise. */
    method Kfree(p: nat)
      requires ListOk() && first <= p < |ram| && 0 < p && p !in free
      modifies this
      ensures ListOk() && View() == Returned(old(View()), p)
    {
      var page: Page := Junk(1)[0 := freelist];
      ram := ram[p := page];
      freelist := p;
      free, kept := [p] + free, kept - {p};
      assert Chain(ram, freelist, free) by {
        forall j | 0 <= j < |free| ensures 0 < free[j] < |ram| && ram[free[j]][0] == HeadOf(free[j + 1..]) {
          if j == 0 { assert free[1..] == old(free); }
          else { assert free[j] == old(free)[j - 1] && free[j + 1..] == old(free)[j..]; }
        }
      }
    }

    // ---- walk

    /** The kalloc, memset and link of walk, for the table missing below t. */
    method AddTable(t: nat, i: nat, ghost k: nat, ghost v: nat, ghost level: nat) returns (p: nat)
      requires Ok() && v < MAXVPN && 0 < level <= 2 && t == TableFor(View(), k, v, level) != 0
      requires i == LevelIndex(v, level) && TableFor(View(), k, v, level - 1) == 0
      modifies this
      ensures Ok() && Extends(old(View()), View())
      ensures p == 0 ==> View() == old(View()) && free == []
      ensures p != 0 ==> p == TableFor(View(), k, v, level - 1) && |free| == old(|free|) - 1
    {
      hide InRange, OneOwner, AllOwned, Interior, Leaves, Extends, Child, Junk;
      hide ZeroPage, MakePte, I0, I1, I2, Mid, Low, Top;
      ghost var w := View();
      FreeIsNoTable(w, TableOwner(k, v, level));
      p := Kalloc();
      if p == 0 {
        ExtendsRefl(w);
        return;
      }
      LinkedGood(w, k, v, level);
      ram := ram[p := ZeroPage()];
      ram := ram[t := ram[t][i := MakePte(p, 0)]];
      kept := kept - {p};
      assert View() == Linked(w, k, v, level);
      ExtendsFields(w, View());
      assert p !in free && t !in free;
      ChainFrame(Taken(w).ram, ram, freelist, free);
    }

    /** The place of the entry for va, as table page and index; table 0 for none. With alloc, missing
        tables are added on the way. */
    method Walk(root: nat, va: nat, alloc: bool, ghost k: nat) returns (t: nat, i: nat)
      requires Ok() && root == Top(View(), k) != 0
      modifies this
      ensures Ok() && Extends(old(View()), View()) && i < PTES
      ensures !alloc || va >= MAXVA ==> View() == old(View())
      ensures va >= MAXVA ==> t == 0
      ensures t != 0 ==>
                va / PGSIZE < MAXVPN && t == Low(View(), k, I2(va / PGSIZE), I1(va / PGSIZE)) && i == I0(va / PGSIZE)
      ensures t == 0 && va < MAXVA ==> Low(View(), k, I2(va / PGSIZE), I1(va / PGSIZE)) == 0
      ensures t == 0 && va < MAXVA && alloc ==> free == [] && old(|free|) <= 1
      ensures |free| >= old(|free|) - 2
    {
      hide InRange, OneOwner, AllOwned, Interior, Leaves, Extends, Child, MakePte;
      hide I0, I1, I2, Mid, Low, Top, Valid, Ppn;
      ghost var w := View();
      ExtendsRefl(w);
      if va >= MAXVA {
        return 0, 0;
      }
      ghost var v := va / PGSIZE;
      PxOfPage(va);
      t := root;
      var level := 2;
      while level > 0
        invariant 0 <= level <= 2 && Ok() && Extends(w, View()) && (!alloc ==> View() == w)
        invariant t == TableFor(View(), k, v, level) != 0 && |free| >= |w.free| - (2 - level)
      {
        Descend(View(), k, v, level);
        i := Px(level, va);
        var pte := ram[t][i];
        if Valid(pte) {
          t := Ppn(pte);
        } else {
          if !alloc {
            MissingBelow(View(), k, v, level - 1);
            return 0, 0;
          }
          ghost var u := View();
          t := AddTable(t, i, k, v, level);
          ExtendsTrans(w, u, View());
          if t == 0 {
            MissingBelow(View(), k, v, level - 1);
            return 0, 0;
          }
        }
        level := level - 1;
      }
      i := Px(0, va);
    }

    /** Maps the pages that bytes va..va+size touch to pages from pa on, until a table cannot be had.
        Mapping a page twice is the panic excluded here. */
    method MapPages(root: nat, va: nat, size: nat, pa: nat, perm: nat, ghost k: nat) returns (r: int, ghost done: nat)
      requires Ok() && root == Top(View(), k) != 0 && size > 0 && perm < 1024
      requires forall v :: va / PGSIZE <= v <= (va + size - 1) / PGSIZE && v < MAXVPN ==> !Valid(Pte(View(), k, v))
      modifies this
      ensures Ok() && Mapped(old(View()), View(), k, va / PGSIZE, done, pa, perm)
      ensures r == 0 || r == -1
      ensures done > 0 ==> va / PGSIZE + done <= MAXVPN
      ensures done <= (va + size - 1) / PGSIZE - va / PGSIZE + 1
      ensures r == 0 <==> done == (va + size - 1) / PGSIZE - va / PGSIZE + 1
      ensures r == -1 ==> va / PGSIZE + done >= MAXVPN || (free == [] && old(|free|) <= 2 * done + 1)
      ensures r == 0 ==> |free| >= old(|free|) - 2 * done
    {
      hide InRange, OneOwner, AllOwned, Interior, Leaves, Extends, Mapped, Child;
      hide MakePte, I0, I1, I2, Mid, Low, Valid, Pte;
      ghost var w := View();
      var start, last := va / PGSIZE, (va + size - 1) / PGSIZE;
      assert start <= last;
      var a, p := start, pa;
      done := 0;
      ExtendsRefl(w);
      MappedNone(w, w, k, start, pa, perm);
      while true
        invariant start <= a <= last && a == start + done && p == pa + done && (done > 0 ==> a <= MAXVPN)
        invariant Ok() && Mapped(w, View(), k, start, done, pa, perm) && |free| >= |w.free| - 2 * done
        decreases last - a
      {
        MappedFields(w, View(), k, start, done, pa, perm);
        RangeNotOwned(w, k, start, last);
        ghost var u := View();
        PageBytes(a);
        var t, i := Walk(root, a * PGSIZE, true, k);
        MappedExtends(w, u, View(), k, start, done, pa, perm);
        if t == 0 {
          return -1, done;
        }
        MapOne(t, i, p, perm, k, w, start, done, pa);
        done := done + 1;
        if a == last {
          return 0, done;
        }
        a, p := a + 1, p + 1;
      }
    }

    /** `*pte = PA2PTE(pa) | perm | PTE_V` on a page not mapped yet. */
    method MapOne(t: nat, i: nat, p: nat, perm: nat, ghost k: nat, ghost w: Vm, ghost start: nat, ghost done: nat,
                  ghost pa: nat)
      requires Ok() && Mapped(w, View(), k, start, done, pa, perm) && start + done < MAXVPN && p == pa + done
      requires t == Low(View(), k, I2(start + done), I1(start + done)) != 0 && i == I0(start + done)
      requires k < |w.spaces| && forall x :: start <= x <= start + done ==> x !in w.spaces[k].owned
      modifies this
      ensures Ok() && Mapped(w, View(), k, start, done + 1, pa, perm) && free == old(free)
    {
      hide InRange, OneOwner, AllOwned, Interior, Leaves, Mapped, Child, MakePte, I0, I1, I2, Mid, Low, Valid, Pte;
      MappedOneMore(w, View(), k, start, done, pa, perm);
      ghost var u := View();
      FreeIsNoTable(u, LowTable(k, I2(start + done), I1(start + done)));
      ram := ram[t := ram[t][i := MakePte(p, perm)]];
      assert View() == WithLeaf(u, k, start + done, MakePte(p, perm));
      MappedFields(w, View(), k, start, done + 1, pa, perm);
      ChainFrame(u.ram, ram, freelist, free);
    }

    /** Removes n mappings, which must exist and be leaves, from va on. With `freeing` their pages go back
        to the allocator; otherwise pages the space owned are from then on the kernel's. */
    method Uvmunmap(root: nat, va: nat, n: nat, freeing: bool, ghost k: nat)
      requires Ok() && root == Top(View(), k) != 0 && va % PGSIZE == 0
      requires LeavesThere(View(), k, va / PGSIZE, n, freeing)
      modifies this
      ensures Ok() && Unmapped(old(View()), View(), k, va / PGSIZE, n, freeing)
    {
      hide InRange, OneOwner, AllOwned, Interior, Leaves, LeavesThere, Unmapped, Child, MakePte;
      hide I0, I1, I2, Mid, Low, Valid, Pte, Flags, Ppn;
      ghost var w := View();
      var start := va / PGSIZE;
      LeavesThereHas(w, k, start, n, freeing, start);
      UnmappedNone(w, k, start, freeing);
      var a := 0;
      while a < n
        invariant 0 <= a <= n && Ok() && Unmapped(w, View(), k, start, a, freeing)
      {
        UnmappedFields(w, View(), k, start, a, freeing);
        LeavesThereHas(w, k, start, n, freeing, start + a);
        ValidHasTable(View(), k, start + a);
        ghost var u := View();
        PageBytes(start + a);
        var t, i := Walk(root, (start + a) * PGSIZE, false, k);
        assert View() == u && t != 0;
        if freeing {
          FreeLeaf(t, i, k, w, start, a);
        } else {
          ClearLeaf(t, i, k, w, start, a);
        }
        a := a + 1;
      }
    }

    /** `kfree(PTE2PA(*pte)); *pte = 0;` */
    method FreeLeaf(t: nat, i: nat, ghost k: nat, ghost w: Vm, ghost start: nat, ghost a: nat)
      requires Ok() && Unmapped(w, View(), k, start, a, true) && k < |w.spaces| && start + a in w.spaces[k].owned
      requires t == Low(View(), k, I2(start + a), I1(start + a)) != 0 && i == I0(start + a)
      modifies this
      ensures Ok() && Unmapped(w, View(), k, start, a + 1, true)
    {
      hide InRange, OneOwner, AllOwned, Interior, Leaves, Unmapped, Child, MakePte;
      hide I0, I1, I2, Mid, Low, Valid, Flags, Ppn, Junk;
      ghost var u, v := View(), start + a;
      UnmappedFree(w, u, k, start, a);
      LeafFacts(u, k, v);
      FreeIsNoTable(u, LowTable(k, I2(v), I1(v)));
      InRangePage(u, Data(k, v));
      var p := Ppn(ram[t][i]);
      TableFacts(u, LowTable(k, I2(v), I1(v)), Data(k, v));
      spaces := spaces[k := spaces[k].(owned := spaces[k].owned - {v})];
      kept := kept + {p};
      Kfree(p);
      ghost var ram1 := ram;
      ram := ram[t := ram[t][i := 0]];
      assert View() == LeafFreed(u, k, v);
      UnmappedFields(w, View(), k, start, a + 1, true);
      ChainFrame(ram1, ram, freelist, free);
    }

    /** `*pte = 0;` */
    method ClearLeaf(t: nat, i: nat, ghost k: nat, ghost w: Vm, ghost start: nat, ghost a: nat)
      requires Ok() && Unmapped(w, View(), k, start, a, false) && k < |w.spaces| && k < |spaces|
      requires t == Low(View(), k, I2(start + a), I1(start + a)) != 0 && i == I0(start + a) && start + a < MAXVPN
      modifies this
      ensures Ok() && Unmapped(w, View(), k, start, a + 1, false)
    {
      hide InRange, OneOwner, AllOwned, Interior, Leaves, Unmapped, Child, MakePte;
      hide I0, I1, I2, Mid, Low, Valid, Pte, Flags, Ppn;
      ghost var u, v := View(), start + a;
      UnmappedKeep(w, u, k, start, a);
      FreeIsNoTable(u, LowTable(k, I2(v), I1(v)));
      if v in spaces[k].owned {
        kept := kept + {Ppn(Pte(u, k, v))};
        spaces := spaces[k := spaces[k].(owned := spaces[k].owned - {v})];
      }
      ram := ram[t := ram[t][i := 0]];
      assert View() == LeafCleared(u, k, v);
      UnmappedFields(w, View(), k, start, a + 1, false);
      ChainFrame(u.ram, ram, freelist, free);
    }

    /** kalloc, and memset or memmove of the new page. */
    method GetPage(content: Page) returns (p: nat)
      requires Ok()
      modifies this
      ensures Ok()
      ensures p == 0 ==> free == [] && View() == old(View())
      ensures |ram| == old(|ram|)
      ensures p != 0 ==> old(free) != [] && p == old(free)[0] < |ram| && View() == Filled(old(View()), content)
      ensures p != 0 ==> SameTables(old(View()), View())
    {
      hide InRange, OneOwner, AllOwned, Interior, Leaves, PageOf, Junk, SameTables;
      ghost var t := View();
      p := Kalloc();
      if p != 0 {
        FilledGood(t, content);
        ghost var ram1 := ram;
        ram := ram[p := content];
        assert View() == Filled(t, content);
        NotFree(t);
        ChainFrame(ram1, ram, freelist, free);
      }
    }

    /** kfree of a page the kernel holds. */
    method GiveBack(p: nat)
      requires Ok() && p in kept
      modifies this
      ensures ListOk() && p < |old(ram)| && View() == Returned(old(View()), p)
    {
      hide Good, PageOf, Junk, SameTables;
      ghost var m := View();
      KeptFacts(m, p, Free(p));
      KeptPage(m, p);
      InRangePage(m, Kept(p));
      FreeNotKept(m, p);
      Kfree(p);
    }

    /** Gets a page, fills it, maps it at v and lets space k own it; or leaves everything as it was. The
        body shared by the loops of uvmalloc and uvmcopy. */
    method AddPage(root: nat, v: nat, perm: nat, content: Page, ghost k: nat, ghost w: Vm, ghost a: nat,
                   ghost pages: seq<(nat, Page)>)
      returns (ok: bool)
      requires Ok() && Provided(w, View(), k, a, pages) && root == Top(View(), k) != 0 && v == a + |pages|
      requires perm < 1024 && IsLeaf(perm) && (v < MAXVPN ==> !Valid(Pte(View(), k, v)))
      modifies this
      ensures Ok()
      ensures ok ==> v < MAXVPN && Provided(w, View(), k, a, pages + [(perm, content)]) && |free| >= old(|free|) - 3
      ensures !ok ==> Provided(w, View(), k, a, pages) && (old(|free|) <= 2 || v >= MAXVPN)
    {
      hide Good, PageOf, Provided, Mapped, Extends, MakePte, I0, I1, I2, Distinct, Chain;
      hide Mid, Low, Valid, Pte, Flags, Ppn, Junk, IsLeaf, SameTables;
      ghost var t := View();
      var p := GetPage(content);
      if p == 0 {
        return false;
      }
      ghost var f := View();
      SameTablesSameEntries(t, f, k);
      PageBytes(v);
      OnePageSize(v);
      var r, done := MapPages(root, v * PGSIZE, PGSIZE, p, perm, k);
      if r != 0 {
        NotMappedAfterAll(p, v, perm, content, k, w, t, a, pages);
        return false;
      }
      TakeOver(p, v, perm, content, k, w, t, a, pages);
      return true;
    }

    /** The page could not be mapped: it goes back, and everything is as it was. */
    method NotMappedAfterAll(p: nat, v: nat, perm: nat, content: Page, ghost k: nat, ghost w: Vm, ghost t: Vm,
                             ghost a: nat, ghost pages: seq<(nat, Page)>)
      requires Ok() && Good(t) && t.free != [] && p == t.free[0] < |t.ram| && k < |t.spaces|
      requires Provided(w, t, k, a, pages) && v == a + |pages| && Mapped(Filled(t, content), View(), k, v, 0, p, perm)
      requires perm < 1024 && IsLeaf(perm) && (v < MAXVPN ==> !Valid(Pte(t, k, v)))
      modifies this
      ensures Ok() && Provided(w, View(), k, a, pages)
    {
      hide Good, PageOf, Provided, Mapped, Extends, MakePte, I0, I1, I2, Distinct, Chain;
      hide Mid, Low, Valid, Pte, Flags, Ppn, Junk, IsLeaf, SameTables;
      ghost var m := View();
      MappedFields(Filled(t, content), m, k, v, 0, p, perm);
      GiveBack(p);
      assert GivenBack(t, m, View(), k, v, perm, content);
      GivenBackGood(t, m, View(), k, v, perm, content);
      ProvidedAfterFailure(w, t, m, View(), k, a, pages, v, perm, content);
    }

    /** The mapped page is the space's own from now on. */
    method TakeOver(p: nat, v: nat, perm: nat, content: Page, ghost k: nat, ghost w: Vm, ghost t: Vm,
                    ghost a: nat, ghost pages: seq<(nat, Page)>)
      requires Ok() && Good(t) && t.free != [] && p == t.free[0] < |t.ram| && Top(t, k) != 0
      requires Provided(w, t, k, a, pages) && v == a + |pages| && Mapped(Filled(t, content), View(), k, v, 1, p, perm)
      requires v < MAXVPN && perm < 1024 && IsLeaf(perm) && !Valid(Pte(t, k, v))
      modifies this`spaces, this`kept
      ensures Ok() && Provided(w, View(), k, a, pages + [(perm, content)])
    {
      hide Good, PageOf, Provided, Mapped, Extends, MakePte, I0, I1, I2, Distinct, Chain;
      hide Mid, Low, Valid, Pte, Flags, Ppn, Junk, IsLeaf, SameTables;
      ghost var m, f := View(), Filled(t, content);
      MappedFields(f, m, k, v, 1, p, perm);
      RangeNotOwned(t, k, v, v);
      spaces := spaces[k := spaces[k].(owned := spaces[k].owned + {v})];
      kept := kept - {p};
      EntryIs(f, m, k, v, p, perm);
      assert OnePage(t, m, View(), k, v, perm, content);
      OnePageGood(t, m, View(), k, v, perm, content);
      ProvidedMore(w, t, m, View(), k, a, pages, perm, content);
    }

    /** Shrinks a space from oldsz to newsz bytes, freeing the pages in between. */
    method Uvmdealloc(root: nat, oldsz: nat, newsz: nat, ghost k: nat) returns (r: nat)
      requires Ok() && root == Top(View(), k) != 0
      requires newsz < oldsz ==> LeavesThere(View(), k, PageCount(newsz), PageCount(oldsz) - PageCount(newsz), true)
      modifies this
      ensures Ok() && r == if newsz < oldsz then newsz else oldsz
      ensures newsz >= oldsz ==> View() == old(View())
      ensures newsz < oldsz ==>
                Unmapped(old(View()), View(), k, PageCount(newsz), PageCount(oldsz) - PageCount(newsz), true)
    {
      hide InRange, OneOwner, AllOwned, Interior, Leaves, LeavesThere, Unmapped;
      if newsz >= oldsz {
        return oldsz;
      }
      ghost var w := View();
      UnmappedNone(w, k, PageCount(newsz), true);
      if PageCount(newsz) < PageCount(oldsz) {
        var npages := PageCount(oldsz) - PageCount(newsz);
        PageBytes(PageCount(newsz));
        Uvmunmap(root, PageCount(newsz) * PGSIZE, npages, true, k);
      }
      return newsz;
    }

    /** Grows a space from oldsz to newsz bytes with zeroed pages of its own. When memory runs out every
        translation and every page is as it was; only tables may have been added. A page needs at most
        two tables, so three free pages for each are enough. */
    method Uvmalloc(root: nat, oldsz: nat, newsz: nat, xperm: nat, ghost k: nat) returns (r: nat, ghost ok: bool)
      requires Ok() && root == Top(View(), k) != 0 && xperm in {0, PTE_W, PTE_X, PTE_W + PTE_X}
      requires NotMapped(View(), k, PageCount(oldsz), PageCount(newsz))
      modifies this
      ensures Ok()
      ensures newsz < oldsz ==> ok && r == oldsz && View() == old(View())
      ensures newsz >= oldsz && ok ==> r == newsz && Provided(old(View()), View(), k, PageCount(oldsz),
                ZeroPages(PageCount(newsz) - PageCount(oldsz), PTE_R + PTE_U + xperm))
      ensures newsz >= oldsz && !ok ==> r == 0 && Restored(old(View()), View())
      ensures !ok ==> PageCount(newsz) > MAXVPN || old(|free|) < 3 * (PageCount(newsz) - PageCount(oldsz))
    {
      hide Good, PageOf, Pte, Valid, Flags, Ppn, LeavesThere, Unmapped, Provided, NotMapped, Restored, Top;
      if newsz < oldsz {
        return oldsz, true;
      }
      ghost var w := View();
      var start, perm := PageCount(oldsz), PTE_R + PTE_U + xperm;
      ghost var pages: seq<(nat, Page)> := [];
      RootSpace(w, k);
      ProvidedNone(w, k, start);
      var a := start;
      while a * PGSIZE < newsz
        invariant start <= a <= PageCount(newsz) && pages == ZeroPages(a - start, perm) && |pages| == a - start
        invariant |free| >= |w.free| - 3 * (a - start)
        invariant Ok() && Provided(w, View(), k, start, pages)
        decreases PageCount(newsz) - a
      {
        BelowCount(a, newsz);
        ProvidedFields(w, View(), k, start, pages);
        StillNotMapped(w, View(), k, start, pages, PageCount(newsz));
        assert perm < 1024 && IsLeaf(perm);
        var good := AddPage(root, a, perm, ZeroPage(), k, w, start, pages);
        if !good {
          Undo(root, start, a, k, w, pages, PageCount(newsz));
          return 0, false;
        }
        pages := pages + [(perm, ZeroPage())];
        a := a + 1;
      }
      AboveCount(a, newsz);
      return newsz, true;
    }

    /** The error path: unmap and free the pages provided so far. */
    method Undo(root: nat, start: nat, a: nat, ghost k: nat, ghost w: Vm, ghost pages: seq<(nat, Page)>, ghost end: nat)
      requires Ok() && Provided(w, View(), k, start, pages) && root == Top(w, k) != 0 && a == start + |pages|
      requires a <= end && NotMapped(w, k, start, end)
      modifies this
      ensures Ok() && Restored(w, View())
    {
      hide InRange, OneOwner, AllOwned, Interior, Leaves, LeavesThere, Unmapped, Provided, Restored, Top, Pte, Valid;
      ghost var t := View();
      ProvidedFields(w, t, k, start, pages);
      ProvidedLeaves(w, t, k, start, pages);
      PageBytes(start);
      Uvmunmap(root, start * PGSIZE, a - start, true, k);
      ProvidedThenUnmapped(w, t, View(), k, start, pages);
    }

    /** One turn of uvmcopy's loop: page i of one space into the next place of another. */
    method CopyPage(from: nat, to: nat, i: nat, ghost k: nat, ghost j: nat, ghost w: Vm, ghost pages: seq<(nat, Page)>,
                    ghost n: nat)
      returns (ok: bool)
      requires Ok() && Provided(w, View(), j, 0, pages) && j != k && i == |pages| < n
      requires from == Top(w, k) != 0 && to == Top(w, j) != 0 && LeavesThere(w, k, 0, n, true) && NotMapped(w, j, 0, n)
      modifies this
      ensures Ok()
      ensures ok ==> Provided(w, View(), j, 0, pages + [CopiedPage(w, k, i)]) && |free| >= old(|free|) - 3
      ensures !ok ==> Provided(w, View(), j, 0, pages) && old(|free|) <= 2
    {
      hide Good, Extends, PageOf, LeavesThere, Unmapped, Provided, NotMapped, Top, Distinct, Chain;
      hide I0, I1, I2, Low, Valid, Pte, Flags, Ppn, IsLeaf;
      ghost var u := View();
      ProvidedFields(w, u, j, 0, pages);
      StillNotMapped(w, u, j, 0, pages, n);
      SourcePage(w, u, k, j, pages, n, i);
      PageBytes(i);
      var t, e := Walk(from, i * PGSIZE, false, k);
      assert View() == u && t != 0;
      LowIsPage(u, k, I2(i), I1(i));
      FreeIsNoTable(u, LowTable(k, I2(i), I1(i)));
      var pte := ram[t][e];
      assert pte == Pte(u, k, i) by { EntryAt(u, k, i); }
      ok := AddPage(to, i, Flags(pte), ram[Ppn(pte)], j, w, 0, pages);
    }

    /** Copies the first sz bytes' pages of space k to space j: same permissions, same contents, pages of
        its own. When memory runs out every translation and every page is as it was. */
    method Uvmcopy(from: nat, to: nat, sz: nat, ghost k: nat, ghost j: nat) returns (r: int)
      requires Ok() && from == Top(View(), k) != 0 && to == Top(View(), j) != 0 && j != k
      requires LeavesThere(View(), k, 0, PageCount(sz), true) && NotMapped(View(), j, 0, PageCount(sz))
      modifies this
      ensures Ok() && (r == 0 || r == -1)
      ensures r == 0 ==> Provided(old(View()), View(), j, 0, CopyOf(old(View()), k, PageCount(sz)))
      ensures r == -1 ==> Restored(old(View()), View()) && old(|free|) < 3 * PageCount(sz)
    {
      hide Good, Extends, PageOf, LeavesThere, Unmapped, Provided, NotMapped, Restored, Top;
      hide I0, I1, I2, Low, Valid, Pte, Flags, Ppn, IsLeaf;
      ghost var w := View();
      ghost var pages: seq<(nat, Page)> := [];
      RootSpace(w, j);
      ProvidedNone(w, j, 0);
      var i := 0;
      while i * PGSIZE < sz
        invariant 0 <= i <= PageCount(sz) && pages == CopyOf(w, k, i) && |pages| == i && |free| >= |w.free| - 3 * i
        invariant Ok() && Provided(w, View(), j, 0, pages)
        decreases PageCount(sz) - i
      {
        BelowCount(i, sz);
        var good := CopyPage(from, to, i, k, j, w, pages, PageCount(sz));
        if !good {
          Undo(to, 0, i, j, w, pages, PageCount(sz));
          return -1;
        }
        pages := pages + [CopiedPage(w, k, i)];
        i := i + 1;
      }
      AboveCount(i, sz);
      return 0;
    }

    /** Frees table t and every table below it. The space's leaves are gone, so no leaf is met. The link
        to t is still there afterwards; with it removed, exactly these tables are gone. */
    method FreeWalk(t: nat, ghost o: Owner)
      requires Ok() && IsTable(o) && t == PageOf(View(), o) != 0
      requires o.k < |spaces| && spaces[o.k].owned == {} && NoLeaves(View(), o.k)
      modifies this
      ensures ListOk() && Less(old(View()), Unlink(View(), o), o.k, UnderSet(o)) && |ram| == old(|ram|)
      ensures !o.TopTable? ==> PageOf(View(), Parent(o)) == old(PageOf(View(), Parent(o)))
      decreases if o.TopTable? then 2 else if o.MidTable? then 1 else 0
    {
      hide Good, PageOf, NoLeaves, Less, Unlink, Returned, UnderSet, BelowSet, Valid, IsLeaf, Ppn, Childless;
      ghost var w, k := View(), o.k;
      LessNone(w, k);
      BelowNone(o);
      var i := 0;
      while i < PTES
        invariant 0 <= i <= PTES && Ok() && Less(w, View(), k, if o.LowTable? then iset{} else BelowSet(o, i))
      {
        LessKeeps(w, View(), o, i);
        EntryKind(View(), o, i);
        var pte := ram[t][i];
        if Valid(pte) && !IsLeaf(pte) {
          FreeChild(t, i, w, o);
        } else {
          assert !Valid(pte);
          if !o.LowTable? {
            AbsentBelow(View(), ChildOwner(o, i));
            LessAbsent(w, View(), k, BelowSet(o, i), UnderSet(ChildOwner(o, i)));
            BelowMore(o, i);
          }
        }
        i := i + 1;
      }
      LessKeeps(w, View(), o, i);
      ghost var u := View();
      AllGone(w, u, o);
      TableFreed(u, o);
      if !o.TopTable? { LinkStays(u, o); }
      FreeIsNoTable(u, o);
      InRangePage(u, o);
      ReturnedFields(u, t);
      Kfree(t);
      LessTrans(w, u, Unlink(View(), o), k, if o.LowTable? then iset{} else BelowSet(o, PTES), iset{o});
      BelowAll(o);
    }

    /** One child of table t freed and its entry cleared. */
    method FreeChild(t: nat, i: nat, ghost w: Vm, ghost o: Owner)
      requires Ok() && (o.TopTable? || o.MidTable?) && t == PageOf(View(), o) != 0 && i < PTES && t < |ram|
      requires Valid(ram[t][i]) && PageOf(View(), ChildOwner(o, i)) == Ppn(ram[t][i]) != 0
      requires o.k < |spaces| && spaces[o.k].owned == {} && NoLeaves(View(), o.k)
      requires Less(w, View(), o.k, BelowSet(o, i))
      modifies this
      ensures Ok() && Less(w, View(), o.k, BelowSet(o, i + 1))
      decreases if o.TopTable? then 2 else 1, 0
    {
      hide Good, PageOf, NoLeaves, Less, Returned, UnderSet, BelowSet, Valid, IsLeaf, Ppn;
      ghost var u, c := View(), ChildOwner(o, i);
      var child := Ppn(ram[t][i]);
      FreeWalk(child, c);
      ghost var m := View();
      ParentTable(m, o, i);
      ram := ram[t := ram[t][i := 0]];
      assert View() == Unlink(m, c);
      LessTrans(w, u, View(), o.k, BelowSet(o, i), UnderSet(c));
      BelowMore(o, i);
      LessFields(u, View(), o.k, UnderSet(c));
      LessTable(u, View(), o, c);
      FreeIsNoTable(View(), o);
      ChainFrame(m.ram, ram, freelist, free);
    }

    /** Frees a space's pages and its tables. No page but the first sz bytes' is mapped any more. */
    method Uvmfree(root: nat, sz: nat, ghost k: nat)
      requires Ok() && root == Top(View(), k) != 0 && LeavesThere(View(), k, 0, PageCount(sz), true)
      requires spaces[k].owned == Range(0, PageCount(sz))
      requires NotMapped(View(), k, PageCount(sz), MAXVPN)
      modifies this
      ensures Ok() && SpaceFreed(old(View()), View(), k)
    {
      hide Good, LeavesThere, Unmapped, NotMapped, Less, Unlink, SpaceFreed, NoLeaves, UnderSet, Range, Pte, Top;
      ghost var w := View();
      RootSpace(w, k);
      UnmappedNone(w, k, 0, true);
      NoPages();
      if sz > 0 {
        Uvmunmap(root, 0, PageCount(sz), true, k);
      }
      ghost var u := View();
      UnmappedFields(w, u, k, 0, PageCount(sz), true);
      UnmappedAll(w, u, k, PageCount(sz));
      assert PageOf(u, TopTable(k)) == Top(u, k);
      FreeWalk(root, TopTable(k));
      ghost var m := View();
      LessFields(u, Unlink(m, TopTable(k)), k, UnderSet(TopTable(k)));
      UnlinkTop(m, k);
      spaces := spaces[k := Space(0, {})];
      assert View() == Unlink(m, TopTable(k));
      OtherSpaces(u, View(), k, UnderSet(TopTable(k)));
      UnmappedThenFreed(w, u, View(), k, PageCount(sz));
    }

    /** An empty page table, or 0 when memory has run out. */
    method Uvmcreate() returns (root: nat)
      requires Ok()
      modifies this
      ensures Ok()
      ensures root == 0 ==> View() == old(View()) && free == []
      ensures root != 0 ==> old(free) != [] && free == old(free)[1..]
      ensures root != 0 ==> spaces == old(spaces) + [Space(root, {})] && kept == old(kept)
      ensures forall k, v :: Pte(View(), k, v) == old(Pte(View(), k, v))
    {
      hide Good, PageOf, Pte, ZeroPage, SameTables;
      ghost var w := View();
      root := GetPage(ZeroPage());
      if root == 0 {
        return;
      }
      BlankedGood(w);
      ghost var b := View();
      WithRootGood(b, root);
      assert w.kept + {root} - {root} == w.kept;
      spaces, kept := spaces + [Space(root, {})], kept - {root};
      assert View() == WithRoot(b, root);
      forall k, v ensures Pte(View(), k, v) == Pte(w, k, v) { SameTablesSameEntries(w, b, k); }
    }

    /** kinit: every page from `start` on is put on the free list. */
    constructor (start: nat, memory: seq<Page>)
      requires 0 < start <= |memory|
      ensures Ok() && first == start && |ram| == |memory| && spaces == [] && kept == {}
      ensures forall p :: p in free <==> start <= p < |memory|
    {
      first, ram, freelist := start, memory, 0;
      free, spaces, kept := [], [], {};
      new;
      var p := start;
      while p < |memory|
        invariant start <= p <= |memory| == |ram| && ListOk() && spaces == [] && kept == {}
        invariant forall q :: q in free <==> start <= q < p
      {
        Kfree(p);
        p := p + 1;
      }
      AllFree(View());
    }
  }

  lemma NoPages()
    ensures PageCount(0) == 0
  {}

  lemma UnmappedAll(w: Vm, u: Vm, k: nat, n: nat)
    requires Unmapped(w, u, k, 0, n, true) && k < |w.spaces| && w.spaces[k].owned == Range(0, n)
    requires NotMapped(w, k, n, MAXVPN)
    ensures k < |u.spaces| && u.spaces[k].owned == {} && NoLeaves(u, k)
  {
    hide Good, Pte, PageOf, NoLeaves, Range, FreedPages;
    assert Range(0, n) - Range(0, n) == {};
    forall v | 0 <= v < MAXVPN ensures !Valid(Pte(u, k, v)) {}
    NoLeavesFrom(u, k);
  }

  lemma UnlinkTop(m: Vm, k: nat)
    ensures |Unlink(m, TopTable(k)).spaces| == |m.spaces|
    ensures k < |m.spaces| ==> Unlink(m, TopTable(k)) == m.(spaces := m.spaces[k := Space(0, {})])
  {}

  lemma OtherSpaces(u: Vm, z: Vm, k: nat, d: iset<Owner>)
    requires Less(u, z, k, d) && k < |z.spaces| && z.spaces[k] == Space(0, {})
    ensures z.spaces == u.spaces[k := Space(0, {})]
  {
    hide Good, PageOf;
  }

  lemma LessFields(w: Vm, z: Vm, k: nat, d: iset<Owner>)
    requires Less(w, z, k, d)
    ensures Good(z) && k < |z.spaces| && z.spaces[k].owned == {} && |z.ram| == |w.ram| && |z.spaces| == |w.spaces|
  {
    hide Good, PageOf;
  }

  /** Removing the tables below a child leaves the table itself. */
  lemma LessTable(u: Vm, z: Vm, o: Owner, c: Owner)
    requires IsTable(c) && IsTable(o) && !c.TopTable? && o == Parent(c) && Less(u, z, o.k, UnderSet(c))
    ensures PageOf(z, o) == PageOf(u, o)
  {
    hide Good, PageOf;
  }

  lemma ParentTable(m: Vm, o: Owner, i: nat)
    requires o.TopTable? || o.MidTable?
    ensures Parent(ChildOwner(o, i)) == o && PageOf(m, o) == if o.TopTable? then Top(m, o.k) else Mid(m, o.k, o.i2)
  {}

  lemma LessKeeps(w: Vm, u: Vm, o: Owner, i: nat)
    requires IsTable(o) && Less(w, u, o.k, if o.LowTable? then iset{} else BelowSet(o, i)) && NoLeaves(w, o.k)
    ensures PageOf(u, o) == PageOf(w, o) && NoLeaves(u, o.k) && Good(u)
    ensures !o.TopTable? ==> PageOf(u, Parent(o)) == PageOf(w, Parent(o))
    ensures o.k < |u.spaces| && u.spaces[o.k].owned == {} && |u.ram| == |w.ram|
  {
    hide Good, PageOf, NoLeaves, BelowSet;
    NotBelowSelf(o, i);
    LessNoLeaves(w, u, o.k, if o.LowTable? then iset{} else BelowSet(o, i));
  }

  /** `PGROUNDUP(sz) / PGSIZE` */
  function PageCount(sz: nat): nat {
    (sz + PGSIZE - 1) / PGSIZE
  }

  lemma BelowCount(a: nat, sz: nat)
    requires a * PGSIZE < sz
    ensures a < PageCount(sz)
  {}

  lemma AboveCount(a: nat, sz: nat)
    requires a * PGSIZE >= sz
    ensures PageCount(sz) <= a
  {}

  function ZeroPages(n: nat, perm: nat): (s: seq<(nat, Page)>)
    ensures |s| == n
  {
    if n == 0 then [] else ZeroPages(n - 1, perm) + [(perm, ZeroPage())]
  }

  /** Permissions and contents of a mapped page. */
  function CopiedPage(w: Vm, k: nat, v: nat): (nat, Page) {
    var p := Ppn(Pte(w, k, v));
    (Flags(Pte(w, k, v)), if p < |w.ram| then w.ram[p] else ZeroPage())
  }

  function CopyOf(w: Vm, k: nat, n: nat): (s: seq<(nat, Page)>)
    ensures |s| == n
  {
    if n == 0 then [] else CopyOf(w, k, n - 1) + [CopiedPage(w, k, n - 1)]
  }

  ghost predicate NotMapped(w: Vm, k: nat, a: nat, b: nat) {
    forall v :: a <= v < b && v < MAXVPN ==> !Valid(Pte(w, k, v))
  }

  lemma RootSpace(w: Vm, k: nat)
    requires Top(w, k) != 0
    ensures k < |w.spaces|
  {}

  lemma ProvidedFields(w: Vm, t: Vm, k: nat, a: nat, pages: seq<(nat, Page)>)
    requires Provided(w, t, k, a, pages)
    ensures Good(t) && t.first == w.first && |t.ram| == |w.ram| && |t.spaces| == |w.spaces|
    ensures forall k' :: Top(t, k') == Top(w, k')
  {
    hide Good, Pte, PageOf;
  }

  lemma StillNotMapped(w: Vm, t: Vm, k: nat, a: nat, pages: seq<(nat, Page)>, b: nat)
    requires Provided(w, t, k, a, pages) && NotMapped(w, k, a, b)
    ensures NotMapped(t, k, a + |pages|, b)
    ensures a + |pages| < b && a + |pages| < MAXVPN ==> !Valid(Pte(t, k, a + |pages|))
  {
    hide Good, Pte, PageOf, HasPage;
  }

  lemma ProvidedLeaves(w: Vm, t: Vm, k: nat, a: nat, pages: seq<(nat, Page)>)
    requires Provided(w, t, k, a, pages)
    ensures LeavesThere(t, k, a, |pages|, true)
  {
    hide Pte, PageOf, InRange, OneOwner, AllOwned, Interior, Ppn, HasPage;
    forall v | a <= v < a + |pages|
      ensures v < MAXVPN && Valid(Pte(t, k, v)) && Flags(Pte(t, k, v)) != PTE_V && v in t.spaces[k].owned
    {
      InRangeIff(a, |pages|, v);
      LeafFlags(Pte(t, k, v));
    }
  }

  lemma LeafFlags(pte: nat)
    ensures IsLeaf(pte) ==> Flags(pte) != PTE_V && IsLeaf(Flags(pte)) && Flags(pte) < 1024
  {
    Halves(pte / 1024, pte % 1024);
  }

  /** While copying into space j, the source page is still mapped and unchanged. */
  lemma SourcePage(w: Vm, t: Vm, k: nat, j: nat, pages: seq<(nat, Page)>, n: nat, v: nat)
    requires Provided(w, t, j, 0, pages) && j != k && LeavesThere(w, k, 0, n, true) && v < n
    ensures v < MAXVPN && Pte(t, k, v) == Pte(w, k, v) && Valid(Pte(t, k, v)) && Low(t, k, I2(v), I1(v)) != 0
    ensures 0 < Ppn(Pte(t, k, v)) < |t.ram| && t.ram[Ppn(Pte(t, k, v))] == CopiedPage(w, k, v).1
    ensures Flags(Pte(t, k, v)) == CopiedPage(w, k, v).0 < 1024 && IsLeaf(Flags(Pte(t, k, v)))
  {
    hide Pte, PageOf, InRange, OneOwner, AllOwned, Interior, Ppn, HasPage, Low, I0, I1, I2;
    LeavesThereHas(w, k, 0, n, true, v);
    LeafFacts(w, k, v);
    LeafFlags(Pte(w, k, v));
    assert PageOf(w, Data(k, v)) == Ppn(Pte(w, k, v));
    ValidHasTable(t, k, v);
  }

  lemma EntryAt(w: Vm, k: nat, v: nat)
    requires 0 < Low(w, k, I2(v), I1(v)) < |w.ram|
    ensures Pte(w, k, v) == w.ram[Low(w, k, I2(v), I1(v))][I0(v)]
  {}

  lemma EntryIs(f: Vm, m: Vm, k: nat, v: nat, p: nat, perm: nat)
    requires Mapped(f, m, k, v, 1, p, perm) && v < MAXVPN && perm < 1024
    ensures Ppn(Pte(m, k, v)) == p
  {
    hide Good, Pte, PageOf, MakePte, Ppn;
    PteRoundTrip(p, perm);
  }

  lemma NotFree(t: Vm)
    requires Good(t) && t.free != []
    ensures t.free[0] !in t.free[1..]
  {}

  lemma OnePageSize(v: nat)
    ensures (v * PGSIZE + PGSIZE - 1) / PGSIZE == v
  {}

  /** Pages a..a+n are mapped by leaves, and owned when they are to be freed. */
  ghost predicate LeavesThere(w: Vm, k: nat, a: nat, n: nat, freeing: bool) {
    && k < |w.spaces|
    && forall v :: a <= v < a + n ==>
         v < MAXVPN && Valid(Pte(w, k, v)) && Flags(Pte(w, k, v)) != PTE_V && (freeing ==> v in w.spaces[k].owned)
  }

  lemma LeavesThereHas(w: Vm, k: nat, a: nat, n: nat, freeing: bool, v: nat)
    requires LeavesThere(w, k, a, n, freeing)
    ensures k < |w.spaces|
    ensures a <= v < a + n ==>
              v < MAXVPN && Valid(Pte(w, k, v)) && Flags(Pte(w, k, v)) != PTE_V && (freeing ==> v in w.spaces[k].owned)
  {
    hide Pte, Valid, Flags;
    if a <= v < a + n { assert Valid(Pte(w, k, v)); }
  }

  lemma PageBytes(v: nat)
    ensures v * PGSIZE / PGSIZE == v && (v < MAXVPN <==> v * PGSIZE < MAXVA)
  {}

  lemma UnmappedFields(w: Vm, t: Vm, k: nat, a: nat, n: nat, freeing: bool)
    requires Unmapped(w, t, k, a, n, freeing)
    ensures Good(t) && t.first == w.first && |t.ram| == |w.ram| && |t.spaces| == |w.spaces|
    ensures freeing ==> t.kept == w.kept
    ensures forall k' :: Top(t, k') == Top(w, k')
    ensures forall u :: a + n <= u < MAXVPN ==> Pte(t, k, u) == Pte(w, k, u)
  {
    hide Good, Pte, PageOf;
  }

  lemma ValidHasTable(w: Vm, k: nat, v: nat)
    requires Valid(Pte(w, k, v))
    ensures Low(w, k, I2(v), I1(v)) != 0
  {}

  lemma InRangePage(w: Vm, o: Owner)
    requires Good(w) && PageOf(w, o) != 0
    ensures w.first <= PageOf(w, o) < |w.ram|
  {
    hide PageOf;
  }

  lemma MappedFields(w: Vm, t: Vm, k: nat, a: nat, n: nat, pa: nat, perm: nat)
    requires Mapped(w, t, k, a, n, pa, perm)
    ensures Good(t) && t.first == w.first && |t.ram| == |w.ram| && t.spaces == w.spaces && t.kept == w.kept
    ensures forall k' :: Top(t, k') == Top(w, k')
  {
    hide Good, Pte, PageOf, MakePte;
  }

  /** Pages that are not mapped are not owned. */
  lemma RangeNotOwned(w: Vm, k: nat, a: nat, b: nat)
    requires Good(w) && Top(w, k) != 0
    requires forall v :: a <= v <= b && v < MAXVPN ==> !Valid(Pte(w, k, v))
    ensures k < |w.spaces| && forall v :: a <= v <= b ==> v !in w.spaces[k].owned
  {
    hide Pte, Valid, InRange, OneOwner, AllOwned, Interior;
  }

  /** A missing table stays missing further down. */
  lemma MissingBelow(w: Vm, k: nat, v: nat, level: nat)
    requires level <= 1 && TableFor(w, k, v, level) == 0
    ensures Low(w, k, I2(v), I1(v)) == 0
  {}
}
