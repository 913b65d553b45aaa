/** copyin and copyout: user memory as a sequence of bytes seen through a page table. */
module UserCopy {
  import opened PageTable
  import opened PageSteps
  import opened PageMemory
  import opened VirtualMemory

  // ---- Bytes of words and pages

  function WordByte(w: nat, i: nat): nat {
    if i == 0 then w % 256 else WordByte(w / 256, i - 1)
  }

  function SetWordByte(w: nat, i: nat, b: nat): nat {
    if i == 0 then w / 256 * 256 + b else SetWordByte(w / 256, i - 1, b) * 256 + w % 256
  }

  lemma {:induction false} WordByteSet(w: nat, i: nat, b: nat, j: nat)
    requires b < 256
    ensures WordByte(SetWordByte(w, i, b), j) == if i == j then b else WordByte(w, j)
  {
    Split(w / 256, b);
    if i > 0 {
      Split(SetWordByte(w / 256, i - 1, b), w % 256);
      if j > 0 { WordByteSet(w / 256, i - 1, b, j - 1); }
    }
  }

  lemma Split(x: nat, r: nat)
    requires r < 256
    ensures (x * 256 + r) / 256 == x && (x * 256 + r) % 256 == r
  {}

  function PageByte(p: Page, o: nat): nat
    requires o < PGSIZE
  {
    WordByte(p[o / 8], o % 8)
  }

  function SetPageByte(p: Page, o: nat, b: nat): Page
    requires o < PGSIZE
  {
    p[o / 8 := SetWordByte(p[o / 8], o % 8, b)]
  }

  lemma PageByteSet(p: Page, o: nat, b: nat, x: nat)
    requires o < PGSIZE && x < PGSIZE && b < 256
    ensures PageByte(SetPageByte(p, o, b), x) == if x == o then b else PageByte(p, x)
  {
    if x / 8 == o / 8 {
      WordByteSet(p[o / 8], o % 8, b, x % 8);
      assert x == x / 8 * 8 + x % 8 && o == o / 8 * 8 + o % 8;
    }
  }

  /** memmove into a page, byte by byte. */
  method CopyBytes(page: Page, o: nat, src: seq<nat>) returns (r: Page)
    requires o + |src| <= PGSIZE && forall j :: 0 <= j < |src| ==> src[j] < 256
    ensures forall x :: 0 <= x < PGSIZE ==>
              PageByte(r, x) == if o <= x < o + |src| then src[x - o] else PageByte(page, x)
  {
    hide PageByte, SetPageByte;
    r := page;
    var i := 0;
    while i < |src|
      invariant 0 <= i <= |src|
      invariant forall x :: 0 <= x < PGSIZE ==>
                  PageByte(r, x) == if o <= x < o + i then src[x - o] else PageByte(page, x)
    {
      var next := SetPageByte(r, o + i, src[i]);
      forall x | 0 <= x < PGSIZE ensures PageByte(next, x) == if x == o + i then src[i] else PageByte(r, x) {
        PageByteSet(r, o + i, src[i], x);
      }
      r := next;
      i := i + 1;
    }
  }

  // ---- User memory

  /** What walkaddr looks up: a valid entry that user code may use. */
  ghost predicate UserMapped(w: Vm, k: nat, v: nat) {
    v < MAXVPN && Valid(Pte(w, k, v)) && Pte(w, k, v) / 16 % 2 == 1
  }

  /** The pages user code may use are the space's own. */
  ghost predicate UserOwned(w: Vm, k: nat) {
    k < |w.spaces| && forall v :: UserMapped(w, k, v) ==> v in w.spaces[k].owned
  }

  /** Byte va of space k. */
  ghost function VByte(w: Vm, k: nat, va: nat): nat {
    var p := Ppn(Pte(w, k, va / PGSIZE));
    if p < |w.ram| then PageByte(w.ram[p], va % PGSIZE) else 0
  }

  ghost function VBytes(w: Vm, k: nat, va: nat, n: nat): (s: seq<nat>)
    ensures |s| == n
  {
    seq<nat>(n, i requires 0 <= i < n => VByte(w, k, va + i))
  }

  /** Every byte va..va+n is in a page user code may use. */
  ghost predicate Accessible(w: Vm, k: nat, va: nat, n: nat) {
    forall x :: va <= x < va + n ==> UserMapped(w, k, PageOfByte(x))
  }

  function PageOfByte(x: nat): nat {
    x / PGSIZE
  }

  /** A user page of the space: where its contents are. */
  lemma UserPage(w: Vm, k: nat, v: nat)
    requires Good(w) && UserOwned(w, k) && UserMapped(w, k, v)
    ensures v in w.spaces[k].owned && PageOf(w, Data(k, v)) == Ppn(Pte(w, k, v))
    ensures 0 < Ppn(Pte(w, k, v)) < |w.ram| && 0 < Low(w, k, I2(v), I1(v)) < |w.ram|
    ensures forall o :: IsTable(o) ==> PageOf(w, o) != Ppn(Pte(w, k, v))
  {
    hide Pte, Low, Valid, Ppn, InRange, AllOwned, Interior, OneOwner, I0, I1, I2;
    LeafFacts(w, k, v);
    forall o | IsTable(o) ensures PageOf(w, o) != Ppn(Pte(w, k, v)) { TableFacts(w, Data(k, v), o); }
  }

  /** walkaddr: the page of a user address, 0 if user code may not use it. */
  method Walkaddr(m: Memory, root: nat, va: nat, ghost k: nat) returns (pa: nat)
    requires m.Ok() && root == Top(m.View(), k) != 0 && UserOwned(m.View(), k)
    modifies m
    ensures m.Ok() && m.View() == old(m.View())
    ensures pa != 0 <==> UserMapped(m.View(), k, va / PGSIZE)
    ensures pa != 0 ==> pa == Ppn(Pte(m.View(), k, va / PGSIZE)) < |m.ram|
  {
    hide Good, Extends, Pte, Low, Ppn, I0, I1, I2, UserOwned;
    ghost var w := m.View();
    ghost var v := va / PGSIZE;
    if va >= MAXVA {
      return 0;
    }
    var t, i := m.Walk(root, va, false, k);
    if t == 0 {
      NoTableNotValid(w, k, v);
      return 0;
    }
    LowIsPage(w, k, I2(v), I1(v));
    FreeIsNoTable(w, LowTable(k, I2(v), I1(v)));
    EntryAt(w, k, v);
    var pte := m.ram[t][i];
    if !Valid(pte) {
      return 0;
    }
    if pte / 16 % 2 == 0 {
      return 0;
    }
    UserPage(w, k, v);
    return Ppn(pte);
  }

  lemma NoTableNotValid(w: Vm, k: nat, v: nat)
    requires Low(w, k, I2(v), I1(v)) == 0
    ensures !Valid(Pte(w, k, v))
  {}

  /** The bytes of one page, up to its end, are consecutive bytes of the space. */
  lemma ChunkBytes(w: Vm, k: nat, va: nat, n: nat)
    requires va % PGSIZE + n <= PGSIZE
    ensures forall x :: va <= x < va + n ==> PageOfByte(x) == va / PGSIZE && x % PGSIZE == va % PGSIZE + (x - va)
  {
    forall x | va <= x < va + n ensures PageOfByte(x) == va / PGSIZE && x % PGSIZE == va % PGSIZE + (x - va) {
      assert x == va / PGSIZE * PGSIZE + (va % PGSIZE + (x - va));
    }
  }

  lemma AccessibleSplit(w: Vm, k: nat, va: nat, n: nat, m: nat)
    requires 0 < n <= m && va % PGSIZE + n <= PGSIZE
    ensures Accessible(w, k, va, m) <==> UserMapped(w, k, va / PGSIZE) && Accessible(w, k, va + n, m - n)
  {
    hide UserMapped;
    ChunkBytes(w, k, va, n);
    if Accessible(w, k, va, m) { assert UserMapped(w, k, PageOfByte(va)); }
  }

  /** Copies len bytes from user memory. It succeeds if and only if all of them are accessible. */
  method Copyin(m: Memory, root: nat, srcva: nat, len: nat, ghost k: nat) returns (r: int, dst: seq<nat>)
    requires m.Ok() && root == Top(m.View(), k) != 0 && UserOwned(m.View(), k)
    modifies m
    ensures m.Ok() && m.View() == old(m.View())
    ensures r == 0 || r == -1
    ensures r == 0 <==> Accessible(m.View(), k, srcva, len)
    ensures |dst| <= len && dst == VBytes(m.View(), k, srcva, |dst|) && (r == 0 ==> |dst| == len)
  {
    hide Good, Pte, Ppn, UserMapped, UserOwned, Accessible, PageByte, VByte;
    ghost var w := m.View();
    dst := [];
    AccessibleNone(w, k, srcva + len);
    var left, va := len, srcva;
    while left > 0
      invariant 0 <= left <= len && va + left == srcva + len && |dst| == len - left
      invariant m.Ok() && m.View() == w && dst == VBytes(w, k, srcva, |dst|)
      invariant Accessible(w, k, srcva, len) <==> Accessible(w, k, va, left)
    {
      var pa := Walkaddr(m, root, va, k);
      var n := PGSIZE - va % PGSIZE;
      if n > left {
        n := left;
      }
      AccessibleSplit(w, k, va, n, left);
      if pa == 0 {
        return -1, dst;
      }
      var chunk := ReadBytes(m.ram[pa], va % PGSIZE, n);
      ChunkIs(w, k, va, n, chunk);
      VBytesConcat(w, k, srcva, |dst|, n);
      dst := dst + chunk;
      left, va := left - n, va + n;
    }
    return 0, dst;
  }

  lemma AccessibleNone(w: Vm, k: nat, va: nat)
    ensures Accessible(w, k, va, 0)
  {}

  method ReadBytes(page: Page, o: nat, n: nat) returns (s: seq<nat>)
    requires o + n <= PGSIZE
    ensures |s| == n && forall j :: 0 <= j < n ==> s[j] == PageByte(page, o + j)
  {
    hide PageByte;
    s := [];
    while |s| < n
      invariant |s| <= n && forall j :: 0 <= j < |s| ==> s[j] == PageByte(page, o + j)
    {
      s := s + [PageByte(page, o + |s|)];
    }
  }

  lemma ChunkIs(w: Vm, k: nat, va: nat, n: nat, chunk: seq<nat>)
    requires va % PGSIZE + n <= PGSIZE && |chunk| == n && Ppn(Pte(w, k, va / PGSIZE)) < |w.ram|
    requires forall j :: 0 <= j < n ==> chunk[j] == PageByte(w.ram[Ppn(Pte(w, k, va / PGSIZE))], va % PGSIZE + j)
    ensures chunk == VBytes(w, k, va, n)
  {
    hide Pte, Ppn, PageByte;
    ChunkBytes(w, k, va, n);
    forall j | 0 <= j < n ensures chunk[j] == VByte(w, k, va + j) {
      assert PageOfByte(va + j) == va / PGSIZE;
    }
  }

  lemma VBytesConcat(w: Vm, k: nat, va: nat, a: nat, b: nat)
    ensures VBytes(w, k, va, a) + VBytes(w, k, va + a, b) == VBytes(w, k, va, a + b)
  {
    hide VByte;
  }

  // ---- Writing user memory

  /** t is w with `data` at va in space k: no other byte of any space's own pages, no translation and no
      owner changed. */
  ghost predicate Wrote(w: Vm, t: Vm, k: nat, va: nat, data: seq<nat>) {
    && Good(w) && Good(t) && t == w.(ram := t.ram) && |t.ram| == |w.ram|
    && (forall k', v :: Pte(t, k', v) == Pte(w, k', v))
    && (forall k': nat, x: nat :: OwnByte(w, k', x) ==>
          VByte(t, k', x) == if k' == k && va <= x < va + |data| then data[x - va] else VByte(w, k', x))
    && (forall p :: p in w.kept && p < |w.ram| ==> t.ram[p] == w.ram[p])
  }

  ghost predicate OwnByte(w: Vm, k: nat, x: nat) {
    k < |w.spaces| && x / PGSIZE in w.spaces[k].owned
  }

  lemma WroteNone(w: Vm, k: nat, va: nat)
    requires Good(w)
    ensures Wrote(w, w, k, va, [])
  {}

  /** Writing a user page's contents moves nothing. */
  lemma PageWritten(t: Vm, k: nat, v: nat, page: Page)
    requires Good(t) && UserOwned(t, k) && UserMapped(t, k, v)
    ensures Ppn(Pte(t, k, v)) < |t.ram|
    ensures var u := t.(ram := t.ram[Ppn(Pte(t, k, v)) := page]);
            Good(u) && forall k', x :: Pte(u, k', x) == Pte(t, k', x)
  {
    hide Pte, Ppn, InRange, OneOwner, AllOwned, Interior, Leaves, SameTables;
    UserPage(t, k, v);
    var p := Ppn(Pte(t, k, v));
    WriteNonTable(t, p, page);
    var u := t.(ram := t.ram[p := page]);
    forall k', x ensures Pte(u, k', x) == Pte(t, k', x) { SameTablesSameEntries(t, u, k'); }
  }

  /** Only that page of that space has those contents. */
  lemma OtherPages(t: Vm, k: nat, v: nat, k': nat, v': nat)
    requires Good(t) && UserOwned(t, k) && UserMapped(t, k, v)
    requires k' < |t.spaces| && v' in t.spaces[k'].owned && !(k' == k && v' == v)
    ensures Ppn(Pte(t, k', v')) != Ppn(Pte(t, k, v)) && Ppn(Pte(t, k', v')) < |t.ram|
  {
    hide Pte, Ppn, InRange, AllOwned, Interior, OneOwner;
    UserPage(t, k, v);
    LeafFacts(t, k', v');
    TableFacts(t, Data(k, v), Data(k', v'));
  }

  lemma WroteChunk(w: Vm, t: Vm, k: nat, va: nat, data: seq<nat>, m: nat, n: nat, page: Page)
    requires m + n <= |data| && Wrote(w, t, k, va, data[..m]) && UserOwned(t, k)
    requires (va + m) % PGSIZE + n <= PGSIZE && UserMapped(t, k, (va + m) / PGSIZE)
    requires Ppn(Pte(t, k, (va + m) / PGSIZE)) < |t.ram|
    requires var was, o := t.ram[Ppn(Pte(t, k, (va + m) / PGSIZE))], (va + m) % PGSIZE;
             forall x :: 0 <= x < PGSIZE ==>
               PageByte(page, x) == if o <= x < o + n then data[m + (x - o)] else PageByte(was, x)
    ensures Wrote(w, t.(ram := t.ram[Ppn(Pte(t, k, (va + m) / PGSIZE)) := page]), k, va, data[..m + n])
  {
    hide Good, Pte, Ppn, PageByte, UserMapped, UserOwned;
    var v := (va + m) / PGSIZE;
    var p := Ppn(Pte(t, k, v));
    var u := t.(ram := t.ram[p := page]);
    PageWritten(t, k, v, page);
    forall k': nat, x: nat | OwnByte(w, k', x)
      ensures VByte(u, k', x) == if k' == k && va <= x < va + (m + n) then data[x - va] else VByte(w, k', x)
    {
      ByteAfter(w, t, k, va, data, m, n, page, k', x);
    }
    forall q | q in w.kept && q < |w.ram| ensures u.ram[q] == w.ram[q] { KeptApart(t, k, v, q); }
  }

  lemma KeptApart(t: Vm, k: nat, v: nat, q: nat)
    requires Good(t) && UserOwned(t, k) && UserMapped(t, k, v) && q in t.kept
    ensures Ppn(Pte(t, k, v)) != q
  {
    hide Pte, Ppn, InRange, AllOwned, Interior, OneOwner;
    UserPage(t, k, v);
    KeptPage(t, q);
    TableFacts(t, Data(k, v), Kept(q));
  }

  lemma ByteAfter(w: Vm, t: Vm, k: nat, va: nat, data: seq<nat>, m: nat, n: nat, page: Page, k': nat, x: nat)
    requires m + n <= |data| && Wrote(w, t, k, va, data[..m]) && UserOwned(t, k) && OwnByte(w, k', x)
    requires (va + m) % PGSIZE + n <= PGSIZE && UserMapped(t, k, (va + m) / PGSIZE)
    requires Ppn(Pte(t, k, (va + m) / PGSIZE)) < |t.ram|
    requires var was, o := t.ram[Ppn(Pte(t, k, (va + m) / PGSIZE))], (va + m) % PGSIZE;
             forall y :: 0 <= y < PGSIZE ==>
               PageByte(page, y) == if o <= y < o + n then data[m + (y - o)] else PageByte(was, y)
    requires var u := t.(ram := t.ram[Ppn(Pte(t, k, (va + m) / PGSIZE)) := page]);
             Pte(u, k', x / PGSIZE) == Pte(t, k', x / PGSIZE)
    ensures var u := t.(ram := t.ram[Ppn(Pte(t, k, (va + m) / PGSIZE)) := page]);
            VByte(u, k', x) == if k' == k && va <= x < va + (m + n) then data[x - va] else VByte(w, k', x)
  {
    hide Good, Pte, Ppn, PageByte, UserMapped, UserOwned;
    var v := (va + m) / PGSIZE;
    SamePage(va + m, n, x);
    if k' == k && x / PGSIZE == v {
      assert VByte(t, k', x) == if va <= x < va + m then data[x - va] else VByte(w, k', x);
    } else {
      OtherPages(t, k, v, k', x / PGSIZE);
    }
  }

  /** In the page of byte a, the n bytes from a on are those at its offset. */
  lemma SamePage(a: nat, n: nat, x: nat)
    requires a % PGSIZE + n <= PGSIZE
    ensures x / PGSIZE == a / PGSIZE ==>
              && (a % PGSIZE <= x % PGSIZE < a % PGSIZE + n <==> a <= x < a + n)
              && (a <= x ==> x % PGSIZE - a % PGSIZE == x - a)
    ensures x / PGSIZE != a / PGSIZE ==> !(a <= x < a + n)
  {
    assert x == x / PGSIZE * PGSIZE + x % PGSIZE && a == a / PGSIZE * PGSIZE + a % PGSIZE;
  }

  /** One turn of copyout's loop: as many bytes as go into the page at va, or 0 if user code may not use it. */
  method CopyoutChunk(m: Memory, root: nat, va: nat, rest: seq<nat>, ghost k: nat, ghost w: Vm, ghost dstva: nat,
                      ghost src: seq<nat>, ghost done: nat)
    returns (n: nat)
    requires m.Ok() && root == Top(w, k) != 0 && UserOwned(w, k) && (forall j :: 0 <= j < |src| ==> src[j] < 256)
    requires done <= |src| && rest == src[done..] && rest != [] && va == dstva + done
    requires Wrote(w, m.View(), k, dstva, src[..done])
    modifies m
    ensures m.Ok() && n <= |rest|
    ensures n == 0 ==> m.View() == old(m.View()) && !Accessible(w, k, va, |rest|)
    ensures n > 0 ==> (Accessible(w, k, va, |rest|) <==> Accessible(w, k, va + n, |rest| - n))
    ensures n > 0 ==> Wrote(w, m.View(), k, dstva, src[..done + n])
  {
    hide Good, Pte, Ppn, UserMapped, UserOwned, Accessible, PageByte, Wrote, Top;
    ghost var t := m.View();
    WroteSame(w, t, k, dstva, src[..done], va / PGSIZE);
    var pa := Walkaddr(m, root, va, k);
    n := PGSIZE - va % PGSIZE;
    if n > |rest| {
      n := |rest|;
    }
    AccessibleSplit(w, k, va, n, |rest|);
    if pa == 0 {
      return 0;
    }
    var page := CopyBytes(m.ram[pa], va % PGSIZE, rest[..n]);
    StorePage(m, pa, page, k, va / PGSIZE);
    WroteChunk(w, t, k, dstva, src, done, n, page);
  }

  /** Copies bytes to user memory. It succeeds if and only if all of them are accessible; what it wrote,
      all of src or a prefix, is the only change. */
  method Copyout(m: Memory, root: nat, dstva: nat, src: seq<nat>, ghost k: nat) returns (r: int, ghost done: nat)
    requires m.Ok() && root == Top(m.View(), k) != 0 && UserOwned(m.View(), k)
    requires forall j :: 0 <= j < |src| ==> src[j] < 256
    modifies m
    ensures m.Ok() && (r == 0 || r == -1) && done <= |src|
    ensures r == 0 <==> Accessible(old(m.View()), k, dstva, |src|)
    ensures Wrote(old(m.View()), m.View(), k, dstva, src[..done]) && (r == 0 ==> done == |src|)
  {
    hide Good, Pte, Ppn, UserMapped, UserOwned, Accessible, PageByte, Wrote, Top;
    ghost var w := m.View();
    done := 0;
    AccessibleNone(w, k, dstva + |src|);
    WroteNone(w, k, dstva);
    assert src[..0] == [];
    var rest, va := src, dstva;
    while rest != []
      invariant done <= |src| && rest == src[done..] && va == dstva + done
      invariant m.Ok() && Wrote(w, m.View(), k, dstva, src[..done])
      invariant Accessible(w, k, dstva, |src|) <==> Accessible(w, k, va, |rest|)
      decreases |rest|
    {
      var n := CopyoutChunk(m, root, va, rest, k, w, dstva, src, done);
      if n == 0 {
        return -1, done;
      }
      rest, va, done := rest[n..], va + n, done + n;
    }
    assert src[..done] == src;
    return 0, done;
  }

  /** New contents for a user page. */
  method StorePage(m: Memory, pa: nat, page: Page, ghost k: nat, ghost v: nat)
    requires m.Ok() && UserOwned(m.View(), k) && UserMapped(m.View(), k, v) && pa == Ppn(Pte(m.View(), k, v)) < |m.ram|
    modifies m
    ensures m.Ok() && m.View() == old(m.View()).(ram := old(m.ram)[pa := page])
  {
    hide Pte, Ppn, UserMapped, UserOwned, InRange, OneOwner, AllOwned, Interior, Leaves;
    ghost var t := m.View();
    PageWritten(t, k, v, page);
    DataNotFree(t, k, v);
    m.ram := m.ram[pa := page];
    ChainFrame(t.ram, m.ram, m.freelist, m.free);
  }

  lemma DataNotFree(t: Vm, k: nat, v: nat)
    requires Good(t) && UserOwned(t, k) && UserMapped(t, k, v)
    ensures Ppn(Pte(t, k, v)) !in t.free
  {
    hide Pte, Ppn, InRange, AllOwned, Interior, OneOwner;
    UserPage(t, k, v);
    LeafFacts(t, k, v);
  }

  /** Writing bytes changes neither what is accessible nor who owns it. */
  lemma WroteSame(w: Vm, t: Vm, k: nat, va: nat, data: seq<nat>, v: nat)
    requires Wrote(w, t, k, va, data) && UserOwned(w, k)
    ensures UserOwned(t, k) && (UserMapped(t, k, v) <==> UserMapped(w, k, v)) && Top(t, k) == Top(w, k)
  {
    hide Good, Pte, VByte;
  }

  /** What was copied out is what is read back. */
  lemma CopyRoundTrip(w: Vm, t: Vm, k: nat, va: nat, data: seq<nat>)
    requires Wrote(w, t, k, va, data) && UserOwned(w, k) && Accessible(w, k, va, |data|)
    ensures Accessible(t, k, va, |data|) && VBytes(t, k, va, |data|) == data
  {
    hide Good, Pte, VByte;
    forall x | va <= x < va + |data| ensures UserMapped(t, k, PageOfByte(x)) && VByte(t, k, x) == data[x - va] {
      assert UserMapped(w, k, PageOfByte(x)) && OwnByte(w, k, x);
    }
    forall i | 0 <= i < |data| ensures VBytes(t, k, va, |data|)[i] == data[i] {
      assert va <= va + i < va + |data|;
    }
  }
}
