/** Concurrent RAID4/RAID5 writers as interleaved steps: lock the lower disk, lock the higher disk,
    read old data, read parity, write parity, write data, unlock. Every interleaving refines the
    writes done one after another, and none deadlocks. */
module RaidConcurrent {
  import opened Blocks
  import opened RaidAddress
  import opened RaidModel
  import opened RaidParity

  /** The step a writer takes next. */
  datatype Pc =
    | Idle | LockFirst | LockSecond | ReadOld | ReadParity | StoreParity | StoreData | UnlockSecond | UnlockFirst

  datatype Writer = Writer(pc: Pc, b: nat, d: nat, p: nat, row: nat, v: Block, was: Block, parity: Block)

  /** `locks[x]` is 0 when disk x is unlocked and i+1 when writer i holds it. `atomic` is not part of
      the program: it is the array after the finished writes, applied one at a time. */
  datatype State = State(live: Raid, locks: seq<nat>, writers: seq<Writer>, atomic: Raid)

  datatype Event = Begin(i: nat, b: nat, v: Block) | Advance(i: nat)

  function First(w: Writer): nat {
    if w.p < w.d then w.p else w.d
  }

  function Second(w: Writer): nat {
    if w.p < w.d then w.d else w.p
  }

  predicate HoldsFirst(w: Writer) {
    !w.pc.Idle? && !w.pc.LockFirst?
  }

  predicate HoldsSecond(w: Writer) {
    HoldsFirst(w) && !w.pc.LockSecond? && !w.pc.UnlockFirst?
  }

  predicate Holds(w: Writer, x: nat) {
    (HoldsFirst(w) && x == First(w)) || (HoldsSecond(w) && x == Second(w))
  }

  /** The lock a writer must find free to go on, or 0 if it needs none. */
  function Awaited(w: Writer): nat {
    if w.pc.LockFirst? then First(w) else if w.pc.LockSecond? then Second(w) else 0
  }

  /** Parity is on disk and the data is not yet. */
  predicate MidWrite(w: Writer) {
    w.pc.StoreData?
  }

  predicate WriterOk(a: Raid, w: Writer)
    requires Valid(a) && IsParity(a.g.level)
  {
    !w.pc.Idle? ==>
      && w.b <= a.g.maxBlk
      && 1 <= w.d <= a.total && 1 <= w.p <= a.total && w.d != w.p && 1 <= w.row < a.blocks
      && SlotOf(a, w.b) == (w.d, w.row) && ParityOf(a, w.row) == w.p
  }

  predicate Shape(s: State) {
    && Valid(s.live) && IsParity(s.live.g.level) && OnlyFailed(s.live, 0)
    && Valid(s.atomic) && s.atomic.(disks := s.live.disks) == s.live
    && |s.locks| == s.live.total + 1
    && (forall i :: 0 <= i < |s.writers| ==> WriterOk(s.live, s.writers[i]))
  }

  predicate Can(s: State, e: Event)
    requires Shape(s)
  {
    match e
    case Begin(i, b, _) => i < |s.writers| && s.writers[i].pc.Idle? && b <= s.live.g.maxBlk
    case Advance(i) =>
      && i < |s.writers| && !s.writers[i].pc.Idle?
      && WriterOk(s.live, s.writers[i])
      && (Awaited(s.writers[i]) == 0 || s.locks[Awaited(s.writers[i])] == 0)
  }

  function Set(s: State, i: nat, w: Writer): State
    requires i < |s.writers|
  {
    s.(writers := s.writers[i := w])
  }

  function Do(s: State, e: Event): State
    requires Shape(s) && Can(s, e)
  {
    match e
    case Begin(i, b, v) =>
      ParitySlotFacts(s.live, b);
      var (d, row) := SlotOf(s.live, b);
      Set(s, i, Writer(LockFirst, b, d, ParityOf(s.live, row), row, v, v, v))
    case Advance(i) =>
      var w := s.writers[i];
      match w.pc
      case Idle => s
      case LockFirst => Set(s, i, w.(pc := LockSecond)).(locks := s.locks[First(w) := i + 1])
      case LockSecond => Set(s, i, w.(pc := ReadOld)).(locks := s.locks[Second(w) := i + 1])
      case ReadOld =>
        var was := Get(s.live, w.d, w.row);
        Set(s, i, w.(was := was, pc := if was == w.v then UnlockSecond else ReadParity))
      case ReadParity => Set(s, i, w.(parity := Get(s.live, w.p, w.row), pc := StoreParity))
      case StoreParity =>
        Set(s, i, w.(pc := StoreData)).(live := Put(s.live, w.p, w.row, Xor(Xor(w.v, w.was), w.parity)))
      case StoreData =>
        Set(s, i, w.(pc := UnlockSecond)).(live := Put(s.live, w.d, w.row, w.v),
                                           atomic := Write(s.atomic, w.b, w.v).0)
      case UnlockSecond => Set(s, i, w.(pc := UnlockFirst)).(locks := s.locks[Second(w) := 0])
      case UnlockFirst => Set(s, i, w.(pc := Idle)).(locks := s.locks[First(w) := 0])
  }

  // ---- The invariant

  predicate LocksAgree(s: State) {
    forall i, x :: 0 <= i < |s.writers| && 1 <= x < |s.locks| ==> (s.locks[x] == i + 1 <==> Holds(s.writers[i], x))
  }

  /** What a writer has read is still on disk until it is done with it. */
  predicate Remembers(s: State, i: nat)
    requires Shape(s) && i < |s.writers|
  {
    var w := s.writers[i];
    !w.pc.Idle? ==>
      (&& (w.pc.ReadParity? || w.pc.StoreParity? || w.pc.StoreData? ==>
             w.was == s.atomic.disks[w.d][w.row] && w.was != w.v)
       && (w.pc.StoreParity? ==> w.parity == s.atomic.disks[w.p][w.row])
       && (w.pc.StoreData? ==>
             s.live.disks[w.p][w.row] == Xor(Xor(w.v, w.was), s.atomic.disks[w.p][w.row])))
  }

  predicate PendingAt(s: State, x: nat, r: nat) {
    exists i :: 0 <= i < |s.writers| && MidWrite(s.writers[i]) && s.writers[i].p == x && s.writers[i].row == r
  }

  /** Off the pending parity blocks the array is the atomic one. */
  predicate Agrees(s: State, x: nat, r: nat)
    requires Shape(s) && x <= s.live.total && r < s.live.blocks
  {
    PendingAt(s, x, r) || s.live.disks[x][r] == s.atomic.disks[x][r]
  }

  predicate Invariant(s: State) {
    && Shape(s)
    && LocksAgree(s)
    && (forall i :: 0 <= i < |s.writers| ==> Remembers(s, i))
    && (forall x, r :: 0 <= x <= s.live.total && 0 <= r < s.live.blocks ==> Agrees(s, x, r))
  }

  /** Writers past both locks never share a row: a row has one parity disk, and it is locked. */
  lemma OneWriterPerRow(s: State, i: nat, j: nat)
    requires Invariant(s) && i < |s.writers| && j < |s.writers|
    requires HoldsSecond(s.writers[i]) && HoldsSecond(s.writers[j]) && s.writers[i].row == s.writers[j].row
    ensures i == j
  {
    var p := s.writers[i].p;
    assert s.locks[p] == i + 1 && s.locks[p] == j + 1;
  }

  lemma SetKeepsShape(s: State, i: nat, w: Writer)
    requires Shape(s) && i < |s.writers| && WriterOk(s.live, w)
    ensures Shape(Set(s, i, w))
  {}

  /** Steps that change neither the array nor anything a mid-write writer relies on. */
  lemma QuietStep(s: State, t: State, i: nat)
    requires Invariant(s) && Shape(t) && i < |s.writers| == |t.writers|
    requires t.live == s.live && t.atomic == s.atomic
    requires forall j :: 0 <= j < |s.writers| && j != i ==> t.writers[j] == s.writers[j]
    requires !MidWrite(s.writers[i]) && !MidWrite(t.writers[i])
    requires LocksAgree(t) && Remembers(t, i)
    ensures Invariant(t)
  {
    hide Init, Slot, ParityDisk;
    forall j | 0 <= j < |t.writers| ensures Remembers(t, j) {
      if j != i { assert Remembers(s, j); }
    }
    forall x, r | 0 <= x <= t.live.total && 0 <= r < t.live.blocks ensures Agrees(t, x, r) {
      assert Agrees(s, x, r);
      if PendingAt(s, x, r) {
        var j :| 0 <= j < |s.writers| && MidWrite(s.writers[j]) && s.writers[j].p == x && s.writers[j].row == r;
        assert t.writers[j] == s.writers[j];
      }
    }
  }

  lemma LockStep(s: State, i: nat)
    requires Invariant(s) && Can(s, Advance(i)) && (s.writers[i].pc.LockFirst? || s.writers[i].pc.LockSecond?)
    ensures Invariant(Do(s, Advance(i)))
  {
    hide Init, Slot, ParityDisk;
    var t := Do(s, Advance(i));
    SetKeepsShape(s, i, t.writers[i]);
    var w := s.writers[i];
    forall j, x | 0 <= j < |t.writers| && 1 <= x < |t.locks|
      ensures t.locks[x] == j + 1 <==> Holds(t.writers[j], x)
    {
      assert s.locks[x] == j + 1 <==> Holds(s.writers[j], x);
    }
    QuietStep(s, t, i);
  }

  lemma UnlockStep(s: State, i: nat)
    requires Invariant(s) && Can(s, Advance(i)) && (s.writers[i].pc.UnlockFirst? || s.writers[i].pc.UnlockSecond?)
    ensures Invariant(Do(s, Advance(i)))
  {
    hide Init, Slot, ParityDisk;
    var t := Do(s, Advance(i));
    SetKeepsShape(s, i, t.writers[i]);
    var w := s.writers[i];
    forall j, x | 0 <= j < |t.writers| && 1 <= x < |t.locks|
      ensures t.locks[x] == j + 1 <==> Holds(t.writers[j], x)
    {
      assert s.locks[x] == j + 1 <==> Holds(s.writers[j], x);
      assert s.locks[x] == i + 1 <==> Holds(s.writers[i], x);
    }
    QuietStep(s, t, i);
  }

  /** A writer past both locks sees the atomic array in its own row. */
  lemma HolderSeesAtomic(s: State, i: nat)
    requires Invariant(s) && i < |s.writers| && HoldsSecond(s.writers[i]) && !MidWrite(s.writers[i])
    ensures var w := s.writers[i];
            && 1 <= w.d <= s.live.total && 1 <= w.p <= s.live.total && 1 <= w.row < s.live.blocks
            && s.live.disks[w.p][w.row] == s.atomic.disks[w.p][w.row]
            && s.live.disks[w.d][w.row] == s.atomic.disks[w.d][w.row]
  {
    hide Init, Slot, ParityDisk;
    var w := s.writers[i];
    assert Agrees(s, w.p, w.row) && Agrees(s, w.d, w.row);
    if PendingAt(s, w.p, w.row) || PendingAt(s, w.d, w.row) {
      var j :| 0 <= j < |s.writers| && MidWrite(s.writers[j]) && s.writers[j].row == w.row;
      OneWriterPerRow(s, i, j);
    }
  }

  lemma ReadStep(s: State, i: nat)
    requires Invariant(s) && Can(s, Advance(i)) && (s.writers[i].pc.ReadOld? || s.writers[i].pc.ReadParity?)
    ensures Invariant(Do(s, Advance(i)))
  {
    hide Init, Slot, ParityDisk;
    HolderSeesAtomic(s, i);
    var t := Do(s, Advance(i));
    SetKeepsShape(s, i, t.writers[i]);
    assert Remembers(s, i);
    forall j, x | 0 <= j < |t.writers| && 1 <= x < |t.locks|
      ensures t.locks[x] == j + 1 <==> Holds(t.writers[j], x)
    {
      assert s.locks[x] == j + 1 <==> Holds(s.writers[j], x);
    }
    QuietStep(s, t, i);
  }

  /** Other writers neither hold nor remember anything in the row that writer i is writing. */
  lemma OthersElsewhere(s: State, i: nat, j: nat)
    requires Invariant(s) && i < |s.writers| && j < |s.writers| && i != j && HoldsSecond(s.writers[i])
    ensures HoldsSecond(s.writers[j]) ==> s.writers[j].row != s.writers[i].row
  {
    if HoldsSecond(s.writers[j]) && s.writers[j].row == s.writers[i].row { OneWriterPerRow(s, i, j); }
  }

  lemma StoreParityStep(s: State, i: nat)
    requires Invariant(s) && Can(s, Advance(i)) && s.writers[i].pc.StoreParity?
    ensures Invariant(Do(s, Advance(i)))
  {
    hide Init, Slot, ParityDisk, Xor;
    var w := s.writers[i];
    var t := Do(s, Advance(i));
    assert Remembers(s, i);
    StoreKeepsShape(s, t, i);
    forall j | 0 <= j < |t.writers| ensures Remembers(t, j) {
      if j != i {
        assert Remembers(s, j);
        OthersElsewhere(s, i, j);
      }
    }
    forall x, r | 0 <= x <= t.live.total && 0 <= r < t.live.blocks ensures Agrees(t, x, r) {
      assert Agrees(s, x, r);
      if x == w.p && r == w.row {
        assert MidWrite(t.writers[i]);
      } else if PendingAt(s, x, r) {
        var j :| 0 <= j < |s.writers| && MidWrite(s.writers[j]) && s.writers[j].p == x && s.writers[j].row == r;
        assert t.writers[j] == s.writers[j];
      }
    }
  }

  lemma StoreKeepsShape(s: State, t: State, i: nat)
    requires Shape(s) && i < |s.writers| == |t.writers|
    requires Valid(t.live) && t.live == s.live.(disks := t.live.disks)
    requires Valid(t.atomic) && t.atomic == s.atomic.(disks := t.atomic.disks) && t.locks == s.locks
    requires t.writers == s.writers[i := t.writers[i]] && t.writers[i] == s.writers[i].(pc := t.writers[i].pc)
    requires !s.writers[i].pc.Idle?
    requires HoldsFirst(s.writers[i]) == HoldsFirst(t.writers[i])
    requires HoldsSecond(s.writers[i]) == HoldsSecond(t.writers[i])
    ensures Shape(t)
    ensures LocksAgree(s) ==> LocksAgree(t)
  {
    hide Init, Slot, ParityDisk;
    if LocksAgree(s) {
      forall j, x | 0 <= j < |t.writers| && 1 <= x < |t.locks|
        ensures t.locks[x] == j + 1 <==> Holds(t.writers[j], x)
      {
        assert s.locks[x] == j + 1 <==> Holds(s.writers[j], x);
      }
    }
  }

  /** The atomic array takes exactly the pending parity block and the new data block. */
  lemma AtomicWrite(s: State, i: nat)
    requires Invariant(s) && i < |s.writers| && s.writers[i].pc.StoreData?
    ensures var w := s.writers[i];
            var a := Write(s.atomic, w.b, w.v).0;
            && a == s.atomic.(disks := a.disks)
            && (forall x, r :: 0 <= x <= s.live.total && 0 <= r < s.live.blocks ==>
                  a.disks[x][r] == if r == w.row && x == w.p then Xor(Xor(w.v, w.was), s.atomic.disks[x][r])
                                   else if r == w.row && x == w.d then w.v
                                   else s.atomic.disks[x][r])
  {
    hide Init, Slot, ParityDisk;
    assert Remembers(s, i);
    ParitySlotFacts(s.atomic, s.writers[i].b);
  }

  lemma StoreDataStep(s: State, i: nat)
    requires Invariant(s) && Can(s, Advance(i)) && s.writers[i].pc.StoreData?
    ensures Invariant(Do(s, Advance(i)))
  {
    hide Init, Slot, ParityDisk, Write;
    AtomicWrite(s, i);
    var w := s.writers[i];
    var t := Do(s, Advance(i));
    assert Remembers(s, i);
    StoreKeepsShape(s, t, i);
    forall j | 0 <= j < |t.writers| ensures Remembers(t, j) {
      if j != i {
        assert Remembers(s, j);
        OthersElsewhere(s, i, j);
      }
    }
    forall x, r | 0 <= x <= t.live.total && 0 <= r < t.live.blocks ensures Agrees(t, x, r) {
      StoreDataAgrees(s, t, i, x, r);
    }
  }

  lemma StoreDataAgrees(s: State, t: State, i: nat, x: nat, r: nat)
    requires Invariant(s) && Can(s, Advance(i)) && s.writers[i].pc.StoreData?
    requires t == Do(s, Advance(i)) && Shape(t) && x <= s.live.total && r < s.live.blocks
    ensures Agrees(t, x, r)
  {
    hide Init, Slot, ParityDisk, Write;
    AtomicWrite(s, i);
    assert Agrees(s, x, r) && Remembers(s, i);
    if PendingAt(s, x, r) {
      var j :| 0 <= j < |s.writers| && MidWrite(s.writers[j]) && s.writers[j].p == x && s.writers[j].row == r;
      if j != i { assert t.writers[j] == s.writers[j]; }
    }
  }

  lemma BeginStep(s: State, e: Event)
    requires Invariant(s) && e.Begin? && Can(s, e)
    ensures Invariant(Do(s, e))
  {
    hide Init, Slot, ParityDisk;
    ParitySlotFacts(s.live, e.b);
    var t := Do(s, e);
    SetKeepsShape(s, e.i, t.writers[e.i]);
    forall j, x | 0 <= j < |t.writers| && 1 <= x < |t.locks|
      ensures t.locks[x] == j + 1 <==> Holds(t.writers[j], x)
    {
      assert s.locks[x] == j + 1 <==> Holds(s.writers[j], x);
    }
    QuietStep(s, t, e.i);
  }

  lemma StepKeeps(s: State, e: Event)
    requires Invariant(s) && Can(s, e)
    ensures Invariant(Do(s, e))
  {
    hide Usable, LocksAgree, Remembers, Agrees, Do;
    match e
    case Begin(_, _, _) => BeginStep(s, e);
    case Advance(i) =>
      match s.writers[i].pc
      case LockFirst | LockSecond => LockStep(s, i);
      case ReadOld | ReadParity => ReadStep(s, i);
      case StoreParity => StoreParityStep(s, i);
      case StoreData => StoreDataStep(s, i);
      case UnlockFirst | UnlockSecond => UnlockStep(s, i);
  }

  // ---- Runs

  predicate Start(s: State) {
    && Shape(s) && s.atomic == s.live
    && (forall x :: 0 <= x < |s.locks| ==> s.locks[x] == 0)
    && (forall i :: 0 <= i < |s.writers| ==> s.writers[i].pc.Idle?)
  }

  /** `trace` is an execution: each state follows from the one before by some enabled event. */
  ghost predicate Execution(trace: seq<State>) {
    && |trace| > 0 && Start(trace[0])
    && (forall k :: 0 <= k < |trace| - 1 ==> Follows(trace[k], trace[k + 1]))
  }

  ghost predicate Follows(s: State, t: State) {
    Shape(s) && exists e :: Can(s, e) && t == Do(s, e)
  }

  lemma StartIsGood(s: State)
    requires Start(s)
    ensures Invariant(s)
  {
    hide Usable;
  }

  lemma {:induction false} ExecutionsKeepInvariant(trace: seq<State>, k: nat)
    requires Execution(trace) && k < |trace|
    ensures Invariant(trace[k])
  {
    hide Usable, LocksAgree, Remembers, Agrees, Do, Can;
    if k == 0 {
      StartIsGood(trace[0]);
    } else {
      ExecutionsKeepInvariant(trace, k - 1);
      assert Follows(trace[k - 1], trace[k]);
      var e :| Can(trace[k - 1], e) && trace[k] == Do(trace[k - 1], e);
      StepKeeps(trace[k - 1], e);
    }
  }

  function RowXor(a: Raid, r: nat): Block
    requires Valid(a) && r < a.blocks
  {
    XorAll(Column(a, r)[1..])
  }

  lemma StepConservesAtomicRow(s: State, e: Event, r: nat)
    requires Invariant(s) && Can(s, e) && r < s.atomic.blocks
    ensures var t := Do(s, e);
            Valid(t.atomic) && t.atomic.blocks == s.atomic.blocks && RowXor(t.atomic, r) == RowXor(s.atomic, r)
  {
    hide Init, Slot, ParityDisk, RowXor, LocksAgree, Remembers, Agrees;
    if e.Advance? && s.writers[e.i].pc.StoreData? {
      AtomicRowKept(s.atomic, s.writers[e.i], r);
    }
  }

  lemma AtomicRowKept(a: Raid, w: Writer, r: nat)
    requires Valid(a) && IsParity(a.g.level) && !w.pc.Idle? && WriterOk(a, w) && r < a.blocks
    ensures var t := Write(a, w.b, w.v).0;
            t == a.(disks := t.disks) && RowXor(t, r) == RowXor(a, r)
  {
    hide Init, Slot, ParityDisk, Column;
    WriteKeepsRowXor(a, w.d, w.p, w.row, w.v, r);
  }

  /** Finished writes conserve every row of the atomic array. */
  lemma {:induction false} AtomicRowsConserved(trace: seq<State>, k: nat, r: nat)
    requires Execution(trace) && k < |trace| && r < trace[0].live.blocks
    ensures Valid(trace[k].atomic) && trace[k].atomic.blocks == trace[0].live.blocks
    ensures RowXor(trace[k].atomic, r) == RowXor(trace[0].live, r)
  {
    hide Usable, LocksAgree, Remembers, Agrees, Do, Can, RowXor;
    if k > 0 {
      AtomicRowsConserved(trace, k - 1, r);
      ExecutionsKeepInvariant(trace, k - 1);
      assert Follows(trace[k - 1], trace[k]);
      var e :| Can(trace[k - 1], e) && trace[k] == Do(trace[k - 1], e);
      StepConservesAtomicRow(trace[k - 1], e, r);
    }
  }

  predicate QuietRow(s: State, r: nat) {
    forall i :: 0 <= i < |s.writers| && MidWrite(s.writers[i]) ==> s.writers[i].row != r
  }

  lemma QuietRowIsAtomic(s: State, r: nat)
    requires Invariant(s) && r < s.live.blocks && QuietRow(s, r)
    ensures Column(s.live, r) == Column(s.atomic, r)
  {
    hide Init, Slot, ParityDisk;
    forall x | 0 <= x <= s.live.total ensures s.live.disks[x][r] == s.atomic.disks[x][r] {
      assert Agrees(s, x, r);
    }
  }

  /** In every reachable state a row that no writer is in the middle of has its initial exclusive or. */
  lemma QuietRowsConserved(trace: seq<State>, k: nat, r: nat)
    requires Execution(trace) && k < |trace| && r < trace[0].live.blocks && QuietRow(trace[k], r)
    ensures Invariant(trace[k]) && trace[k].live.blocks == trace[0].live.blocks
    ensures RowXor(trace[k].live, r) == RowXor(trace[0].live, r)
  {
    ExecutionsKeepInvariant(trace, k);
    AtomicRowsConserved(trace, k, r);
    QuietRowIsAtomic(trace[k], r);
  }

  /** A row in the middle of a write is off by exactly old xor new. */
  lemma MidWriteRowIsOff(trace: seq<State>, k: nat, i: nat)
    requires Execution(trace) && k < |trace| && i < |trace[k].writers| && MidWrite(trace[k].writers[i])
    ensures Invariant(trace[k]) && trace[k].live.blocks == trace[0].live.blocks
    ensures var w := trace[k].writers[i];
            RowXor(trace[k].live, w.row) == Xor(Xor(w.was, w.v), RowXor(trace[0].live, w.row))
  {
    hide Init, Slot, ParityDisk;
    ExecutionsKeepInvariant(trace, k);
    var s := trace[k];
    AtomicRowsConserved(trace, k, 0);
    var w := s.writers[i];
    AtomicRowsConserved(trace, k, w.row);
    assert Remembers(s, i);
    var c := Column(s.atomic, w.row);
    var np := Xor(Xor(w.v, w.was), c[w.p]);
    var c': seq<Block> := c[w.p := np];
    forall x | 0 <= x <= s.live.total ensures Column(s.live, w.row)[x] == c'[x] {
      assert Agrees(s, x, w.row);
      if PendingAt(s, x, w.row) {
        var j :| 0 <= j < |s.writers| && MidWrite(s.writers[j]) && s.writers[j].p == x && s.writers[j].row == w.row;
        OneWriterPerRow(s, i, j);
      }
    }
    assert Column(s.live, w.row) == c';
    assert c'[1..] == c[1..][w.p - 1 := np];
    XorAllUpdate(c[1..], w.p - 1, np);
    XorCommutes(w.v, w.was);
    XorCommutes(Xor(w.was, w.v), c[w.p]);
    XorCancels(c[w.p], Xor(w.was, w.v));
  }

  /** Refinement: once no writer is in the middle of a write, the array is what the finished writes
      produce when done one after another. */
  lemma QuiescentIsAtomic(trace: seq<State>, k: nat)
    requires Execution(trace) && k < |trace|
    requires forall i :: 0 <= i < |trace[k].writers| ==> !MidWrite(trace[k].writers[i])
    ensures trace[k].live == trace[k].atomic
  {
    hide Init, Slot, ParityDisk;
    ExecutionsKeepInvariant(trace, k);
    var s := trace[k];
    forall x | 0 <= x <= s.live.total ensures s.live.disks[x] == s.atomic.disks[x] {
      forall r | 0 <= r < s.live.blocks ensures s.live.disks[x][r] == s.atomic.disks[x][r] {
        assert Agrees(s, x, r);
      }
    }
    assert s.live.disks == s.atomic.disks;
  }

  // ---- No deadlock

  predicate Blocked(s: State, i: nat)
    requires Shape(s) && i < |s.writers|
  {
    !s.writers[i].pc.Idle? && !Can(s, Advance(i))
  }

  /** Writer i waits for a lock that writer j holds. */
  predicate WaitsFor(s: State, i: nat, j: nat)
    requires Shape(s) && i < |s.writers| && j < |s.writers|
  {
    Blocked(s, i) && Holds(s.writers[j], Awaited(s.writers[i]))
  }

  /** Along the wait-for relation the awaited lock strictly rises, so the relation has no cycle. */
  lemma WaitsAscend(s: State, i: nat, j: nat)
    requires Invariant(s) && i < |s.writers| && j < |s.writers| && WaitsFor(s, i, j) && Blocked(s, j)
    ensures Awaited(s.writers[i]) < Awaited(s.writers[j])
  {
  }

  predicate OwnersExist(s: State) {
    forall x :: 0 <= x < |s.locks| ==> s.locks[x] <= |s.writers|
  }

  lemma {:induction false} SomeWriterCanGo(s: State, i: nat) returns (k: nat)
    requires Invariant(s) && OwnersExist(s) && i < |s.writers| && !s.writers[i].pc.Idle?
    ensures k < |s.writers| && !s.writers[k].pc.Idle? && Can(s, Advance(k))
    decreases s.live.total - Awaited(s.writers[i])
  {
    if Can(s, Advance(i)) {
      k := i;
    } else {
      var x := Awaited(s.writers[i]);
      var j := s.locks[x] - 1;
      assert Holds(s.writers[j], x);
      if Can(s, Advance(j)) {
        k := j;
      } else {
        WaitsAscend(s, i, j);
        k := SomeWriterCanGo(s, j);
      }
    }
  }

  lemma StepKeepsOwners(s: State, e: Event)
    requires Shape(s) && Can(s, e) && OwnersExist(s)
    ensures OwnersExist(Do(s, e))
  {
    hide Init, Slot, ParityDisk, Write;
  }

  lemma {:induction false} ExecutionsKeepOwners(trace: seq<State>, k: nat)
    requires Execution(trace) && k < |trace|
    ensures OwnersExist(trace[k])
  {
    hide Shape, Do, Can;
    if k > 0 {
      ExecutionsKeepOwners(trace, k - 1);
      assert Follows(trace[k - 1], trace[k]);
      var e :| Can(trace[k - 1], e) && trace[k] == Do(trace[k - 1], e);
      StepKeepsOwners(trace[k - 1], e);
    }
  }

  /** No deadlock: in every reachable state with a write in progress, some writer can take a step. */
  lemma NoDeadlock(trace: seq<State>, k: nat, i: nat)
    requires Execution(trace) && k < |trace| && i < |trace[k].writers| && !trace[k].writers[i].pc.Idle?
    ensures Shape(trace[k])
    ensures exists j :: 0 <= j < |trace[k].writers| && !trace[k].writers[j].pc.Idle? && Can(trace[k], Advance(j))
  {
    ExecutionsKeepInvariant(trace, k);
    ExecutionsKeepOwners(trace, k);
    var j := SomeWriterCanGo(trace[k], i);
  }
}
