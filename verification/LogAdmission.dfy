/** Group commit: begin_op's reservation arithmetic keeps every admitted operation inside the log,
    over all interleavings of operations. */
module LogAdmission {
  import LogHeader

  /** Most blocks one operation may log; kernel/param.h sets it to 10. */
  const MAXOPBLOCKS: nat
  const LOGSIZE: nat := LogHeader.LOGSIZE

  /** The blocks logged so far, for each operation in progress the distinct blocks it has logged,
      and whether a commit is under way. */
  datatype LogState = LogState(lh: seq<nat>, ops: seq<set<nat>>, committing: bool)

  datatype Event = Begin | LogWrite(i: nat, b: nat) | End(i: nat) | CommitDone

  /** begin_op goes through now rather than sleeping. */
  predicate Admits(s: LogState) {
    !s.committing && |s.lh| + (|s.ops| + 1) * MAXOPBLOCKS <= LOGSIZE
  }

  /** log_write does not panic, for a log area of `size` blocks. */
  predicate LogWriteSafe(s: LogState, size: nat) {
    |s.lh| < LOGSIZE && |s.lh| < size - 1 && |s.ops| >= 1
  }

  /** end_op does not panic. */
  predicate EndSafe(s: LogState) {
    |s.ops| >= 1 && !s.committing
  }

  /** An operation logs a block only while it has logged fewer than MAXOPBLOCKS. */
  predicate Can(s: LogState, e: Event) {
    match e
    case Begin => Admits(s)
    case LogWrite(i, _) => i < |s.ops| && |s.ops[i]| < MAXOPBLOCKS
    case End(i) => i < |s.ops|
    case CommitDone => s.committing
  }

  /** Log absorption: a block already listed is not listed again. */
  function Absorb(lh: seq<nat>, b: nat): seq<nat> {
    if b in lh then lh else lh + [b]
  }

  function Do(s: LogState, e: Event): LogState
    requires Can(s, e)
  {
    match e
    case Begin => s.(ops := s.ops + [{}])
    case LogWrite(i, b) => s.(lh := Absorb(s.lh, b), ops := s.ops[i := s.ops[i] + {b}])
    case End(i) => s.(ops := s.ops[..i] + s.ops[i + 1..], committing := |s.ops| == 1)
    case CommitDone => LogState([], s.ops, false)
  }

  /** What the operations in progress may still log between them. */
  function Unused(ops: seq<set<nat>>): int {
    if ops == [] then 0 else MAXOPBLOCKS - |ops[0]| + Unused(ops[1..])
  }

  predicate Distinct(lh: seq<nat>) {
    forall i, j :: 0 <= i < j < |lh| ==> lh[i] != lh[j]
  }

  predicate Invariant(s: LogState) {
    && (forall i :: 0 <= i < |s.ops| ==> |s.ops[i]| <= MAXOPBLOCKS)
    && |s.lh| + Unused(s.ops) <= LOGSIZE
    && Distinct(s.lh)
    && (forall i, b :: 0 <= i < |s.ops| && b in s.ops[i] ==> b in s.lh)
    && (s.committing ==> s.ops == [])
  }

  lemma {:induction false} UnusedConcat(a: seq<set<nat>>, b: seq<set<nat>>)
    ensures Unused(a + b) == Unused(a) + Unused(b)
  {
    if a == [] {
      assert a + b == b;
    } else {
      assert (a + b)[1..] == a[1..] + b;
      UnusedConcat(a[1..], b);
    }
  }

  lemma UnusedSplit(ops: seq<set<nat>>, i: nat)
    requires i < |ops|
    ensures Unused(ops) == Unused(ops[..i] + ops[i + 1..]) + MAXOPBLOCKS - |ops[i]|
  {
    assert ops == ops[..i] + ([ops[i]] + ops[i + 1..]);
    UnusedConcat(ops[..i], [ops[i]] + ops[i + 1..]);
    UnusedConcat([ops[i]], ops[i + 1..]);
    UnusedConcat(ops[..i], ops[i + 1..]);
    assert Unused([ops[i]]) == MAXOPBLOCKS - |ops[i]|;
  }

  lemma UnusedUpdate(ops: seq<set<nat>>, i: nat, op: set<nat>)
    requires i < |ops|
    ensures Unused(ops[i := op]) == Unused(ops) + |ops[i]| - |op|
  {
    var ops' := ops[i := op];
    assert ops'[..i] + ops'[i + 1..] == ops[..i] + ops[i + 1..];
    UnusedSplit(ops, i);
    UnusedSplit(ops', i);
  }

  lemma {:induction false} UnusedBounds(ops: seq<set<nat>>)
    requires forall i :: 0 <= i < |ops| ==> |ops[i]| <= MAXOPBLOCKS
    ensures 0 <= Unused(ops) <= |ops| * MAXOPBLOCKS
  {
    if ops != [] { UnusedBounds(ops[1..]); }
  }

  lemma BeginKeeps(s: LogState)
    requires Invariant(s) && Admits(s)
    ensures Invariant(Do(s, Begin))
  {
    UnusedBounds(s.ops);
    UnusedConcat(s.ops, [{}]);
    assert Unused([{}]) == MAXOPBLOCKS;
    hide Unused;
  }

  lemma LogWriteKeeps(s: LogState, i: nat, b: nat)
    requires Invariant(s) && Can(s, LogWrite(i, b))
    ensures Invariant(Do(s, LogWrite(i, b)))
  {
    hide Unused;
    UnusedUpdate(s.ops, i, s.ops[i] + {b});
    assert b in s.ops[i] ==> s.ops[i] + {b} == s.ops[i];
  }

  lemma EndKeeps(s: LogState, i: nat)
    requires Invariant(s) && Can(s, End(i))
    ensures Invariant(Do(s, End(i)))
  {
    hide Unused;
    UnusedSplit(s.ops, i);
  }

  lemma StepKeeps(s: LogState, e: Event)
    requires Invariant(s) && Can(s, e)
    ensures Invariant(Do(s, e))
  {
    match e
    case Begin => BeginKeeps(s);
    case LogWrite(i, b) => LogWriteKeeps(s, i, b);
    case End(i) => EndKeeps(s, i);
    case CommitDone =>
  }

  /** None of the log's panics can be reached from a state that satisfies the invariant, when the log
      area has room for a header and LOGSIZE blocks. */
  lemma NoPanics(s: LogState, e: Event, size: nat)
    requires Invariant(s) && Can(s, e) && size >= LOGSIZE + 1
    ensures e.LogWrite? ==> LogWriteSafe(s, size)
    ensures e.End? ==> EndSafe(s)
  {
    if e.LogWrite? {
      UnusedSplit(s.ops, e.i);
      UnusedBounds(s.ops[..e.i] + s.ops[e.i + 1..]);
    }
  }

  ghost predicate Execution(trace: seq<LogState>) {
    && |trace| > 0 && trace[0] == LogState([], [], false)
    && forall k :: 0 <= k < |trace| - 1 ==> Follows(trace[k], trace[k + 1])
  }

  ghost predicate Follows(s: LogState, t: LogState) {
    exists e :: Can(s, e) && t == Do(s, e)
  }

  /** Over every interleaving: the log never overfills, whatever the operations in progress still
      use; its entries stay distinct; and a commit runs only when no operation does. */
  lemma {:induction false} AdmissionTheorem(trace: seq<LogState>, k: nat)
    requires Execution(trace) && k < |trace|
    ensures Invariant(trace[k]) && |trace[k].lh| <= LOGSIZE
  {
    if k > 0 {
      AdmissionTheorem(trace, k - 1);
      assert Follows(trace[k - 1], trace[k]);
      var e :| Can(trace[k - 1], e) && trace[k] == Do(trace[k - 1], e);
      StepKeeps(trace[k - 1], e);
    }
    UnusedBounds(trace[k].ops);
  }

  // ---- The bound is tight

  ghost predicate Reachable(s: LogState) {
    exists trace :: Execution(trace) && trace[|trace| - 1] == s
  }

  lemma ReachStep(s: LogState, e: Event)
    requires Reachable(s) && Can(s, e)
    ensures Invariant(s) && Reachable(Do(s, e))
  {
    hide Invariant, Can, Do;
    var trace :| Execution(trace) && trace[|trace| - 1] == s;
    AdmissionTheorem(trace, |trace| - 1);
    var longer := trace + [Do(s, e)];
    forall k | 0 <= k < |longer| - 1 ensures Follows(longer[k], longer[k + 1]) {
      if k < |trace| - 1 { assert Follows(trace[k], trace[k + 1]); }
    }
    assert longer[|longer| - 1] == Do(s, e);
  }

  /** As many operations begin as the log has shares. */
  lemma {:induction false} BeginShares(shares: nat) returns (s: LogState)
    requires shares * MAXOPBLOCKS <= LOGSIZE
    ensures Reachable(s) && s.lh == [] && !s.committing && |s.ops| == shares
    ensures forall i :: 0 <= i < shares ==> s.ops[i] == {}
  {
    if shares == 0 {
      s := LogState([], [], false);
      assert Execution([s]);
    } else {
      assert (shares - 1) * MAXOPBLOCKS + MAXOPBLOCKS == shares * MAXOPBLOCKS;
      s := BeginShares(shares - 1);
      ReachStep(s, Begin);
      s := Do(s, Begin);
    }
  }

  /** Operations 0..i log MAXOPBLOCKS blocks of the list each, and operation i another m. */
  lemma {:induction false} LogShares(shares: nat, blocks: seq<nat>, i: nat, m: nat) returns (s: LogState)
    requires Distinct(blocks) && |blocks| == shares * MAXOPBLOCKS <= LOGSIZE && i < shares && m <= MAXOPBLOCKS
    ensures 0 <= i * MAXOPBLOCKS + m <= |blocks|
    ensures Reachable(s) && s.lh == blocks[..i * MAXOPBLOCKS + m] && !s.committing && |s.ops| == shares
    ensures forall k :: 0 <= k < shares ==> |s.ops[k]| == if k < i then MAXOPBLOCKS else if k == i then m else 0
    decreases i, m
  {
    hide Reachable;
    ShareFits(shares, i);
    if m > 0 {
      var was := LogShares(shares, blocks, i, m - 1);
      var b := blocks[i * MAXOPBLOCKS + m - 1];
      ReachStep(was, LogWrite(i, b));
      assert b !in was.lh && b !in was.ops[i];
      s := Do(was, LogWrite(i, b));
    } else if i > 0 {
      s := LogShares(shares, blocks, i - 1, MAXOPBLOCKS);
    } else {
      s := BeginShares(shares);
    }
  }

  lemma ShareFits(shares: nat, i: nat)
    requires i < shares
    ensures 0 <= i * MAXOPBLOCKS && i * MAXOPBLOCKS + MAXOPBLOCKS <= shares * MAXOPBLOCKS
    ensures i > 0 ==> (i - 1) * MAXOPBLOCKS + MAXOPBLOCKS == i * MAXOPBLOCKS
  {
    assert (i + 1) * MAXOPBLOCKS <= shares * MAXOPBLOCKS;
  }

  lemma {:induction false} EndToOne(s: LogState) returns (t: LogState)
    requires Reachable(s) && |s.ops| >= 1 && !s.committing
    ensures Reachable(t) && t.lh == s.lh && |t.ops| == 1 && !t.committing
    decreases |s.ops|
  {
    t := s;
    if |s.ops| > 1 {
      ReachStep(s, End(0));
      t := EndToOne(Do(s, End(0)));
    }
  }

  /** A full log is reached with one operation still in progress, whenever LOGSIZE is a whole number of
      shares: kernel/param.h makes it three of ten. */
  lemma FullLogReachable(shares: nat, blocks: seq<nat>) returns (s: LogState)
    requires shares >= 1 && shares * MAXOPBLOCKS == LOGSIZE == |blocks| && Distinct(blocks)
    ensures Reachable(s) && s.lh == blocks && |s.lh| == LOGSIZE && |s.ops| == 1 && !s.committing
  {
    ShareFits(shares, shares - 1);
    var full := LogShares(shares, blocks, shares - 1, MAXOPBLOCKS);
    assert (shares - 1) * MAXOPBLOCKS + MAXOPBLOCKS == |blocks|;
    s := EndToOne(full);
  }
}
