/** The redo log on disk: a crash after any block write of a commit, followed by any number of
    crashed recoveries and one that finishes, leaves the transaction done in full or not at all. */
module LogCrash {
  import opened Blocks
  import LogHeader

  const LOGSIZE: nat := LogHeader.LOGSIZE

  /** A disk with its log header decoded. */
  datatype Disk = Disk(head: seq<nat>, blocks: seq<Block>)

  /** One atomic block write: the header block, or any other block. */
  datatype Write = Head(list: seq<nat>) | Blk(b: nat, v: Block)

  // ---- Disk writes in order

  function ApplyOne(d: Disk, w: Write): (r: Disk)
    requires InDisk(d, [w])
    ensures |r.blocks| == |d.blocks|
  {
    match w
    case Head(list) => d.(head := list)
    case Blk(b, v) =>
      assert [w][0] == w;
      d.(blocks := d.blocks[b := v])
  }

  function ApplyAll(d: Disk, ws: seq<Write>): (r: Disk)
    requires InDisk(d, ws)
    ensures |r.blocks| == |d.blocks|
    decreases |ws|
  {
    if ws == [] then d else ApplyOne(ApplyAll(d, ws[..|ws| - 1]), ws[|ws| - 1])
  }

  predicate InDisk(d: Disk, ws: seq<Write>) {
    forall i :: 0 <= i < |ws| && ws[i].Blk? ==> ws[i].b < |d.blocks|
  }

  lemma {:induction false} ApplyConcat(d: Disk, a: seq<Write>, b: seq<Write>)
    requires InDisk(d, a) && InDisk(d, b)
    ensures InDisk(d, a + b) && ApplyAll(d, a + b) == ApplyAll(ApplyAll(d, a), b)
    decreases |b|
  {
    if b == [] {
      assert a + b == a;
    } else {
      assert (a + b)[..|a + b| - 1] == a + b[..|b| - 1];
      ApplyConcat(d, a, b[..|b| - 1]);
    }
  }

  lemma ApplySingle(d: Disk, w: Write)
    requires InDisk(d, [w])
    ensures ApplyAll(d, [w]) == ApplyOne(d, w)
  {
    assert [w][..0] == [];
  }

  /** Block writes leave the header alone; a block keeps its contents if no write goes to it, and
      otherwise holds the last one. */
  lemma {:induction false} ApplyBlocks(d: Disk, ws: seq<Write>, b: nat)
    requires InDisk(d, ws) && b < |d.blocks| && forall i :: 0 <= i < |ws| ==> ws[i].Blk?
    ensures ApplyAll(d, ws).head == d.head
    ensures (forall i :: 0 <= i < |ws| ==> ws[i].b != b) ==> ApplyAll(d, ws).blocks[b] == d.blocks[b]
    ensures forall i :: 0 <= i < |ws| && ws[i].b == b && (forall j :: i < j < |ws| ==> ws[j].b != b) ==>
              ApplyAll(d, ws).blocks[b] == ws[i].v
    decreases |ws|
  {
    if ws != [] { ApplyBlocks(d, ws[..|ws| - 1], b); }
  }

  // ---- What commit and recovery write

  /** A transaction: distinct home blocks and their new contents, for a log starting at `start`. */
  datatype Txn = Txn(start: nat, blocks: seq<nat>, data: seq<Block>)

  predicate InLog(start: nat, b: nat) {
    start <= b <= start + LOGSIZE
  }

  predicate ValidTxn(size: nat, t: Txn) {
    && t.start + LOGSIZE < size
    && |t.blocks| == |t.data| <= LOGSIZE
    && (forall i :: 0 <= i < |t.blocks| ==> t.blocks[i] < size && !InLog(t.start, t.blocks[i]))
    && (forall i, j :: 0 <= i < j < |t.blocks| ==> t.blocks[i] != t.blocks[j])
  }

  function LogWrites(t: Txn): seq<Write>
    requires |t.blocks| == |t.data|
  {
    seq(|t.blocks|, i requires 0 <= i < |t.blocks| => Blk(t.start + 1 + i, t.data[i]))
  }

  function InstallWrites(t: Txn): seq<Write>
    requires |t.blocks| == |t.data|
  {
    seq(|t.blocks|, i requires 0 <= i < |t.blocks| => Blk(t.blocks[i], t.data[i]))
  }

  /** write_log, write_head, install_trans, write_head */
  function CommitWrites(t: Txn): (ws: seq<Write>)
    requires |t.blocks| == |t.data|
    ensures |ws| == 2 * |t.blocks| + 2
  {
    LogWrites(t) + [Head(t.blocks)] + InstallWrites(t) + [Head([])]
  }

  predicate Readable(d: Disk, start: nat) {
    && start + LOGSIZE < |d.blocks| && |d.head| <= LOGSIZE
    && (forall i :: 0 <= i < |d.head| ==> d.head[i] < |d.blocks|)
  }

  /** The transaction that the log on disk describes. */
  function LoggedTxn(d: Disk, start: nat): (t: Txn)
    requires Readable(d, start)
    ensures |t.blocks| == |t.data| <= LOGSIZE
  {
    Txn(start, d.head, seq(|d.head|, i requires 0 <= i < |d.head| => d.blocks[start + 1 + i]))
  }

  /** recover_from_log: install what the header lists, then clear the header. */
  function RecoverWrites(d: Disk, start: nat): (ws: seq<Write>)
    requires Readable(d, start)
    ensures InDisk(d, ws) && |ws| == |d.head| + 1
  {
    InstallWrites(LoggedTxn(d, start)) + [Head([])]
  }

  // ---- The three kinds of disk a crash can leave

  /** What block `b` holds once the transaction is installed over contents `v`. */
  function Installed(v: Block, t: Txn, b: nat): Block
    requires |t.blocks| == |t.data|
  {
    if b in t.blocks then t.data[Position(t.blocks, b)] else v
  }

  function Position(list: seq<nat>, b: nat): (i: nat)
    requires b in list
    ensures i < |list| && list[i] == b
  {
    if list[0] == b then 0 else 1 + Position(list[1..], b)
  }

  /** Nothing of the transaction shows: all home blocks are old. */
  ghost predicate AllOld(d: Disk, t: Txn, e: Disk) {
    && |e.blocks| == |d.blocks| && e.head == []
    && forall b :: 0 <= b < |d.blocks| && !InLog(t.start, b) ==> e.blocks[b] == d.blocks[b]
  }

  /** The whole transaction shows: all home blocks are new. */
  ghost predicate AllNew(d: Disk, t: Txn, e: Disk)
    requires |t.blocks| == |t.data|
  {
    && |e.blocks| == |d.blocks| && e.head == []
    && HomesInstalled(d, t, e)
  }

  ghost predicate HomesInstalled(d: Disk, t: Txn, e: Disk)
    requires |t.blocks| == |t.data| && |e.blocks| == |d.blocks|
  {
    forall b :: 0 <= b < |d.blocks| && !InLog(t.start, b) ==> e.blocks[b] == Installed(d.blocks[b], t, b)
  }

  /** Committed: the log holds the transaction, and each home block is old or new. */
  ghost predicate Logged(d: Disk, t: Txn, e: Disk)
    requires ValidTxn(|d.blocks|, t)
  {
    && |e.blocks| == |d.blocks| && e.head == t.blocks
    && (forall i :: 0 <= i < |t.blocks| ==> e.blocks[t.start + 1 + i] == t.data[i])
    && (forall b :: 0 <= b < |d.blocks| && !InLog(t.start, b) ==>
          e.blocks[b] == d.blocks[b] || e.blocks[b] == Installed(d.blocks[b], t, b))
  }

  // ---- Each phase

  lemma LogPhase(d: Disk, t: Txn, k: nat)
    requires ValidTxn(|d.blocks|, t) && d.head == [] && k <= |t.blocks|
    ensures InDisk(d, LogWrites(t)[..k])
    ensures AllOld(d, t, ApplyAll(d, LogWrites(t)[..k]))
    ensures forall i :: 0 <= i < k ==> ApplyAll(d, LogWrites(t)[..k]).blocks[t.start + 1 + i] == t.data[i]
  {
    var ws := LogWrites(t)[..k];
    ApplyBlocks(d, ws, t.start);
    forall b | 0 <= b < |d.blocks| && !InLog(t.start, b) ensures ApplyAll(d, ws).blocks[b] == d.blocks[b] {
      ApplyBlocks(d, ws, b);
    }
    forall i | 0 <= i < k ensures ApplyAll(d, ws).blocks[t.start + 1 + i] == t.data[i] {
      ApplyBlocks(d, ws, t.start + 1 + i);
      assert ws[i].b == t.start + 1 + i;
    }
  }

  /** Any prefix of the install writes keeps the disk committed; all of them make it new. */
  lemma InstallPhase(d: Disk, t: Txn, e: Disk, k: nat)
    requires ValidTxn(|d.blocks|, t) && Logged(d, t, e) && k <= |t.blocks|
    ensures InDisk(e, InstallWrites(t)[..k])
    ensures Logged(d, t, ApplyAll(e, InstallWrites(t)[..k]))
    ensures k == |t.blocks| ==> HomesInstalled(d, t, ApplyAll(e, InstallWrites(t)[..k]))
  {
    var ws := InstallWrites(t)[..k];
    var r := ApplyAll(e, ws);
    ApplyBlocks(e, ws, t.start);
    forall i | 0 <= i < |t.blocks| ensures r.blocks[t.start + 1 + i] == t.data[i] {
      ApplyBlocks(e, ws, t.start + 1 + i);
    }
    forall b | 0 <= b < |d.blocks| && !InLog(t.start, b)
      ensures r.blocks[b] == d.blocks[b] || r.blocks[b] == Installed(d.blocks[b], t, b)
      ensures k == |t.blocks| ==> r.blocks[b] == Installed(d.blocks[b], t, b)
    {
      InstallOne(d, t, e, k, b);
    }
  }

  lemma InstallOne(d: Disk, t: Txn, e: Disk, k: nat, b: nat)
    requires ValidTxn(|d.blocks|, t) && Logged(d, t, e) && k <= |t.blocks| && b < |d.blocks| && !InLog(t.start, b)
    requires InDisk(e, InstallWrites(t)[..k])
    ensures var r := ApplyAll(e, InstallWrites(t)[..k]).blocks[b];
            && (r == e.blocks[b] || r == Installed(d.blocks[b], t, b))
            && (k == |t.blocks| ==> r == Installed(d.blocks[b], t, b))
  {
    var ws := InstallWrites(t)[..k];
    ApplyBlocks(e, ws, b);
    if b in t.blocks {
      var i := Position(t.blocks, b);
      if i < k { assert ws[i].b == b; }
    }
  }

  /** The disk after the first `k` block writes of a commit. */
  function CrashedCommit(d: Disk, t: Txn, k: nat): Disk
    requires ValidTxn(|d.blocks|, t)
  {
    ApplyAll(d, CommitWrites(t)[..Min(k, |CommitWrites(t)|)])
  }

  function Min(a: nat, b: nat): nat {
    if a < b then a else b
  }

  lemma HeadPhase(d: Disk, t: Txn)
    requires ValidTxn(|d.blocks|, t) && d.head == []
    ensures var ws := LogWrites(t) + [Head(t.blocks)];
            InDisk(d, ws) && Logged(d, t, ApplyAll(d, ws))
  {
    LogPhase(d, t, |t.blocks|);
    assert LogWrites(t)[..|t.blocks|] == LogWrites(t);
    var ws := LogWrites(t) + [Head(t.blocks)];
    assert ws[..|ws| - 1] == LogWrites(t);
  }

  lemma CommittedPhase(d: Disk, t: Txn, m: nat)
    requires ValidTxn(|d.blocks|, t) && d.head == [] && m <= |t.blocks|
    ensures var ws := LogWrites(t) + [Head(t.blocks)] + InstallWrites(t)[..m];
            && InDisk(d, ws) && Logged(d, t, ApplyAll(d, ws))
            && (m == |t.blocks| ==> HomesInstalled(d, t, ApplyAll(d, ws)))
  {
    var pre := LogWrites(t) + [Head(t.blocks)];
    HeadPhase(d, t);
    InstallPhase(d, t, ApplyAll(d, pre), m);
    hide LogWrites, InstallWrites, Logged, HomesInstalled, InDisk;
    ApplyConcat(d, pre, InstallWrites(t)[..m]);
  }

  lemma CommitPrefixes(t: Txn, k: nat)
    requires |t.blocks| == |t.data| && k <= 2 * |t.blocks| + 2
    ensures var ws, n := CommitWrites(t), |t.blocks|;
            if k <= n then ws[..k] == LogWrites(t)[..k]
            else if k < 2 * n + 2 then ws[..k] == LogWrites(t) + [Head(t.blocks)] + InstallWrites(t)[..k - n - 1]
            else ws[..k] == ws && ws[..|ws| - 1] == LogWrites(t) + [Head(t.blocks)] + InstallWrites(t)[..n]
  {
    assert InstallWrites(t)[..|t.blocks|] == InstallWrites(t);
  }

  /** Before the first header write lands the disk is all old; from then on it is committed, and
      after the last write all new. */
  lemma CommitPhases(d: Disk, t: Txn, k: nat)
    requires ValidTxn(|d.blocks|, t) && d.head == []
    ensures var e := CrashedCommit(d, t, k);
            && (k <= |t.blocks| ==> AllOld(d, t, e))
            && (|t.blocks| < k < 2 * |t.blocks| + 2 ==> Logged(d, t, e))
            && (k >= 2 * |t.blocks| + 2 ==> AllNew(d, t, e))
  {
    var n := |t.blocks|;
    CommitPrefixes(t, Min(k, 2 * n + 2));
    hide LogWrites, InstallWrites;
    if k <= n {
      LogPhase(d, t, k);
    } else {
      CommittedPhase(d, t, if k < 2 * n + 2 then k - n - 1 else n);
    }
  }

  // ---- Recovery

  /** The disk after the first `k` writes of one recovery. */
  function CrashedRecovery(e: Disk, start: nat, k: nat): Disk
    requires Readable(e, start)
  {
    ApplyAll(e, RecoverWrites(e, start)[..Min(k, |RecoverWrites(e, start)|)])
  }

  /** What can still happen: a committed transaction is in the log or installed, any other is absent. */
  ghost predicate Decided(d: Disk, t: Txn, e: Disk, committed: bool)
    requires ValidTxn(|d.blocks|, t)
  {
    if committed then Logged(d, t, e) || AllNew(d, t, e) else AllOld(d, t, e)
  }

  lemma RecoverEmpty(e: Disk, start: nat, k: nat)
    requires Readable(e, start) && e.head == []
    ensures CrashedRecovery(e, start, k) == e
  {
    var ws := RecoverWrites(e, start);
    assert ws == [Head([])];
    assert ws[..0] == [] && ws[..1] == ws;
    ApplySingle(e, Head([]));
  }

  lemma RecoverLogged(d: Disk, t: Txn, e: Disk, k: nat)
    requires ValidTxn(|d.blocks|, t) && Logged(d, t, e)
    ensures Readable(e, t.start)
    ensures var r := CrashedRecovery(e, t.start, k);
            if k <= |t.blocks| then Logged(d, t, r) else AllNew(d, t, r)
  {
    hide Logged, LoggedTxn, Readable, InstallWrites;
    LoggedTxnIs(d, t, e);
    var ws := RecoverWrites(e, t.start);
    var n := |t.blocks|;
    if k <= n {
      InstallPhase(d, t, e, k);
      assert ws[..k] == InstallWrites(t)[..k];
    } else {
      InstallPhase(d, t, e, n);
      assert InstallWrites(t)[..n] == InstallWrites(t) && ws[..|ws|] == ws && ws[..|ws| - 1] == InstallWrites(t);
    }
  }

  /** The log holds the transaction it is to install. */
  lemma LoggedTxnIs(d: Disk, t: Txn, e: Disk)
    requires ValidTxn(|d.blocks|, t) && Logged(d, t, e)
    ensures Readable(e, t.start) && LoggedTxn(e, t.start) == t && |InstallWrites(t)| == |t.blocks|
    ensures |e.blocks| == |d.blocks| && RecoverWrites(e, t.start) == InstallWrites(t) + [Head([])]
  {
    hide Installed;
    assert LoggedTxn(e, t.start).data == t.data;
  }

  /** A recovery, cut short anywhere, never changes the outcome. */
  lemma RecoveryStep(d: Disk, t: Txn, e: Disk, committed: bool, k: nat)
    requires ValidTxn(|d.blocks|, t) && Decided(d, t, e, committed)
    ensures Readable(e, t.start)
    ensures Decided(d, t, CrashedRecovery(e, t.start, k), committed)
    ensures k >= |RecoverWrites(e, t.start)| ==>
              if committed then AllNew(d, t, CrashedRecovery(e, t.start, k))
              else AllOld(d, t, CrashedRecovery(e, t.start, k))
  {
    if committed && Logged(d, t, e) {
      RecoverLogged(d, t, e, k);
    } else {
      RecoverEmpty(e, t.start, k);
    }
  }

  /** The disk after recoveries cut short at the given points, and a last one that finishes. */
  ghost predicate Reboots(e: Disk, start: nat, cuts: seq<nat>, r: Disk)
    decreases |cuts|
  {
    && Readable(e, start)
    && if cuts == [] then r == ApplyAll(e, RecoverWrites(e, start))
       else Reboots(CrashedRecovery(e, start, cuts[0]), start, cuts[1..], r)
  }

  lemma {:induction false} RebootsDecide(d: Disk, t: Txn, e: Disk, committed: bool, cuts: seq<nat>, r: Disk)
    requires ValidTxn(|d.blocks|, t) && Decided(d, t, e, committed) && Reboots(e, t.start, cuts, r)
    ensures if committed then AllNew(d, t, r) else AllOld(d, t, r)
    decreases |cuts|
  {
    if cuts == [] {
      var ws := RecoverWrites(e, t.start);
      RecoveryStep(d, t, e, committed, |ws|);
      assert ws[..|ws|] == ws;
    } else {
      RecoveryStep(d, t, e, committed, cuts[0]);
      RebootsDecide(d, t, CrashedRecovery(e, t.start, cuts[0]), committed, cuts[1..], r);
    }
  }

  /** Recovery never gets stuck: from any crash point, whatever the further crashes, it can run. */
  lemma {:induction false} RebootsExist(d: Disk, t: Txn, e: Disk, committed: bool, cuts: seq<nat>) returns (r: Disk)
    requires ValidTxn(|d.blocks|, t) && Decided(d, t, e, committed)
    ensures Reboots(e, t.start, cuts, r)
    decreases |cuts|
  {
    if cuts == [] {
      RecoveryStep(d, t, e, committed, 0);
      r := ApplyAll(e, RecoverWrites(e, t.start));
    } else {
      RecoveryStep(d, t, e, committed, cuts[0]);
      r := RebootsExist(d, t, CrashedRecovery(e, t.start, cuts[0]), committed, cuts[1..]);
    }
  }

  /** Crash atomicity: whatever the crash point of the commit and of the recoveries after it, the
      home blocks end up all new exactly when the first header write reached the disk, and all old
      otherwise; and the log ends up empty. */
  lemma CrashAtomicity(d: Disk, t: Txn, k: nat, cuts: seq<nat>, r: Disk)
    requires ValidTxn(|d.blocks|, t) && d.head == []
    requires Reboots(CrashedCommit(d, t, k), t.start, cuts, r)
    ensures if k > |t.blocks| then AllNew(d, t, r) else AllOld(d, t, r)
  {
    CommitPhases(d, t, k);
    RebootsDecide(d, t, CrashedCommit(d, t, k), k > |t.blocks|, cuts, r);
  }

  /** Such an outcome exists for every crash point and every choice of further crashes. */
  lemma RecoveryAlwaysFinishes(d: Disk, t: Txn, k: nat, cuts: seq<nat>)
    requires ValidTxn(|d.blocks|, t) && d.head == []
    ensures exists r :: Reboots(CrashedCommit(d, t, k), t.start, cuts, r)
  {
    CommitPhases(d, t, k);
    var r := RebootsExist(d, t, CrashedCommit(d, t, k), k > |t.blocks|, cuts);
  }

  // ---- A whole history of commits and crashes

  /** One life of the machine: a commit that gets through `k` writes, then reboots. */
  datatype Life = Life(t: Txn, k: nat, cuts: seq<nat>)

  ghost predicate LifeEndsAs(d: Disk, start: nat, l: Life, e: Disk) {
    && l.t.start == start && ValidTxn(|d.blocks|, l.t)
    && Reboots(CrashedCommit(d, l.t, l.k), start, l.cuts, e)
  }

  /** `states` runs through the disks between one life and the next. */
  ghost predicate History(start: nat, lives: seq<Life>, states: seq<Disk>) {
    && |states| == |lives| + 1
    && states[0].head == []
    && forall i :: 0 <= i < |lives| ==> LifeEndsAs(states[i], start, lives[i], states[i + 1])
  }

  /** What block `b` should hold after the first `n` lives: the last of their committed transactions
      that wrote it decides. */
  function Expected(v: Block, lives: seq<Life>, n: nat, b: nat): Block
    requires n <= |lives| && forall i :: 0 <= i < |lives| ==> |lives[i].t.blocks| == |lives[i].t.data|
  {
    if n == 0 then v
    else
      var l := lives[n - 1];
      var before := Expected(v, lives, n - 1, b);
      if l.k > |l.t.blocks| then Installed(before, l.t, b) else before
  }

  /** One life decides every home block. */
  lemma LifeOutcome(d: Disk, start: nat, l: Life, e: Disk, b: nat)
    requires LifeEndsAs(d, start, l, e) && d.head == [] && b < |d.blocks| && !InLog(start, b)
    ensures |l.t.blocks| == |l.t.data| && |e.blocks| == |d.blocks| && e.head == []
    ensures e.blocks[b] == if l.k > |l.t.blocks| then Installed(d.blocks[b], l.t, b) else d.blocks[b]
  {
    hide Installed, ApplyAll, Reboots, CommitWrites, CrashedCommit;
    CrashAtomicity(d, l.t, l.k, l.cuts, e);
  }

  lemma LivesMatch(start: nat, lives: seq<Life>, states: seq<Disk>)
    requires History(start, lives, states)
    ensures forall i :: 0 <= i < |lives| ==> |lives[i].t.blocks| == |lives[i].t.data|
  {
    hide Reboots, CrashedCommit;
    forall i | 0 <= i < |lives| ensures |lives[i].t.blocks| == |lives[i].t.data| {
      assert LifeEndsAs(states[i], start, lives[i], states[i + 1]);
    }
  }

  /** Over any number of commits, crashes and reboots every home block holds what the last committed
      transaction to write it wrote. */
  lemma {:induction false} HistoryTheorem(start: nat, lives: seq<Life>, states: seq<Disk>, n: nat, b: nat)
    requires History(start, lives, states) && n <= |lives| && b < |states[0].blocks| && !InLog(start, b)
    ensures forall i :: 0 <= i < |lives| ==> |lives[i].t.blocks| == |lives[i].t.data|
    ensures |states[n].blocks| == |states[0].blocks| && states[n].head == []
    ensures states[n].blocks[b] == Expected(states[0].blocks[b], lives, n, b)
  {
    hide Installed, LifeEndsAs, InLog;
    LivesMatch(start, lives, states);
    if n > 0 {
      HistoryTheorem(start, lives, states, n - 1, b);
      assert LifeEndsAs(states[n - 1], start, lives[n - 1], states[n - 1 + 1]);
      LifeOutcome(states[n - 1], start, lives[n - 1], states[n], b);
    }
  }
}
