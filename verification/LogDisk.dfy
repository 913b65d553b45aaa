/** The bytes that commit and recovery write, and what a crash between any two of them leaves: the crash
    model read off the real header block. */
module LogDisk {
  import opened Blocks
  import opened BufferCache
  import LogHeader
  import LogCrash
  import Admission = LogAdmission
  import Words

  const LOGSIZE: nat := LogHeader.LOGSIZE

  // ---- Disk writes, abstractly

  function AbsWrite(start: nat, w: (nat, Block)): LogCrash.Write {
    if w.0 == start then LogCrash.Head(LogHeader.HeadOf(w.1)) else LogCrash.Blk(w.0, w.1)
  }

  function AbsWrites(start: nat, ws: seq<(nat, Block)>): seq<LogCrash.Write> {
    seq(|ws|, i requires 0 <= i < |ws| => AbsWrite(start, ws[i]))
  }

  /** The disk with its header decoded; the header block's own bytes are left out. */
  function AbsDisk(start: nat, d: seq<Block>): LogCrash.Disk
    requires start < |d|
  {
    LogCrash.Disk(LogHeader.HeadOf(d[start]), d[start := Zero()])
  }

  lemma AbsConcat(start: nat, a: seq<(nat, Block)>, b: seq<(nat, Block)>)
    ensures AbsWrites(start, a + b) == AbsWrites(start, a) + AbsWrites(start, b)
  {
    hide LogHeader.HeadOf;
  }

  lemma AbsHead(start: nat, x: Block)
    ensures AbsWrites(start, [(start, x)]) == [LogCrash.Head(LogHeader.HeadOf(x))]
  {
    hide LogHeader.HeadOf;
  }

  /** Decoding the header commutes with writing: byte-level disks follow the crash model. */
  lemma {:induction false} AbsApply(start: nat, d: seq<Block>, ws: seq<(nat, Block)>)
    requires start < |d| && InBytes(d, ws)
    ensures LogCrash.InDisk(AbsDisk(start, d), AbsWrites(start, ws))
    ensures AbsDisk(start, ApplyBytes(d, ws)) == LogCrash.ApplyAll(AbsDisk(start, d), AbsWrites(start, ws))
    decreases |ws|
  {
    hide LogHeader.HeadOf;
    if ws != [] {
      var n := |ws| - 1;
      AbsApply(start, d, ws[..n]);
      assert AbsWrites(start, ws)[..n] == AbsWrites(start, ws[..n]);
      assert AbsDisk(start, ApplyBytes(d, ws)).blocks
          == LogCrash.ApplyAll(AbsDisk(start, d), AbsWrites(start, ws)).blocks;
    }
  }

  // ---- What commit writes

  /** The first k slots of the log. */
  function LogBytes(t: LogCrash.Txn, k: nat): seq<(nat, Block)>
    requires k <= |t.data|
  {
    seq(k, i requires 0 <= i < k => (t.start + 1 + i, t.data[i]))
  }

  /** The first k home blocks. */
  function InstallBytes(t: LogCrash.Txn, k: nat): seq<(nat, Block)>
    requires k <= |t.data| == |t.blocks|
  {
    seq(k, i requires 0 <= i < k => (t.blocks[i], t.data[i]))
  }

  lemma BytesStep(t: LogCrash.Txn, k: nat)
    requires k < |t.data| == |t.blocks|
    ensures LogBytes(t, 0) == [] && InstallBytes(t, 0) == []
    ensures LogBytes(t, k + 1) == LogBytes(t, k) + [(t.start + 1 + k, t.data[k])]
    ensures InstallBytes(t, k + 1) == InstallBytes(t, k) + [(t.blocks[k], t.data[k])]
  {}

  lemma InstallBytesAbs(t: LogCrash.Txn)
    requires |t.data| == |t.blocks| && forall k :: 0 <= k < |t.blocks| ==> t.blocks[k] != t.start
    ensures AbsWrites(t.start, InstallBytes(t, |t.blocks|)) == LogCrash.InstallWrites(t)
  {
    hide LogHeader.HeadOf;
  }

  /** The bytes commit writes are the writes of the crash model. */
  lemma CommitBytesAbs(t: LogCrash.Txn, x1: Block, x2: Block, size: nat)
    requires LogCrash.ValidTxn(size, t) && LogHeader.HeadOf(x1) == t.blocks && LogHeader.HeadOf(x2) == []
    ensures var n := |t.blocks|;
            AbsWrites(t.start, LogBytes(t, n) + [(t.start, x1)] + InstallBytes(t, n) + [(t.start, x2)])
              == LogCrash.CommitWrites(t)
  {
    hide LogHeader.HeadOf;
  }

  // ---- Headers that recovery can read

  /** The count is one that read_head can follow. */
  ghost predicate Legible(x: Block) {
    Words.GetWord(x, 0) <= LOGSIZE
  }

  ghost predicate LegibleHeads(start: nat, ws: seq<(nat, Block)>) {
    forall i :: 0 <= i < |ws| && ws[i].0 == start ==> Legible(ws[i].1)
  }

  /** What recovery needs of a disk: a legible header that lists distinct home blocks. */
  ghost predicate RecoverReady(start: nat, d: seq<Block>) {
    && start + LOGSIZE < |d| && Legible(d[start])
    && var head := LogHeader.HeadOf(d[start]);
       && |head| <= LOGSIZE && Admission.Distinct(head)
       && forall k :: 0 <= k < |head| ==> head[k] < |d| && !LogCrash.InLog(start, head[k])
  }

  /** What read_head finds on such a disk. */
  lemma ReadyHead(start: nat, d: seq<Block>)
    requires RecoverReady(start, d)
    ensures start < |d| && Words.GetWord(d[start], 0) <= LOGSIZE
    ensures var head := LogHeader.HeadOf(d[start]);
            && |head| <= LOGSIZE && Admission.Distinct(head)
            && forall k :: 0 <= k < |head| ==> head[k] < |d| && !LogCrash.InLog(start, head[k])
  {}

  lemma ReadyFits(start: nat, d: seq<Block>)
    requires RecoverReady(start, d)
    ensures start + LOGSIZE < |d|
  {}

  /** The log is empty: its count, word 0 of the header, is zero. */
  ghost predicate HeaderClear(start: nat, d: seq<Block>) {
    start + LOGSIZE < |d| && Words.GetWord(d[start], 0) == 0
  }

  lemma ClearHead(start: nat, d: seq<Block>)
    requires start + LOGSIZE < |d|
    ensures HeaderClear(start, d) <==> Legible(d[start]) && LogHeader.HeadOf(d[start]) == []
  {
    hide Words.GetWord;
    assert HeaderClear(start, d) ==> Words.GetWord(d[start], 0) == 0;
    assert |LogHeader.HeadOf(d[start])| == if Legible(d[start]) then Words.GetWord(d[start], 0) else 0;
  }

  lemma ClearIsReady(start: nat, d: seq<Block>)
    requires HeaderClear(start, d)
    ensures RecoverReady(start, d)
  {
    hide Legible, LogHeader.HeadOf;
    ClearHead(start, d);
  }

  lemma {:induction false} LegibleAfter(start: nat, d: seq<Block>, ws: seq<(nat, Block)>)
    requires start < |d| && Legible(d[start]) && InBytes(d, ws) && LegibleHeads(start, ws)
    ensures Legible(ApplyBytes(d, ws)[start])
    decreases |ws|
  {
    hide Legible;
    if ws != [] {
      assert LegibleHeads(start, ws[..|ws| - 1]);
      LegibleAfter(start, d, ws[..|ws| - 1]);
    }
  }

  lemma CommitLegible(t: LogCrash.Txn, x1: Block, x2: Block, size: nat)
    requires LogCrash.ValidTxn(size, t) && Legible(x1) && Legible(x2)
    ensures var n := |t.blocks|;
            && LegibleHeads(t.start, LogBytes(t, n) + [(t.start, x1)] + InstallBytes(t, n) + [(t.start, x2)])
            && LegibleHeads(t.start, InstallBytes(t, n) + [(t.start, x2)])
  {
    hide Legible;
  }

  // ---- Crashes, byte for byte

  /** ws are the writes of a commit of t on a disk whose log is empty. */
  ghost predicate CommitBytes(start: nat, d: seq<Block>, t: LogCrash.Txn, ws: seq<(nat, Block)>) {
    && HeaderClear(start, d) && InBytes(d, ws) && LegibleHeads(start, ws)
    && t.start == start && LogCrash.ValidTxn(|d|, t) && AbsWrites(start, ws) == LogCrash.CommitWrites(t)
  }

  /** All that a commit of t writes, given the two headers. */
  function WholeCommit(t: LogCrash.Txn, x1: Block, x2: Block): seq<(nat, Block)>
    requires |t.data| == |t.blocks|
  {
    LogBytes(t, |t.blocks|) + [(t.start, x1)] + InstallBytes(t, |t.blocks|) + [(t.start, x2)]
  }

  lemma WholeCommitIs(t: LogCrash.Txn, x1: Block, x2: Block, d: seq<Block>)
    requires LogCrash.ValidTxn(|d|, t) && HeaderClear(t.start, d)
    requires Words.GetWord(x1, 0) == |t.blocks| && LogHeader.HeadOf(x1) == t.blocks
    requires Words.GetWord(x2, 0) == 0 && LogHeader.HeadOf(x2) == []
    ensures CommitBytes(t.start, d, t, WholeCommit(t, x1, x2))
  {
    hide LogHeader.HeadOf, Words.GetWord, AbsWrites, LogCrash.CommitWrites, LegibleHeads;
    CommitBytesAbs(t, x1, x2, |d|);
    CommitLegible(t, x1, x2, |d|);
  }

  /** ws are the writes of a recovery of disk e. */
  ghost predicate RecoveryBytes(start: nat, e: seq<Block>, ws: seq<(nat, Block)>) {
    && RecoverReady(start, e) && InBytes(e, ws) && LegibleHeads(start, ws)
    && LogCrash.Readable(AbsDisk(start, e), start)
    && AbsWrites(start, ws) == LogCrash.RecoverWrites(AbsDisk(start, e), start)
  }

  /** A recovery took disk e to r; the writes it added to the record are its own. */
  ghost predicate Recovered(start: nat, e: seq<Block>, before: seq<(nat, Block)>, after: seq<(nat, Block)>,
                            r: seq<Block>)
  {
    && before <= after && RecoveryBytes(start, e, after[|before|..]) && r == ApplyBytes(e, after[|before|..])
  }

  /** The disk left by a crash after any `k` of the writes that a commit really makes is the one the
      crash model speaks of, so crash atomicity is about this code. */
  lemma CommitCrashes(start: nat, d: seq<Block>, t: LogCrash.Txn, ws: seq<(nat, Block)>, k: nat)
    requires CommitBytes(start, d, t, ws) && k <= |ws|
    ensures InBytes(d, ws[..k])
    ensures AbsDisk(start, ApplyBytes(d, ws[..k])) == LogCrash.CrashedCommit(AbsDisk(start, d), t, k)
  {
    hide LogHeader.HeadOf, LogCrash.CommitWrites, LogCrash.ApplyAll, ApplyBytes, AbsDisk, Legible;
    ClearHead(start, d);
    AbsApply(start, d, ws[..k]);
    assert AbsWrites(start, ws[..k]) == AbsWrites(start, ws)[..k];
    assert |ws| == |LogCrash.CommitWrites(t)|;
  }

  lemma RecoveryCrashes(start: nat, e: seq<Block>, ws: seq<(nat, Block)>, k: nat)
    requires RecoveryBytes(start, e, ws) && k <= |ws|
    ensures InBytes(e, ws[..k])
    ensures AbsDisk(start, ApplyBytes(e, ws[..k])) == LogCrash.CrashedRecovery(AbsDisk(start, e), start, k)
  {
    hide LogHeader.HeadOf, LogCrash.RecoverWrites, LogCrash.ApplyAll, ApplyBytes, AbsDisk, Legible;
    AbsApply(start, e, ws[..k]);
    assert AbsWrites(start, ws[..k]) == AbsWrites(start, ws)[..k];
    assert |ws| == |LogCrash.RecoverWrites(AbsDisk(start, e), start)|;
  }

  /** Disk e still holds all of transaction t, or nothing of it, for recovery to read off. */
  ghost predicate Decided(start: nat, d: seq<Block>, t: LogCrash.Txn, e: seq<Block>, committed: bool)
    requires start < |d| && t.start == start && LogCrash.ValidTxn(|d|, t)
  {
    && |e| == |d| && Legible(e[start])
    && LogCrash.Decided(AbsDisk(start, d), t, AbsDisk(start, e), committed)
  }

  /** Every disk on which the outcome is decided meets what recovery requires. */
  lemma DecidedIsReady(start: nat, d: seq<Block>, t: LogCrash.Txn, e: seq<Block>, committed: bool)
    requires start < |d| && t.start == start && LogCrash.ValidTxn(|d|, t) && Decided(start, d, t, e, committed)
    ensures RecoverReady(start, e)
  {
    hide Legible, LogHeader.HeadOf;
    assert AbsDisk(start, e).head == [] || AbsDisk(start, e).head == t.blocks;
  }

  /** After any number of the commit's writes the outcome is decided: committed exactly when the header
      write, the one after the log slots, is among them. */
  lemma CommitDecides(start: nat, d: seq<Block>, t: LogCrash.Txn, ws: seq<(nat, Block)>, k: nat)
    requires CommitBytes(start, d, t, ws) && k <= |ws|
    ensures InBytes(d, ws[..k]) && Decided(start, d, t, ApplyBytes(d, ws[..k]), k > |t.blocks|)
    ensures RecoverReady(start, ApplyBytes(d, ws[..k]))
  {
    hide Legible, HeaderClear, LogHeader.HeadOf, ApplyBytes;
    hide LogCrash.CommitWrites, LogCrash.CrashedCommit, LogCrash.Logged;
    hide LogCrash.AllNew, LogCrash.AllOld;
    ClearHead(start, d);
    CommitCrashes(start, d, t, ws, k);
    LogCrash.CommitPhases(AbsDisk(start, d), t, k);
    assert LegibleHeads(start, ws[..k]);
    LegibleAfter(start, d, ws[..k]);
    DecidedIsReady(start, d, t, ApplyBytes(d, ws[..k]), k > |t.blocks|);
  }

  /** After any number of a recovery's writes it is still decided, the same way. */
  lemma RecoveryKeepsDecided(start: nat, d: seq<Block>, t: LogCrash.Txn, e: seq<Block>, committed: bool,
                             ws: seq<(nat, Block)>, k: nat)
    requires start < |d| && t.start == start && LogCrash.ValidTxn(|d|, t) && Decided(start, d, t, e, committed)
    requires RecoveryBytes(start, e, ws) && k <= |ws|
    ensures InBytes(e, ws[..k]) && Decided(start, d, t, ApplyBytes(e, ws[..k]), committed)
    ensures RecoverReady(start, ApplyBytes(e, ws[..k]))
    ensures k == |ws| ==> Settled(start, d, t, ApplyBytes(e, ws), committed)
  {
    hide Legible, LogHeader.HeadOf, ApplyBytes, LogCrash.RecoverWrites, LogCrash.CrashedRecovery, LogCrash.Logged;
    RecoveryCrashes(start, e, ws, k);
    LogCrash.RecoveryStep(AbsDisk(start, d), t, AbsDisk(start, e), committed, k);
    assert LegibleHeads(start, ws[..k]);
    LegibleAfter(start, e, ws[..k]);
    DecidedIsReady(start, d, t, ApplyBytes(e, ws[..k]), committed);
    if k == |ws| {
      assert ws[..k] == ws;
      assert |ws| == |AbsWrites(start, ws)|;
      SettledFrom(start, d, t, ApplyBytes(e, ws), committed);
    }
  }

  /** The bytes of every home block: those of the transaction if it committed, else the old ones. And the
      log is empty. */
  ghost predicate Settled(start: nat, d: seq<Block>, t: LogCrash.Txn, r: seq<Block>, committed: bool)
    requires |t.blocks| == |t.data|
  {
    && |r| == |d| && HeaderClear(start, r)
    && forall b :: 0 <= b < |d| && !LogCrash.InLog(start, b) ==>
         r[b] == if committed then LogCrash.Installed(d[b], t, b) else d[b]
  }

  lemma SettledFrom(start: nat, d: seq<Block>, t: LogCrash.Txn, r: seq<Block>, committed: bool)
    requires start < |d| && t.start == start && LogCrash.ValidTxn(|d|, t) && |r| == |d| && Legible(r[start])
    requires if committed then LogCrash.AllNew(AbsDisk(start, d), t, AbsDisk(start, r))
             else LogCrash.AllOld(AbsDisk(start, d), t, AbsDisk(start, r))
    ensures Settled(start, d, t, r, committed)
  {
    hide Legible, LogHeader.HeadOf, LogCrash.Installed, HeaderClear;
    ClearHead(start, r);
    var x, y := AbsDisk(start, d), AbsDisk(start, r);
    forall b | 0 <= b < |d| && !LogCrash.InLog(start, b)
      ensures r[b] == if committed then LogCrash.Installed(d[b], t, b) else d[b]
    {
      assert x.blocks[b] == d[b] && y.blocks[b] == r[b];
    }
  }

  /** One boot: the writes its recovery makes, and how many of them reach the disk before a crash. */
  datatype Boot = Boot(ws: seq<(nat, Block)>, cut: nat)

  /** Boots that crash one after the other, and a last one that does not. */
  ghost predicate ByteReboots(start: nat, e: seq<Block>, boots: seq<Boot>, r: seq<Block>)
    decreases |boots|
  {
    && boots != [] && RecoveryBytes(start, e, boots[0].ws) && boots[0].cut <= |boots[0].ws|
    && if |boots| == 1 then r == ApplyBytes(e, boots[0].ws)
       else InBytes(e, boots[0].ws[..boots[0].cut])
            && ByteReboots(start, ApplyBytes(e, boots[0].ws[..boots[0].cut]), boots[1..], r)
  }

  lemma {:induction false} RebootsSettle(start: nat, d: seq<Block>, t: LogCrash.Txn, e: seq<Block>, committed: bool,
                                         boots: seq<Boot>, r: seq<Block>)
    requires start < |d| && t.start == start && LogCrash.ValidTxn(|d|, t) && Decided(start, d, t, e, committed)
    requires ByteReboots(start, e, boots, r)
    ensures Settled(start, d, t, r, committed)
    decreases |boots|
  {
    hide Decided, RecoveryBytes, RecoverReady, ApplyBytes, Settled;
    var boot := boots[0];
    if |boots| == 1 {
      RecoveryKeepsDecided(start, d, t, e, committed, boot.ws, |boot.ws|);
    } else {
      RecoveryKeepsDecided(start, d, t, e, committed, boot.ws, boot.cut);
      RebootsSettle(start, d, t, ApplyBytes(e, boot.ws[..boot.cut]), committed, boots[1..], r);
    }
  }

  /** Crash atomicity of the bytes on disk: a commit cut short after any block write, then any number of
      recoveries cut short and one that finishes, leave every home block new if the first header write
      reached the disk, and every one old otherwise. */
  lemma ByteCrashAtomicity(start: nat, d: seq<Block>, t: LogCrash.Txn, ws: seq<(nat, Block)>, k: nat,
                           boots: seq<Boot>, r: seq<Block>)
    requires CommitBytes(start, d, t, ws) && k <= |ws| && InBytes(d, ws[..k])
    requires ByteReboots(start, ApplyBytes(d, ws[..k]), boots, r)
    ensures Settled(start, d, t, r, k > |t.blocks|)
  {
    hide Decided, Settled, ByteReboots;
    CommitDecides(start, d, t, ws, k);
    RebootsSettle(start, d, t, ApplyBytes(d, ws[..k]), k > |t.blocks|, boots, r);
  }
}
