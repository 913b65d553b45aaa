/** What a run over the log reads and writes, and which part of it a crash keeps. */
module LogHistory {
  import opened Blocks
  import opened BufferCache
  import opened LogDisk
  import LogCrash
  import LogHeader
  import Words

  /** An operation gave a block new contents, or was shown its contents. */
  datatype Access = Wrote(b: nat, v: Block) | Saw(b: nat, v: Block)

  /** The contents of block b after a run that found `first`. */
  function Latest(first: seq<Block>, history: seq<Access>, b: nat): Block
    requires b < |first|
    decreases |history|
  {
    if history == [] then first[b]
    else
      var n := |history| - 1;
      if history[n].Wrote? && history[n].b == b then history[n].v else Latest(first, history[..n], b)
  }

  ghost predicate Home(start: nat, size: nat, b: nat) {
    b < size && !LogCrash.InLog(start, b)
  }

  /** The blocks outside the log are those the run leaves. */
  ghost predicate Snapshot(first: seq<Block>, history: seq<Access>, blocks: seq<Block>, start: nat) {
    |blocks| == |first| && forall b: nat :: Home(start, |first|, b) ==> blocks[b] == Latest(first, history, b)
  }

  /** Whatever the run was shown of a block outside the log was its latest contents. */
  ghost predicate ReadsBack(first: seq<Block>, history: seq<Access>, start: nat) {
    forall k: nat :: k < |history| && history[k].Saw? && Home(start, |first|, history[k].b) ==>
      history[k].v == Latest(first, history[..k], history[k].b)
  }

  /** The block map is what the run has made of it, every read has returned the last update, and the
      disk is the run up to the last commit. */
  ghost predicate Faithful(first: seq<Block>, history: seq<Access>, durable: nat,
                           logical: seq<Block>, disk: seq<Block>, start: nat)
  {
    && Snapshot(first, history, logical, start) && ReadsBack(first, history, start)
    && durable <= |history| && Snapshot(first, history[..durable], disk, start)
  }

  ghost predicate OutsideLogSame(was: seq<Block>, now: seq<Block>, start: nat) {
    |was| == |now| && forall b: nat :: Home(start, |was|, b) ==> was[b] == now[b]
  }

  // ---- One more access

  lemma WroteKeeps(first: seq<Block>, history: seq<Access>, durable: nat, logical: seq<Block>, disk: seq<Block>,
                   start: nat, b: nat, v: Block)
    requires Faithful(first, history, durable, logical, disk, start) && b < |logical|
    ensures Faithful(first, history + [Wrote(b, v)], durable, logical[b := v], disk, start)
  {
    var now := history + [Wrote(b, v)];
    assert now[..|history|] == history;
    forall k: nat | k <= |history| ensures now[..k] == history[..k] { }
  }

  lemma SawKeeps(first: seq<Block>, history: seq<Access>, durable: nat, logical: seq<Block>, disk: seq<Block>,
                 start: nat, b: nat)
    requires Faithful(first, history, durable, logical, disk, start) && b < |logical|
    ensures Faithful(first, history + [Saw(b, logical[b])], durable, logical, disk, start)
  {
    var now := history + [Saw(b, logical[b])];
    assert now[..|history|] == history;
    forall k: nat | k <= |history| ensures now[..k] == history[..k] { }
  }

  /** A commit makes the whole run durable. */
  lemma CommitKeeps(first: seq<Block>, history: seq<Access>, durable: nat, logical: seq<Block>, disk: seq<Block>,
                    start: nat, now: seq<Block>)
    requires Faithful(first, history, durable, logical, disk, start) && OutsideLogSame(logical, now, start)
    ensures Faithful(first, history, |history|, now, now, start)
  {
    assert history[..|history|] == history;
  }

  // ---- Every read returns the last update

  /** Access j is the last before k to write block b. */
  ghost predicate LastWrite(history: seq<Access>, j: nat, k: nat, b: nat)
    requires k <= |history|
  {
    && j < k && history[j].Wrote? && history[j].b == b
    && forall i :: j < i < k && history[i].Wrote? ==> history[i].b != b
  }

  lemma LatestStep(first: seq<Block>, history: seq<Access>, k: nat, b: nat)
    requires b < |first| && k <= |history|
    ensures Latest(first, history[..k], b) ==
            if k == 0 then first[b]
            else if history[k - 1].Wrote? && history[k - 1].b == b then history[k - 1].v
            else Latest(first, history[..k - 1], b)
  {
    if k > 0 {
      assert history[..k][..k - 1] == history[..k - 1];
    }
  }

  lemma {:induction false} LatestIsLast(first: seq<Block>, history: seq<Access>, j: nat, k: nat, b: nat)
    requires b < |first| && k <= |history| && LastWrite(history, j, k, b)
    ensures Latest(first, history[..k], b) == history[j].v
    decreases k
  {
    hide Latest;
    LatestStep(first, history, k, b);
    if j < k - 1 {
      LatestIsLast(first, history, j, k - 1, b);
    }
  }

  lemma {:induction false} LatestIsFirst(first: seq<Block>, history: seq<Access>, k: nat, b: nat)
    requires b < |first| && k <= |history|
    requires forall j: nat :: j < k && history[j].Wrote? ==> history[j].b != b
    ensures Latest(first, history[..k], b) == first[b]
    decreases k
  {
    hide Latest;
    LatestStep(first, history, k, b);
    if k > 0 {
      LatestIsFirst(first, history, k - 1, b);
    }
  }

  /** What a read was shown: the block's last update before it, or what the run began with. */
  lemma ReadsReturnLastUpdate(first: seq<Block>, history: seq<Access>, start: nat, k: nat)
    requires ReadsBack(first, history, start) && k < |history|
    requires history[k].Saw? && Home(start, |first|, history[k].b)
    ensures forall j: nat :: j < k && LastWrite(history, j, k, history[k].b) ==> history[k].v == history[j].v
    ensures (forall j: nat :: j < k && history[j].Wrote? ==> history[j].b != history[k].b) ==>
              history[k].v == first[history[k].b]
  {
    hide Latest, LastWrite;
    var b := history[k].b;
    forall j: nat | j < k && LastWrite(history, j, k, b) ensures history[k].v == history[j].v {
      LatestIsLast(first, history, j, k, b);
    }
    if forall j: nat :: j < k && history[j].Wrote? ==> history[j].b != b {
      LatestIsFirst(first, history, k, b);
    }
  }

  // ---- What a crash keeps

  /** A block that the transaction does not list is the same in the block map as on disk. */
  ghost predicate UnlistedOnDisk(d: seq<Block>, logical: seq<Block>, lh: seq<nat>) {
    |d| == |logical| && forall b: nat :: b < |d| && b !in lh ==> d[b] == logical[b]
  }

  /** The transaction in memory: the listed blocks with their current contents. */
  function TxnOf(start: nat, lh: seq<nat>, logical: seq<Block>): LogCrash.Txn
    requires forall k :: 0 <= k < |lh| ==> lh[k] < |logical|
  {
    LogCrash.Txn(start, lh, seq(|lh|, k requires 0 <= k < |lh| => logical[lh[k]]))
  }

  lemma InstallGivesLogical(start: nat, d: seq<Block>, logical: seq<Block>, lh: seq<nat>, b: nat)
    requires UnlistedOnDisk(d, logical, lh) && b < |d| && forall k :: 0 <= k < |lh| ==> lh[k] < |logical|
    ensures LogCrash.Installed(d[b], TxnOf(start, lh, logical), b) == logical[b]
  {
    if b in lh { var i := LogCrash.Position(lh, b); }
  }

  /** Crash safety over whole runs: stop the machine after any block write of a commit, restart it any
      number of times, crashing again while it recovers, until a recovery finishes. The blocks outside the
      log are then those of the whole run if the commit's first header write reached the disk, and
      otherwise those of the run up to the commit before: never anything between. */
  lemma CrashKeepsPrefix(first: seq<Block>, history: seq<Access>, durable: nat, start: nat,
                         d: seq<Block>, logical: seq<Block>, lh: seq<nat>,
                         ws: seq<(nat, Block)>, k: nat, boots: seq<Boot>, r: seq<Block>)
    requires Faithful(first, history, durable, logical, d, start) && UnlistedOnDisk(d, logical, lh)
    requires forall i :: 0 <= i < |lh| ==> lh[i] < |logical|
    requires CommitBytes(start, d, TxnOf(start, lh, logical), ws) && k <= |ws| && InBytes(d, ws[..k])
    requires ByteReboots(start, ApplyBytes(d, ws[..k]), boots, r)
    ensures HeaderClear(start, r)
    ensures Snapshot(first, if k > |lh| then history else history[..durable], r, start)
  {
    var t := TxnOf(start, lh, logical);
    ByteCrashAtomicity(start, d, t, ws, k, boots, r);
    hide Latest, CommitBytes, ByteReboots, LogCrash.Installed, HeaderClear;
    forall b: nat | Home(start, |first|, b)
      ensures r[b] == Latest(first, if k > |lh| then history else history[..durable], b)
    {
      InstallGivesLogical(start, d, logical, lh, b);
    }
  }

  /** The same for a crash while no commit runs: nothing of the disk changes. */
  lemma IdleCrashKeepsPrefix(first: seq<Block>, history: seq<Access>, start: nat, d: seq<Block>,
                             boots: seq<Boot>, r: seq<Block>)
    requires Snapshot(first, history, d, start) && HeaderClear(start, d) && ByteReboots(start, d, boots, r)
    ensures HeaderClear(start, r) && Snapshot(first, history, r, start)
  {
    hide Latest, ByteReboots, LogHeader.HeadOf, Legible, Words.GetWord;
    ClearHead(start, d);
    var t := LogCrash.Txn(start, [], []);
    RebootsSettle(start, d, t, d, false, boots, r);
    assert forall b: nat :: Home(start, |first|, b) ==> r[b] == d[b];
  }
}
