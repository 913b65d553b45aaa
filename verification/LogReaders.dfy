/** A commit with readers about: processes outside any operation read blocks between the block copies of a
    commit, holding locks and waiting for them as they please. */
module LogReaders {
  import opened Blocks
  import opened BufferCache
  import opened LogDisk
  import opened LogHistory
  import opened LogCache
  import opened RedoLog
  import opened LogTurns
  import opened LogSeats
  import LogCrash
  import LogHeader
  import Admission = LogAdmission
  import Words

  /** The transaction, and what the commit found. */
  datatype Found = Found(t: LogCrash.Txn, disk: seq<Block>, logical: seq<Block>, writes: seq<(nat, Block)>)

  /** What the commit has written by then, given its two headers. */
  function Written(t: LogCrash.Txn, phase: Phase, x1: Block, x2: Block): seq<(nat, Block)>
    requires |t.data| == |t.blocks| && (!phase.Done? ==> phase.k <= |t.blocks|)
  {
    match phase
    case Copying(k) => LogBytes(t, k)
    case Homing(k) => LogBytes(t, |t.blocks|) + [(t.start, x1)] + InstallBytes(t, k)
    case Done => WholeCommit(t, x1, x2)
  }

  lemma WrittenSoFar(t: LogCrash.Txn, phase: Phase, x1: Block, x2: Block)
    requires |t.data| == |t.blocks| && (!phase.Done? ==> phase.k <= |t.blocks|)
    ensures Written(t, phase, x1, x2) <= WholeCommit(t, x1, x2)
    ensures |Written(t, phase, x1, x2)| > |t.blocks| <==> !phase.Copying?
  {}

  ghost predicate Headers(t: LogCrash.Txn, x1: Block, x2: Block) {
    && Words.GetWord(x1, 0) == |t.blocks| && LogHeader.HeadOf(x1) == t.blocks
    && Words.GetWord(x2, 0) == 0 && LogHeader.HeadOf(x2) == []
  }

  lemma AnyHeaders(t: LogCrash.Txn) returns (x1: Block, x2: Block)
    requires |t.blocks| <= LOGSIZE && LogHeader.InWords(t.blocks)
    ensures Headers(t, x1, x2)
  {
    x1, x2 := LogHeader.EncodeHead(Zero(), t.blocks), LogHeader.EncodeHead(Zero(), []);
    LogHeader.HeadRoundTrip(Zero(), t.blocks);
    LogHeader.HeadRoundTrip(Zero(), []);
  }

  /** The commit of `f` has come to `phase`. Whatever readers do keeps this. */
  ghost predicate Going(log: Log, phase: Phase, f: Found, x1: Block, x2: Block)
    reads log, log.cache
  {
    && f.t.start == log.start && |f.t.data| == |f.t.blocks| && (!phase.Done? ==> phase.k <= |f.t.blocks|)
    && log.Layout() && log.Shared(Pins(f.t, phase)) && |log.cache.disk| == |log.cache.logical|
    && OutsideLogSame(f.logical, log.cache.logical, log.start)
    && log.cache.writes == f.writes + Written(f.t, phase, x1, x2)
    && match phase
       case Copying(k) => Describes(log.cache.logical, log.start, log.lh, f.t)
                          && Slotted(log.cache.logical, log.start, f.t.data, k)
       case Homing(k) => Describes(log.cache.logical, log.start, log.lh, f.t)
                         && Slotted(log.cache.logical, log.start, f.t.data, |f.t.data|)
       case Done => log.lh == [] && log.cache.disk == log.cache.logical && HeaderClear(log.start, log.cache.disk)
  }

  // ---- One step of the commit

  method CopyNext(log: Log, k: nat, ghost f: Found, ghost x1: Block, ghost x2: Block)
    requires Going(log, Copying(k), f, x1, x2) && k < |log.lh| && k < |f.t.blocks|
    requires HasFree(log.cache.bufs) && Unlocked(log.cache.bufs, log.lh[k])
    modifies log.cache
    ensures Going(log, Copying(k + 1), f, x1, x2) && log.cache.waiting == old(log.cache.waiting)
    ensures KeepsUsers(old(log.cache.bufs), log.cache.bufs, log.cache.waiting)
    ensures StaysPut(old(log.cache.bufs), log.cache.bufs)
  {
    hide BCache.Valid, BCache.Coherent, SharedBy, LogBytes, SetOf, HasFree, Unlocked, OutsideLogSame, KeepsUsers;
    hide Slotted;
    assert log.Logging(f.t, k, f.logical, f.writes);
    var ok := log.LogNext(k, f.t, f.logical, f.writes);
  }

  method WriteHeader(log: Log, ghost f: Found, ghost x1: Block, ghost x2: Block) returns (ghost x: Block)
    requires Going(log, Copying(|f.t.blocks|), f, x1, x2) && HasFree(log.cache.bufs) && Headers(f.t, x1, x2)
    modifies log.cache
    ensures Going(log, Homing(0), f, x, x2) && Headers(f.t, x, x2) && log.cache.waiting == old(log.cache.waiting)
    ensures KeepsUsers(old(log.cache.bufs), log.cache.bufs, log.cache.waiting)
    ensures StaysPut(old(log.cache.bufs), log.cache.bufs)
  {
    hide BCache.Valid, BCache.Coherent, SharedBy, LogBytes, HasFree, KeepsUsers, LogHeader.HeadOf, Words.GetWord;
    assert log.start !in SetOf(log.lh) by { assert forall k :: 0 <= k < |log.lh| ==> log.Home(log.lh[k]); }
    x := log.WriteHead(SetOf(log.lh));
    assert f.t.blocks[0..] == f.t.blocks && InstallBytes(f.t, 0) == [];
    assert forall k :: 0 <= k < |log.lh| ==> log.Home(log.lh[k]);
  }

  method InstallOne(log: Log, k: nat, ghost f: Found, ghost x1: Block, ghost x2: Block)
    requires Going(log, Homing(k), f, x1, x2) && k < |log.lh| && k < |f.t.blocks|
    requires HasFree(log.cache.bufs) && Unlocked(log.cache.bufs, log.lh[k])
    modifies log.cache
    ensures Going(log, Homing(k + 1), f, x1, x2) && log.cache.waiting == old(log.cache.waiting)
    ensures KeepsUsers(old(log.cache.bufs), log.cache.bufs, log.cache.waiting)
    ensures StaysPut(old(log.cache.bufs), log.cache.bufs)
  {
    hide BCache.Valid, BCache.Coherent, SharedBy, LogBytes, InstallBytes, SetOf, HasFree, Unlocked, OutsideLogSame;
    hide KeepsUsers, Slotted;
    ghost var before := f.writes + LogBytes(f.t, |f.t.blocks|) + [(f.t.start, x1)];
    assert log.cache.writes == before + InstallBytes(f.t, k);
    log.InstallNext(k, f.t, log.cache.logical, before);
  }

  method ClearHeader(log: Log, ghost f: Found, ghost x1: Block, ghost x2: Block) returns (ghost x: Block)
    requires Going(log, Homing(|f.t.blocks|), f, x1, x2) && HasFree(log.cache.bufs) && Headers(f.t, x1, x2)
    modifies log.cache, log`lh
    ensures Going(log, Done, f, x1, x) && Headers(f.t, x1, x) && log.cache.waiting == old(log.cache.waiting)
    ensures KeepsUsers(old(log.cache.bufs), log.cache.bufs, log.cache.waiting)
  {
    hide BCache.Valid, BCache.Coherent, SharedBy, LogBytes, InstallBytes, HasFree, KeepsUsers;
    hide LogHeader.HeadOf, Words.GetWord;
    assert SetOf(f.t.blocks[|f.t.blocks|..]) == {};
    x := log.RetireHead();
  }

  /** The committing process goes on: it waits for a block that a reader has locked. That no buffer is free
      is the "no buffers" panic. */
  method GoOn(log: Log, phase: Phase, ghost f: Found, ghost x1: Block, ghost x2: Block)
    returns (next: Phase, panicked: bool, ghost y1: Block, ghost y2: Block)
    requires Going(log, phase, f, x1, x2) && Headers(f.t, x1, x2)
    modifies log.cache, log`lh
    ensures Going(log, next, f, y1, y2) && Headers(f.t, y1, y2)
    ensures panicked <==> !phase.Done? && !HasFree(old(log.cache.bufs))
    ensures next == phase ==> log.cache.bufs == old(log.cache.bufs)
    ensures panicked ==> next == phase
    ensures StepsOf(next, |f.t.blocks|) == StepsOf(phase, |f.t.blocks|) +
            if phase.Done? || panicked || AtLockedBlock(phase, f.t, old(log.cache.bufs)) then 0 else 1
    ensures log.cache.waiting == old(log.cache.waiting)
    ensures KeepsUsers(old(log.cache.bufs), log.cache.bufs, log.cache.waiting)
    ensures !next.Done? ==> StaysPut(old(log.cache.bufs), log.cache.bufs)
  {
    hide BCache.Valid, BCache.Coherent, SharedBy, Written, SetOf, HasFree, Unlocked, OutsideLogSame, Slotted, Headers;
    hide HeaderClear, Pins, KeepsUsers, StaysPut;
    KeepsSelf(log.cache.bufs, log.cache.waiting, log.cache.disk, log.start, Pins(f.t, phase));
    SelfStays(log.cache.bufs);
    next, panicked, y1, y2 := phase, !phase.Done? && !HasFree(log.cache.bufs), x1, x2;
    if panicked || phase.Done? {
      return;
    }
    match phase {
      case Copying(k) =>
        if k == |log.lh| {
          y1 := WriteHeader(log, f, x1, x2);
          next := Homing(0);
        } else if Unlocked(log.cache.bufs, log.lh[k]) {
          CopyNext(log, k, f, x1, x2);
          next := Copying(k + 1);
        }
      case Homing(k) =>
        if k == |log.lh| {
          y2 := ClearHeader(log, f, x1, x2);
          next := Done;
        } else if Unlocked(log.cache.bufs, log.lh[k]) {
          InstallOne(log, k, f, x1, x2);
          next := Homing(k + 1);
        }
    }
  }

  // ---- Any schedule

  /** All that was added to the record is what readers were shown of `blocks`. */
  ghost predicate Shown(was: seq<Access>, now: seq<Access>, blocks: seq<Block>, start: nat) {
    && was <= now
    && forall j :: |was| <= j < |now| ==>
         now[j].Saw? && LogHistory.Home(start, |blocks|, now[j].b) && now[j].v == blocks[now[j].b]
  }

  /** What a run knows of its accesses, while the commit of `f` is under way. */
  ghost predicate Recorded(log: Log, f: Found)
    reads log
  {
    Faithful(log.first, log.history, log.durable, f.logical, f.disk, log.start)
  }

  /** A block outside the log is as the commit found it. */
  lemma HomeSame(log: Log, phase: Phase, f: Found, x1: Block, x2: Block, b: nat)
    requires Going(log, phase, f, x1, x2) && log.Home(b)
    ensures |log.cache.logical| == |log.cache.disk| == |f.logical| && log.cache.logical[b] == f.logical[b]
  {
    hide BCache.Valid, BCache.Coherent, SharedBy, Written, Pins, Slotted, Describes, HeaderClear;
  }

  /** The commit has come to `phase`, the record is right, and the listed blocks sit where they sat, with the
      locks that the actions so far give. */
  ghost predicate Attended(log: Log, phase: Phase, f: Found, x1: Block, x2: Block, seats: seq<Seat>,
                           actions: seq<Action>)
    reads log, log.cache
  {
    && Going(log, phase, f, x1, x2) && Recorded(log, f) && SeatsOf(f.t, seats)
    && Seated(log.cache.bufs, log.cache.waiting, phase, seats, actions)
  }

  /** Processes that hold or await buffers. */
  ghost function UsersOf(c: BCache): nat
    reads c
  {
    if |c.bufs| == |c.waiting| then UserCount(c.bufs, c.waiting, |c.bufs|) else 0
  }

  lemma Reachable(log: Log, phase: Phase, f: Found, x1: Block, x2: Block, seats: seq<Seat>, actions: seq<Action>)
    requires Attended(log, phase, f, x1, x2, seats, actions)
    ensures (!phase.Done? ==> phase.k <= |f.t.blocks|) && Referenced(log.cache.bufs, phase, seats)
    ensures forall k :: AtHome(phase, |seats|) <= k < |seats| ==> log.Home(seats[k].b)
  {
    hide BCache.Valid, BCache.Coherent, SharedBy, Written, Slotted, HeaderClear, Seated, Faithful, OutsideLogSame;
    SeatsReferenced(log.cache.bufs, log.cache.waiting, log.cache.disk, log.start, f.t, phase, seats, actions);
  }

  /** A process outside any operation reads. A read that finds no buffer is a panic. */
  method ReaderReads(log: Log, phase: Phase, b: nat, ghost f: Found, ghost x1: Block, ghost x2: Block,
                     ghost seats: seq<Seat>, ghost actions: seq<Action>)
    returns (panicked: bool)
    requires Attended(log, phase, f, x1, x2, seats, actions)
    modifies log`history, log.cache`bufs, log.cache`waiting
    ensures Going(log, phase, f, x1, x2) && Recorded(log, f)
    ensures !panicked ==> Attended(log, phase, f, x1, x2, seats, actions + [Reads(b)])
    ensures Shown(old(log.history), log.history, f.logical, log.start)
    ensures panicked ==> !HasFree(log.cache.bufs)
    ensures UsersOf(log.cache) <= old(UsersOf(log.cache)) + 1
  {
    hide CoherentWith, DiskIs, Linked, NoAlias, OrderAfter, SharedBy, Written, Pins, Slotted, Describes, HeaderClear;
    hide Faithful, HasFree, OutsideLogSame, Seated, SeatsOf, Referenced, UserCount;
    ghost var pins := Pins(f.t, phase);
    Reachable(log, phase, f, x1, x2, seats, actions);
    panicked := false;
    if b < |log.cache.disk| && !LogCrash.InLog(log.start, b) {
      HomeSame(log, phase, f, x1, x2, b);
      SawKeeps(log.first, log.history, log.durable, f.logical, f.disk, log.start, b);
      DevsOf(log.cache);
      var ok, i, waits := log.Look(b, pins);
      panicked := !ok;
      if ok {
        SeatedReads(old(log.cache.bufs), old(log.cache.waiting), log.cache.bufs, log.cache.waiting, log.cache.rootDev,
                    b, log.cache.logical[b], i, waits, phase, seats, actions);
        OneMoreUser(old(log.cache.bufs), old(log.cache.waiting), log.cache.bufs, log.cache.waiting, log.cache.rootDev,
                    b, log.cache.logical[b], i, waits);
      }
    } else {
      SeatedIdle(log.cache.bufs, log.cache.waiting, phase, seats, actions, Reads(b));
    }
  }

  lemma DevsOf(c: BCache)
    requires c.Coherent()
    ensures forall j :: 0 <= j < |c.bufs| && c.bufs[j].valid ==> c.bufs[j].dev == c.rootDev
  {}

  lemma OneMoreUser(was: seq<Buf>, queues: seq<nat>, now: seq<Buf>, queuesNow: seq<nat>, dev: nat, b: nat, v: Block,
                    i: nat, waits: bool)
    requires ReadOutcome(was, queues, now, queuesNow, dev, b, v, true, i, waits) && |was| == |queues|
    ensures |now| == |queuesNow| == |was|
    ensures UserCount(now, queuesNow, |now|) == UserCount(was, queues, |was|) + 1
  {
    hide UserCount;
    var w := if waits then queues[i] + 1 else queues[i];
    UserCountUpdate(was, queues, i, now[i], w, |was|);
    assert now == was[i := now[i]] && queuesNow == queues[i := w];
  }

  /** One that waited wakes up with the lock, if the lock is free. */
  method ReaderWakes(log: Log, phase: Phase, i: nat, ghost f: Found, ghost x1: Block, ghost x2: Block,
                     ghost seats: seq<Seat>, ghost actions: seq<Action>)
    requires Attended(log, phase, f, x1, x2, seats, actions)
    modifies log`history, log.cache`bufs, log.cache`waiting
    ensures Attended(log, phase, f, x1, x2, seats, actions + [Wakes(i)])
    ensures Shown(old(log.history), log.history, f.logical, log.start)
    ensures UsersOf(log.cache) == old(UsersOf(log.cache))
  {
    hide BCache.Coherent, Linked, NoAlias, OrderAfter, SharedBy, Written, Pins, Slotted, Describes, HeaderClear;
    hide Faithful, OutsideLogSame, Seated, SeatsOf, UserCount;
    ghost var pins := Pins(f.t, phase);
    if i < log.cache.nbuf && log.cache.waiting[i] > 0 && !log.cache.bufs[i].locked {
      ghost var b := log.cache.bufs[i].blockno;
      SeatedWakes(log.cache.bufs, log.cache.waiting, phase, seats, actions, i);
      UserCountUpdate(log.cache.bufs, log.cache.waiting, i, log.cache.bufs[i].(locked := true),
                      log.cache.waiting[i] - 1, log.cache.nbuf);
      log.LookResumed(i, pins);
      HomeSame(log, phase, f, x1, x2, b);
      SawKeeps(log.first, old(log.history), log.durable, f.logical, f.disk, log.start, b);
    } else {
      SeatedIdle(log.cache.bufs, log.cache.waiting, phase, seats, actions, Wakes(i));
    }
  }

  /** One that has a buffer lets go of it. */
  method ReaderLetsGo(log: Log, phase: Phase, i: nat, ghost f: Found, ghost x1: Block, ghost x2: Block,
                      ghost seats: seq<Seat>, ghost actions: seq<Action>)
    requires Attended(log, phase, f, x1, x2, seats, actions)
    modifies log.cache`bufs, log.cache`next, log.cache`prev, log.cache`order, log.cache`released
    ensures Attended(log, phase, f, x1, x2, seats, actions + [LetsGo(i)])
    ensures UsersOf(log.cache) <= old(UsersOf(log.cache))
  {
    hide BCache.Coherent, Linked, NoAlias, OrderAfter, SharedBy, Written, Pins, Slotted, Describes, HeaderClear;
    hide Faithful, OutsideLogSame, Seated, SeatsOf, UserCount;
    ghost var pins := Pins(f.t, phase);
    if i < log.cache.nbuf && log.cache.bufs[i].locked {
      SeatedLetsGo(log.cache.bufs, log.cache.waiting, phase, seats, actions, i);
      UserCountUpdate(log.cache.bufs, log.cache.waiting, i, Released(log.cache.bufs[i]), log.cache.waiting[i],
                      log.cache.nbuf);
      assert log.cache.waiting[i := log.cache.waiting[i]] == log.cache.waiting;
      log.LookDone(i, pins);
    } else {
      SeatedIdle(log.cache.bufs, log.cache.waiting, phase, seats, actions, LetsGo(i));
    }
  }

  /** The committing process has its turn: a step further exactly if the schedule leaves its block free. */
  method CommitTurn(log: Log, phase: Phase, ghost f: Found, ghost x1: Block, ghost x2: Block,
                    ghost seats: seq<Seat>, ghost actions: seq<Action>)
    returns (next: Phase, panicked: bool, ghost y1: Block, ghost y2: Block)
    requires Attended(log, phase, f, x1, x2, seats, actions) && Headers(f.t, x1, x2)
    requires StepsOf(phase, |seats|) == Steps(seats, actions)
    modifies log.cache, log`lh
    ensures Going(log, next, f, y1, y2) && Headers(f.t, y1, y2) && Recorded(log, f)
    ensures !panicked ==>
              && Attended(log, next, f, y1, y2, seats, actions + [GoesOn])
              && StepsOf(next, |seats|) == Steps(seats, actions + [GoesOn])
    ensures panicked ==> !HasFree(log.cache.bufs)
    ensures UsersOf(log.cache) == old(UsersOf(log.cache))
  {
    hide CoherentWith, DiskIs, Linked, NoAlias, OrderAfter, SharedBy, Written, Pins, Slotted, Describes, HeaderClear;
    hide Faithful, HasFree, OutsideLogSame, Seated, Referenced, UserCount, KeepsUsers, StaysPut, Headers, AtLockedBlock;
    hide Unhindered;
    Reachable(log, phase, f, x1, x2, seats, actions);
    HinderedIff(log.cache.bufs, log.cache.waiting, log.cache.disk, log.cache.logical, log.cache.rootDev, f.t, phase,
                seats, actions);
    assert (actions + [GoesOn])[..|actions|] == actions;
    next, panicked, y1, y2 := GoOn(log, phase, f, x1, x2);
    UserCountKept(old(log.cache.bufs), log.cache.bufs, log.cache.waiting, log.cache.nbuf);
    SeatedGoesOn(old(log.cache.bufs), log.cache.bufs, log.cache.waiting, phase, next, seats, actions);
  }

  /** Everything on the schedule happens in turn, up to a panic. */
  method Run(log: Log, schedule: seq<Action>, ghost f: Found, ghost x1: Block, ghost x2: Block, ghost seats: seq<Seat>)
    returns (phase: Phase, panicked: bool, ghost y1: Block, ghost y2: Block)
    requires Attended(log, Copying(0), f, x1, x2, seats, []) && Headers(f.t, x1, x2)
    modifies log.cache, log`lh, log`history
    ensures Going(log, phase, f, y1, y2) && Headers(f.t, y1, y2) && Recorded(log, f)
    ensures Shown(old(log.history), log.history, f.logical, log.start)
    ensures panicked ==> !HasFree(log.cache.bufs)
    ensures !panicked ==> StepsOf(phase, |seats|) == Steps(seats, schedule)
    ensures UsersOf(log.cache) <= old(UsersOf(log.cache)) + ReadsIn(schedule)
  {
    hide Going, Headers, Recorded, HasFree, Attended, Steps, ReadsIn, UsersOf;
    phase, panicked, y1, y2 := Copying(0), false, x1, x2;
    var n := 0;
    AtFirst(log, f, x1, x2, seats);
    while n < |schedule| && !panicked
      invariant 0 <= n <= |schedule| && Going(log, phase, f, y1, y2) && Headers(f.t, y1, y2) && Recorded(log, f)
      invariant Shown(old(log.history), log.history, f.logical, log.start)
      invariant panicked ==> !HasFree(log.cache.bufs)
      invariant !panicked ==>
                  && Attended(log, phase, f, y1, y2, seats, schedule[..n])
                  && StepsOf(phase, |seats|) == Steps(seats, schedule[..n])
      invariant UsersOf(log.cache) <= old(UsersOf(log.cache)) + ReadsIn(schedule[..n])
    {
      assert schedule[..n + 1] == schedule[..n] + [schedule[n]];
      NextAction(seats, schedule[..n], schedule[n]);
      match schedule[n] {
        case Reads(b) => panicked := ReaderReads(log, phase, b, f, y1, y2, seats, schedule[..n]);
        case Wakes(i) => ReaderWakes(log, phase, i, f, y1, y2, seats, schedule[..n]);
        case LetsGo(i) => ReaderLetsGo(log, phase, i, f, y1, y2, seats, schedule[..n]);
        case GoesOn => phase, panicked, y1, y2 := CommitTurn(log, phase, f, y1, y2, seats, schedule[..n]);
      }
      n := n + 1;
      if !panicked {
        StillGoing(log, phase, f, y1, y2, seats, schedule[..n]);
      }
    }
    ReadsInPrefix(schedule, n);
    assert !panicked ==> schedule[..n] == schedule;
  }

  lemma AtFirst(log: Log, f: Found, x1: Block, x2: Block, seats: seq<Seat>)
    requires Attended(log, Copying(0), f, x1, x2, seats, [])
    ensures Going(log, Copying(0), f, x1, x2) && Recorded(log, f) && Steps(seats, []) == 0 && ReadsIn([]) == 0
  {
    hide Going, Recorded;
  }

  lemma StillGoing(log: Log, phase: Phase, f: Found, x1: Block, x2: Block, seats: seq<Seat>, actions: seq<Action>)
    requires Attended(log, phase, f, x1, x2, seats, actions)
    ensures Going(log, phase, f, x1, x2) && Recorded(log, f)
  {
    hide Going, Recorded;
  }

  lemma NextAction(seats: seq<Seat>, actions: seq<Action>, a: Action)
    ensures ReadsIn(actions + [a]) == ReadsIn(actions) + if a.Reads? then 1 else 0
    ensures !a.GoesOn? ==> Steps(seats, actions + [a]) == Steps(seats, actions)
  {
    assert (actions + [a])[..|actions|] == actions;
  }

  // ---- The whole of it

  /** What the commit finds when it starts: the listed blocks are all that differs from disk, and the log on
      disk is empty. */
  ghost predicate Ready(f: Found, start: nat, image: seq<Block>) {
    && f.t.start == start && LogCrash.ValidTxn(|f.disk|, f.t) && HeaderClear(start, f.disk)
    && UnlistedOnDisk(f.disk, f.logical, f.t.blocks) && DiskIs(image, f.writes, f.disk)
    && (forall k :: 0 <= k < |f.t.blocks| ==> f.t.blocks[k] < |f.logical|)
    && f.t == TxnOf(start, f.t.blocks, f.logical)
  }

  lemma Begins(log: Log, f: Found, x1: Block, x2: Block)
    requires log.Running() && log.Shared(SetOf(log.lh)) && log.lh != [] && |log.cache.disk| == |log.cache.logical|
    requires forall k :: 0 <= k < |log.lh| ==> log.lh[k] < |log.cache.logical|
    requires f == Found(TxnOf(log.start, log.lh, log.cache.logical), log.cache.disk, log.cache.logical,
                        log.cache.writes)
    ensures Going(log, Copying(0), f, x1, x2) && Recorded(log, f) && Ready(f, log.start, log.cache.image)
    ensures f.t.blocks == log.lh && |f.t.blocks| <= LOGSIZE && LogHeader.InWords(f.t.blocks)
  {
    hide BCache.Valid, CoherentWith, DiskIs, SharedBy, Faithful, HeaderClear, Counted, ChangedIsListed, SetOf;
    hide Admission.Invariant, UnlistedOnDisk;
    UnlistedIsOnDisk(log.cache.bufs, log.cache.waiting, log.cache.disk, log.cache.logical, log.start,
                     log.cache.rootDev, log.lh);
    assert LogBytes(f.t, 0) == [];
    assert forall k :: 0 <= k < |log.lh| ==> log.Home(log.lh[k]);
  }

  /** The machine stops now, and is restarted any number of times. What it then finds is the run with all
      the operations of this commit if the header has been written, and otherwise with none of them. */
  lemma CrashAmongReaders(log: Log, phase: Phase, f: Found, x1: Block, x2: Block, boots: seq<Boot>, r: seq<Block>)
    requires Going(log, phase, f, x1, x2) && Headers(f.t, x1, x2) && Recorded(log, f)
    requires Ready(f, log.start, log.cache.image) && ByteReboots(log.start, log.cache.disk, boots, r)
    ensures HeaderClear(log.start, r) && log.durable <= |log.history|
    ensures Snapshot(log.first, if phase.Copying? then log.history[..log.durable] else log.history, r, log.start)
  {
    hide BCache.Valid, CoherentWith, DiskIs, SharedBy, HeaderClear, CommitBytes, Snapshot, ReadsBack, UnlistedOnDisk;
    hide ByteReboots, TxnOf, Written, WholeCommit, LogHeader.HeadOf, Words.GetWord, InBytes, ApplyBytes, Describes;
    hide OutsideLogSame, Slotted, Pins, LogCrash.ValidTxn;
    TxnFits(f.t, |f.disk|);
    var ws, all := Written(f.t, phase, x1, x2), WholeCommit(f.t, x1, x2);
    WrittenSoFar(f.t, phase, x1, x2);
    WholeCommitIs(f.t, x1, x2, f.disk);
    DiskFollows(log.cache.image, f.writes, f.disk, ws, log.cache.disk);
    assert all[..|ws|] == ws;
    CrashKeepsPrefix(log.first, log.history, log.durable, log.start, f.disk, f.logical, f.t.blocks, all, |ws|,
                     boots, r);
  }

  /** No more pins than listed blocks, so with fewer users than buffers left over one is free. */
  lemma RoomFor(log: Log, phase: Phase, f: Found, x1: Block, x2: Block)
    requires Going(log, phase, f, x1, x2)
    ensures UsersOf(log.cache) + |f.t.blocks| < log.cache.nbuf ==> HasFree(log.cache.bufs)
  {
    hide SharedBy, Written, Slotted, Describes, HeaderClear, OutsideLogSame, UserCount, HasFree, CoherentWith, Linked;
    hide OrderAfter, NoAlias, DiskIs;
    FewPins(f.t, phase);
    RoomLeft(log.cache.bufs, log.cache.waiting, log.cache.disk, log.cache.logical, log.start, Pins(f.t, phase),
             log.cache.rootDev);
  }

  lemma DurableFits(log: Log, f: Found)
    requires Recorded(log, f)
    ensures log.durable <= |log.history|
  {}

  lemma TxnFits(t: LogCrash.Txn, size: nat)
    requires LogCrash.ValidTxn(size, t)
    ensures |t.data| == |t.blocks|
  {}

  /** The commit is done: the log is empty and the run goes on. */
  method Finish(log: Log, ghost f: Found, ghost x1: Block, ghost x2: Block)
    requires Going(log, Done, f, x1, x2) && Recorded(log, f) && log.outstanding == 0 && log.ops == []
    modifies log`committing, log`durable
    ensures log.Running() && log.View() == Admission.LogState([], [], false) && log.durable == |log.history|
  {
    hide BCache.Valid, BCache.Coherent, SharedBy, Written, Faithful, HeaderClear, Counted, ChangedIsListed, SetOf;
    hide OutsideLogSame;
    SharedIsInUse(log.cache.bufs, log.cache.waiting, log.cache.disk, log.start);
    CommitKeeps(log.first, log.history, log.durable, f.logical, f.disk, log.start, log.cache.logical);
    log.committing := false;
    log.durable := |log.history|;
  }

  /** A commit finds a seating. */
  lemma SeatingExists(log: Log) returns (seats: seq<Seat>)
    requires log.Shared(SetOf(log.lh))
    ensures Seating(log.cache.bufs, log.cache.waiting, log.lh, seats)
  {
    forall k | 0 <= k < |log.lh| ensures Held(log.cache.bufs, log.lh[k]) {
      assert log.lh[k] in SetOf(log.lh);
    }
    seats := SeatsExist(log.cache.bufs, log.cache.waiting, log.lh);
  }

  /** end_op of the last operation among readers, for every schedule of theirs: readers are shown the block
      map as it was when the commit began, whichever block copy they come between; the block map outside the
      log does not change; a crash at the end of the schedule, in the middle of the commit or after it, loses
      all of the commit's operations or none; and a commit that has finished has put the block map on disk.
      How far it comes follows from the schedule alone. It finishes once it has had as many turns with no
      listed block locked as it has steps, and nobody panics while readers leave a buffer over. */
  method EndOpAmongReaders(log: Log, op: nat, schedule: seq<Action>, ghost seats: seq<Seat>,
                           ghost boots: seq<Boot>, ghost r: seq<Block>)
    returns (phase: Phase, panicked: bool)
    requires log.Running() && op < |log.ops| == 1 && log.lh != [] && log.Shared(SetOf(log.lh))
    requires Seating(log.cache.bufs, log.cache.waiting, log.lh, seats)
    modifies log`outstanding, log`ops, log`committing, log`lh, log`history, log`durable, log.cache
    ensures Shown(old(log.history), log.history, old(log.cache.logical), log.start)
    ensures OutsideLogSame(old(log.cache.logical), log.cache.logical, log.start)
    ensures panicked ==> !HasFree(log.cache.bufs)
    ensures old(UsersOf(log.cache)) + ReadsIn(schedule) + |seats| < log.cache.nbuf ==> !panicked
    ensures !panicked ==> StepsOf(phase, |seats|) == Steps(seats, schedule)
    ensures !panicked ==> (phase.Done? <==> Steps(seats, schedule) == Length(|seats|))
    ensures !panicked && FreeTurns(seats, schedule) >= Length(|seats|) ==> phase.Done?
    ensures old(log.durable) <= |log.history|
    ensures ByteReboots(log.start, log.cache.disk, boots, r) ==>
              Snapshot(log.first, if phase.Copying? then log.history[..old(log.durable)] else log.history, r, log.start)
    ensures phase.Done? ==>
              && log.Running() && log.View() == Admission.LogState([], [], false) && log.durable == |log.history|
              && log.cache.disk == log.cache.logical
  {
    hide BCache.Valid, BCache.Coherent, SharedBy, Faithful, HeaderClear, Counted, ChangedIsListed, SetOf, Written, Pins;
    hide OutsideLogSame, Snapshot, ByteReboots, TxnOf, Headers, Describes, Slotted, Ready, Admission.Invariant, Shown;
    hide Seating, Steps, ReadsIn, UsersOf, HasFree, FreeTurns;
    SameSize(log.cache);
    assert forall k :: 0 <= k < |log.lh| ==> log.Home(log.lh[k]);
    ghost var f := Found(TxnOf(log.start, log.lh, log.cache.logical), log.cache.disk, log.cache.logical,
                         log.cache.writes);
    Begins(log, f, Zero(), Zero());
    ghost var x1, x2 := AnyHeaders(f.t);
    Begins(log, f, x1, x2);
    log.Leave(op);
    log.committing := true;
    SeatedFirst(log.cache.bufs, log.cache.waiting, f.t, seats);
    phase, panicked, x1, x2 := Run(log, schedule, f, x1, x2, seats);
    RoomFor(log, phase, f, x1, x2);
    if FreeTurns(seats, schedule) >= Length(|seats|) {
      Finishes(seats, schedule);
    }
    DurableFits(log, f);
    if ByteReboots(log.start, log.cache.disk, boots, r) {
      CrashAmongReaders(log, phase, f, x1, x2, boots, r);
    }
    if phase.Done? {
      Finish(log, f, x1, x2);
    }
  }
}
