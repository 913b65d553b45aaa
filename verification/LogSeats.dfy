/** The buffers of the listed blocks while a commit runs among readers: where they are, and who has them
    locked. */
module LogSeats {
  import opened Blocks
  import opened BufferCache
  import opened LogCache
  import opened LogTurns
  import LogCrash

  /** Where the commit is: slots of the log filled, blocks copied home, or finished. The header is written
      between the first and the second, the empty header before the third. */
  datatype Phase = Copying(k: nat) | Homing(k: nat) | Done

  /** The blocks of `pins` are still to go home. */
  ghost function Pins(t: LogCrash.Txn, phase: Phase): set<nat>
    requires phase.Homing? ==> phase.k <= |t.blocks|
  {
    match phase
    case Copying(_) => SetOf(t.blocks)
    case Homing(k) => SetOf(t.blocks[k..])
    case Done => {}
  }

  /** How far the commit of n blocks is. */
  function StepsOf(phase: Phase, n: nat): nat {
    match phase
    case Copying(k) => k
    case Homing(k) => n + 1 + k
    case Done => Length(n)
  }

  /** A reader has the lock of the block that the commit needs next. */
  ghost predicate AtLockedBlock(phase: Phase, t: LogCrash.Txn, bufs: seq<Buf>) {
    !phase.Done? && phase.k < |t.blocks| && !Unlocked(bufs, t.blocks[phase.k])
  }

  lemma FewPins(t: LogCrash.Txn, phase: Phase)
    requires !phase.Done? ==> phase.k <= |t.blocks|
    ensures |Pins(t, phase)| <= |t.blocks|
  {
    if phase.Copying? {
      SetOfBound(t.blocks);
    } else if phase.Homing? {
      SetOfBound(t.blocks[phase.k..]);
    }
  }

  // ---- Where the listed blocks sit

  /** The seat's buffer has its block, and its lock is `l`. */
  ghost predicate Sits(bufs: seq<Buf>, waiting: seq<nat>, s: Seat, l: Lock) {
    && s.i < |bufs| == |waiting| && bufs[s.i].valid && bufs[s.i].blockno == s.b
    && bufs[s.i].locked == l.locked && waiting[s.i] == l.waiting
  }

  /** The listed blocks as the commit finds them. */
  ghost predicate Seating(bufs: seq<Buf>, waiting: seq<nat>, list: seq<nat>, seats: seq<Seat>) {
    && |seats| == |list|
    && forall k :: 0 <= k < |list| ==> seats[k].b == list[k] && Sits(bufs, waiting, seats[k], seats[k].lock)
  }

  /** Every transaction has such a seating. */
  lemma {:induction false} SeatsExist(bufs: seq<Buf>, waiting: seq<nat>, list: seq<nat>) returns (seats: seq<Seat>)
    requires |waiting| == |bufs| && forall k :: 0 <= k < |list| ==> Held(bufs, list[k])
    ensures Seating(bufs, waiting, list, seats)
    decreases |list|
  {
    seats := [];
    if list != [] {
      var m := |list| - 1;
      seats := SeatsExist(bufs, waiting, list[..m]);
      var i: nat :| i < |bufs| && bufs[i].valid && bufs[i].blockno == list[m];
      seats := seats + [Seat(list[m], i, Lock(bufs[i].locked, waiting[i]))];
    }
  }

  /** Blocks that are on disk already. */
  function AtHome(phase: Phase, n: nat): nat {
    match phase
    case Copying(_) => 0
    case Homing(k) => k
    case Done => n
  }

  /** Each block that is still to go home is where it was, with the lock that the schedule gives. */
  ghost predicate Seated(bufs: seq<Buf>, waiting: seq<nat>, phase: Phase, seats: seq<Seat>, actions: seq<Action>) {
    forall k :: AtHome(phase, |seats|) <= k < |seats| ==>
      Sits(bufs, waiting, seats[k], LockAfter(seats[k], actions))
  }

  /** And its buffer is pinned, so it has a reference. */
  ghost predicate Referenced(bufs: seq<Buf>, phase: Phase, seats: seq<Seat>) {
    forall k :: AtHome(phase, |seats|) <= k < |seats| ==> seats[k].i < |bufs| && bufs[seats[k].i].refcnt > 0
  }

  ghost predicate SeatsOf(t: LogCrash.Txn, seats: seq<Seat>) {
    |seats| == |t.blocks| && forall k :: 0 <= k < |seats| ==> seats[k].b == t.blocks[k]
  }

  lemma SeatsReferenced(bufs: seq<Buf>, waiting: seq<nat>, disk: seq<Block>, start: nat, t: LogCrash.Txn, phase: Phase,
                        seats: seq<Seat>, actions: seq<Action>)
    requires (!phase.Done? ==> phase.k <= |t.blocks|) && SeatsOf(t, seats)
    requires SharedBy(bufs, waiting, disk, start, Pins(t, phase)) && Seated(bufs, waiting, phase, seats, actions)
    ensures Referenced(bufs, phase, seats)
  {
    hide LockAfter;
    forall k | AtHome(phase, |seats|) <= k < |seats| ensures seats[k].i < |bufs| && bufs[seats[k].i].refcnt > 0 {
      StillPinned(t, phase, k);
      assert Sits(bufs, waiting, seats[k], LockAfter(seats[k], actions));
    }
  }

  lemma StillPinned(t: LogCrash.Txn, phase: Phase, k: nat)
    requires (!phase.Done? ==> phase.k <= |t.blocks|) && AtHome(phase, |t.blocks|) <= k < |t.blocks|
    ensures t.blocks[k] in Pins(t, phase)
  {
    if phase.Homing? {
      assert t.blocks[phase.k..][k - phase.k] == t.blocks[k];
    }
  }

  /** One more action, for one seat. */
  lemma OneMore(s: Seat, actions: seq<Action>, a: Action)
    ensures LockAfter(s, actions + [a]) == LockStep(LockAfter(s, actions), a, s.b, s.i)
  {
    assert (actions + [a])[..|actions|] == actions;
  }

  /** The commit's own steps change no seat. */
  lemma SeatedGoesOn(was: seq<Buf>, now: seq<Buf>, waiting: seq<nat>, phase: Phase, next: Phase, seats: seq<Seat>,
                     actions: seq<Action>)
    requires Seated(was, waiting, phase, seats, actions) && Referenced(was, phase, seats)
    requires KeepsUsers(was, now, waiting) && AtHome(phase, |seats|) <= AtHome(next, |seats|)
    requires !next.Done? ==> StaysPut(was, now)
    ensures Seated(now, waiting, next, seats, actions + [GoesOn])
  {
    hide LockAfter;
    forall k | AtHome(next, |seats|) <= k < |seats|
      ensures Sits(now, waiting, seats[k], LockAfter(seats[k], actions + [GoesOn]))
    {
      OneMore(seats[k], actions, GoesOn);
      assert Sits(was, waiting, seats[k], LockAfter(seats[k], actions));
    }
  }

  /** A read changes the lock of its block's seat, if it has one. */
  lemma SeatedReads(was: seq<Buf>, queues: seq<nat>, now: seq<Buf>, queuesNow: seq<nat>, dev: nat, b: nat, v: Block,
                    i: nat, waits: bool, phase: Phase, seats: seq<Seat>, actions: seq<Action>)
    requires Seated(was, queues, phase, seats, actions) && Referenced(was, phase, seats)
    requires NoAlias(was) && dev != 0 && forall j :: 0 <= j < |was| && was[j].valid ==> was[j].dev == dev
    requires ReadOutcome(was, queues, now, queuesNow, dev, b, v, true, i, waits)
    ensures Seated(now, queuesNow, phase, seats, actions + [Reads(b)])
  {
    hide LockAfter, NoAlias;
    forall k | AtHome(phase, |seats|) <= k < |seats|
      ensures Sits(now, queuesNow, seats[k], LockAfter(seats[k], actions + [Reads(b)]))
    {
      var s := seats[k];
      OneMore(s, actions, Reads(b));
      assert Sits(was, queues, s, LockAfter(s, actions));
      if s.b == b {
        assert CachedAt(was, s.i, dev, b);
        OneBuffer(was, dev, b, s.i, i);
      }
    }
  }

  /** An action that finds nothing to do changes no seat. */
  lemma SeatedIdle(bufs: seq<Buf>, waiting: seq<nat>, phase: Phase, seats: seq<Seat>, actions: seq<Action>, a: Action)
    requires Seated(bufs, waiting, phase, seats, actions)
    requires match a
             case Reads(b) => forall k :: AtHome(phase, |seats|) <= k < |seats| ==> seats[k].b != b
             case Wakes(i) => i < |bufs| == |waiting| ==> waiting[i] == 0 || bufs[i].locked
             case LetsGo(i) => i < |bufs| ==> !bufs[i].locked
             case GoesOn => true
    ensures Seated(bufs, waiting, phase, seats, actions + [a])
  {
    hide LockAfter;
    forall k | AtHome(phase, |seats|) <= k < |seats|
      ensures Sits(bufs, waiting, seats[k], LockAfter(seats[k], actions + [a]))
    {
      OneMore(seats[k], actions, a);
      assert Sits(bufs, waiting, seats[k], LockAfter(seats[k], actions));
    }
  }

  lemma SeatedWakes(was: seq<Buf>, queues: seq<nat>, phase: Phase, seats: seq<Seat>, actions: seq<Action>, i: nat)
    requires Seated(was, queues, phase, seats, actions) && i < |was| == |queues| && queues[i] > 0 && !was[i].locked
    ensures Seated(was[i := was[i].(locked := true)], queues[i := queues[i] - 1], phase, seats, actions + [Wakes(i)])
  {
    hide LockAfter;
    var now, queuesNow := was[i := was[i].(locked := true)], queues[i := queues[i] - 1];
    forall k | AtHome(phase, |seats|) <= k < |seats|
      ensures Sits(now, queuesNow, seats[k], LockAfter(seats[k], actions + [Wakes(i)]))
    {
      OneMore(seats[k], actions, Wakes(i));
      assert Sits(was, queues, seats[k], LockAfter(seats[k], actions));
    }
  }

  lemma SeatedLetsGo(was: seq<Buf>, queues: seq<nat>, phase: Phase, seats: seq<Seat>, actions: seq<Action>, i: nat)
    requires Seated(was, queues, phase, seats, actions) && i < |was|
    ensures Seated(was[i := Released(was[i])], queues, phase, seats, actions + [LetsGo(i)])
  {
    hide LockAfter;
    var now := was[i := Released(was[i])];
    forall k | AtHome(phase, |seats|) <= k < |seats|
      ensures Sits(now, queues, seats[k], LockAfter(seats[k], actions + [LetsGo(i)]))
    {
      OneMore(seats[k], actions, LetsGo(i));
      assert Sits(was, queues, seats[k], LockAfter(seats[k], actions));
    }
  }

  /** The schedule decides whether the commit's next block is locked. */
  lemma HinderedIff(bufs: seq<Buf>, waiting: seq<nat>, disk: seq<Block>, logical: seq<Block>, dev: nat, t: LogCrash.Txn,
                    phase: Phase, seats: seq<Seat>, actions: seq<Action>)
    requires (!phase.Done? ==> phase.k <= |t.blocks|) && SeatsOf(t, seats)
    requires Seated(bufs, waiting, phase, seats, actions)
    requires NoAlias(bufs) && dev != 0 && CoherentWith(bufs, disk, logical, dev)
    ensures !phase.Done? ==>
              (AtLockedBlock(phase, t, bufs) <==> !Unhindered(seats, actions, StepsOf(phase, |t.blocks|)))
  {
    hide LockAfter, NoAlias;
    if !phase.Done? && phase.k < |t.blocks| {
      var s := seats[phase.k];
      assert Sits(bufs, waiting, s, LockAfter(s, actions));
      forall j: nat | j < |bufs| && bufs[j].valid && bufs[j].blockno == s.b ensures j == s.i {
        OneBuffer(bufs, dev, s.b, s.i, j);
      }
    }
  }

  lemma SeatedFirst(bufs: seq<Buf>, waiting: seq<nat>, t: LogCrash.Txn, seats: seq<Seat>)
    requires Seating(bufs, waiting, t.blocks, seats)
    ensures SeatsOf(t, seats) && Seated(bufs, waiting, Copying(0), seats, [])
  {}
}
