/** Who gets a turn when a commit runs among readers: how the locks of the listed blocks, and with them the
    commit, follow from the schedule alone. */
module LogTurns {

  /** What happens next: a reader reads, wakes up or lets go, or the committing process goes on. */
  datatype Action = Reads(b: nat) | Wakes(i: nat) | LetsGo(i: nat) | GoesOn

  datatype Lock = Lock(locked: bool, waiting: nat)

  /** A listed block, its buffer, and that buffer's lock when the commit begins. */
  datatype Seat = Seat(b: nat, i: nat, lock: Lock)

  function LockStep(l: Lock, a: Action, b: nat, i: nat): Lock {
    match a
    case Reads(x) => if x != b then l else if l.locked then l.(waiting := l.waiting + 1) else l.(locked := true)
    case Wakes(j) => if j == i && !l.locked && l.waiting > 0 then Lock(true, l.waiting - 1) else l
    case LetsGo(j) => if j == i then l.(locked := false) else l
    case GoesOn => l
  }

  function LockAfter(s: Seat, actions: seq<Action>): Lock
    decreases |actions|
  {
    if actions == [] then s.lock
    else LockStep(LockAfter(s, actions[..|actions| - 1]), actions[|actions| - 1], s.b, s.i)
  }

  // ---- The steps of a commit of n blocks: n into the log, the header, n home, the empty header

  function Length(n: nat): nat {
    2 * n + 2
  }

  /** The block that a step reads, or n if it is a header. */
  function Needs(n: nat, step: nat): (k: nat)
    ensures k <= n
  {
    if step < n then step else if n < step <= 2 * n then step - n - 1 else n
  }

  /** Nobody has the lock of the block that the step reads. */
  predicate Unhindered(seats: seq<Seat>, actions: seq<Action>, step: nat) {
    var k := Needs(|seats|, step);
    k == |seats| || !LockAfter(seats[k], actions).locked
  }

  /** The steps that a commit has taken after the actions: one each time it goes on unhindered. */
  function Steps(seats: seq<Seat>, actions: seq<Action>): (p: nat)
    ensures p <= Length(|seats|)
    decreases |actions|
  {
    if actions == [] then 0
    else
      var before, last := actions[..|actions| - 1], actions[|actions| - 1];
      var p := Steps(seats, before);
      if last.GoesOn? && p < Length(|seats|) && Unhindered(seats, before, p) then p + 1 else p
  }

  // ---- When it finishes

  predicate AllFree(seats: seq<Seat>, actions: seq<Action>) {
    forall k :: 0 <= k < |seats| ==> !LockAfter(seats[k], actions).locked
  }

  /** How often the commit goes on while no listed block is locked. */
  function FreeTurns(seats: seq<Seat>, actions: seq<Action>): nat
    decreases |actions|
  {
    if actions == [] then 0
    else
      var before, last := actions[..|actions| - 1], actions[|actions| - 1];
      FreeTurns(seats, before) + if last.GoesOn? && AllFree(seats, before) then 1 else 0
  }

  lemma {:induction false} FreeTurnsCount(seats: seq<Seat>, actions: seq<Action>)
    ensures FreeTurns(seats, actions) <= Steps(seats, actions) || Steps(seats, actions) == Length(|seats|)
    decreases |actions|
  {
    if actions != [] {
      FreeTurnsCount(seats, actions[..|actions| - 1]);
    }
  }

  /** A commit that goes on as often as it has steps, at times when no listed block is locked, is finished,
      whatever else readers do in between. */
  lemma Finishes(seats: seq<Seat>, actions: seq<Action>)
    requires FreeTurns(seats, actions) >= Length(|seats|)
    ensures Steps(seats, actions) == Length(|seats|)
  {
    FreeTurnsCount(seats, actions);
  }

  predicate Takes(seats: seq<Seat>, a: Action) {
    exists k :: 0 <= k < |seats| && (a == Reads(seats[k].b) || a == Wakes(seats[k].i))
  }

  function Turns(actions: seq<Action>): nat
    decreases |actions|
  {
    if actions == [] then 0
    else Turns(actions[..|actions| - 1]) + if actions[|actions| - 1].GoesOn? then 1 else 0
  }

  lemma {:induction false} StaysFree(seats: seq<Seat>, before: seq<Action>, after: seq<Action>)
    requires AllFree(seats, before) && forall a :: a in after ==> !Takes(seats, a)
    ensures AllFree(seats, before + after)
    ensures FreeTurns(seats, before + after) >= Turns(after)
    decreases |after|
  {
    if after == [] {
      assert before + after == before;
    } else {
      var m := |after| - 1;
      StaysFree(seats, before, after[..m]);
      assert (before + after)[..|before + after| - 1] == before + after[..m];
      var a := after[m];
      assert a in after;
      forall k | 0 <= k < |seats| ensures !LockAfter(seats[k], before + after).locked {
        assert a != Reads(seats[k].b) && a != Wakes(seats[k].i);
      }
    }
  }

  /** Once the holders of listed blocks have let go, and nobody takes one anew, the commit finishes as soon as
      it has had its turns. */
  lemma OnceLetGo(seats: seq<Seat>, before: seq<Action>, after: seq<Action>)
    requires AllFree(seats, before) && (forall a :: a in after ==> !Takes(seats, a)) && Turns(after) >= Length(|seats|)
    ensures Steps(seats, before + after) == Length(|seats|)
  {
    StaysFree(seats, before, after);
    Finishes(seats, before + after);
  }

  // ---- When it does not

  /** Over and over a reader takes a block, the commit gets its turn, and the reader lets go. */
  function Ping(b: nat, i: nat, m: nat): seq<Action> {
    if m == 0 then [] else Ping(b, i, m - 1) + [Reads(b), GoesOn, LetsGo(i)]
  }

  lemma AfterThree(seats: seq<Seat>, actions: seq<Action>)
    requires seats != [] && LockAfter(seats[0], actions) == Lock(false, 0) && Steps(seats, actions) == 0
    ensures var now := actions + [Reads(seats[0].b), GoesOn, LetsGo(seats[0].i)];
            LockAfter(seats[0], now) == Lock(false, 0) && Steps(seats, now) == 0
  {
    var s := seats[0];
    var a1 := actions + [Reads(s.b)];
    var a2 := a1 + [GoesOn];
    var a3 := a2 + [LetsGo(s.i)];
    assert a1[..|a1| - 1] == actions && a2[..|a2| - 1] == a1 && a3[..|a3| - 1] == a2;
    assert a3 == actions + [Reads(s.b), GoesOn, LetsGo(s.i)];
    assert LockAfter(s, a1) == Lock(true, 0) && Steps(seats, a1) == 0;
    assert !Unhindered(seats, a1, 0);
    assert LockAfter(s, a2) == Lock(true, 0) && Steps(seats, a2) == 0;
  }

  /** That every holder lets go is not enough: a commit can get any number of turns and never take a step. */
  lemma {:induction false} Starves(seats: seq<Seat>, m: nat)
    requires seats != [] && seats[0].lock == Lock(false, 0)
    ensures var actions := Ping(seats[0].b, seats[0].i, m);
            LockAfter(seats[0], actions) == Lock(false, 0) && Steps(seats, actions) == 0 && Turns(actions) == m
  {
    if m > 0 {
      Starves(seats, m - 1);
      var before := Ping(seats[0].b, seats[0].i, m - 1);
      AfterThree(seats, before);
      TurnsOfThree(before, seats[0].b, seats[0].i);
    }
  }

  lemma TurnsOfThree(actions: seq<Action>, b: nat, i: nat)
    ensures Turns(actions + [Reads(b), GoesOn, LetsGo(i)]) == Turns(actions) + 1
  {
    var a1 := actions + [Reads(b)];
    var a2 := a1 + [GoesOn];
    var a3 := a2 + [LetsGo(i)];
    assert a1[..|a1| - 1] == actions && a2[..|a2| - 1] == a1 && a3[..|a3| - 1] == a2;
    assert Turns(a1) == Turns(actions) && Turns(a2) == Turns(a1) + 1;
    assert a3 == actions + [Reads(b), GoesOn, LetsGo(i)];
  }

  // ---- Buffers that readers use

  /** Each read takes at most one more. */
  function ReadsIn(actions: seq<Action>): nat
    decreases |actions|
  {
    if actions == [] then 0
    else ReadsIn(actions[..|actions| - 1]) + if actions[|actions| - 1].Reads? then 1 else 0
  }

  lemma {:induction false} ReadsInPrefix(actions: seq<Action>, n: nat)
    requires n <= |actions|
    ensures ReadsIn(actions[..n]) <= ReadsIn(actions)
    decreases |actions|
  {
    if n < |actions| {
      var m := |actions| - 1;
      ReadsInPrefix(actions[..m], n);
      assert actions[..m][..n] == actions[..n];
    } else {
      assert actions[..n] == actions;
    }
  }
}
