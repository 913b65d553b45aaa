/** Sleep locks over sleep and wakeup, as interleaved steps of any number of processes, the scheduler
    and kill. At most one process holds the lock, no wakeup is lost, and no state is stuck. */
module SleepLock {

  /** The step a process takes next, inside acquiresleep, sleep, releasesleep or wakeup. */
  datatype Pc =
    | Outside         // not using the lock
    | Acquire         // acquire(&lk->lk), at first or after sleep
    | Test            // while (lk->locked)
    | LockSelf        // sleep: acquire(&p->lock)
    | Unlock          // sleep: release(lk)
    | SetSleeping     // sleep: p->chan = chan; p->state = SLEEPING
    | Sched           // sleep: sched()
    | SwitchedOut     // the scheduler has yet to release p->lock
    | Asleep          // not running, p->lock free
    | Tidy            // sleep: p->chan = 0
    | UnlockSelf      // sleep: release(&p->lock)
    | Grabbed         // acquiresleep: release(&lk->lk)
    | Holding         // holds the sleep lock
    | Release         // releasesleep: acquire(&lk->lk)
    | Clear           // lk->locked = 0
    | Wake(k: nat)    // wakeup: about to look at process k
    | Done            // releasesleep: release(&lk->lk)

  datatype RunState = Running | Runnable | Sleeping

  /** `onChan` says whether p->chan is the lock. */
  datatype Proc = Proc(pc: Pc, st: RunState, onChan: bool, killed: bool)

  /** `inner` is the process holding the spinlock inside the sleep lock, or -1. */
  datatype State = State(procs: seq<Proc>, inner: int, locked: bool, owner: int)

  datatype Step = Go(i: nat) | Schedule(i: nat) | SchedulerRelease(i: nat) | Preempt(i: nat) | Kill(i: nat)

  /** p->lock is held by the process itself or by the scheduler on its behalf. */
  predicate SelfLocked(p: Proc) {
    p.pc.Unlock? || p.pc.SetSleeping? || p.pc.Sched? || p.pc.SwitchedOut? || p.pc.Tidy? || p.pc.UnlockSelf?
  }

  predicate HoldsInner(p: Proc) {
    p.pc.Test? || p.pc.LockSelf? || p.pc.Unlock? || p.pc.Grabbed? || p.pc.Clear? || p.pc.Wake? || p.pc.Done?
  }

  /** From taking the sleep lock until giving it up. */
  predicate HoldsLock(p: Proc) {
    p.pc.Grabbed? || p.pc.Holding? || p.pc.Release? || p.pc.Clear?
  }

  /** A process runs with interrupts on, so a timer may take the processor away. */
  predicate Interruptible(p: Proc) {
    p.pc.Outside? || p.pc.Acquire? || p.pc.Holding? || p.pc.Release?
  }

  predicate Can(s: State, e: Step) {
    match e
    case Go(i) =>
      && i < |s.procs| && (s.procs[i].st.Running? || s.procs[i].pc.Sched?)
      && (match s.procs[i].pc
          case Acquire | Release => s.inner == -1
          case Wake(k) => k >= |s.procs| || k == i || !SelfLocked(s.procs[k])
          case SwitchedOut | Asleep => false
          case _ => true)
    case Schedule(i) => i < |s.procs| && s.procs[i].st.Runnable? && !SelfLocked(s.procs[i])
    case SchedulerRelease(i) => i < |s.procs| && s.procs[i].pc.SwitchedOut?
    case Preempt(i) => i < |s.procs| && s.procs[i].st.Running? && Interruptible(s.procs[i])
    case Kill(i) => i < |s.procs| && !SelfLocked(s.procs[i])
  }

  function Set(s: State, i: nat, p: Proc): State
    requires i < |s.procs|
  {
    s.(procs := s.procs[i := p])
  }

  /** wakeup and kill: a sleeping process becomes runnable. */
  function Rouse(p: Proc): Proc {
    if p.st.Sleeping? then p.(st := Runnable) else p
  }

  function GoStep(s: State, i: nat): State
    requires Can(s, Go(i))
  {
    var p := s.procs[i];
    match p.pc
    case Outside => Set(s, i, p.(pc := Acquire))
    case Acquire => Set(s, i, p.(pc := Test)).(inner := i)
    case Test =>
      if s.locked then Set(s, i, p.(pc := LockSelf))
      else Set(s, i, p.(pc := Grabbed)).(locked := true, owner := i)
    case LockSelf => Set(s, i, p.(pc := Unlock))
    case Unlock => Set(s, i, p.(pc := SetSleeping)).(inner := -1)
    case SetSleeping => Set(s, i, p.(pc := Sched, onChan := true, st := Sleeping))
    case Sched => Set(s, i, p.(pc := SwitchedOut))
    case SwitchedOut => s
    case Asleep => s
    case Tidy => Set(s, i, p.(pc := UnlockSelf, onChan := false))
    case UnlockSelf => Set(s, i, p.(pc := Acquire))
    case Grabbed => Set(s, i, p.(pc := Holding)).(inner := -1)
    case Holding => Set(s, i, p.(pc := Release))
    case Release => Set(s, i, p.(pc := Clear)).(inner := i)
    case Clear => Set(s, i, p.(pc := Wake(0))).(locked := false, owner := -1)
    case Wake(k) =>
      if k >= |s.procs| then Set(s, i, p.(pc := Done))
      else
        var t := Set(s, i, p.(pc := Wake(k + 1)));
        if k != i && s.procs[k].onChan then Set(t, k, Rouse(s.procs[k])) else t
    case Done => Set(s, i, p.(pc := Outside)).(inner := -1)
  }

  function Do(s: State, e: Step): State
    requires Can(s, e)
  {
    match e
    case Go(i) => GoStep(s, i)
    case Schedule(i) =>
      var p := s.procs[i];
      Set(s, i, p.(st := Running, pc := if p.pc.Asleep? then Tidy else p.pc))
    case SchedulerRelease(i) => Set(s, i, s.procs[i].(pc := Asleep))
    case Preempt(i) => Set(s, i, s.procs[i].(st := Runnable))
    case Kill(i) => Set(s, i, Rouse(s.procs[i].(killed := true)))
  }

  predicate Start(s: State) {
    && s.inner == -1 && !s.locked && s.owner == -1
    && forall i :: 0 <= i < |s.procs| ==> s.procs[i] == Proc(Outside, Running, false, false)
  }

  // ---- The invariant

  /** What a process's fields say together with where it is. */
  predicate LocalOk(p: Proc) {
    && (p.onChan <==> p.pc.Sched? || p.pc.SwitchedOut? || p.pc.Asleep? || p.pc.Tidy?)
    && (p.st.Sleeping? ==> p.pc.Sched? || p.pc.SwitchedOut? || p.pc.Asleep?)
    && (p.pc.Sched? || p.pc.SwitchedOut? ==> p.st.Sleeping?)
    && (p.pc.Asleep? ==> !p.st.Running?)
    && (p.st.Runnable? ==> p.pc.Asleep? || Interruptible(p))
  }

  /** Committed to sleep, or asleep and not yet woken. */
  predicate Awaiting(p: Proc) {
    p.pc.SetSleeping? || p.pc.Sched? || p.pc.SwitchedOut? || (p.pc.Asleep? && p.st.Sleeping?)
  }

  /** Some releasing process has yet to look at process i. */
  predicate WillBeSeen(s: State, i: nat) {
    exists w :: 0 <= w < |s.procs| && s.procs[w].pc.Wake? && s.procs[w].pc.k <= i
  }

  /** Facts about one process in a state. */
  predicate ProcOk(s: State, i: nat)
    requires i < |s.procs|
  {
    var p := s.procs[i];
    && LocalOk(p)
    && (s.inner == i <==> HoldsInner(p))
    && (s.owner == i <==> HoldsLock(p))
    && (p.pc.LockSelf? || p.pc.Unlock? ==> s.locked)
    && (p.pc.Wake? || p.pc.Done? ==> !s.locked)
    && (p.pc.Wake? ==> p.pc.k <= |s.procs|)
    && (Awaiting(p) ==> s.locked || WillBeSeen(s, i))
  }

  predicate Invariant(s: State) {
    && (s.inner == -1 || 0 <= s.inner < |s.procs|)
    && (s.owner == -1 || 0 <= s.owner < |s.procs|)
    && (s.locked <==> s.owner != -1)
    && forall i :: 0 <= i < |s.procs| ==> ProcOk(s, i)
  }

  lemma StartOk(s: State)
    requires Start(s)
    ensures Invariant(s)
  {}

  /** Process i may become `p` without breaking what the lock's fields say about it. */
  predicate Harmless(s: State, i: nat, p: Proc)
    requires i < |s.procs|
  {
    var was := s.procs[i];
    && LocalOk(p)
    && (HoldsLock(p) <==> HoldsLock(was))
    && (p.pc.LockSelf? || p.pc.Unlock? ==> s.locked)
    && (p.pc.Wake? || was.pc.Wake? ==> p.pc == was.pc)
    && (p.pc.Done? ==> was.pc.Done?)
    && (Awaiting(p) ==> s.locked || Awaiting(was))
  }

  lemma WakersStay(s: State, t: State, i: nat, p: Proc, j: nat)
    requires i < |s.procs| && t.procs == s.procs[i := p] && (s.procs[i].pc.Wake? ==> p.pc == s.procs[i].pc)
    ensures WillBeSeen(s, j) ==> WillBeSeen(t, j)
  {
    if WillBeSeen(s, j) {
      var w :| 0 <= w < |s.procs| && s.procs[w].pc.Wake? && s.procs[w].pc.k <= j;
      assert t.procs[w].pc == s.procs[w].pc;
    }
  }

  /** A step of one process that leaves the lock's fields and every waker alone. */
  lemma LocalStep(s: State, i: nat, p: Proc)
    requires Invariant(s) && i < |s.procs| && Harmless(s, i, p) && (HoldsInner(p) <==> HoldsInner(s.procs[i]))
    ensures Invariant(Set(s, i, p))
  {
    var t := Set(s, i, p);
    forall j | 0 <= j < |t.procs| ensures ProcOk(t, j) {
      assert ProcOk(s, j);
      WakersStay(s, t, i, p, j);
    }
  }

  /** Taking or dropping the inner spinlock with the lock's other fields unchanged. */
  lemma InnerStep(s: State, i: nat, p: Proc, inner: int)
    requires Invariant(s) && i < |s.procs| && Harmless(s, i, p)
    requires (s.inner == -1 && inner == i && HoldsInner(p)) || (s.inner == i && inner == -1 && !HoldsInner(p))
    ensures Invariant(Set(s, i, p).(inner := inner))
  {
    var t := Set(s, i, p).(inner := inner);
    forall j | 0 <= j < |t.procs| ensures ProcOk(t, j) {
      assert ProcOk(s, j);
      WakersStay(s, t, i, p, j);
    }
  }

  /** The holder of the inner spinlock takes the sleep lock. */
  lemma GrabStep(s: State, i: nat)
    requires Invariant(s) && Can(s, Go(i)) && s.procs[i].pc.Test? && !s.locked
    ensures Invariant(Do(s, Go(i)))
  {
    var t := Do(s, Go(i));
    assert ProcOk(s, i);
    forall j | 0 <= j < |t.procs| ensures ProcOk(t, j) { assert ProcOk(s, j); }
  }

  /** The holder gives the lock up and starts waking: from now on it will see every process. */
  lemma ClearStep(s: State, i: nat)
    requires Invariant(s) && Can(s, Go(i)) && s.procs[i].pc.Clear?
    ensures Invariant(Do(s, Go(i)))
  {
    var t := Do(s, Go(i));
    assert ProcOk(s, i);
    forall j | 0 <= j < |t.procs| ensures ProcOk(t, j) {
      assert ProcOk(s, j);
      assert t.procs[i].pc == Wake(0) && WillBeSeen(t, j);
    }
  }

  /** Only the process holding the inner spinlock can be waking others. */
  lemma OneWaker(s: State, i: nat, w: nat)
    requires Invariant(s) && i < |s.procs| && w < |s.procs| && s.procs[i].pc.Wake? && s.procs[w].pc.Wake?
    ensures i == w
  {
    assert ProcOk(s, i) && ProcOk(s, w);
  }

  /** The waker passes process k: if it was asleep on the lock it is runnable now. */
  lemma WakeStep(s: State, i: nat)
    requires Invariant(s) && Can(s, Go(i)) && s.procs[i].pc.Wake? && s.procs[i].pc.k < |s.procs|
    ensures Invariant(Do(s, Go(i)))
  {
    var t := Do(s, Go(i));
    var k := s.procs[i].pc.k;
    assert ProcOk(s, i) && ProcOk(s, k);
    assert t.procs[i].pc == Wake(k + 1);
    forall j | 0 <= j < |t.procs| ensures ProcOk(t, j) {
      assert ProcOk(s, j);
      if Awaiting(t.procs[j]) {
        assert j != k && Awaiting(s.procs[j]);
        var w :| 0 <= w < |s.procs| && s.procs[w].pc.Wake? && s.procs[w].pc.k <= j;
        OneWaker(s, i, w);
        assert WillBeSeen(t, j);
      }
    }
  }

  /** The waker is through: nobody is left awaiting. */
  lemma WakeEndStep(s: State, i: nat)
    requires Invariant(s) && Can(s, Go(i)) && s.procs[i].pc.Wake? && s.procs[i].pc.k >= |s.procs|
    ensures Invariant(Do(s, Go(i)))
  {
    var t := Do(s, Go(i));
    assert ProcOk(s, i);
    forall j | 0 <= j < |t.procs| ensures ProcOk(t, j) {
      assert ProcOk(s, j);
      if Awaiting(s.procs[j]) {
        var w :| 0 <= w < |s.procs| && s.procs[w].pc.Wake? && s.procs[w].pc.k <= j;
        OneWaker(s, i, w);
        assert false;
      }
    }
  }

  predicate MovesInner(pc: Pc) {
    pc.Acquire? || pc.Release? || pc.Unlock? || pc.Grabbed? || pc.Done?
  }

  lemma GoInner(s: State, i: nat)
    requires Invariant(s) && Can(s, Go(i)) && MovesInner(s.procs[i].pc)
    ensures Invariant(Do(s, Go(i)))
  {
    var p := s.procs[i];
    assert ProcOk(s, i);
    hide Invariant, ProcOk;
    match p.pc
    case Acquire => InnerStep(s, i, p.(pc := Test), i);
    case Release => InnerStep(s, i, p.(pc := Clear), i);
    case Unlock => InnerStep(s, i, p.(pc := SetSleeping), -1);
    case Grabbed => InnerStep(s, i, p.(pc := Holding), -1);
    case Done => InnerStep(s, i, p.(pc := Outside), -1);
  }

  lemma InvariantAt(s: State, i: nat)
    requires Invariant(s) && i < |s.procs|
    ensures ProcOk(s, i)
  {
    hide ProcOk;
  }

  /** The steps that change nothing but the process itself. */
  function LocalNext(p: Proc): Proc {
    match p.pc
    case Outside => p.(pc := Acquire)
    case Test => p.(pc := LockSelf)
    case LockSelf => p.(pc := Unlock)
    case SetSleeping => p.(pc := Sched, onChan := true, st := Sleeping)
    case Sched => p.(pc := SwitchedOut)
    case Tidy => p.(pc := UnlockSelf, onChan := false)
    case UnlockSelf => p.(pc := Acquire)
    case Holding => p.(pc := Release)
    case _ => p
  }

  predicate StepsLocally(s: State, p: Proc) {
    && !MovesInner(p.pc) && !p.pc.Clear? && !p.pc.Wake? && !p.pc.SwitchedOut? && !p.pc.Asleep?
    && (p.pc.Test? ==> s.locked)
  }

  lemma GoIsLocal(s: State, i: nat)
    requires Can(s, Go(i)) && StepsLocally(s, s.procs[i])
    ensures Do(s, Go(i)) == Set(s, i, LocalNext(s.procs[i]))
  {}

  lemma LocalNextHarmless(s: State, i: nat)
    requires i < |s.procs| && ProcOk(s, i) && StepsLocally(s, s.procs[i])
    requires s.procs[i].st.Running? || s.procs[i].pc.Sched?
    ensures var p := LocalNext(s.procs[i]);
            Harmless(s, i, p) && (HoldsInner(p) <==> HoldsInner(s.procs[i]))
  {
    hide WillBeSeen;
  }

  lemma GoLocal(s: State, i: nat)
    requires Invariant(s) && Can(s, Go(i)) && !MovesInner(s.procs[i].pc)
    requires !s.procs[i].pc.Clear? && !s.procs[i].pc.Wake? && (s.procs[i].pc.Test? ==> s.locked)
    ensures Invariant(Do(s, Go(i)))
  {
    hide Invariant, ProcOk, Harmless, GoStep, LocalNext;
    InvariantAt(s, i);
    GoIsLocal(s, i);
    LocalNextHarmless(s, i);
    LocalStep(s, i, LocalNext(s.procs[i]));
  }

  lemma GoKeeps(s: State, i: nat)
    requires Invariant(s) && Can(s, Go(i))
    ensures Invariant(Do(s, Go(i)))
  {
    hide Invariant, ProcOk, GoStep;
    var pc := s.procs[i].pc;
    if pc.Clear? {
      ClearStep(s, i);
    } else if pc.Wake? && pc.k < |s.procs| {
      WakeStep(s, i);
    } else if pc.Wake? {
      WakeEndStep(s, i);
    } else if MovesInner(pc) {
      GoInner(s, i);
    } else if pc.Test? && !s.locked {
      GrabStep(s, i);
    } else {
      GoLocal(s, i);
    }
  }

  lemma StepKeeps(s: State, e: Step)
    requires Invariant(s) && Can(s, e)
    ensures Invariant(Do(s, e))
  {
    assert ProcOk(s, e.i);
    hide Invariant, ProcOk;
    if e.Go? { GoKeeps(s, e.i); } else { LocalStep(s, e.i, Do(s, e).procs[e.i]); }
  }

  // ---- Executions

  ghost predicate Execution(trace: seq<State>) {
    && |trace| > 0 && Start(trace[0])
    && forall k :: 0 <= k < |trace| - 1 ==> Follows(trace[k], trace[k + 1])
  }

  ghost predicate Follows(s: State, t: State) {
    exists e :: Can(s, e) && t == Do(s, e)
  }

  lemma {:induction false} Reachable(trace: seq<State>, k: nat)
    requires Execution(trace) && k < |trace|
    ensures Invariant(trace[k])
  {
    if k == 0 {
      StartOk(trace[0]);
    } else {
      Reachable(trace, k - 1);
      assert Follows(trace[k - 1], trace[k]);
      var e :| Can(trace[k - 1], e) && trace[k] == Do(trace[k - 1], e);
      StepKeeps(trace[k - 1], e);
    }
  }

  /** Mutual exclusion: at most one process holds the sleep lock, and the lock says so. */
  lemma MutualExclusion(trace: seq<State>, n: nat, i: nat, j: nat)
    requires Execution(trace) && n < |trace| && i < |trace[n].procs| && j < |trace[n].procs|
    requires HoldsLock(trace[n].procs[i]) && HoldsLock(trace[n].procs[j])
    ensures i == j && trace[n].locked && trace[n].owner == i
  {
    Reachable(trace, n);
    assert ProcOk(trace[n], i) && ProcOk(trace[n], j);
  }

  /** No lost wakeup: whenever the lock is free and nobody is inside its spinlock, no process is
      asleep on it or about to be; and a process that is has a holder or a waker to wake it. */
  lemma NoLostWakeup(trace: seq<State>, n: nat, i: nat)
    requires Execution(trace) && n < |trace| && i < |trace[n].procs|
    requires Awaiting(trace[n].procs[i]) || trace[n].procs[i].pc.LockSelf? || trace[n].procs[i].pc.Unlock?
    ensures trace[n].locked || trace[n].inner != -1
    ensures (exists h :: 0 <= h < |trace[n].procs| && h != i && HoldsLock(trace[n].procs[h])) || WillBeSeen(trace[n], i)
  {
    var s := trace[n];
    Reachable(trace, n);
    assert ProcOk(s, i);
    if s.locked {
      assert ProcOk(s, s.owner);
      assert HoldsLock(s.procs[s.owner]);
    } else {
      var w :| 0 <= w < |s.procs| && s.procs[w].pc.Wake? && s.procs[w].pc.k <= i;
      assert ProcOk(s, w);
    }
  }

  // ---- Never stuck

  /** A step that takes a user of the lock on: its own or the scheduler's for it. */
  ghost predicate UsersStep(s: State, e: Step) {
    Can(s, e) && !e.Kill? && !e.Preempt? && e.i < |s.procs| && !s.procs[e.i].pc.Outside?
  }

  /** The process itself, or the scheduler for it, can always take the step that frees p->lock on. */
  lemma SelfLockedCanGo(s: State, i: nat)
    requires Invariant(s) && i < |s.procs| && SelfLocked(s.procs[i])
    ensures Can(s, if s.procs[i].pc.SwitchedOut? then SchedulerRelease(i) else Go(i))
  {
    assert ProcOk(s, i);
  }

  /** A process inside the spinlock can go on, or is waiting for a p->lock whose owner can. */
  lemma InnerCanGo(s: State, i: nat) returns (e: Step)
    requires Invariant(s) && i < |s.procs| && HoldsInner(s.procs[i])
    ensures UsersStep(s, e)
  {
    assert ProcOk(s, i);
    e := Go(i);
    if s.procs[i].pc.Wake? && !Can(s, e) {
      var k := s.procs[i].pc.k;
      SelfLockedCanGo(s, k);
      e := if s.procs[k].pc.SwitchedOut? then SchedulerRelease(k) else Go(k);
    }
  }

  /** No deadlock: while any process is using the lock, some process that is using it can go on, by
      itself or with the scheduler's next step for it. */
  lemma NeverStuck(trace: seq<State>, n: nat, i: nat)
    requires Execution(trace) && n < |trace| && i < |trace[n].procs| && !trace[n].procs[i].pc.Outside?
    ensures exists e :: UsersStep(trace[n], e)
  {
    var s := trace[n];
    Reachable(trace, n);
    assert ProcOk(s, i);
    if s.inner != -1 {
      assert ProcOk(s, s.inner);
      var e := InnerCanGo(s, s.inner);
    } else if SelfLocked(s.procs[i]) {
      SelfLockedCanGo(s, i);
      assert UsersStep(s, if s.procs[i].pc.SwitchedOut? then SchedulerRelease(i) else Go(i));
    } else if s.procs[i].st.Runnable? {
      assert UsersStep(s, Schedule(i));
    } else if s.procs[i].pc.Asleep? {
      AwaitedHolderCanGo(s, i);
    } else {
      assert UsersStep(s, Go(i));
    }
  }

  lemma AwaitedHolderCanGo(s: State, i: nat)
    requires Invariant(s) && s.inner == -1 && i < |s.procs| && Awaiting(s.procs[i])
    ensures exists e :: UsersStep(s, e)
  {
    assert ProcOk(s, i);
    forall w | 0 <= w < |s.procs| ensures !s.procs[w].pc.Wake? { assert ProcOk(s, w); }
    var h := s.owner;
    assert ProcOk(s, h);
    assert UsersStep(s, if s.procs[h].st.Runnable? then Schedule(h) else Go(h));
  }
}
