/** RAID1 and RAID0+1: every healthy disk of a pair holds the last successful write, over every
    run of writes, reads, failures and repairs of any disks in any order. */
module RaidMirror {
  import opened Blocks
  import opened RaidAddress
  import opened RaidSuper
  import opened RaidModel
  import Parity = RaidParity

  /** Disk `e` is the primary or the mirror of the pair whose primary is `d`. */
  ghost predicate InPair(s: Raid, d: nat, e: nat) {
    e == d || e == d + s.g.numDisks
  }

  ghost predicate Mirrored(s: Raid, b: nat, v: Block)
    requires Valid(s)
  {
    && b < s.g.maxBlk
    && var (d, row) := SlotOf(s, b);
       forall e: nat :: InPair(s, d, e) && HealthOf(s, e) == Healthy && OnDevice(s, e, row) ==> s.disks[e][row] == v
  }

  ghost predicate Invariant(s: Raid, h: map<nat, Block>) {
    && Valid(s) && IsMirrored(s.g.level)
    && (forall b :: b in h ==> Mirrored(s, b, h[b]))
  }

  lemma MirrorSlotFacts(s: Raid, b: nat)
    requires Valid(s) && IsMirrored(s.g.level) && b < s.g.maxBlk
    ensures var (d, row) := SlotOf(s, b);
            && 1 <= d <= s.g.numDisks && 1 <= row < s.blocks
            && d + s.g.numDisks <= s.total
            && b < s.g.numDisks * (s.blocks - 1)
  {
    CapacityOf(s.g, s.total, s.blocks);
    BoundCheck(s.g, s.total, s.blocks, b);
  }

  /** A write succeeds exactly when some disk of the pair is healthy, and then every healthy disk
      of the pair holds it. */
  lemma WriteReachesPair(s: Raid, b: nat, v: Block)
    requires Valid(s) && IsMirrored(s.g.level) && b < s.g.maxBlk
    ensures var (t, code) := Write(s, b, v);
            var (d, row) := SlotOf(s, b);
            && (code == Success <==> exists e: nat :: InPair(s, d, e) && HealthOf(s, e) == Healthy)
            && (code == Success ==> Mirrored(t, b, v))
            && (code != Success ==> t == s && code == Failed)
  {
    MirrorSlotFacts(s, b);
    var (d, row) := SlotOf(s, b);
    assert InPair(s, d, d) && InPair(s, d, d + s.g.numDisks);
  }

  lemma WriteKeepsOthers(s: Raid, b: nat, v: Block, c: nat, w: Block)
    requires Valid(s) && IsMirrored(s.g.level) && b < s.g.maxBlk && b != c && Mirrored(s, c, w)
    ensures Mirrored(Write(s, b, v).0, c, w)
  {
    hide Init, Slot, ParityDisk, Xor;
    MirrorSlotFacts(s, b);
    MirrorSlotFacts(s, c);
    SlotsAreDistinct(s.g.level, s.g.numDisks, s.blocks, b, c);
  }

  /** The one array shape in which the block that the bound check should refuse has a place: RAID1 with
      a disk left over. */
  predicate SparesADisk(s: Raid) {
    s.g.level.RAID1? && s.total == 2 * s.g.numDisks + 1
  }

  /** In every other mirrored array the write to `max_blknum` is refused or leaves the array: with an
      even number of RAID1 disks it names a mirror that does not exist, whose lock the code reaches for
      past the end of its table, and under RAID0+1 a row past the end of a disk. The model stops there,
      with code `Off`. */
  lemma MaxBlockElsewhere(s: Raid, v: Block)
    requires Valid(s) && IsMirrored(s.g.level)
    requires !SparesADisk(s)
    ensures var (t, code) := Write(s, s.g.maxBlk, v); code != Success && t == s
  {
    var n := s.g.numDisks;
    CapacityOf(s.g, s.total, s.blocks);
    DivModUnique(n, s.blocks - 1, 0);
    assert n * (s.blocks - 1) == (s.blocks - 1) * n;
    DivModUnique(s.blocks - 1, n, 0);
    Raid0_1Row(n, s.g.maxBlk);
  }

  lemma WriteKeeps(s: Raid, h: map<nat, Block>, b: nat, v: Block)
    requires Invariant(s, h) && (b == s.g.maxBlk ==> !SparesADisk(s))
    ensures Invariant(Write(s, b, v).0, Record(h, s, WriteOp(b, v)))
  {
    hide Init, Slot, Mirrored;
    if b < s.g.maxBlk {
      WriteReachesPair(s, b, v);
      forall c | c in h && c != b ensures Mirrored(Write(s, b, v).0, c, h[c]) {
        WriteKeepsOthers(s, b, v, c, h[c]);
      }
    } else if b == s.g.maxBlk {
      MaxBlockElsewhere(s, v);
    }
  }

  lemma FailKeeps(s: Raid, h: map<nat, Block>, d: nat, junk: seq<Block>)
    requires Invariant(s, h) && |junk| == s.blocks
    ensures Invariant(Fail(s, d, junk), h)
  {
    var t := Fail(s, d, junk);
    forall b | b in h ensures Mirrored(t, b, h[b]) { assert Mirrored(s, b, h[b]); }
  }

  /** The true partner of a disk in its pair. */
  function Partner(s: Raid, d: nat): int {
    if d <= s.g.numDisks then d + s.g.numDisks else d - s.g.numDisks
  }

  /** Repair of a disk that is out follows the plan its own superblock gives. Where that is the plan the
      array wants, in particular where the superblock is still there, it succeeds exactly when the
      partner is healthy and the disk is not the last primary, whose partner the code computes as disk 0. */
  lemma RepairSucceedsIff(s: Raid, d: nat)
    requires Valid(s) && IsMirrored(s.g.level) && 1 <= d <= s.total && s.status[d] != Healthy
    ensures Repair(s, d) == RepairBy(s, d, Planned(s, d))
    ensures Carries(s.disks[d][0], s.g) ==> Planned(s, d) == Wanted(s, d)
    ensures Planned(s, d) == Wanted(s, d) ==>
              var (t, code) := Repair(s, d);
              && (code == Repaired <==> d != s.g.numDisks && HealthOf(s, Partner(s, d)) == Healthy)
              && (code == Repaired ==>
                    t.disks == s.disks[d := s.disks[Partner(s, d)]] && t.status == s.status[d := Healthy])
              && (code != Repaired ==> code == RecoveryFailed && t == SetStatus(s, d, Recovery))
  {
    hide Planned, Wanted, SuperOf, Init;
    CapacityOf(s.g, s.total, s.blocks);
    WantedPlan(s, d);
    if Carries(s.disks[d][0], s.g) { CarriedPlan(s, d); }
    assert s.status[d := Recovery][d := Healthy] == s.status[d := Healthy];
  }

  /** Disk d is half of a pair, and not the one left over. */
  predicate Paired(s: Raid, d: nat) {
    1 <= d <= 2 * s.g.numDisks
  }

  /** The plans that cannot spoil a pair: to refuse, or to copy the partner. Rebuilding from the visited
      disks does the same in one case: disk 1 of two, whose only visited disk is its partner. */
  predicate SafePlan(s: Raid, d: nat)
    requires Valid(s) && 1 <= d <= s.total
  {
    !Paired(s, d) ||
    match Planned(s, d)
    case Refused => true
    case CopyOf(p) => p == Partner(s, d)
    case XorOfVisited => s.total == 2 && d == 1 && s.status[2] == Healthy
    case LeftAsIs => false
  }

  /** A repair that leaves the disk equal to its healthy partner, or touches no pair, spoils nothing. */
  lemma RestoredKeeps(s: Raid, h: map<nat, Block>, d: nat, t: Raid)
    requires Invariant(s, h) && 1 <= d <= s.total && Valid(t) && t == s.(disks := t.disks, status := t.status)
    requires forall e :: 0 <= e <= s.total && e != d ==> t.disks[e] == s.disks[e] && t.status[e] == s.status[e]
    requires t.status[d] == Healthy && Paired(s, d) ==>
               && HealthOf(s, Partner(s, d)) == Healthy
               && forall row :: 1 <= row < s.blocks ==> t.disks[d][row] == s.disks[Partner(s, d)][row]
    ensures Invariant(t, h)
  {
    hide Init, Slot;
    forall b | b in h ensures Mirrored(t, b, h[b]) {
      MirrorSlotFacts(s, b);
      var (e, row) := SlotOf(s, b);
      assert Mirrored(s, b, h[b]);
      assert InPair(s, e, e) && InPair(s, e, e + s.g.numDisks);
    }
  }

  lemma RepairKeeps(s: Raid, h: map<nat, Block>, d: nat)
    requires Invariant(s, h) && (1 <= d <= s.total && s.status[d] != Healthy ==> SafePlan(s, d))
    ensures Invariant(Repair(s, d).0, h)
  {
    hide Init, Planned, NewBlock, Recover;
    if 1 <= d <= s.total && s.status[d] != Healthy {
      CapacityOf(s.g, s.total, s.blocks);
      var t, plan := Repair(s, d).0, Planned(s, d);
      forall row | 1 <= row < s.blocks && Paired(s, d) && !plan.Refused?
        ensures t.disks[d][row] == s.disks[Partner(s, d)][row]
      {
        RecoveredRow(s, d, plan, row);
        SafeBlock(s, d, row);
      }
      RecoveredRow(s, d, plan, 1);
      RestoredKeeps(s, h, d, t);
    }
  }

  lemma SafeBlock(s: Raid, d: nat, row: nat)
    requires Valid(s) && IsMirrored(s.g.level) && Paired(s, d) && 1 <= d <= s.total && 1 <= row < s.blocks
    requires SafePlan(s, d) && !Planned(s, d).Refused?
    ensures 1 <= Partner(s, d) <= s.total && NewBlock(s, d, Planned(s, d), row) == s.disks[Partner(s, d)][row]
  {
    hide Planned, Init;
    CapacityOf(s.g, s.total, s.blocks);
    if Planned(s, d).XorOfVisited? {
      assert Visited(s, d, row) == [s.disks[2][row]];
      XorAllSingleton(s.disks[2][row]);
    }
  }

  /** The superblock decides: whatever the data and whatever has been written, repair of disk d keeps
      every healthy disk of a pair up to date exactly when the plan read from its block 0 is a safe one. */
  lemma RepairSafeIff(s: Raid, d: nat)
    requires Valid(s) && IsMirrored(s.g.level) && 1 <= d <= s.total && s.status[d] != Healthy
    ensures SafePlan(s, d) <==>
            forall t, h :: Resembles(s, t) && Invariant(t, h) ==> Invariant(Repair(t, d).0, h)
  {
    hide Planned, Repair, Invariant, Init;
    if SafePlan(s, d) {
      forall t, h | Resembles(s, t) && Invariant(t, h) ensures Invariant(Repair(t, d).0, h) {
        SamePlan(s, t, d);
        RepairKeeps(t, h, d);
      }
    } else {
      var t, h := Spoiled(s, d);
    }
  }

  lemma SamePlan(s: Raid, t: Raid, d: nat)
    requires Resembles(s, t) && 1 <= d <= s.total
    ensures Planned(t, d) == Planned(s, d) && (SafePlan(t, d) <==> SafePlan(s, d)) && t.status == s.status
    ensures Valid(t) && t.g == s.g && t.total == s.total && t.blocks == s.blocks
  {
    hide Planned, Init;
    ResemblingPlan(s, t, d);
  }

  /** A disk whose row 1 shows that an unsafe plan does not copy the partner. */
  function Witness(s: Raid, d: nat): nat
    requires Valid(s) && 1 <= d <= s.total
  {
    match Planned(s, d)
    case CopyOf(p) => p
    case XorOfVisited => if d != 1 then 0 else if Partner(s, d) == 2 then 3 else 2
    case Refused | LeftAsIs => d
  }

  /** Data on which an unsafe plan gives disk d something else than its partner holds. */
  lemma UnsafeData(s: Raid, d: nat) returns (t: Raid)
    requires Valid(s) && IsMirrored(s.g.level) && 1 <= d <= s.total && !SafePlan(s, d)
    requires HealthOf(s, Partner(s, d)) == Healthy
    ensures Resembles(s, t) && 1 <= Partner(s, d) <= s.total
    ensures NewBlock(t, d, Planned(s, d), 1) != t.disks[Partner(s, d)][1]
  {
    hide Planned, Init, Visited, Slot;
    CapacityOf(s.g, s.total, s.blocks);
    var plan, p, e := Planned(s, d), Partner(s, d), Witness(s, d);
    assert e <= s.total && e != p;
    var v := Parity.Other(s.disks[e][1]);
    t := s;
    if NewBlock(s, d, plan, 1) == s.disks[p][1] {
      t := Put(s, e, 1, v);
      Parity.ChangeOne(s, e, v);
      Parity.VisitedFollows(s, d, e, v);
      Parity.XorDiffers(s.disks[e][1], v, NewBlock(s, d, plan, 1));
    }
  }

  /** A block of the pair of disk d, in row 1. */
  lemma BlockOfPair(s: Raid, d: nat) returns (b: nat)
    requires Valid(s) && IsMirrored(s.g.level) && Paired(s, d)
    ensures b < s.g.maxBlk && SlotOf(s, b) == (if d <= s.g.numDisks then d else d - s.g.numDisks, 1)
  {
    hide Init;
    CapacityOf(s.g, s.total, s.blocks);
    var e := if d <= s.g.numDisks then d else d - s.g.numDisks;
    SlotIsOnto(s.g.level, s.g.numDisks, s.blocks, e, 1);
    b := LogicalOf(s.g.level, s.g.numDisks, s.blocks, e, 1);
  }

  /** Contents of row 1 that disk d should have, and that an unsafe plan does not give it. */
  lemma SpoilingData(s: Raid, d: nat) returns (t: Raid, v: Block)
    requires Valid(s) && IsMirrored(s.g.level) && 1 <= d <= s.total && !SafePlan(s, d)
    ensures Resembles(s, t) && Valid(t) && t.total == s.total && t.blocks == s.blocks && s.blocks > 1
    ensures NewBlock(t, d, Planned(s, d), 1) != v
    ensures var p := Partner(s, d); HealthOf(s, p) == Healthy ==> 1 <= p <= s.total && v == t.disks[p][1]
  {
    hide Planned, Init, NewBlock, RepairBy, Slot, SafePlan;
    CapacityOf(s.g, s.total, s.blocks);
    t := s;
    if HealthOf(s, Partner(s, d)) == Healthy {
      t := UnsafeData(s, d);
      v := t.disks[Partner(s, d)][1];
    } else {
      v := Parity.Other(NewBlock(s, d, Planned(s, d), 1));
    }
    SamePlan(s, t, d);
  }

  /** An array and a record that an unsafe plan spoils. */
  lemma Spoiled(s: Raid, d: nat) returns (t: Raid, h: map<nat, Block>)
    requires Valid(s) && IsMirrored(s.g.level) && 1 <= d <= s.total && s.status[d] != Healthy && !SafePlan(s, d)
    ensures Resembles(s, t) && Invariant(t, h) && !Invariant(Repair(t, d).0, h)
  {
    hide Planned, Init, NewBlock, RepairBy, Slot, Repair, Mirrored, Resembles;
    var b := BlockOfPair(s, d);
    var plan, v := Planned(s, d), Zero();
    t, v := SpoilingData(s, d);
    h := map[b := v];
    SamePlan(s, t, d);
    PairBlock(t, d, b, v);
    RecoveredRow(t, d, plan, 1);
    RepairStatus(t, d, plan);
    RepairSucceedsIff(t, d);
    var r := Repair(t, d).0;
    WrongBlock(r, d, b, v);
    assert b in h && !Mirrored(r, b, h[b]);
  }

  lemma WrongBlock(r: Raid, d: nat, b: nat, v: Block)
    requires Valid(r) && 1 <= d <= r.total && r.status[d] == Healthy && r.disks[d][1] != v
    requires SlotOf(r, b).1 == 1 && InPair(r, SlotOf(r, b).0, d)
    ensures !Mirrored(r, b, v)
  {
    hide Init, Slot;
  }

  /** For a disk that is out, only its partner matters. */
  lemma PairBlock(t: Raid, d: nat, b: nat, v: Block)
    requires Valid(t) && IsMirrored(t.g.level) && Paired(t, d) && 1 <= d <= t.total && t.status[d] != Healthy
    requires b < t.g.maxBlk && SlotOf(t, b) == (if d <= t.g.numDisks then d else d - t.g.numDisks, 1)
    requires HealthOf(t, Partner(t, d)) == Healthy ==> t.disks[Partner(t, d)][1] == v
    ensures Mirrored(t, b, v)
  {}

  lemma RepairStatus(s: Raid, d: nat, plan: Plan)
    requires Valid(s) && 1 <= d <= s.total && (plan.CopyOf? ==> plan.p <= s.total) && !plan.Refused?
    ensures RepairBy(s, d, plan).0.status == s.status[d := Healthy]
  {
    assert s.status[d := Recovery][d := Healthy] == s.status[d := Healthy];
  }

  /** Everything is allowed except the write to `max_blknum` where it has a place, and a repair by an
      unsafe plan. */
  ghost predicate Allowed(s: Raid, op: Op)
    requires Valid(s)
  {
    && Fits(s, op)
    && (op.WriteOp? && op.b == s.g.maxBlk ==> !SparesADisk(s))
    && (op.RepairOp? && 1 <= op.d <= s.total && s.status[op.d] != Healthy ==> SafePlan(s, op.d))
  }

  lemma StepKeeps(s: Raid, h: map<nat, Block>, op: Op)
    requires Invariant(s, h) && Allowed(s, op)
    ensures Invariant(Apply(s, op), Record(h, s, op))
  {
    hide Planned, SafePlan, Mirrored, Init, Write, RepairBy;
    match op
    case WriteOp(b, v) => WriteKeeps(s, h, b, v);
    case ReadOp(_) =>
    case FailOp(d, junk) => FailKeeps(s, h, d, junk);
    case RepairOp(d) => RepairKeeps(s, h, d);
  }

  ghost predicate AllowedRun(s: Raid, ops: seq<Op>)
    requires Valid(s)
    decreases |ops|
  {
    ops == [] || (Allowed(s, ops[0]) && AllowedRun(Apply(s, ops[0]), ops[1..]))
  }

  lemma {:induction false} AllowedFits(s: Raid, ops: seq<Op>)
    requires Valid(s) && AllowedRun(s, ops)
    ensures FitsRun(s, ops)
    decreases |ops|
  {
    hide Apply, SafePlan, Planned;
    if ops != [] {
      AllowedFits(Apply(s, ops[0]), ops[1..]);
      forall i | 0 <= i < |ops| ensures Fits(s, ops[i]) {
        if i > 0 { assert Fits(Apply(s, ops[0]), ops[1..][i - 1]); }
      }
    }
  }

  ghost predicate FitsRun(s: Raid, ops: seq<Op>) {
    forall i :: 0 <= i < |ops| ==> Fits(s, ops[i])
  }

  ghost function Run(s: Raid, h: map<nat, Block>, ops: seq<Op>): (r: (Raid, map<nat, Block>))
    requires Valid(s) && FitsRun(s, ops)
    ensures Valid(r.0) && r.0.g == s.g
    decreases |ops|
  {
    if ops == [] then (s, h) else Run(Apply(s, ops[0]), Record(h, s, ops[0]), ops[1..])
  }

  lemma {:induction false} RunKeeps(s: Raid, h: map<nat, Block>, ops: seq<Op>)
    requires Invariant(s, h) && AllowedRun(s, ops)
    ensures FitsRun(s, ops) && Invariant(Run(s, h, ops).0, Run(s, h, ops).1)
    decreases |ops|
  {
    hide Allowed, Apply, Record, Mirrored, Usable;
    AllowedFits(s, ops);
    if ops != [] {
      StepKeeps(s, h, ops[0]);
      RunKeeps(Apply(s, ops[0]), Record(h, s, ops[0]), ops[1..]);
    }
  }

  /** A recorded block is never read stale: it is refused if both disks of its pair are out, and
      otherwise reads back its last successful write. */
  ghost predicate ReadsBack(s: Raid, h: map<nat, Block>)
    requires Valid(s)
  {
    forall b :: b in h ==>
      var d := SlotOf(s, b).0;
      Read(s, b) == if HealthOf(s, d) == Healthy || HealthOf(s, d + s.g.numDisks) == Healthy
                    then Data(h[b]) else Unreadable
  }

  lemma InvariantReadsBack(s: Raid, h: map<nat, Block>)
    requires Invariant(s, h)
    ensures ReadsBack(s, h)
  {
    forall b | b in h
      ensures var d := SlotOf(s, b).0;
              Read(s, b) == if HealthOf(s, d) == Healthy || HealthOf(s, d + s.g.numDisks) == Healthy
                            then Data(h[b]) else Unreadable
    {
      assert Mirrored(s, b, h[b]);
      MirrorSlotFacts(s, b);
      var d := SlotOf(s, b).0;
      assert InPair(s, d, d) && InPair(s, d, d + s.g.numDisks);
    }
  }

  /** Mirrored safety, from any array, over any run: blocks on which the healthy disks agreed at the
      start, all of `h`, and blocks written since read back their last successful write. */
  lemma MirroredSafety(s: Raid, h: map<nat, Block>, ops: seq<Op>)
    requires Valid(s) && IsMirrored(s.g.level) && AllowedRun(s, ops)
    requires forall b :: b in h ==> Mirrored(s, b, h[b])
    ensures FitsRun(s, ops) && ReadsBack(Run(s, h, ops).0, Run(s, h, ops).1)
  {
    hide AllowedRun, Run, Mirrored, Usable;
    RunKeeps(s, h, ops);
    InvariantReadsBack(Run(s, h, ops).0, Run(s, h, ops).1);
  }

  // ---- Arrays that keep their labels

  /** Failures that leave the label in block 0 of the failed disk; no write where the bound check errs. */
  ghost predicate KeepsLabels(s: Raid, op: Op) {
    && Fits(s, op)
    && (op.FailOp? ==> |op.junk| > 0 && Carries(op.junk[0], s.g))
    && (op.WriteOp? && op.b == s.g.maxBlk ==> !SparesADisk(s))
  }

  lemma LabelledIsAllowed(s: Raid, op: Op)
    requires Valid(s) && IsMirrored(s.g.level) && Labelled(s) && KeepsLabels(s, op)
    ensures Allowed(s, op)
  {
    hide Init, Planned, Wanted, Carries;
    if op.RepairOp? && 1 <= op.d <= s.total && s.status[op.d] != Healthy {
      CapacityOf(s.g, s.total, s.blocks);
      CarriedPlan(s, op.d);
      WantedPlan(s, op.d);
    }
  }

  lemma LabelledStep(s: Raid, op: Op)
    requires Valid(s) && IsMirrored(s.g.level) && Labelled(s) && KeepsLabels(s, op)
    ensures Labelled(Apply(s, op))
  {
    hide Init, Planned, Carries, Slot;
    match op
    case WriteOp(b, v) => if b <= s.g.maxBlk { SlotRow(s, b); }
    case ReadOp(_) =>
    case FailOp(_, _) =>
    case RepairOp(_) =>
  }

  lemma SlotRow(s: Raid, b: nat)
    requires Valid(s) && IsMirrored(s.g.level)
    ensures SlotOf(s, b).1 >= 1
  {
    Raid0_1Row(s.g.numDisks, b);
  }

  lemma {:induction false} LabelledRunsAreAllowed(s: Raid, ops: seq<Op>)
    requires Valid(s) && IsMirrored(s.g.level) && Labelled(s)
    requires forall i :: 0 <= i < |ops| ==> KeepsLabels(s, ops[i])
    ensures AllowedRun(s, ops)
    decreases |ops|
  {
    hide Init, Apply, Allowed, Labelled, Carries;
    if ops != [] {
      LabelledIsAllowed(s, ops[0]);
      LabelledStep(s, ops[0]);
      var t := Apply(s, ops[0]);
      forall i | 0 <= i < |ops[1..]| ensures KeepsLabels(t, ops[1..][i]) { assert KeepsLabels(s, ops[i + 1]); }
      LabelledRunsAreAllowed(t, ops[1..]);
    }
  }

  /** From an array as init leaves it, over any run in which a failed disk may lose everything but its
      superblock: what reads succeed return the last successful write. */
  lemma LabelledSafety(s: Raid, h: map<nat, Block>, ops: seq<Op>)
    requires Valid(s) && IsMirrored(s.g.level) && Labelled(s)
    requires forall i :: 0 <= i < |ops| ==> KeepsLabels(s, ops[i])
    requires forall b :: b in h ==> Mirrored(s, b, h[b])
    ensures FitsRun(s, ops) && ReadsBack(Run(s, h, ops).0, Run(s, h, ops).1)
  {
    hide Run, ReadsBack, Mirrored, Labelled, KeepsLabels, Usable;
    LabelledRunsAreAllowed(s, ops);
    MirroredSafety(s, h, ops);
  }

  /** Without the superblock it fails: in every healthy mirrored array, disk 1 comes back holding other data
      and a level the code does not know, is declared repaired as it is, and block 0 reads back wrong. */
  lemma LostSuperblockBreaksRun(s: Raid, v: Block, w: Block, block0: Block)
    requires Valid(s) && IsMirrored(s.g.level) && v != w && SuperOf(block0).level >= 5
    requires forall d :: 1 <= d <= s.total ==> s.status[d] == Healthy
    ensures var ops := [WriteOp(0, v), FailOp(1, [block0] + seq(s.blocks - 1, _ => w)), RepairOp(1)];
            FitsRun(s, ops) && !ReadsBack(Run(s, map[], ops).0, Run(s, map[], ops).1)
  {
    hide Write, Slot, Run, SuperOf, Init;
    var junk := [block0] + seq(s.blocks - 1, _ => w);
    var ops := [WriteOp(0, v), FailOp(1, junk), RepairOp(1)];
    HealthyWrite(s, v);
    ThreeSteps(s, ops);
    var (u, h) := Run(s, map[], ops);
    LeftAsItCame(Write(s, 0, v).0, junk);
    assert h[0] == v;
  }

  lemma HealthyWrite(s: Raid, v: Block)
    requires Valid(s) && IsMirrored(s.g.level) && forall d :: 1 <= d <= s.total ==> s.status[d] == Healthy
    ensures 0 < s.g.maxBlk && Write(s, 0, v).1 == Success && SlotOf(s, 0) == (1, 1)
    ensures var t := Write(s, 0, v).0; t == s.(disks := t.disks)
  {
    CapacityOf(s.g, s.total, s.blocks);
    MulMonotone(1, s.g.numDisks, s.blocks - 1);
    MirrorSlotFacts(s, 0);
    Raid0_1Row(s.g.numDisks, 0);
  }

  lemma LeftAsItCame(t: Raid, junk: seq<Block>)
    requires Valid(t) && |junk| == t.blocks && SuperOf(junk[0]).level >= 5
    ensures var u := Repair(Fail(t, 1, junk), 1).0;
            u.status[1] == Healthy && u.disks[1] == junk && u.g == t.g && u.blocks == t.blocks && u.total == t.total
  {
    hide SuperOf, FailCount, Init;
  }

  // ---- The block the bound check lets through

  /** Under RAID1 with an odd number of disks a write to `max_blknum` lands on the mirror of block 0,
      so that block 0 reads back the wrong data once disk 1 fails. */
  lemma MaxBlockOverwritesMirror(s: Raid, v: Block, junk: seq<Block>)
    requires Valid(s) && SparesADisk(s) && |junk| == s.blocks
    requires forall d :: 1 <= d <= s.total ==> s.status[d] == Healthy
    ensures var (t, code) := Write(s, s.g.maxBlk, v);
            code == Success && Read(Fail(t, 1, junk), 0) == Data(v)
  {
    var n := s.g.numDisks;
    CapacityOf(s.g, s.total, s.blocks);
    DivModUnique(n, s.blocks - 1, 0);
    assert SlotOf(s, s.g.maxBlk) == (n + 1, 1);
    assert SlotOf(s, 0) == (1, 1);
  }

  /** So where the write has a place the condition is needed: in every such healthy array a run that
      makes it, once, reads back something other than the last successful write. */
  lemma MaxBlockBreaksRun(s: Raid, v: Block, w: Block)
    requires Valid(s) && SparesADisk(s) && v != w
    requires forall d :: 1 <= d <= s.total ==> s.status[d] == Healthy
    ensures var ops := [WriteOp(0, v), WriteOp(s.g.maxBlk, w), FailOp(1, s.disks[1])];
            FitsRun(s, ops) && !ReadsBack(Run(s, map[], ops).0, Run(s, map[], ops).1)
  {
    hide Write, Read, Slot, Run, Repair, Init;
    var t := Write(s, 0, v).0;
    FirstWrite(s, v);
    MaxBlockOverwritesMirror(t, w, s.disks[1]);
    var ops := [WriteOp(0, v), WriteOp(s.g.maxBlk, w), FailOp(1, s.disks[1])];
    ThreeSteps(s, ops);
    var (u, h) := Run(s, map[], ops);
    assert h[0] == v && u == Fail(Write(t, s.g.maxBlk, w).0, 1, s.disks[1]);
    MirrorStaysUp(t, w, s.disks[1]);
  }

  lemma MirrorStaysUp(t: Raid, w: Block, junk: seq<Block>)
    requires Valid(t) && SparesADisk(t) && |junk| == t.blocks
    requires forall d :: 1 <= d <= t.total ==> t.status[d] == Healthy
    ensures var u := Fail(Write(t, t.g.maxBlk, w).0, 1, junk);
            SlotOf(u, 0).0 == 1 && HealthOf(u, 1 + t.g.numDisks) == Healthy && u.g == t.g
  {
    CapacityOf(t.g, t.total, t.blocks);
    DivModUnique(0, t.blocks - 1, 0);
  }

  /** In a healthy array the write to block 0 succeeds and leaves every disk healthy. */
  lemma FirstWrite(s: Raid, v: Block)
    requires Valid(s) && SparesADisk(s) && forall d :: 1 <= d <= s.total ==> s.status[d] == Healthy
    ensures 0 < s.g.maxBlk && Write(s, 0, v).1 == Success
    ensures var t := Write(s, 0, v).0; t.g == s.g && t.total == s.total && t.status == s.status && t.blocks == s.blocks
    ensures SlotOf(s, 0) == (1, 1)
  {
    CapacityOf(s.g, s.total, s.blocks);
    MulMonotone(1, s.g.numDisks, s.blocks - 1);
  }

  lemma ThreeSteps(s: Raid, ops: seq<Op>)
    requires Valid(s) && |ops| == 3 && FitsRun(s, ops)
    ensures var s1, h1 := Apply(s, ops[0]), Record(map[], s, ops[0]);
            var s2, h2 := Apply(s1, ops[1]), Record(h1, s1, ops[1]);
            Run(s, map[], ops) == (Apply(s2, ops[2]), Record(h2, s2, ops[2]))
  {
    hide Apply, Record;
    var s1, h1 := Apply(s, ops[0]), Record(map[], s, ops[0]);
    var s2, h2 := Apply(s1, ops[1]), Record(h1, s1, ops[1]);
    assert ops[1..][1..] == [ops[2]] && ops[1..][0] == ops[1];
    assert Run(s2, h2, [ops[2]]) == Run(Apply(s2, ops[2]), Record(h2, s2, ops[2]), [ops[2]][1..]);
    assert [ops[2]][1..] == [];
  }
}
