/** The RAID array as a value: what one read, write, disk failure and repair do to it. */
module RaidModel {
  import opened Blocks
  import opened RaidAddress
  import opened RaidSuper
  import Words

  /** `NoDisk` is the -1 that get_disk_health returns for a number outside 1..total. */
  datatype Health = Healthy | Unhealthy | Recovery | NoDisk

  /** Disk 0 is the file-system disk, outside the array; row 0 of every other disk is its superblock. */
  datatype Raid = Raid(g: Geometry, total: nat, blocks: nat, disks: seq<seq<Block>>, status: seq<Health>)

  predicate Valid(s: Raid) {
    && Usable(s.g, s.total, s.blocks)
    && |s.disks| == s.total + 1
    && |s.status| == s.total + 1
    && (forall d :: 0 <= d < |s.disks| ==> |s.disks[d]| == s.blocks)
    && (forall d :: 1 <= d < |s.status| ==> s.status[d] != NoDisk)
  }

  function HealthOf(s: Raid, d: nat): Health
    requires Valid(s)
  {
    if 1 <= d <= s.total then s.status[d] else NoDisk
  }

  predicate OnDevice(s: Raid, d: nat, row: nat) {
    d <= s.total && row < s.blocks
  }

  function Get(s: Raid, d: nat, row: nat): Block
    requires Valid(s) && OnDevice(s, d, row)
  {
    s.disks[d][row]
  }

  function Put(s: Raid, d: nat, row: nat, v: Block): (t: Raid)
    requires Valid(s) && OnDevice(s, d, row)
    ensures Valid(t)
  {
    var rows: seq<Block> := s.disks[d][row := v];
    s.(disks := s.disks[d := rows])
  }

  function SetStatus(s: Raid, d: nat, h: Health): (t: Raid)
    requires Valid(s) && 1 <= d <= s.total && h != NoDisk
    ensures Valid(t)
  {
    s.(status := s.status[d := h])
  }

  /** All blocks of a row, disk by disk, from disk 0. */
  function Column(s: Raid, row: nat): (c: seq<Block>)
    requires Valid(s) && row < s.blocks
    ensures |c| == s.total + 1
  {
    seq(s.total + 1, d requires 0 <= d <= s.total => s.disks[d][row])
  }

  predicate IsParity(level: Level) {
    level.RAID4? || level.RAID5?
  }

  predicate IsMirrored(level: Level) {
    level.RAID1? || level.RAID0_1?
  }

  function SlotOf(s: Raid, b: nat): (nat, nat)
    requires Valid(s)
  {
    Slot(s.g.level, s.g.numDisks, s.blocks, b)
  }

  function ParityOf(s: Raid, row: nat): nat
    requires row >= 1
  {
    ParityDisk(s.g.level, s.g.numDisks, row)
  }

  // ---- Reading and writing one logical block

  /** `Off` is an access past the end of a disk, or to a disk that does not exist. */
  datatype Code = Success | Failed | Off

  datatype ReadResult = Data(v: Block) | Unreadable | OffDisk

  function ReadSlot(s: Raid, d: nat, row: nat): ReadResult
    requires Valid(s)
  {
    if OnDevice(s, d, row) then Data(Get(s, d, row)) else OffDisk
  }

  function Read(s: Raid, b: nat): ReadResult
    requires Valid(s)
  {
    if b > s.g.maxBlk then Unreadable
    else
      var (d, row) := SlotOf(s, b);
      if HealthOf(s, d) == Healthy then ReadSlot(s, d, row)
      else if IsMirrored(s.g.level) && HealthOf(s, d + s.g.numDisks) == Healthy
      then ReadSlot(s, d + s.g.numDisks, row)
      else Unreadable
  }

  /** Mirrored write: both disks when the primary is healthy, the mirror alone otherwise. */
  function WriteMirrored(s: Raid, d: nat, row: nat, v: Block): (r: (Raid, Code))
    requires Valid(s)
    ensures Valid(r.0)
  {
    var m := d + s.g.numDisks;
    if m > s.total then (s, Off)
    else if HealthOf(s, d) != Healthy && HealthOf(s, m) != Healthy then (s, Failed)
    else if row >= s.blocks then (s, Off)
    else
      var t := if HealthOf(s, d) == Healthy then Put(s, d, row, v) else s;
      (Put(t, m, row, v), Success)
  }

  /** Read-modify-write of data and parity; an unchanged block is not written at all. */
  function WriteParity(s: Raid, d: nat, p: nat, row: nat, v: Block): (t: Raid)
    requires Valid(s) && OnDevice(s, d, row) && OnDevice(s, p, row)
    ensures Valid(t)
  {
    var was := Get(s, d, row);
    if was == v then s
    else Put(Put(s, p, row, Xor(Xor(v, was), Get(s, p, row))), d, row, v)
  }

  function Write(s: Raid, b: nat, v: Block): (r: (Raid, Code))
    requires Valid(s)
    ensures Valid(r.0)
  {
    if b > s.g.maxBlk then (s, Failed)
    else
      var (d, row) := SlotOf(s, b);
      if IsMirrored(s.g.level) then WriteMirrored(s, d, row, v)
      else if HealthOf(s, d) != Healthy then (s, Failed)
      else if s.g.level.RAID0? then
        if OnDevice(s, d, row) then (Put(s, d, row, v), Success) else (s, Off)
      else
        ParitySlotFacts(s, b);
        (WriteParity(s, d, ParityOf(s, row), row, v), Success)
  }

  /** Under RAID4 and RAID5 an accepted block and its parity sit in the array, on different disks. */
  lemma ParitySlotFacts(s: Raid, b: nat)
    requires Valid(s) && IsParity(s.g.level) && b <= s.g.maxBlk
    ensures var (d, row) := SlotOf(s, b);
            var p := ParityOf(s, row);
            && 1 <= row < s.blocks && 1 <= d <= s.total && 1 <= p <= s.total && d != p
            && IsDataSlot(s.g.level, s.g.numDisks, s.blocks, d, row)
            && b < s.g.numDisks * (s.blocks - 1)
  {
    CapacityOf(s.g, s.total, s.blocks);
    BoundCheck(s.g, s.total, s.blocks, b);
  }

  // ---- Failure and repair

  /** A disk fails: it is marked unhealthy, and its rows, the superblock's included, may come back
      holding anything. */
  function Fail(s: Raid, d: nat, junk: seq<Block>): (t: Raid)
    requires Valid(s) && |junk| == s.blocks
    ensures Valid(t)
  {
    if 1 <= d <= s.total then SetStatus(s, d, Unhealthy).(disks := s.disks[d := junk]) else s
  }

  /** How many of disks 1..k are marked unhealthy; a disk left in recovery is not counted. */
  function FailCount(s: Raid, k: nat): nat
    requires Valid(s) && k <= s.total
  {
    if k == 0 then 0 else FailCount(s, k - 1) + (if s.status[k] == Unhealthy then 1 else 0)
  }

  /** How many disks parity recovery reads: one at least. */
  function VisitCount(total: nat): nat {
    if total <= 2 then 1 else total - 1
  }

  /** The j-th disk it reads. */
  function VisitedDisk(total: nat, r: nat, j: nat): (d: nat)
    ensures d <= total
  {
    (r + 1 + j) % (total + 1)
  }

  /** The blocks of a row that parity recovery of disk `r` xors together, in order. */
  function Visited(s: Raid, r: nat, row: nat): (v: seq<Block>)
    requires Valid(s) && row < s.blocks
    ensures |v| == VisitCount(s.total)
  {
    seq(VisitCount(s.total), j requires 0 <= j < VisitCount(s.total) => s.disks[VisitedDisk(s.total, r, j)][row])
  }

  function RecoverParity(s: Raid, r: nat): (t: Raid)
    requires Valid(s) && 1 <= r <= s.total
    ensures Valid(t)
  {
    var rows: seq<Block> := seq(s.blocks, i requires 0 <= i < s.blocks =>
                      if i == 0 then s.disks[r][0] else XorAll(Visited(s, r, i)));
    s.(disks := s.disks[r := rows])
  }

  /** The disk that mirror recovery of disk d takes for its partner, in 32 bits, when the superblock it
      read gives `n` as the number of disks. */
  function PartnerBy(n: nat, d: nat): nat {
    (if d >= n then d - n else d + n) % Words.WORD_RANGE
  }

  /** What handle_recovery does, by the level it finds: refuse, copy a disk, rebuild each row from other
      disks, or, for a level it does not know, nothing at all. */
  datatype Plan = Refused | CopyOf(p: nat) | XorOfVisited | LeftAsIs

  /** The plan for disk `d`, already marked as in recovery in `s`, under superblock `sb`. */
  function PlanOf(s: Raid, sb: Superblock, d: nat, failCount: nat): (plan: Plan)
    requires Valid(s)
    ensures plan.CopyOf? ==> 1 <= plan.p <= s.total && s.status[plan.p] == Healthy
  {
    if sb.level == 0 then Refused
    else if sb.level <= 2 then
      var p := PartnerBy(sb.numDisks, d);
      if HealthOf(s, p) == Healthy then CopyOf(p) else Refused
    else if sb.level == 3 then
      if failCount > 1 || sb.parityDisk == d then Refused else XorOfVisited
    else if sb.level == 4 then
      if failCount > 1 then Refused else XorOfVisited
    else LeftAsIs
  }

  function Recover(s: Raid, d: nat, plan: Plan): (t: Raid)
    requires Valid(s) && 1 <= d <= s.total && (plan.CopyOf? ==> plan.p <= s.total)
    ensures Valid(t) && t == s.(disks := t.disks)
  {
    match plan
    case CopyOf(p) => s.(disks := s.disks[d := s.disks[p]])
    case XorOfVisited => RecoverParity(s, d)
    case Refused | LeftAsIs => s
  }

  /** The plan that repair of disk d follows: its superblock is the one in block 0 of that same disk. */
  function Planned(s: Raid, d: nat): (plan: Plan)
    requires Valid(s) && 1 <= d <= s.total
    ensures plan.CopyOf? ==> 1 <= plan.p <= s.total && plan.p != d && s.status[plan.p] == Healthy
  {
    PlanOf(SetStatus(s, d, Recovery), SuperOf(s.disks[d][0]), d, FailCount(s, s.total))
  }

  /** The plan that the array's own geometry asks for. */
  function Wanted(s: Raid, d: nat): (plan: Plan)
    requires Valid(s) && 1 <= d <= s.total
    ensures plan.CopyOf? ==> 1 <= plan.p <= s.total && plan.p != d && s.status[plan.p] == Healthy
  {
    PlanOf(SetStatus(s, d, Recovery), Label(s.g), d, FailCount(s, s.total))
  }

  datatype RepairCode = Repaired | RecoveryFailed | BadDisk

  /** Recovery of disk d, out of service, by a given plan. */
  function RepairBy(s: Raid, d: nat, plan: Plan): (r: (Raid, RepairCode))
    requires Valid(s) && 1 <= d <= s.total && (plan.CopyOf? ==> plan.p <= s.total)
    ensures Valid(r.0) && r.0 == s.(disks := r.0.disks, status := r.0.status)
  {
    var s1 := SetStatus(s, d, Recovery);
    if plan.Refused? then (s1, RecoveryFailed) else (SetStatus(Recover(s1, d, plan), d, Healthy), Repaired)
  }

  function Repair(s: Raid, d: nat): (r: (Raid, RepairCode))
    requires Valid(s)
    ensures Valid(r.0) && r.0 == s.(disks := r.0.disks, status := r.0.status)
  {
    if d < 1 || d > s.total then (s, BadDisk)
    else if HealthOf(s, d) == Healthy then (s, Repaired)
    else RepairBy(s, d, Planned(s, d))
  }

  /** What disk f holds in a row after recovery by a plan. */
  function NewBlock(s: Raid, f: nat, plan: Plan, row: nat): Block
    requires Valid(s) && 1 <= f <= s.total && (plan.CopyOf? ==> plan.p <= s.total) && row < s.blocks
  {
    match plan
    case XorOfVisited => XorAll(Visited(s, f, row))
    case CopyOf(p) => s.disks[p][row]
    case Refused | LeftAsIs => s.disks[f][row]
  }

  /** Recovery changes disk f and no other. */
  lemma RecoveredRow(s: Raid, f: nat, plan: Plan, row: nat)
    requires Valid(s) && 1 <= f <= s.total && (plan.CopyOf? ==> plan.p <= s.total) && 1 <= row < s.blocks
    ensures RepairBy(s, f, plan).0.disks[f][row] == NewBlock(s, f, plan, row)
    ensures forall e :: 0 <= e <= s.total && e != f ==> RepairBy(s, f, plan).0.disks[e] == s.disks[e]
  {
    hide Init, XorAll;
    var s1 := SetStatus(s, f, Recovery);
    assert Visited(s1, f, row) == Visited(s, f, row);
  }

  /** Every disk of the array carries the array's geometry in block 0. */
  predicate Labelled(s: Raid)
    requires Valid(s)
  {
    forall d :: 1 <= d <= s.total ==> Carries(s.disks[d][0], s.g)
  }

  /** A disk that kept its label is repaired by the array's own plan. */
  lemma CarriedPlan(s: Raid, d: nat)
    requires Valid(s) && 1 <= d <= s.total && Carries(s.disks[d][0], s.g)
    ensures Planned(s, d) == Wanted(s, d)
  {
    hide SuperOf, FailCount;
  }

  /** The plan each level asks for. */
  lemma WantedPlan(s: Raid, d: nat)
    requires Valid(s) && 1 <= d <= s.total
    ensures var n, count := s.g.numDisks, FailCount(s, s.total);
            && (s.g.level.RAID0? ==> Wanted(s, d) == Refused)
            && (IsMirrored(s.g.level) ==>
                  var p := if d >= n then d - n else d + n;
                  Wanted(s, d) == if p != d && HealthOf(s, p) == Healthy then CopyOf(p) else Refused)
            && (IsParity(s.g.level) ==>
                  Wanted(s, d) == if count > 1 || (s.g.level.RAID4? && d == s.total) then Refused else XorOfVisited)
  {
    hide FailCount, Usable, Wanted;
    if IsMirrored(s.g.level) {
      WantedCopy(s, d);
    } else {
      WantedOther(s, d);
    }
  }

  lemma WantedCopy(s: Raid, d: nat)
    requires Valid(s) && 1 <= d <= s.total && IsMirrored(s.g.level)
    ensures var p := if d >= s.g.numDisks then d - s.g.numDisks else d + s.g.numDisks;
            Wanted(s, d) == if p != d && HealthOf(s, p) == Healthy then CopyOf(p) else Refused
  {
    hide FailCount, Usable;
    SmallNumbers(s);
    SmallPartner(s.g.numDisks, d, s.total);
  }

  lemma WantedOther(s: Raid, d: nat)
    requires Valid(s) && 1 <= d <= s.total && !IsMirrored(s.g.level)
    ensures Wanted(s, d) ==
            if s.g.level.RAID0? || FailCount(s, s.total) > 1 || (s.g.level.RAID4? && d == s.total) then Refused
            else XorOfVisited
  {
    hide FailCount, Usable;
    SmallNumbers(s);
  }

  lemma SmallPartner(n: nat, d: nat, total: nat)
    requires n <= total && d <= total && 2 * total < Words.WORD_RANGE
    ensures PartnerBy(n, d) == if d >= n then d - n else d + n
  {}

  /** Disk numbers and counts of a usable array fit in their fields. */
  lemma SmallNumbers(s: Raid)
    requires Valid(s)
    ensures 2 * s.total < Words.WORD_RANGE && s.g.numDisks <= s.total
    ensures s.g.level.RAID4? ==> s.g.parityDisk == s.total
    ensures Word32(s.g.numDisks) == s.g.numDisks
  {
    CapacityOf(s.g, s.total, s.blocks);
    MulMonotone(2, s.blocks, s.total);
  }

  /** t differs from s in data rows only. */
  ghost predicate Resembles(s: Raid, t: Raid) {
    && Valid(s) && Valid(t) && t.g == s.g && t.total == s.total && t.blocks == s.blocks && t.status == s.status
    && forall d :: 0 <= d <= s.total ==> t.disks[d][0] == s.disks[d][0]
  }

  lemma {:induction false} SameCount(s: Raid, t: Raid, k: nat)
    requires Valid(s) && Valid(t) && t.status == s.status && t.total == s.total && k <= s.total
    ensures FailCount(t, k) == FailCount(s, k)
  {
    if k > 0 { SameCount(s, t, k - 1); }
  }

  /** Which plan is followed, and which is wanted, does not depend on the data. */
  lemma ResemblingPlan(s: Raid, t: Raid, d: nat)
    requires Resembles(s, t) && 1 <= d <= s.total
    ensures Planned(t, d) == Planned(s, d) && Wanted(t, d) == Wanted(s, d)
  {
    hide SuperOf, FailCount, Init;
    SameCount(s, t, s.total);
  }

  // ---- Whole runs

  datatype Op =
    | WriteOp(b: nat, v: Block)
    | ReadOp(b: nat)
    | FailOp(d: nat, junk: seq<Block>)
    | RepairOp(d: nat)

  predicate Fits(s: Raid, op: Op) {
    op.FailOp? ==> |op.junk| == s.blocks
  }

  function Apply(s: Raid, op: Op): (t: Raid)
    requires Valid(s) && Fits(s, op)
    ensures Valid(t) && t.g == s.g && t.total == s.total && t.blocks == s.blocks
  {
    match op
    case WriteOp(b, v) => Write(s, b, v).0
    case ReadOp(_) => s
    case FailOp(d, junk) => Fail(s, d, junk)
    case RepairOp(d) => Repair(s, d).0
  }

  /** What each block should read back as: the last value a successful write gave it. */
  function Record(h: map<nat, Block>, s: Raid, op: Op): map<nat, Block>
    requires Valid(s)
  {
    if op.WriteOp? && Write(s, op.b, op.v).1 == Success then h[op.b := op.v] else h
  }
}
