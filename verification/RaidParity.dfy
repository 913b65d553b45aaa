/** RAID4 and RAID5: what a lost disk's contents are, when repair brings them back, and that
    nothing written is lost over whole runs with one failed disk at a time. */
module RaidParity {
  import opened Blocks
  import opened RaidAddress
  import opened RaidSuper
  import opened RaidModel

  predicate ParityHolds(s: Raid, row: nat)
    requires Valid(s) && row < s.blocks
  {
    XorAll(Column(s, row)[1..]) == Zero()
  }

  predicate AllParityHolds(s: Raid)
    requires Valid(s)
  {
    forall row :: 1 <= row < s.blocks ==> ParityHolds(s, row)
  }

  /** What the rest of the array says disk `f` holds in a row. */
  function Reconstructed(s: Raid, f: nat, row: nat): Block
    requires Valid(s) && 1 <= f <= s.total && row < s.blocks
  {
    XorAll(Column(s, row)[1..f] + Column(s, row)[f + 1..])
  }

  lemma ParityMeansReconstructed(s: Raid, f: nat, row: nat)
    requires Valid(s) && 1 <= f <= s.total && row < s.blocks
    ensures ParityHolds(s, row) <==> s.disks[f][row] == Reconstructed(s, f, row)
  {
    var c := Column(s, row)[1..];
    assert c[..f - 1] == Column(s, row)[1..f] && c[f..] == Column(s, row)[f + 1..];
    XorAllSplit(c, f - 1);
    XorSelf(c[f - 1]);
    XorInjective(c[f - 1], c[f - 1], Reconstructed(s, f, row));
  }

  // ---- Which disks recovery looks at

  /** The disk numbers that recovery of disk `r` visits, in order. */
  function VisitedDisks(total: nat, r: nat): seq<nat>
    requires 1 <= r <= total
  {
    seq(VisitCount(total), j requires 0 <= j < VisitCount(total) => VisitedDisk(total, r, j))
  }

  /** The disks above r, in order, and then those from 0 up to r-2. */
  function AboveThenBelow(total: nat, r: nat): seq<nat>
    requires 1 <= r <= total
  {
    seq(total - r, j => r + 1 + j) + seq(r - 1, j => j)
  }

  lemma VisitedOrder(total: nat, r: nat)
    requires 1 <= r <= total && total >= 2
    ensures VisitedDisks(total, r) == AboveThenBelow(total, r)
  {
    forall j | 0 <= j < total - 1 ensures VisitedDisks(total, r)[j] == AboveThenBelow(total, r)[j] {
      WrapIndex(total, r, j);
    }
  }

  lemma WrapIndex(total: nat, r: nat, j: nat)
    requires 1 <= r <= total && j < total - 1
    ensures (r + 1 + j) % (total + 1) == if j < total - r then r + 1 + j else j - (total - r)
  {
    if j < total - r {
      DivModUnique(0, total + 1, r + 1 + j);
    } else {
      DivModUnique(1, total + 1, j - (total - r));
    }
  }

  /** Recovery wraps modulo total+1, so it visits {0..total} minus {r, r-1}: it reads disk 0, which
      is not in the array, and skips disk r-1, except when r is 1. A lone disk has disk 0 for its rest. */
  lemma VisitedSet(total: nat, r: nat)
    requires 1 <= r <= total
    ensures VisitedDisks(total, r) == if total == 1 then [0] else AboveThenBelow(total, r)
    ensures total >= 2 ==> forall d :: d in VisitedDisks(total, r) <==> 0 <= d <= total && d != r && d != r - 1
  {
    if total == 1 {
      return;
    }
    hide VisitedDisks;
    VisitedOrder(total, r);
    var s := AboveThenBelow(total, r);
    forall d | 0 <= d <= total && d != r && d != r - 1 ensures d in s {
      assert s[if d > r then d - r - 1 else total - r + d] == d;
    }
    forall d | d in s ensures 0 <= d <= total && d != r && d != r - 1 {
      var j :| 0 <= j < |s| && s[j] == d;
    }
  }

  lemma VisitedBlocks(s: Raid, r: nat, row: nat)
    requires Valid(s) && 1 <= r <= s.total && row < s.blocks && s.total >= 2
    ensures Visited(s, r, row) == Column(s, row)[r + 1..] + Column(s, row)[..r - 1]
  {
    hide VisitedDisk, Usable;
    VisitedSet(s.total, r);
    var c := Column(s, row);
    forall j | 0 <= j < s.total - 1 ensures Visited(s, r, row)[j] == (c[r + 1..] + c[..r - 1])[j] {
      assert Visited(s, r, row)[j] == c[VisitedDisks(s.total, r)[j]];
    }
  }

  /** Recovery computes the lost block exactly when the disk is 1, or the disk it skips happens to
      agree with the outside disk it reads in its place. A lone disk has nothing to be rebuilt from. */
  predicate RecoverySound(s: Raid, r: nat, row: nat)
    requires Valid(s) && 1 <= r <= s.total && row < s.blocks
  {
    if s.total == 1 then s.disks[0][row] == Zero() else r == 1 || s.disks[0][row] == s.disks[r - 1][row]
  }

  lemma RecoveredBlock(s: Raid, r: nat, row: nat)
    requires Valid(s) && 1 <= r <= s.total && row < s.blocks
    ensures XorAll(Visited(s, r, row)) == Reconstructed(s, r, row) <==> RecoverySound(s, r, row)
  {
    hide Xor;
    var c := Column(s, row);
    if s.total == 1 {
      assert Visited(s, r, row) == [c[0]];
      XorAllSingleton(c[0]);
      assert c[1..1] + c[2..] == [];
      return;
    }
    hide Init;
    var above := XorAll(c[r + 1..]);
    VisitedBlocks(s, r, row);
    XorAllConcat(c[r + 1..], c[..r - 1]);
    XorAllConcat(c[1..r], c[r + 1..]);
    XorCommutes(XorAll(c[1..r]), above);
    XorInjective(above, XorAll(c[..r - 1]), XorAll(c[1..r]));
    if r > 1 {
      var mid := XorAll(c[1..r - 1]);
      assert c[..r - 1] == [c[0]] + c[1..r - 1] && c[1..r] == c[1..r - 1] + [c[r - 1]];
      XorAllConcat([c[0]], c[1..r - 1]);
      XorAllConcat(c[1..r - 1], [c[r - 1]]);
      XorAllSingleton(c[0]);
      XorAllSingleton(c[r - 1]);
      XorCommutes(c[0], mid);
      XorInjective(mid, c[0], c[r - 1]);
    }
  }

  // ---- Columns under each operation

  lemma ColumnAfterPut(s: Raid, d: nat, row: nat, v: Block, r: nat)
    requires Valid(s) && OnDevice(s, d, row) && r < s.blocks
    ensures Column(Put(s, d, row, v), r) == if r == row then Column(s, r)[d := v] else Column(s, r)
  {
    var c: seq<Block> := if r == row then Column(s, r)[d := v] else Column(s, r);
    assert forall e :: 0 <= e <= s.total ==> Column(Put(s, d, row, v), r)[e] == c[e];
  }

  /** A parity write moves the row's data and parity together and touches nothing else. */
  lemma ColumnAfterWrite(s: Raid, d: nat, p: nat, row: nat, v: Block, r: nat)
    requires Valid(s) && OnDevice(s, d, row) && OnDevice(s, p, row) && d != p && r < s.blocks
    ensures var t := WriteParity(s, d, p, row, v);
            var c := Column(s, r);
            Column(t, r) == if r != row then c else c[p := Xor(Xor(v, c[d]), c[p])][d := v]
    ensures WriteParity(s, d, p, row, v).disks[d][row] == v
  {
    var c := Column(s, row);
    if c[d] == v {
      XorSelf(v);
      XorZero(c[p]);
      assert c[p := c[p]][d := v] == c;
    } else {
      var t1 := Put(s, p, row, Xor(Xor(v, c[d]), c[p]));
      ColumnAfterPut(s, p, row, Xor(Xor(v, c[d]), c[p]), r);
      ColumnAfterPut(t1, d, row, v, r);
    }
  }

  /** The exclusive or of a row is conserved by changing a data block and its parity together. */
  lemma PairUpdateConserves(c: seq<Block>, d: nat, p: nat, v: Block)
    requires d < |c| && p < |c| && d != p
    ensures XorAll(c[p := Xor(Xor(v, c[d]), c[p])][d := v]) == XorAll(c)
  {
    var np := Xor(Xor(v, c[d]), c[p]);
    var c1: seq<Block> := c[p := np];
    XorAllUpdate(c, p, np);
    XorAllUpdate(c1, d, v);
    var delta := Xor(c[d], v);
    XorCommutes(v, c[d]);
    XorCommutes(delta, c[p]);
    XorCancels(c[p], delta);
    XorCancels(delta, XorAll(c));
  }

  lemma WriteKeepsRowXor(s: Raid, d: nat, p: nat, row: nat, v: Block, r: nat)
    requires Valid(s) && 1 <= d <= s.total && 1 <= p <= s.total && d != p && row < s.blocks && r < s.blocks
    ensures XorAll(Column(WriteParity(s, d, p, row, v), r)[1..]) == XorAll(Column(s, r)[1..])
  {
    ColumnAfterWrite(s, d, p, row, v, r);
    if r == row {
      var c := Column(s, r);
      PairUpdateConserves(c[1..], d - 1, p - 1, v);
      assert c[p := Xor(Xor(v, c[d]), c[p])][d := v][1..]
          == c[1..][p - 1 := Xor(Xor(v, c[d]), c[p])][d - 1 := v];
    }
  }

  /** A write to two other disks leaves what the array says of disk `f` as it was. */
  lemma WriteKeepsReconstructed(s: Raid, d: nat, p: nat, row: nat, v: Block, f: nat, r: nat)
    requires Valid(s) && 1 <= d <= s.total && 1 <= p <= s.total && d != p && row < s.blocks && r < s.blocks
    requires 1 <= f <= s.total && (r == row ==> f != d && f != p)
    ensures Reconstructed(WriteParity(s, d, p, row, v), f, r) == Reconstructed(s, f, r)
  {
    var t := WriteParity(s, d, p, row, v);
    ColumnAfterWrite(s, d, p, row, v, r);
    if r == row {
      WriteKeepsRowXor(s, d, p, row, v, r);
      Partition(s, f, r);
      Partition(t, f, r);
      assert Column(t, r)[f] == Column(s, r)[f];
      XorInjective(s.disks[f][r], Reconstructed(s, f, r), Reconstructed(t, f, r));
    }
  }

  lemma Partition(s: Raid, f: nat, row: nat)
    requires Valid(s) && 1 <= f <= s.total && row < s.blocks
    ensures XorAll(Column(s, row)[1..]) == Xor(Column(s, row)[f], Reconstructed(s, f, row))
  {
    var c := Column(s, row)[1..];
    assert c[..f - 1] == Column(s, row)[1..f] && c[f..] == Column(s, row)[f + 1..];
    XorAllSplit(c, f - 1);
  }

  lemma ReconstructedIgnoresOwnDisk(s: Raid, t: Raid, f: nat, row: nat)
    requires Valid(s) && Valid(t) && s.total == t.total && 1 <= f <= s.total && row < s.blocks && row < t.blocks
    requires forall e :: 0 <= e <= s.total && e != f ==> s.disks[e] == t.disks[e]
    ensures Reconstructed(s, f, row) == Reconstructed(t, f, row)
  {
    assert Column(s, row)[1..f] == Column(t, row)[1..f];
    assert Column(s, row)[f + 1..] == Column(t, row)[f + 1..];
  }

  // ---- Repair of one disk

  lemma {:induction false} NoFailures(s: Raid, f: nat, k: nat)
    requires Valid(s) && k <= s.total
    requires forall e :: 1 <= e <= s.total && e != f ==> s.status[e] == Healthy
    ensures FailCount(s, k) <= if 1 <= f <= k then 1 else 0
  {
    if k > 0 { NoFailures(s, f, k - 1); }
  }

  /** Which disks the array's geometry lets be repaired when no other disk is failed. */
  predicate RepairProceeds(s: Raid, f: nat) {
    s.g.level.RAID5? || (s.g.level.RAID4? && f != s.total)
  }

  /** Repair of the one disk that is out follows the plan its own superblock gives, and that is the plan
      the array wants if the superblock is still there. */
  lemma RepairOfSingleFailure(s: Raid, f: nat)
    requires Valid(s) && IsParity(s.g.level) && 1 <= f <= s.total && s.status[f] != Healthy
    requires forall e :: 1 <= e <= s.total && e != f ==> s.status[e] == Healthy
    ensures var (t, code) := Repair(s, f);
            && (code == Repaired <==> !Planned(s, f).Refused?)
            && (code == Repaired ==> t == SetStatus(Recover(s, f, Planned(s, f)), f, Healthy))
            && (code != Repaired ==> code == RecoveryFailed && t == SetStatus(s, f, Recovery))
    ensures Wanted(s, f) == if RepairProceeds(s, f) then XorOfVisited else Refused
    ensures Carries(s.disks[f][0], s.g) ==> Planned(s, f) == Wanted(s, f)
  {
    hide PlanOf, SuperOf, Init, Label;
    NoFailures(s, f, s.total);
    WantedPlan(s, f);
    if Carries(s.disks[f][0], s.g) { CarriedPlan(s, f); }
    RecoverIgnoresStatus(s, f, Planned(s, f));
  }

  lemma RecoverIgnoresStatus(s: Raid, f: nat, plan: Plan)
    requires Valid(s) && 1 <= f <= s.total && (plan.CopyOf? ==> plan.p <= s.total)
    ensures SetStatus(Recover(SetStatus(s, f, Recovery), f, plan), f, Healthy)
         == SetStatus(Recover(s, f, plan), f, Healthy)
  {
    var s1 := SetStatus(s, f, Recovery);
    assert forall row :: 0 <= row < s.blocks ==> Visited(s1, f, row) == Visited(s, f, row);
    assert RecoverParity(s1, f).disks[f] == RecoverParity(s, f).disks[f];
    assert s.status[f := Recovery][f := Healthy] == s.status[f := Healthy];
  }

  /** Whether a repair by the plan at hand gives disk `f` the block that the rest of the array determines.
      A plan that rebuilds rows does so when recovery is sound; one that copies another disk, or does
      nothing, only if that block is there already. */
  predicate RowRestored(s: Raid, f: nat, row: nat)
    requires Valid(s) && 1 <= f <= s.total && row < s.blocks
  {
    match Planned(s, f)
    case Refused => false
    case XorOfVisited => RecoverySound(s, f, row)
    case CopyOf(p) => p <= s.total && s.disks[p][row] == Reconstructed(s, f, row)
    case LeftAsIs => s.disks[f][row] == Reconstructed(s, f, row)
  }

  /** After repair a row's parity holds, and the lost block is back, exactly when recovery restored it. */
  lemma RepairRestoresRowIff(s: Raid, f: nat, row: nat)
    requires Valid(s) && IsParity(s.g.level) && 1 <= f <= s.total && s.status[f] != Healthy && 1 <= row < s.blocks
    requires forall e :: 1 <= e <= s.total && e != f ==> s.status[e] == Healthy
    requires !Planned(s, f).Refused?
    ensures ParityHolds(Repair(s, f).0, row) <==> RowRestored(s, f, row)
    ensures Repair(s, f).0.disks[f][row] == Reconstructed(s, f, row) <==> RowRestored(s, f, row)
  {
    hide Planned, Init, RepairBy, Reconstructed, RecoverySound, Visited;
    var t := Repair(s, f).0;
    RecoveredRow(s, f, Planned(s, f), row);
    RecoveredBlock(s, f, row);
    ReconstructedIgnoresOwnDisk(s, t, f, row);
    ParityMeansReconstructed(t, f, row);
  }

  /** The superblock decides: whatever the data, repair does what the array wants exactly when the plan
      read from block 0 of the failed disk is the one the array's geometry gives. */
  lemma RepairAsWantedIff(s: Raid, f: nat)
    requires Valid(s) && IsParity(s.g.level) && 1 <= f <= s.total && s.status[f] != Healthy
    requires forall e :: 1 <= e <= s.total && e != f ==> s.status[e] == Healthy
    ensures (forall t :: Resembles(s, t) ==> Repair(t, f) == RepairBy(t, f, Wanted(t, f)))
            <==> Planned(s, f) == Wanted(s, f)
  {
    hide Planned, Wanted, Init, RepairBy, RecoverParity;
    var p, q := Planned(s, f), Wanted(s, f);
    RepairOfSingleFailure(s, f);
    if p == q {
      forall t | Resembles(s, t) ensures Repair(t, f) == RepairBy(t, f, Wanted(t, f)) { ResemblingPlan(s, t, f); }
    } else {
      var t := Telling(s, f, p, q);
      ResemblingPlan(s, t, f);
      assert Repair(t, f) == RepairBy(t, f, p);
    }
  }

  /** Data on which two different plans leave different arrays. */
  lemma Telling(s: Raid, f: nat, p: Plan, q: Plan) returns (t: Raid)
    requires Valid(s) && IsParity(s.g.level) && 1 <= f <= s.total && p != q && (q == Refused || q == XorOfVisited)
    requires p.CopyOf? ==> 1 <= p.p <= s.total && p.p != f
    ensures Resembles(s, t) && RepairBy(t, f, p) != RepairBy(t, f, q)
  {
    hide Init, RecoverParity, NewBlock;
    t := s;
    if q == XorOfVisited && !p.Refused? {
      CapacityOf(s.g, s.total, s.blocks);
      t := TellingData(s, f, p);
      RecoveredRow(t, f, p, 1);
      RecoveredRow(t, f, q, 1);
    }
  }

  lemma ChangeOne(s: Raid, e: nat, v: Block)
    requires Valid(s) && e <= s.total
    ensures Resembles(s, Put(s, e, 1, v))
  {}

  /** A visited disk is visited once. */
  lemma VisitedAfterPut(s: Raid, f: nat, e: nat, v: Block)
    requires Valid(s) && 1 <= f <= s.total && e <= s.total && s.total >= 2
    ensures var k := if e > f then e - f - 1 else s.total - f + e;
            var was, now := Visited(s, f, 1), Visited(Put(s, e, 1, v), f, 1);
            if e == f || e == f - 1 then now == was
            else 0 <= k < |was| && was[k] == s.disks[e][1] && now == was[k := v]
  {
    hide Init, Visited, Column;
    var c := Column(s, 1);
    ColumnAfterPut(s, e, 1, v, 1);
    VisitedBlocks(s, f, 1);
    VisitedBlocks(Put(s, e, 1, v), f, 1);
    SplitUpdate(c, f, e, v);
    assert c[e] == s.disks[e][1] by { ColumnAt(s, 1, e); }
  }

  lemma ColumnAt(s: Raid, row: nat, e: nat)
    requires Valid(s) && row < s.blocks && e <= s.total
    ensures Column(s, row)[e] == s.disks[e][row]
  {}

  lemma SplitUpdate(c: seq<Block>, f: nat, e: nat, v: Block)
    requires 1 <= f < |c| && e < |c|
    ensures var was := c[f + 1..] + c[..f - 1];
            var now := c[e := v][f + 1..] + c[e := v][..f - 1];
            var k := if e > f then e - f - 1 else |c| - 1 - f + e;
            if e == f || e == f - 1 then now == was
            else 0 <= k < |was| && was[k] == c[e] && now == was[k := v]
  {}

  /** The rebuilt block follows every change of a visited disk and no change of any other. */
  lemma VisitedFollows(s: Raid, f: nat, e: nat, v: Block)
    requires Valid(s) && 1 <= f <= s.total && e <= s.total && s.total >= 2
    ensures var t := Put(s, e, 1, v);
            if e == f || e == f - 1 then Visited(t, f, 1) == Visited(s, f, 1)
            else XorAll(Visited(t, f, 1)) == Xor(Xor(s.disks[e][1], v), XorAll(Visited(s, f, 1)))
  {
    hide Init, Visited, Xor, XorAll;
    VisitedAfterPut(s, f, e, v);
    if e != f && e != f - 1 {
      XorAllUpdate(Visited(s, f, 1), if e > f then e - f - 1 else s.total - f + e, v);
    }
  }

  lemma TellingData(s: Raid, f: nat, p: Plan) returns (t: Raid)
    requires Valid(s) && 1 <= f <= s.total && s.total >= 3
    requires p == LeftAsIs || (p.CopyOf? && 1 <= p.p <= s.total && p.p != f)
    ensures Resembles(s, t) && NewBlock(t, f, p, 1) != NewBlock(t, f, XorOfVisited, 1)
  {
    hide Init, Visited;
    // A disk whose row tells the two apart: f itself, the copied disk if it is not visited, else another.
    var e := if p.LeftAsIs? then f else if p.p == f - 1 then p.p else Bystander(s.total, f, p.p);
    var x, v := s.disks[e][1], Other(s.disks[e][1]);
    t := s;
    if NewBlock(s, f, p, 1) == NewBlock(s, f, XorOfVisited, 1) {
      t := Put(s, e, 1, v);
      ChangeOne(s, e, v);
      VisitedFollows(s, f, e, v);
      XorDiffers(x, v, NewBlock(s, f, XorOfVisited, 1));
    }
  }

  /** A visited disk other than `p`. */
  function Bystander(total: nat, f: nat, p: nat): (e: nat)
    requires 1 <= f <= total && total >= 3 && 1 <= p <= total && p != f && p != f - 1
    ensures e <= total && e != f && e != f - 1 && e != p
  {
    if f != 1 then 0 else if p == 2 then 3 else 2
  }

  function Ones(): (b: Block)
    ensures b != Zero()
  {
    var b: Block := seq(BSIZE, _ => 1);
    assert b[0] != Zero()[0];
    b
  }

  /** Some block other than x. */
  function Other(x: Block): (y: Block)
    ensures y != x
  {
    if x == Zero() then Ones() else Zero()
  }

  lemma XorDiffers(x: Block, v: Block, r: Block)
    requires x != v
    ensures Xor(Xor(x, v), r) != r
  {
    XorSelf(x);
    XorInjective(x, v, x);
    XorZero(r);
    XorCommutes(Xor(x, v), r);
    XorInjective(r, Xor(x, v), Zero());
    XorCommutes(r, Zero());
  }

  // ---- A superblock that is gone

  /** A superblock of zeros, or any other that says RAID0, makes repair refuse for good, though nothing
      else is lost. */
  lemma LostSuperblockRefused(s: Raid, f: nat)
    requires Valid(s) && IsParity(s.g.level) && 1 <= f <= s.total && s.status[f] != Healthy
    requires s.disks[f][0] == Zero() || SuperOf(s.disks[f][0]).level == 0
    ensures var (t, code) := Repair(s, f);
            code == RecoveryFailed && t == SetStatus(s, f, Recovery) && Repair(t, f) == (t, RecoveryFailed)
  {
    hide SuperOf, FailCount, Init;
    ZeroSaysRaid0();
    assert s.status[f := Recovery][f := Recovery] == s.status[f := Recovery];
  }

  lemma ZeroSaysRaid0()
    ensures SuperOf(Zero()).level == 0
  {}

  // ---- Survival over whole runs

  /** At most disk `f` is out of service; 0 stands for none. */
  predicate OnlyFailed(s: Raid, f: nat)
    requires Valid(s)
  {
    && f <= s.total
    && (forall e :: 1 <= e <= s.total && e != f ==> s.status[e] == Healthy)
    && (f != 0 ==> s.status[f] != Healthy)
  }

  /** Block `b` is safe: in place on its disk or, if that disk is out, recoverable from the others. */
  predicate Safe(s: Raid, f: nat, b: nat, v: Block)
    requires Valid(s) && IsParity(s.g.level) && f <= s.total
  {
    b <= s.g.maxBlk &&
    (ParitySlotFacts(s, b);
     var (d, row) := SlotOf(s, b);
     if d == f then Reconstructed(s, f, row) == v else s.disks[d][row] == v)
  }

  predicate Invariant(s: Raid, h: map<nat, Block>, f: nat) {
    && Valid(s) && IsParity(s.g.level)
    && OnlyFailed(s, f)
    && (f == 0 ==> AllParityHolds(s))
    && (forall b :: b in h ==> Safe(s, f, b, h[b]))
  }

  /** One failure at a time, and no repair that goes ahead without restoring every row. */
  predicate Allowed(s: Raid, op: Op)
    requires Valid(s)
  {
    && Fits(s, op)
    && (op.FailOp? ==> forall e :: 1 <= e <= s.total && e != op.d ==> s.status[e] == Healthy)
    && (op.RepairOp? && 1 <= op.d <= s.total && s.status[op.d] != Healthy && !Planned(s, op.d).Refused? ==>
          forall row :: 1 <= row < s.blocks ==> RowRestored(s, op.d, row))
  }

  /** The disk out of service after an operation. */
  function FailedAfter(s: Raid, f: nat, op: Op): nat
    requires Valid(s) && f <= s.total
  {
    match op
    case FailOp(d, _) => if 1 <= d <= s.total then d else f
    case RepairOp(d) => if d == f && f != 0 && !Planned(s, f).Refused? then 0 else f
    case _ => f
  }

  lemma WriteOther(s: Raid, f: nat, b: nat, v: Block, c: nat, w: Block)
    requires Valid(s) && IsParity(s.g.level) && b <= s.g.maxBlk && f <= s.total && b != c
    requires SlotOf(s, b).0 != f && Safe(s, f, c, w)
    requires var (d, row) := SlotOf(s, b); 1 <= row && d <= s.total && row < s.blocks && ParityOf(s, row) <= s.total
    ensures var (d, row) := SlotOf(s, b); Safe(WriteParity(s, d, ParityOf(s, row), row, v), f, c, w)
  {
    hide Init, ParityDisk, XorAll, Xor;
    ParitySlotFacts(s, b);
    ParitySlotFacts(s, c);
    SlotsAreDistinct(s.g.level, s.g.numDisks, s.blocks, b, c);
    CapacityOf(s.g, s.total, s.blocks);
    var (d, row) := SlotOf(s, b);
    var (d', row') := SlotOf(s, c);
    var p := ParityOf(s, row);
    if d' == f {
      WriteKeepsReconstructed(s, d, p, row, v, f, row');
    } else {
      ColumnAfterWrite(s, d, p, row, v, row');
      assert Column(WriteParity(s, d, p, row, v), row')[d'] == Column(s, row')[d'];
    }
  }

  lemma WriteKeeps(s: Raid, h: map<nat, Block>, f: nat, b: nat, v: Block)
    requires Invariant(s, h, f)
    ensures Invariant(Write(s, b, v).0, Record(h, s, WriteOp(b, v)), f)
  {
    hide Init, Slot, ParityDisk, XorAll, Xor;
    var (t, code) := Write(s, b, v);
    if code == Success {
      ParitySlotFacts(s, b);
      var (d, row) := SlotOf(s, b);
      var p := ParityOf(s, row);
      assert t == WriteParity(s, d, p, row, v) && d != f;
      ColumnAfterWrite(s, d, p, row, v, row);
      forall c | c in h && c != b ensures Safe(t, f, c, h[c]) { WriteOther(s, f, b, v, c, h[c]); }
      if f == 0 {
        forall r | 1 <= r < s.blocks ensures ParityHolds(t, r) {
          assert ParityHolds(s, r);
          WriteKeepsRowXor(s, d, p, row, v, r);
        }
      }
    }
  }

  lemma FailKeeps(s: Raid, h: map<nat, Block>, f: nat, d: nat, junk: seq<Block>)
    requires Invariant(s, h, f) && Allowed(s, FailOp(d, junk)) && 1 <= d <= s.total
    ensures Invariant(Fail(s, d, junk), h, d)
  {
    hide Init, Slot, XorAll;
    var t := Fail(s, d, junk);
    forall b | b in h ensures Safe(t, d, b, h[b]) {
      ParitySlotFacts(s, b);
      var (e, row) := SlotOf(s, b);
      assert Safe(s, f, b, h[b]);
      if e == d {
        ReconstructedIgnoresOwnDisk(s, t, d, row);
        if f == 0 {
          assert ParityHolds(s, row);
          ParityMeansReconstructed(s, d, row);
        }
      }
    }
  }

  lemma RepairKeeps(s: Raid, h: map<nat, Block>, f: nat)
    requires Invariant(s, h, f) && f != 0 && Allowed(s, RepairOp(f))
    ensures Invariant(Repair(s, f).0, h, if Planned(s, f).Refused? then f else 0)
  {
    hide Planned, RowRestored, Init, Repair, Reconstructed, Slot, ParityDisk, XorAll, Safe;
    if Planned(s, f).Refused? {
      RefusedKeeps(s, h, f);
    } else {
      DoneKeeps(s, h, f);
    }
  }

  lemma DoneKeeps(s: Raid, h: map<nat, Block>, f: nat)
    requires Invariant(s, h, f) && f != 0 && Allowed(s, RepairOp(f)) && !Planned(s, f).Refused?
    ensures Invariant(Repair(s, f).0, h, 0)
  {
    hide Planned, RowRestored, Init, Repair, Reconstructed, Slot, ParityDisk, XorAll;
    RepairOfSingleFailure(s, f);
    var t := Repair(s, f).0;
    forall row | 1 <= row < s.blocks
      ensures ParityHolds(t, row) && t.disks[f][row] == Reconstructed(s, f, row)
    {
      RepairRestoresRowIff(s, f, row);
    }
    forall b | b in h ensures Safe(t, 0, b, h[b]) {
      ParitySlotFacts(s, b);
      assert Safe(s, f, b, h[b]);
    }
  }

  lemma RefusedKeeps(s: Raid, h: map<nat, Block>, f: nat)
    requires Invariant(s, h, f) && f != 0 && Planned(s, f).Refused?
    ensures Invariant(Repair(s, f).0, h, f)
  {
    hide Planned, RowRestored, Init, Repair, Reconstructed, Slot, ParityDisk, XorAll;
    RepairOfSingleFailure(s, f);
    var t := Repair(s, f).0;
    forall b | b in h ensures Safe(t, f, b, h[b]) {
      ParitySlotFacts(s, b);
      assert Safe(s, f, b, h[b]);
      ReconstructedIgnoresOwnDisk(s, t, f, SlotOf(s, b).1);
    }
  }

  lemma StepKeeps(s: Raid, h: map<nat, Block>, f: nat, op: Op)
    requires Invariant(s, h, f) && Allowed(s, op)
    ensures Invariant(Apply(s, op), Record(h, s, op), FailedAfter(s, f, op))
  {
    hide Usable, Safe, AllParityHolds;
    match op
    case WriteOp(b, v) => WriteKeeps(s, h, f, b, v);
    case ReadOp(_) =>
    case FailOp(d, junk) => if 1 <= d <= s.total { FailKeeps(s, h, f, d, junk); }
    case RepairOp(d) => if d == f && f != 0 { RepairKeeps(s, h, f); }
  }

  predicate AllowedRun(s: Raid, ops: seq<Op>)
    requires Valid(s)
    decreases |ops|
  {
    ops == [] || (Allowed(s, ops[0]) && AllowedRun(Apply(s, ops[0]), ops[1..]))
  }

  function Run(s: Raid, h: map<nat, Block>, ops: seq<Op>): (r: (Raid, map<nat, Block>))
    requires Valid(s) && AllowedRun(s, ops)
    ensures Valid(r.0)
    decreases |ops|
  {
    if ops == [] then (s, h) else Run(Apply(s, ops[0]), Record(h, s, ops[0]), ops[1..])
  }

  lemma {:induction false} RunKeeps(s: Raid, h: map<nat, Block>, f: nat, ops: seq<Op>) returns (f': nat)
    requires Invariant(s, h, f) && AllowedRun(s, ops)
    ensures var (t, h') := Run(s, h, ops); Invariant(t, h', f')
    decreases |ops|
  {
    f' := f;
    if ops != [] {
      StepKeeps(s, h, f, ops[0]);
      f' := RunKeeps(Apply(s, ops[0]), Record(h, s, ops[0]), FailedAfter(s, f, ops[0]), ops[1..]);
    }
  }

  /** Every recorded block reads back its last write, or is refused while its own disk is out. */
  predicate ReadsBack(s: Raid, h: map<nat, Block>)
    requires Valid(s)
  {
    forall b :: b in h ==>
      Read(s, b) == if HealthOf(s, SlotOf(s, b).0) == Healthy then Data(h[b]) else Unreadable
  }

  lemma InvariantReadsBack(s: Raid, h: map<nat, Block>, f: nat)
    requires Invariant(s, h, f)
    ensures ReadsBack(s, h)
  {
    forall b | b in h
      ensures Read(s, b) == if HealthOf(s, SlotOf(s, b).0) == Healthy then Data(h[b]) else Unreadable
    {
      assert Safe(s, f, b, h[b]);
      ParitySlotFacts(s, b);
    }
  }

  /** What every block of the array holds, written or not. */
  function Contents(s: Raid): map<nat, Block>
    requires Valid(s) && IsParity(s.g.level)
  {
    map b: nat | b <= s.g.maxBlk :: BlockAt(s, b)
  }

  function BlockAt(s: Raid, b: nat): Block
    requires Valid(s) && IsParity(s.g.level) && b <= s.g.maxBlk
  {
    ParitySlotFacts(s, b);
    var (d, row) := SlotOf(s, b);
    s.disks[d][row]
  }

  lemma ContentsAreSafe(s: Raid)
    requires Valid(s) && IsParity(s.g.level) && OnlyFailed(s, 0) && AllParityHolds(s)
    ensures Invariant(s, Contents(s), 0)
  {
    forall b | b in Contents(s) ensures Safe(s, 0, b, Contents(s)[b]) { ParitySlotFacts(s, b); }
  }

  /** A run forgets no block. */
  lemma {:induction false} RunKeepsBlocks(s: Raid, h: map<nat, Block>, ops: seq<Op>)
    requires Valid(s) && AllowedRun(s, ops)
    ensures forall b :: b in h ==> b in Run(s, h, ops).1
    decreases |ops|
  {
    hide Record, Apply;
    if ops != [] {
      assert forall b :: b in h ==> b in Record(h, s, ops[0]) by { RecordKeepsBlocks(h, s, ops[0]); }
      RunKeepsBlocks(Apply(s, ops[0]), Record(h, s, ops[0]), ops[1..]);
    }
  }

  lemma RecordKeepsBlocks(h: map<nat, Block>, s: Raid, op: Op)
    requires Valid(s)
    ensures forall b :: b in h ==> b in Record(h, s, op)
  {}

  /** Survival: over every run with one failure at a time and sound repairs, every block of the array
      reads back its last successful write, or what it held at the start, unless its own disk is out at
      that moment; and whenever no disk is out every row's parity holds. */
  lemma Survival(s: Raid, ops: seq<Op>)
    requires Valid(s) && IsParity(s.g.level) && OnlyFailed(s, 0) && AllParityHolds(s) && AllowedRun(s, ops)
    ensures var (t, h) := Run(s, Contents(s), ops);
            && (forall b :: 0 <= b <= s.g.maxBlk ==> b in h) && ReadsBack(t, h)
            && (OnlyFailed(t, 0) ==> AllParityHolds(t))
  {
    ContentsAreSafe(s);
    RunKeepsBlocks(s, Contents(s), ops);
    var f := RunKeeps(s, Contents(s), 0, ops);
    var (t, h) := Run(s, Contents(s), ops);
    InvariantReadsBack(t, h, f);
  }

  // ---- Disk 1: no condition at all

  predicate TouchesOnlyDiskOne(s: Raid, ops: seq<Op>) {
    forall i :: 0 <= i < |ops| ==>
      && Fits(s, ops[i])
      && (ops[i].FailOp? ==> ops[i].d == 1 && |ops[i].junk| > 0 && Carries(ops[i].junk[0], s.g))
  }

  /** While disk 1 is out it carries the array's label. */
  predicate LabelKept(s: Raid)
    requires Valid(s)
  {
    s.status[1] == Healthy || Carries(s.disks[1][0], s.g)
  }

  lemma LabelledRepair(s: Raid)
    requires Valid(s) && IsParity(s.g.level) && OnlyFailed(s, 1) && LabelKept(s)
    ensures Planned(s, 1) == XorOfVisited && forall row :: 1 <= row < s.blocks ==> RowRestored(s, 1, row)
  {
    hide Carries, Planned, Repair, Init;
    CapacityOf(s.g, s.total, s.blocks);
    RepairOfSingleFailure(s, 1);
  }

  /** A step keeps the label of a disk 1 that is out. */
  lemma StepKeepsLabel(s: Raid, h: map<nat, Block>, f: nat, op: Op)
    requires Invariant(s, h, f) && f <= 1 && LabelKept(s) && TouchesOnlyDiskOne(s, [op])
    ensures Allowed(s, op) && LabelKept(Apply(s, op)) && FailedAfter(s, f, op) <= 1
  {
    hide Carries, Planned, Init, RowRestored, RecoverParity;
    assert [op][0] == op;
    if f == 1 { LabelledRepair(s); }
    match op
    case WriteOp(b, v) => if b <= s.g.maxBlk { ParitySlotFacts(s, b); }
    case ReadOp(_) =>
    case FailOp(_, _) =>
    case RepairOp(_) =>
  }

  /** Runs in which no disk but disk 1 fails, and it keeps its label, need no condition on repair. */
  lemma {:induction false} DiskOneRunsAreAllowed(s: Raid, h: map<nat, Block>, f: nat, ops: seq<Op>)
    requires Invariant(s, h, f) && f <= 1 && LabelKept(s) && TouchesOnlyDiskOne(s, ops)
    ensures AllowedRun(s, ops)
    decreases |ops|
  {
    hide LabelKept, Allowed, Apply, Record, FailedAfter, Safe, AllParityHolds, Carries, Usable;
    if ops != [] {
      StepKeepsLabel(s, h, f, ops[0]);
      StepKeeps(s, h, f, ops[0]);
      DiskOneRunsAreAllowed(Apply(s, ops[0]), Record(h, s, ops[0]), FailedAfter(s, f, ops[0]), ops[1..]);
    }
  }

  lemma {:induction false} RunThenRepair(s: Raid, h: map<nat, Block>, f: nat, ops: seq<Op>)
    requires Invariant(s, h, f) && f <= 1 && LabelKept(s) && TouchesOnlyDiskOne(s, ops)
    requires AllowedRun(s, ops + [RepairOp(1)])
    ensures var (t, h') := Run(s, h, ops + [RepairOp(1)]); Invariant(t, h', 0)
    decreases |ops|
  {
    hide LabelKept, Apply, Record, Safe, AllParityHolds, Carries, Planned, Usable;
    var all := ops + [RepairOp(1)];
    StepKeeps(s, h, f, all[0]);
    if ops == [] {
      assert all[1..] == [];
      FinalRepair(s, h, f);
    } else {
      StepKeepsLabel(s, h, f, ops[0]);
      assert all[1..] == ops[1..] + [RepairOp(1)];
      RunThenRepair(Apply(s, ops[0]), Record(h, s, ops[0]), FailedAfter(s, f, ops[0]), ops[1..]);
    }
  }

  lemma FinalRepair(s: Raid, h: map<nat, Block>, f: nat)
    requires Invariant(s, h, f) && f <= 1 && LabelKept(s)
    ensures FailedAfter(s, f, RepairOp(1)) == 0
  {
    hide Carries, Planned, RowRestored;
    if f == 1 { LabelledRepair(s); }
  }

  /** Disk 1 may fail, lose everything but its superblock, and be repaired again and again while writes go
      on: after a final repair of disk 1 every block of the array reads back its last successful write, or
      what it held at the start, and parity holds. */
  lemma DiskOneSurvives(s: Raid, ops: seq<Op>)
    requires Valid(s) && IsParity(s.g.level) && OnlyFailed(s, 0) && AllParityHolds(s)
    requires TouchesOnlyDiskOne(s, ops)
    ensures AllowedRun(s, ops + [RepairOp(1)])
    ensures var (t, h) := Run(s, Contents(s), ops + [RepairOp(1)]);
            && AllParityHolds(t) && OnlyFailed(t, 0)
            && forall b :: 0 <= b <= s.g.maxBlk ==> b in h && Read(t, b) == Data(h[b])
  {
    hide Contents, Read, Apply;
    var all := ops + [RepairOp(1)];
    ContentsAreSafe(s);
    DiskOneRunsAreAllowed(s, Contents(s), 0, all);
    RunThenRepair(s, Contents(s), 0, ops);
    RunKeepsBlocks(s, Contents(s), all);
    var (t, h) := Run(s, Contents(s), all);
    forall b | 0 <= b <= s.g.maxBlk ensures b in h && Read(t, b) == Data(h[b]) {
      InContents(s, b);
      ReadsInPlace(t, h, b);
    }
  }

  lemma InContents(s: Raid, b: nat)
    requires Valid(s) && IsParity(s.g.level) && b <= s.g.maxBlk
    ensures b in Contents(s)
  {}

  /** With no disk out, every recorded block reads back. */
  lemma ReadsInPlace(t: Raid, h: map<nat, Block>, b: nat)
    requires Invariant(t, h, 0) && b in h
    ensures Read(t, b) == Data(h[b])
  {
    assert Safe(t, 0, b, h[b]);
    ParitySlotFacts(t, b);
  }

  // ---- Disk 2: a write that repair loses

  /** Three blank RAID4 disks, and a file-system disk that is not blank. */
  function BlankArray(): Raid {
    var g := Geometry(RAID4, 2, 1, 3, -1);
    LabelFits(g);
    var blank: seq<Block> := [Stored(Zero(), Label(g)), Zero()];
    Raid(g, 3, 2, [[Ones(), Ones()], blank, blank, blank], [Healthy, Healthy, Healthy, Healthy])
  }

  /** Block 1 is written, its disk, disk 2, fails losing nothing, and is repaired; the block reads back as
      something else, although no other disk failed and every row's parity held. */
  lemma RepairOfDiskTwoLosesData()
    ensures var s := BlankArray();
            && Valid(s) && AllParityHolds(s) && OnlyFailed(s, 0)
            && var (t, written) := Write(s, 1, Zero());
               var (u, repaired) := Repair(Fail(t, 2, t.disks[2]), 2);
               && written == Success && repaired == Repaired
               && Read(u, 1).Data? && Read(u, 1).v != Zero()
  {
    hide XorAll, Xor, Stored, SuperOf, Label, Repair, Read, Write;
    var s := BlankArray();
    assert Valid(s);
    BlankParity(s);
    var f := Fail(s, 2, s.disks[2]);
    BlankRepair(f, s);
    BlankWrite(s);
    BlankRead(Repair(f, 2).0);
  }

  lemma BlankWrite(s: Raid)
    requires Valid(s) && s == BlankArray()
    ensures Write(s, 1, Zero()) == (s, Success)
  {
    hide XorAll, Xor, Stored, Label;
    assert SlotOf(s, 1) == (2, 1);
  }

  lemma BlankRead(u: Raid)
    requires Valid(u) && u.g == Geometry(RAID4, 2, 1, 3, -1) && u.total == 3 && u.blocks == 2 && u.status[2] == Healthy
    ensures Read(u, 1) == Data(u.disks[2][1])
  {
    assert SlotOf(u, 1) == (2, 1);
  }

  lemma BlankRepair(f: Raid, s: Raid)
    requires s == BlankArray() && Valid(s) && f == Fail(s, 2, s.disks[2])
    ensures var (u, repaired) := Repair(f, 2);
            repaired == Repaired && u.status[2] == Healthy && u.disks[2][1] != Zero()
  {
    hide XorAll, Xor, Stored, SuperOf, Label, Planned, RecoverParity;
    LabelRoundTrip(Zero(), s.g);
    RepairOfSingleFailure(f, 2);
    RepairRestoresRowIff(f, 2, 1);
    BlankRest(f);
  }

  lemma BlankParity(s: Raid)
    requires Valid(s) && s == BlankArray()
    ensures AllParityHolds(s)
  {
    forall row | 1 <= row < s.blocks ensures ParityHolds(s, row) {
      assert Column(s, row)[1..] == [Zero(), Zero(), Zero()];
      XorOfZeros();
    }
  }

  lemma BlankRest(f: Raid)
    requires Valid(f) && f.total == 3 && f.blocks == 2 && f.disks[1][1] == Zero() && f.disks[3][1] == Zero()
    ensures Reconstructed(f, 2, 1) == Zero()
  {
    assert Column(f, 1)[1..2] + Column(f, 1)[3..] == [Zero(), Zero()];
    XorOfZeros();
  }

  lemma XorOfZeros()
    ensures XorAll([Zero(), Zero()]) == Zero() && XorAll([Zero(), Zero(), Zero()]) == Zero()
  {
    XorSelf(Zero());
    XorAllSingleton(Zero());
    XorAllConcat([Zero()], [Zero()]);
    assert [Zero()] + [Zero()] == [Zero(), Zero()];
    XorAllConcat([Zero()], [Zero(), Zero()]);
    assert [Zero()] + [Zero(), Zero()] == [Zero(), Zero(), Zero()];
  }
}
