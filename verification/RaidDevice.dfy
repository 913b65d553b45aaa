/** The RAID driver as it runs: fields updated in place and byte, disk and row loops, each method
    proved to do what the value model says. */
module RaidDevice {
  import opened Blocks
  import opened RaidAddress
  import opened RaidSuper
  import opened RaidModel
  import opened RaidParity

  /** One slot of the health cache: nothing loaded yet, or a known health. */
  datatype Cached = Unloaded | Known(h: Health)

  /** The health that a superblock's status field stands for; the driver has no other. */
  function HealthBy(code: nat): Health {
    if code == HEALTHY_CODE then Healthy else if code == 2 then Unhealthy else if code == 3 then Recovery else NoDisk
  }

  /** Xors a block into a buffer, byte by byte. */
  method XorInto(acc: array<bv8>, next: Block)
    requires acc.Length == BSIZE
    modifies acc
    ensures acc[..] == Xor(old(acc[..]), next)
  {
    var k := 0;
    while k < BSIZE
      invariant 0 <= k <= BSIZE
      invariant forall i :: 0 <= i < k ==> acc[i] == old(acc[i]) ^ next[i]
      invariant forall i :: k <= i < BSIZE ==> acc[i] == old(acc[i])
    {
      acc[k] := acc[k] ^ next[k];
      k := k + 1;
    }
  }

  class Device {
    const total: nat
    const blocks: nat
    var g: Geometry
    var disks: seq<seq<Block>>
    var cache: seq<Cached>

    /** Sizes only: holds before the array is initialised. */
    ghost predicate Shaped()
      reads this
    {
      && total >= 1 && blocks >= 1 && |disks| == total + 1 && |cache| == total + 1
      && (forall d :: 0 <= d <= total ==> |disks[d]| == blocks)
      && (forall d :: 0 <= d <= total ==> cache[d] != Known(NoDisk))
    }

    /** Initialised. A disk whose health was never asked for has a superblock that says healthy. */
    ghost predicate Ready()
      reads this
    {
      && Shaped() && Usable(g, total, blocks)
      && (forall d :: 1 <= d <= total && cache[d] == Unloaded ==> SuperOf(disks[d][0]).status == HEALTHY_CODE)
    }

    /** The health get_disk_health would report. */
    ghost function Effective(d: nat): Health
      requires Shaped() && d <= total
      reads this
    {
      match cache[d] case Known(h) => h case Unloaded => HealthBy(SuperOf(disks[d][0]).status)
    }

    ghost function View(): (s: Raid)
      requires Ready()
      reads this
      ensures Valid(s)
    {
      Raid(g, total, blocks, disks,
           seq(total + 1, d requires 0 <= d <= total reads this requires Shaped() => Effective(d)))
    }

    method ReadBlock(d: nat, row: nat) returns (v: Block)
      requires Shaped() && d <= total && row < blocks
      ensures v == disks[d][row]
    {
      v := disks[d][row];
    }

    method WriteBlock(d: nat, row: nat, v: Block)
      requires Ready() && d <= total && row < blocks && (row >= 1 || cache[d].Known?)
      modifies this`disks
      ensures Ready() && View() == Put(old(View()), d, row, v)
    {
      hide SuperOf, Usable;
      var rows: seq<Block> := disks[d][row := v];
      disks := disks[d := rows];
      assert View().status == old(View()).status;
    }

    /** Loads a disk's health from its superblock on first use. */
    method GetDiskHealth(d: nat) returns (h: Health)
      requires Ready()
      modifies this`cache
      ensures Ready() && View() == old(View()) && h == HealthOf(View(), d)
      ensures forall e :: 0 <= e <= total && old(cache)[e].Known? ==> cache[e] == old(cache)[e]
    {
      hide SuperOf, Usable;
      if d < 1 || d > total {
        return NoDisk;
      }
      if cache[d] == Unloaded {
        var block := ReadBlock(d, 0);
        cache := cache[d := Known(HealthBy(SuperOf(block).status))];
        assert View().status == old(View()).status;
      }
      h := cache[d].h;
    }

    method SetDiskStatus(d: nat, h: Health)
      requires Ready() && 1 <= d <= total && h != NoDisk
      modifies this`cache
      ensures Ready() && cache == old(cache)[d := Known(h)] && View() == SetStatus(old(View()), d, h)
    {
      hide SuperOf, Usable;
      cache := cache[d := Known(h)];
      assert View().status == SetStatus(old(View()), d, h).status;
    }

    method WriteParityBlock(p: nat, row: nat, oldData: Block, newData: Block)
      requires Ready() && p <= total && 1 <= row < blocks
      modifies this`disks
      ensures Ready() && View() == Put(old(View()), p, row, Xor(Xor(newData, oldData), old(disks[p][row])))
    {
      var parity := ReadBlock(p, row);
      var updated := new bv8[BSIZE];
      var i := 0;
      while i < BSIZE
        modifies updated
        invariant 0 <= i <= BSIZE
        invariant forall k :: 0 <= k < i ==> updated[k] == (newData[k] ^ oldData[k]) ^ parity[k]
      {
        updated[i] := (newData[i] ^ oldData[i]) ^ parity[i];
        i := i + 1;
      }
      assert updated[..] == Xor(Xor(newData, oldData), parity);
      WriteBlock(p, row, updated[..]);
    }

    /** Mirrored read: the primary if healthy, else the mirror. */
    method ReadMirrored(d: nat, row: nat) returns (r: ReadResult)
      requires Ready()
      modifies this`cache
      ensures Ready() && View() == old(View())
      ensures r == if HealthOf(View(), d) == Healthy then ReadSlot(View(), d, row)
                   else if HealthOf(View(), d + g.numDisks) == Healthy then ReadSlot(View(), d + g.numDisks, row)
                   else Unreadable
    {
      var e := d;
      var h := GetDiskHealth(d);
      if h != Healthy {
        h := GetDiskHealth(d + g.numDisks);
        if h != Healthy {
          return Unreadable;
        }
        e := d + g.numDisks;
      }
      if row >= blocks {
        return OffDisk;
      }
      var v := ReadBlock(e, row);
      r := Data(v);
    }

    method WriteMirroredPair(d: nat, row: nat, v: Block) returns (code: Code)
      requires Ready() && row >= 1
      modifies this`cache, this`disks
      ensures Ready() && (View(), code) == WriteMirrored(old(View()), d, row, v)
    {
      var mirror := d + g.numDisks;
      if mirror > total {
        return Off;
      }
      var primary := GetDiskHealth(d);
      if primary != Healthy {
        var h := GetDiskHealth(mirror);
        if h != Healthy {
          return Failed;
        }
      }
      if row >= blocks {
        return Off;
      }
      if primary == Healthy {
        WriteBlock(d, row, v);
      }
      WriteBlock(mirror, row, v);
      code := Success;
    }

    /** Read-modify-write of a data block and its row's parity. */
    method WriteWithParity(d: nat, p: nat, row: nat, v: Block)
      requires Ready() && d <= total && p <= total && 1 <= row < blocks && d != p
      modifies this`disks
      ensures Ready() && View() == WriteParity(old(View()), d, p, row, v)
    {
      var oldData := ReadBlock(d, row);
      if oldData == v {
        return;
      }
      WriteParityBlock(p, row, oldData, v);
      WriteBlock(d, row, v);
    }

    /** raid_read_block */
    method RaidRead(b: nat) returns (r: ReadResult)
      requires Ready()
      modifies this`cache
      ensures Ready() && View() == old(View()) && r == Read(View(), b)
    {
      if b > g.maxBlk {
        return Unreadable;
      }
      var (d, row) := Slot(g.level, g.numDisks, blocks, b);
      if IsMirrored(g.level) {
        r := ReadMirrored(d, row);
        return;
      }
      var h := GetDiskHealth(d);
      if h != Healthy {
        return Unreadable;
      }
      if row >= blocks {
        return OffDisk;
      }
      var v := ReadBlock(d, row);
      r := Data(v);
    }

    /** raid_write_block */
    method RaidWrite(b: nat, v: Block) returns (code: Code)
      requires Ready()
      modifies this`cache, this`disks
      ensures Ready() && (View(), code) == Write(old(View()), b, v)
    {
      hide Init, SuperOf, Xor;
      if b > g.maxBlk {
        return Failed;
      }
      var (d, row) := Slot(g.level, g.numDisks, blocks, b);
      Raid0_1Row(g.numDisks, b);
      if IsMirrored(g.level) {
        code := WriteMirroredPair(d, row, v);
        return;
      }
      var h := GetDiskHealth(d);
      if h != Healthy {
        return Failed;
      }
      if g.level == RAID0 {
        if row >= blocks {
          return Off;
        }
        WriteBlock(d, row, v);
      } else {
        ParitySlotFacts(View(), b);
        SmallNumbers(View());
        CapacityOf(g, total, blocks);
        var p := if g.level == RAID4 then g.parityDisk else ParityDisk(RAID5, g.numDisks, row);
        WriteWithParity(d, p, row, v);
      }
      code := Success;
    }

    // ---- Failure and repair

    method RaidFailDisk(d: nat) returns (ok: bool)
      requires Ready()
      modifies this`cache
      ensures Ready() && ok == (1 <= d <= total)
      ensures View() == if ok then SetStatus(old(View()), d, Unhealthy) else old(View())
    {
      if d < 1 || d > total {
        return false;
      }
      SetDiskStatus(d, Unhealthy);
      ok := true;
    }

    /** Copies a whole disk, superblock included, one block at a time. */
    method MirrorRecovery(source: nat, target: nat)
      requires Ready() && 1 <= source <= total && 1 <= target <= total && source != target && cache[target].Known?
      modifies this`disks
      ensures Ready() && View() == old(View()).(disks := old(disks)[target := old(disks)[source]])
    {
      hide SuperOf, Usable;
      var i := 0;
      while i < blocks
        invariant 0 <= i <= blocks && Ready()
        invariant disks == old(disks)[target := disks[target]]
        invariant forall k :: 0 <= k < i ==> disks[target][k] == old(disks)[source][k]
        invariant View().status == old(View()).status
      {
        var v := ReadBlock(source, i);
        WriteBlock(target, i, v);
        i := i + 1;
      }
      assert disks[target] == old(disks)[source];
    }

    /** The lost block of one row: the visited disks xored together, in visiting order. */
    method RecoverRow(r: nat, row: nat) returns (v: Block)
      requires Ready() && 1 <= r <= total && 1 <= row < blocks
      ensures v == XorAll(Visited(View(), r, row))
    {
      hide SuperOf, Usable, XorAll, Xor;
      ghost var all := Visited(View(), r, row);
      var dataDisk := VisitedDisk(total, r, 0);
      var block := ReadBlock(dataDisk, row);
      var acc := new bv8[BSIZE](k requires 0 <= k < BSIZE => block[k]);
      var j := 1;
      XorNext(all, 0);
      assert acc[..] == block;
      while j < total - 1
        invariant 1 <= j <= VisitCount(total) == |all|
        invariant acc[..] == XorAll(all[..j])
      {
        var disk := (dataDisk + j) % (total + 1);
        LoopVisits(total, r, j);
        XorNext(all, j);
        var next := ReadBlock(disk, row);
        XorInto(acc, next);
        j := j + 1;
      }
      assert all[..j] == all;
      v := acc[..];
    }

    method ParityRecovery(r: nat)
      requires Ready() && 1 <= r <= total
      modifies this`disks
      ensures Ready() && cache == old(cache) && View() == RecoverParity(old(View()), r)
    {
      ghost var want := RecoverParity(View(), r).disks[r];
      var i := 1;
      assert disks == disks[r := disks[r]];
      while i < blocks
        invariant 1 <= i <= blocks && Ready()
        invariant disks == old(disks)[r := disks[r]]
        invariant forall k :: 0 <= k < i ==> disks[r][k] == want[k]
        invariant View() == old(View()).(disks := disks)
      {
        var v := RecoverRow(r, i);
        VisitedIgnoresSelf(old(View()), View(), r, i);
        WriteBlock(r, i, v);
        i := i + 1;
      }
      assert disks[r] == want;
    }

    /** raid_repair_disk: count the failed disks, read this one's superblock, mark it as in recovery,
        recover it. */
    method RaidRepairDisk(d: nat) returns (code: RepairCode)
      requires Ready()
      modifies this`cache, this`disks
      ensures Ready() && (View(), code) == Repair(old(View()), d)
    {
      hide RecoverParity, PlanOf, Init, SuperOf, Recover, FailCount, Slot, ParityDisk;
      if d < 1 || d > total {
        return BadDisk;
      }
      var h := GetDiskHealth(d);
      if h == Healthy {
        return Repaired;
      }
      var failCount := CountFailed();
      var block := ReadBlock(d, 0);
      SetDiskStatus(d, Recovery);
      var ok := HandleRecovery(SuperOf(block), failCount, d);
      if !ok {
        return RecoveryFailed;
      }
      SetDiskStatus(d, Healthy);
      code := Repaired;
    }

    method CountFailed() returns (failCount: nat)
      requires Ready()
      modifies this`cache
      ensures Ready() && View() == old(View()) && failCount == FailCount(View(), total)
    {
      hide SuperOf, Usable;
      failCount := 0;
      var i := 1;
      while i <= total
        invariant 1 <= i <= total + 1 && Ready() && View() == old(View())
        invariant failCount == FailCount(View(), i - 1)
      {
        var h := GetDiskHealth(i);
        if h == Unhealthy {
          failCount := failCount + 1;
        }
        i := i + 1;
      }
    }

    /** By the superblock given; a level it does not know falls through every case to success. */
    method HandleRecovery(sb: Superblock, failCount: nat, d: nat) returns (ok: bool)
      requires Ready() && 1 <= d <= total && cache[d] == Known(Recovery)
      modifies this`cache, this`disks
      ensures Ready() && ok == !PlanOf(old(View()), sb, d, failCount).Refused?
      ensures !ok ==> View() == old(View())
      ensures ok ==> View() == Recover(old(View()), d, PlanOf(old(View()), sb, d, failCount))
    {
      hide SuperOf, Usable, RecoverParity;
      ok := true;
      if sb.level == 0 {
        return false;
      } else if sb.level == 1 || sb.level == 2 {
        var partner := PartnerBy(sb.numDisks, d);
        var h := GetDiskHealth(partner);
        if h != Healthy {
          return false;
        }
        MirrorRecovery(partner, d);
      } else if sb.level == 3 {
        if failCount > 1 || sb.parityDisk == d {
          return false;
        }
        ParityRecovery(d);
      } else if sb.level == 4 {
        if failCount > 1 {
          return false;
        }
        ParityRecovery(d);
      }
    }

    /** raid_system_init: labels block 0 of every disk; neither data nor cached health change. `page` is
        what the page that kalloc gave for the superblock held. */
    method RaidSystemInit(level: Level, page: Block) returns (ok: bool)
      requires Shaped()
      modifies this`g, this`disks
      ensures Shaped() && ok == Init(level, total, blocks).Ready?
      ensures !ok ==> unchanged(this)
      ensures ok ==> g == Init(level, total, blocks).g
      ensures forall d, row :: 0 <= d <= total && 1 <= row < blocks ==> disks[d][row] == old(disks)[d][row]
      ensures ok && Usable(g, total, blocks) ==>
                && Ready() && Labelled(View())
                && (forall d :: 1 <= d <= total && cache[d] == Unloaded ==> HealthOf(View(), d) == Healthy)
    {
      hide SuperOf, Stored, Usable, Label;
      match Init(level, total, blocks)
      case TooFewDisks =>
        ok := false;
      case Ready(metadata) =>
        LabelRoundTrip(page, metadata);
        var block0 := Stored(page, Label(metadata));
        assert SuperOf(block0).status == HEALTHY_CODE by { LabelStatus(metadata); }
        var i := 1;
        while i <= total
          invariant 1 <= i <= total + 1 && Shaped()
          invariant forall d :: 1 <= d < i ==> disks[d][0] == block0
          invariant forall d, row :: 0 <= d <= total && 1 <= row < blocks ==> disks[d][row] == old(disks)[d][row]
        {
          var rows: seq<Block> := disks[i][0 := block0];
          disks := disks[i := rows];
          i := i + 1;
        }
        g := metadata;
        ok := true;
    }
  }

  lemma LabelStatus(g: Geometry)
    ensures Label(g).status == HEALTHY_CODE
  {}

  lemma Distribute(a: int, b: int, m: int)
    ensures (a + b) * m == a * m + b * m
  {}

  lemma WrapAround(a: nat, j: nat, m: nat)
    requires m >= 1
    ensures (a % m + j) % m == (a + j) % m
  {
    var x, q := a % m + j, a / m;
    Distribute(q, x / m, m);
    DivModUnique(q + x / m, m, x % m);
  }

  /** The j-th disk that the loop reaches is the j-th visited one. */
  lemma LoopVisits(total: nat, r: nat, j: nat)
    ensures (VisitedDisk(total, r, 0) + j) % (total + 1) == VisitedDisk(total, r, j)
  {
    WrapAround(r + 1, j, total + 1);
  }

  lemma XorNext(all: seq<Block>, j: nat)
    requires j < |all|
    ensures XorAll(all[..j + 1]) == if j == 0 then all[0] else Xor(XorAll(all[..j]), all[j])
  {
    hide Xor, XorAll;
    assert all[..j + 1] == all[..j] + [all[j]];
    XorAllSingleton(all[j]);
    if j == 0 {
      assert all[..1] == [all[0]];
    } else {
      XorAllConcat(all[..j], [all[j]]);
    }
  }

  lemma VisitedIgnoresSelf(s: Raid, t: Raid, r: nat, row: nat)
    requires Valid(s) && Valid(t) && s.total == t.total && s.blocks == t.blocks
    requires 1 <= r <= s.total && row < s.blocks
    requires forall e :: 0 <= e <= s.total && e != r ==> s.disks[e] == t.disks[e]
    ensures Visited(s, r, row) == Visited(t, r, row)
  {
    hide Init, Usable, VisitedDisk;
    VisitedSet(s.total, r);
    var ds := VisitedDisks(s.total, r);
    forall j | 0 <= j < VisitCount(s.total) ensures Visited(s, r, row)[j] == Visited(t, r, row)[j] {
      assert ds[j] in ds && ds[j] == VisitedDisk(s.total, r, j);
    }
  }
}
