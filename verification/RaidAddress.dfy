/** Where each RAID level puts a logical block, and the arithmetic that makes those maps bijections. */
module RaidAddress {

  datatype Level = RAID0 | RAID1 | RAID0_1 | RAID4 | RAID5

  /** Stored size of `max_blknum`: a 32-bit unsigned field. */
  const UINT_RANGE: nat := 0x1_0000_0000

  datatype Geometry = Geometry(level: Level, numDisks: nat, maxBlk: nat, parityDisk: int, swapDisk: int)

  datatype InitResult = Ready(g: Geometry) | TooFewDisks

  /** raid_system_init: the geometry for `total` RAID disks of `blocks` blocks each. */
  function Init(level: Level, total: nat, blocks: nat): InitResult
    requires total >= 1
  {
    match level
    case RAID0 =>
      Ready(Geometry(level, total, (blocks * total - total) % UINT_RANGE, -1, -1))
    case RAID1 | RAID0_1 =>
      if total == 1 then TooFewDisks
      else
        var n := total / 2;
        Ready(Geometry(level, n, (blocks * n - n) % UINT_RANGE, -1, if total % 2 == 1 then total else -1))
    case RAID4 | RAID5 =>
      if total == 2 then TooFewDisks
      else
        var p := if level == RAID4 then total else -1;
        Ready(Geometry(level, total - 1, (blocks * (total - 1) - total) % UINT_RANGE, p, -1))
  }

  /** A geometry that init hands out and that has at least one data disk and one usable row. */
  predicate Usable(g: Geometry, total: nat, blocks: nat) {
    && total >= 1 && blocks >= 2 && blocks * total < UINT_RANGE
    && g.numDisks >= 1
    && Init(g.level, total, blocks) == Ready(g)
  }

  /** The parity disk of a row under RAID4 (fixed) and RAID5 (rotating down from the last disk). */
  function ParityDisk(level: Level, n: nat, row: nat): nat
    requires row >= 1
  {
    if level == RAID4 then n + 1 else n + 1 - (row - 1) % (n + 1)
  }

  /** The (disk, row) that rw_block computes for logical block `b`. */
  function Slot(level: Level, n: nat, blocks: nat, b: nat): (nat, nat)
    requires n >= 1 && blocks >= 2
  {
    match level
    case RAID0 | RAID4 => (b % n + 1, b / n + 1)
    case RAID1 => (b / (blocks - 1) + 1, b % (blocks - 1) + 1)
    case RAID0_1 => (b % n + 1, (b + n) / n)
    case RAID5 =>
      var row := b / n + 1;
      var d := ParityDisk(RAID5, n, row) + (b % n + 1);
      (if d > n + 1 then d % (n + 1) else d, row)
  }

  /** The slots that are meant to hold data: rows 1..blocks-1 of the data disks, minus parity. */
  predicate IsDataSlot(level: Level, n: nat, blocks: nat, d: nat, row: nat) {
    && 1 <= row < blocks
    && 1 <= d <= (if level == RAID5 then n + 1 else n)
    && (level == RAID5 ==> d != ParityDisk(level, n, row))
  }

  /** The logical block stored in a data slot: the inverse of `Slot`. */
  function LogicalOf(level: Level, n: nat, blocks: nat, d: nat, row: nat): int
    requires n >= 1 && IsDataSlot(level, n, blocks, d, row)
  {
    match level
    case RAID1 => (d - 1) * (blocks - 1) + (row - 1)
    case RAID0 | RAID0_1 | RAID4 => (row - 1) * n + (d - 1)
    case RAID5 =>
      var p := ParityDisk(RAID5, n, row);
      (row - 1) * n + (if d > p then d - p else d - p + n + 1) - 1
  }

  // ---- Euclidean division

  lemma DivModUnique(q: int, m: int, r: int)
    requires 0 <= r < m
    ensures (q * m + r) / m == q && (q * m + r) % m == r
  {
    var x := q * m + r;
    var q', r' := x / m, x % m;
    assert x == q' * m + r';
    if q < q' { MulMonotone(1, q' - q, m); }
    if q' < q { MulMonotone(1, q - q', m); }
  }

  lemma MulMonotone(a: int, b: int, m: int)
    requires a <= b && m >= 0
    ensures a * m <= b * m
  {
    assert (b - a) * m >= 0;
    assert (b - a) * m == b * m - a * m;
  }

  /** `b < q * m` exactly when its quotient by `m` is below `q`. */
  lemma DivBelow(b: nat, q: nat, m: nat)
    requires m >= 1
    ensures b < q * m <==> b / m < q
  {
    var k, r := b / m, b % m;
    assert b == k * m + r;
    if k < q {
      MulMonotone(k + 1, q, m);
      assert (k + 1) * m == k * m + m;
    } else {
      MulMonotone(q, k, m);
    }
  }

  // ---- The bijections

  lemma StripedInto(n: nat, blocks: nat, b: nat)
    requires n >= 1 && blocks >= 2 && b < n * (blocks - 1)
    ensures 1 <= b % n + 1 <= n && 1 <= b / n + 1 < blocks
    ensures (b / n) * n + b % n == b
  {
    assert n * (blocks - 1) == (blocks - 1) * n;
    DivBelow(b, blocks - 1, n);
  }

  lemma StripedBound(n: nat, blocks: nat, row: nat, o: nat)
    requires n >= 1 && 1 <= row < blocks && o < n
    ensures 0 <= (row - 1) * n + o < n * (blocks - 1)
  {
    MulMonotone(row, blocks - 1, n);
    MulMonotone(0, row - 1, n);
    assert (row - 1) * n == row * n - n;
    assert n * (blocks - 1) == (blocks - 1) * n;
  }

  lemma Raid0_1Row(n: nat, b: nat)
    requires n >= 1
    ensures (b + n) / n == b / n + 1
  {
    var k := b / n;
    assert (k + 1) * n == k * n + n;
    DivModUnique(k + 1, n, b % n);
    assert b + n == (k + 1) * n + b % n;
  }

  /** RAID5 never places data on the row's parity disk, and its disk determines the stripe offset. */
  lemma Raid5Disk(n: nat, row: nat, o: nat)
    requires n >= 1 && row >= 1 && 1 <= o <= n
    ensures var p := ParityDisk(RAID5, n, row);
            var d := if p + o > n + 1 then (p + o) % (n + 1) else p + o;
            && 1 <= p <= n + 1 && 1 <= d <= n + 1 && d != p
            && o == (if d > p then d - p else d - p + n + 1)
  {
    var p := ParityDisk(RAID5, n, row);
    if p + o > n + 1 {
      DivModUnique(1, n + 1, p + o - (n + 1));
    }
  }

  lemma Raid5DiskInverse(n: nat, row: nat, d: nat)
    requires n >= 1 && row >= 1 && 1 <= d <= n + 1 && d != ParityDisk(RAID5, n, row)
    ensures var p := ParityDisk(RAID5, n, row);
            var o := if d > p then d - p else d - p + n + 1;
            && 1 <= o <= n
            && d == (if p + o > n + 1 then (p + o) % (n + 1) else p + o)
  {
    var p := ParityDisk(RAID5, n, row);
    if d < p {
      DivModUnique(1, n + 1, d);
    }
  }

  lemma MirrorInto(n: nat, blocks: nat, b: nat)
    requires n >= 1 && blocks >= 2 && b < n * (blocks - 1)
    ensures 1 <= b / (blocks - 1) + 1 <= n && 1 <= b % (blocks - 1) + 1 < blocks
    ensures (b / (blocks - 1)) * (blocks - 1) + b % (blocks - 1) == b
  {
    DivBelow(b, n, blocks - 1);
  }

  lemma MirrorBound(n: nat, blocks: nat, d: nat, row: nat)
    requires n >= 1 && 1 <= d <= n && 1 <= row < blocks
    ensures 0 <= (d - 1) * (blocks - 1) + (row - 1) < n * (blocks - 1)
  {
    MulMonotone(d, n, blocks - 1);
    MulMonotone(0, d - 1, blocks - 1);
    assert (d - 1) * (blocks - 1) == d * (blocks - 1) - (blocks - 1);
  }

  /** Every logical block below the capacity lands in a data slot that leads back to it. */
  lemma SlotIsInvertible(level: Level, n: nat, blocks: nat, b: nat)
    requires n >= 1 && blocks >= 2 && b < n * (blocks - 1)
    ensures var (d, row) := Slot(level, n, blocks, b);
            IsDataSlot(level, n, blocks, d, row) && LogicalOf(level, n, blocks, d, row) == b
  {
    match level
    case RAID0 | RAID4 => StripedInto(n, blocks, b);
    case RAID0_1 => StripedInto(n, blocks, b); Raid0_1Row(n, b);
    case RAID1 => MirrorInto(n, blocks, b);
    case RAID5 => Raid5Into(n, blocks, b);
  }

  lemma Raid5Into(n: nat, blocks: nat, b: nat)
    requires n >= 1 && blocks >= 2 && b < n * (blocks - 1)
    ensures var (d, row) := Slot(RAID5, n, blocks, b);
            IsDataSlot(RAID5, n, blocks, d, row) && LogicalOf(RAID5, n, blocks, d, row) == b
  {
    StripedInto(n, blocks, b);
    hide ParityDisk;
    Raid5Disk(n, b / n + 1, b % n + 1);
  }

  /** Every data slot holds a logical block below the capacity that leads back to the slot. */
  lemma SlotIsOnto(level: Level, n: nat, blocks: nat, d: nat, row: nat)
    requires n >= 1 && blocks >= 2 && IsDataSlot(level, n, blocks, d, row)
    ensures var b := LogicalOf(level, n, blocks, d, row);
            0 <= b < n * (blocks - 1) && Slot(level, n, blocks, b) == (d, row)
  {
    match level
    case RAID0 | RAID0_1 | RAID4 => StripedOnto(n, blocks, d, row);
    case RAID1 => MirrorOnto(n, blocks, d, row);
    case RAID5 => Raid5Onto(n, blocks, d, row);
  }

  lemma StripedOnto(n: nat, blocks: nat, d: nat, row: nat)
    requires n >= 1 && 1 <= row < blocks && 1 <= d <= n
    ensures var b := (row - 1) * n + (d - 1);
            0 <= b < n * (blocks - 1) && b % n + 1 == d && b / n + 1 == row && (b + n) / n == row
  {
    StripedBound(n, blocks, row, d - 1);
    DivModUnique(row - 1, n, d - 1);
    Raid0_1Row(n, (row - 1) * n + (d - 1));
  }

  lemma MirrorOnto(n: nat, blocks: nat, d: nat, row: nat)
    requires n >= 1 && 1 <= row < blocks && 1 <= d <= n
    ensures var b := (d - 1) * (blocks - 1) + (row - 1);
            0 <= b < n * (blocks - 1) && b / (blocks - 1) + 1 == d && b % (blocks - 1) + 1 == row
  {
    MirrorBound(n, blocks, d, row);
    DivModUnique(d - 1, blocks - 1, row - 1);
  }

  lemma Raid5Onto(n: nat, blocks: nat, d: nat, row: nat)
    requires n >= 1 && blocks >= 2 && IsDataSlot(RAID5, n, blocks, d, row)
    ensures var b := LogicalOf(RAID5, n, blocks, d, row);
            0 <= b < n * (blocks - 1) && Slot(RAID5, n, blocks, b) == (d, row)
  {
    hide ParityDisk;
    var p := ParityDisk(RAID5, n, row);
    var o := if d > p then d - p else d - p + n + 1;
    Raid5DiskInverse(n, row, d);
    StripedBound(n, blocks, row, o - 1);
    DivModUnique(row - 1, n, o - 1);
  }

  /** Two logical blocks never share a slot. */
  lemma SlotsAreDistinct(level: Level, n: nat, blocks: nat, b: nat, c: nat)
    requires n >= 1 && blocks >= 2 && b < n * (blocks - 1) && c < n * (blocks - 1)
    ensures Slot(level, n, blocks, b) == Slot(level, n, blocks, c) ==> b == c
  {
    SlotIsInvertible(level, n, blocks, b);
    SlotIsInvertible(level, n, blocks, c);
  }

  /** In any n+1 consecutive rows RAID5 parity visits every disk exactly once. */
  lemma ParityRotates(n: nat, first: nat, d: nat)
    requires n >= 1 && first >= 1 && 1 <= d <= n + 1
    ensures exists row :: first <= row <= first + n && ParityDisk(RAID5, n, row) == d
    ensures forall r, s | first <= r <= first + n && first <= s <= first + n
              :: ParityDisk(RAID5, n, r) == d == ParityDisk(RAID5, n, s) ==> r == s
  {
    var row := ParityRowFor(n, first, d);
    forall r, s | first <= r <= first + n && first <= s <= first + n
                  && ParityDisk(RAID5, n, r) == d && ParityDisk(RAID5, n, s) == d
      ensures r == s
    {
      SameRemainderNear(r - 1, s - 1, n + 1);
    }
  }

  lemma ParityRowFor(n: nat, first: nat, d: nat) returns (row: nat)
    requires n >= 1 && first >= 1 && 1 <= d <= n + 1
    ensures first <= row <= first + n && ParityDisk(RAID5, n, row) == d
  {
    var m, x := n + 1, first - 1;
    var q, r := x / m, x % m;
    assert x == q * m + r;
    if r <= m - d {
      row := q * m + (m - d) + 1;
      DivModUnique(q, m, m - d);
    } else {
      row := (q + 1) * m + (m - d) + 1;
      assert (q + 1) * m == q * m + m;
      DivModUnique(q + 1, m, m - d);
    }
  }

  lemma SameRemainderNear(x: nat, y: nat, m: nat)
    requires m >= 1 && x % m == y % m && -(m as int) < x - y < m
    ensures x == y
  {
    var a, b := x / m, y / m;
    assert x - y == (a - b) * m by {
      assert x == a * m + x % m && y == b * m + y % m;
      assert (a - b) * m == a * m - b * m;
    }
    if a > b { MulMonotone(1, a - b, m); }
    if a < b { MulMonotone(a - b, -1, m); }
  }

  // ---- What init sets up

  /** Init yields a geometry with a data disk exactly for these disk counts; a single disk under
      RAID4 or RAID5 is let through with zero data disks. */
  lemma InitUsability(level: Level, total: nat, blocks: nat)
    requires total >= 1
    ensures var r := Init(level, total, blocks);
            (r.Ready? && r.g.numDisks >= 1) <==>
            (match level case RAID0 => true case RAID1 | RAID0_1 => total >= 2 case RAID4 | RAID5 => total >= 3)
    ensures level.RAID4? || level.RAID5? ==> Init(level, 1, blocks).Ready? && Init(level, 1, blocks).g.numDisks == 0
  {
    if level.RAID1? || level.RAID0_1? {
      assert total >= 2 ==> total / 2 >= 1;
    }
  }

  lemma CapacityOf(g: Geometry, total: nat, blocks: nat)
    requires Usable(g, total, blocks)
    ensures g.maxBlk == g.numDisks * (blocks - 1) - (if g.level.RAID4? || g.level.RAID5? then 1 else 0)
    ensures g.level.RAID0? ==> total == g.numDisks
    ensures g.level.RAID1? || g.level.RAID0_1? ==> 2 * g.numDisks <= total <= 2 * g.numDisks + 1
    ensures g.level.RAID4? || g.level.RAID5? ==> total == g.numDisks + 1 && g.numDisks >= 2
  {
    var n := g.numDisks;
    MulMonotone(n, total, blocks);
    MulMonotone(1, blocks - 1, n);
    assert blocks * n == n * blocks && blocks * total == total * blocks;
    assert n * (blocks - 1) == n * blocks - n;
    assert (blocks - 1) * n == n * (blocks - 1);
    SmallMod(n * (blocks - 1));
    if g.level.RAID4? || g.level.RAID5? { SmallMod(n * (blocks - 1) - 1); }
  }

  lemma SmallMod(x: int)
    requires 0 <= x < UINT_RANGE
    ensures x % UINT_RANGE == x
  {}

  /** The bound check `block_num <= max_blknum` is exact under RAID4 and RAID5, and lets through
      exactly one block too many, `max_blknum` itself, under the other levels. */
  lemma BoundCheck(g: Geometry, total: nat, blocks: nat, b: nat)
    requires Usable(g, total, blocks) && b <= g.maxBlk
    ensures var (d, row) := Slot(g.level, g.numDisks, blocks, b);
            IsDataSlot(g.level, g.numDisks, blocks, d, row) <==>
            (g.level.RAID4? || g.level.RAID5? || b < g.maxBlk)
  {
    var n := g.numDisks;
    CapacityOf(g, total, blocks);
    if b < n * (blocks - 1) {
      SlotIsInvertible(g.level, n, blocks, b);
    } else {
      assert b == n * (blocks - 1) == (blocks - 1) * n;
      DivModUnique(n, blocks - 1, 0);
      DivModUnique(blocks - 1, n, 0);
      Raid0_1Row(n, b);
    }
  }
}
