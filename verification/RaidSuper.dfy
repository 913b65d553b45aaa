/** Block 0 of a RAID disk: the superblock that init writes and repair reads back. */
module RaidSuper {
  import opened Blocks
  import opened Words
  import opened RaidAddress

  /** The seven 32-bit fields, in the order they are stored. */
  datatype Superblock = Superblock(level: nat, status: nat, parityDisk: nat, swapDisk: nat,
                                   maxBlk: nat, blkSize: nat, numDisks: nat)

  const FIELDS: nat := 7
  const HEALTHY_CODE: nat := 1

  /** The superblock that a block's bytes spell out, whatever they are. */
  function SuperOf(b: Block): Superblock {
    Superblock(GetWord(b, 0), GetWord(b, 1), GetWord(b, 2), GetWord(b, 3), GetWord(b, 4), GetWord(b, 5), GetWord(b, 6))
  }

  function LevelCode(level: Level): nat {
    match level
    case RAID0 => 0
    case RAID1 => 1
    case RAID0_1 => 2
    case RAID4 => 3
    case RAID5 => 4
  }

  /** A C int stored in 32 bits: -1 is all ones. */
  function Word32(x: int): nat {
    x % WORD_RANGE
  }

  /** The superblock of a healthy disk of an array with this geometry. */
  function Label(g: Geometry): Superblock {
    Superblock(LevelCode(g.level), HEALTHY_CODE, Word32(g.parityDisk), Word32(g.swapDisk),
               Word32(g.maxBlk), BSIZE, Word32(g.numDisks))
  }

  /** Block 0 still tells repair what it needs to know: level, disk count and parity disk. */
  predicate Carries(b: Block, g: Geometry) {
    var sb, want := SuperOf(b), Label(g);
    sb.level == want.level && sb.numDisks == want.numDisks && sb.parityDisk == want.parityDisk
  }

  // ---- Writing a superblock

  function Fields(sb: Superblock): (ws: seq<nat>)
    ensures |ws| == FIELDS
  {
    [sb.level, sb.status, sb.parityDisk, sb.swapDisk, sb.maxBlk, sb.blkSize, sb.numDisks]
  }

  /** The first words of a block replaced. */
  function PutWords(b: Block, ws: seq<nat>): Block
    requires |ws| <= WORDS && forall k :: 0 <= k < |ws| ==> ws[k] < WORD_RANGE
  {
    if ws == [] then b else SetWord(PutWords(b, ws[..|ws| - 1]), |ws| - 1, ws[|ws| - 1])
  }

  lemma {:induction false} PutWordsReads(b: Block, ws: seq<nat>, j: nat)
    requires |ws| <= WORDS && (forall k :: 0 <= k < |ws| ==> ws[k] < WORD_RANGE) && j < |ws|
    ensures GetWord(PutWords(b, ws), j) == ws[j]
    decreases |ws|
  {
    hide GetWord, SetWord;
    var n := |ws| - 1;
    GetSetWord(PutWords(b, ws[..n]), n, ws[n], j);
    if j < n { PutWordsReads(b, ws[..n], j); }
  }

  predicate InWords(sb: Superblock) {
    forall k :: 0 <= k < FIELDS ==> Fields(sb)[k] < WORD_RANGE
  }

  /** The superblock stored over a block; the rest of the block stays. */
  function Stored(b: Block, sb: Superblock): Block
    requires InWords(sb)
  {
    PutWords(b, Fields(sb))
  }

  lemma StoredReads(b: Block, sb: Superblock)
    requires InWords(sb)
    ensures SuperOf(Stored(b, sb)) == sb
  {
    hide GetWord, SetWord, PutWords;
    var ws := Fields(sb);
    forall j | 0 <= j < FIELDS ensures GetWord(Stored(b, sb), j) == ws[j] { PutWordsReads(b, ws, j); }
  }

  lemma LabelFits(g: Geometry)
    ensures InWords(Label(g))
  {}

  /** What init writes is a label that repair reads back. */
  lemma LabelRoundTrip(b: Block, g: Geometry)
    ensures InWords(Label(g)) && SuperOf(Stored(b, Label(g))) == Label(g) && Carries(Stored(b, Label(g)), g)
  {
    hide SuperOf, Stored;
    LabelFits(g);
    StoredReads(b, Label(g));
  }
}
