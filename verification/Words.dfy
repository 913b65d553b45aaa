/** Blocks seen as arrays of little-endian 32-bit words, and bytes seen as eight bits. */
module Words {
  import opened Blocks

  const WORDS: nat := BSIZE / 4
  const WORD_RANGE: nat := 0x1_0000_0000

  /** `((uint*)data)[j]` */
  function GetWord(b: Block, j: nat): (v: nat)
    requires j < WORDS
    ensures v < WORD_RANGE
  {
    Join(b[4 * j], b[4 * j + 1], b[4 * j + 2], b[4 * j + 3])
  }

  /** `((uint*)data)[j] = v` */
  function SetWord(b: Block, j: nat, v: nat): (r: Block)
    requires j < WORDS && v < WORD_RANGE
  {
    b[4 * j := Digit(v)][4 * j + 1 := Digit(v / 0x100)]
     [4 * j + 2 := Digit(v / 0x1_0000)][4 * j + 3 := Digit(v / 0x100_0000)]
  }

  /** The low byte of v, bit by bit. */
  function Digit(v: nat): bv8 {
    FromBits(v % 2 == 1, v / 2 % 2 == 1, v / 4 % 2 == 1, v / 8 % 2 == 1,
             v / 16 % 2 == 1, v / 32 % 2 == 1, v / 64 % 2 == 1, v / 128 % 2 == 1)
  }

  function FromBits(b0: bool, b1: bool, b2: bool, b3: bool, b4: bool, b5: bool, b6: bool, b7: bool): bv8 {
    (if b0 then 0x01 else 0) | (if b1 then 0x02 else 0) | (if b2 then 0x04 else 0) | (if b3 then 0x08 else 0)
    | (if b4 then 0x10 else 0) | (if b5 then 0x20 else 0) | (if b6 then 0x40 else 0) | (if b7 then 0x80 else 0)
  }

  function Join(a: bv8, b: bv8, c: bv8, d: bv8): (v: nat)
    ensures v < WORD_RANGE
  {
    Value(a) + 0x100 * Value(b) + 0x1_0000 * Value(c) + 0x100_0000 * Value(d)
  }

  /** The number a byte stands for, by its bits. */
  function Value(x: bv8): (v: nat)
    ensures v < 0x100
  {
    BitsValue(x & 0x01 != 0, x & 0x02 != 0, x & 0x04 != 0, x & 0x08 != 0,
              x & 0x10 != 0, x & 0x20 != 0, x & 0x40 != 0, x & 0x80 != 0)
  }

  function BitsValue(b0: bool, b1: bool, b2: bool, b3: bool, b4: bool, b5: bool, b6: bool, b7: bool): (v: nat)
    ensures v < 0x100
  {
    (if b0 then 1 else 0) + (if b1 then 2 else 0) + (if b2 then 4 else 0) + (if b3 then 8 else 0)
    + (if b4 then 16 else 0) + (if b5 then 32 else 0) + (if b6 then 64 else 0) + (if b7 then 128 else 0)
  }

  lemma BitsBack(b0: bool, b1: bool, b2: bool, b3: bool, b4: bool, b5: bool, b6: bool, b7: bool)
    ensures Value(FromBits(b0, b1, b2, b3, b4, b5, b6, b7)) == BitsValue(b0, b1, b2, b3, b4, b5, b6, b7)
  {
    hide BitsValue;
  }

  lemma BitsSum(d0: nat, d1: nat, d2: nat, d3: nat, d4: nat, d5: nat, d6: nat, d7: nat)
    requires d0 < 2 && d1 < 2 && d2 < 2 && d3 < 2 && d4 < 2 && d5 < 2 && d6 < 2 && d7 < 2
    ensures BitsValue(d0 == 1, d1 == 1, d2 == 1, d3 == 1, d4 == 1, d5 == 1, d6 == 1, d7 == 1)
         == d0 + 2 * d1 + 4 * d2 + 8 * d3 + 16 * d4 + 32 * d5 + 64 * d6 + 128 * d7
  {}

  lemma DigitValue(v: nat)
    ensures Value(Digit(v)) == v % 0x100
  {
    hide FromBits, Value, BitsValue;
    BitsBack(v % 2 == 1, v / 2 % 2 == 1, v / 4 % 2 == 1, v / 8 % 2 == 1,
             v / 16 % 2 == 1, v / 32 % 2 == 1, v / 64 % 2 == 1, v / 128 % 2 == 1);
    BitsSum(v % 2, v / 2 % 2, v / 4 % 2, v / 8 % 2, v / 16 % 2, v / 32 % 2, v / 64 % 2, v / 128 % 2);
    BinaryDigits(v);
  }

  lemma BinaryDigits(v: nat)
    ensures v % 0x100 == v % 2 + 2 * (v / 2 % 2) + 4 * (v / 4 % 2) + 8 * (v / 8 % 2)
                         + 16 * (v / 16 % 2) + 32 * (v / 32 % 2) + 64 * (v / 64 % 2) + 128 * (v / 128 % 2)
  {
    var a, b, c, d := v / 2, v / 4, v / 8, v / 16;
    var e, f, g, h := v / 32, v / 64, v / 128, v / 256;
    assert b == a / 2 && c == b / 2 && d == c / 2 && e == d / 2 && f == e / 2 && g == f / 2 && h == g / 2;
  }

  lemma DigitsOf(v: nat)
    requires v < WORD_RANGE
    ensures v % 0x100 + 0x100 * (v / 0x100 % 0x100) + 0x1_0000 * (v / 0x1_0000 % 0x100)
            + 0x100_0000 * (v / 0x100_0000 % 0x100) == v
  {
    var a, b, c := v / 0x100, v / 0x1_0000, v / 0x100_0000;
    assert b == a / 0x100 && c == b / 0x100;
  }

  lemma JoinDigits(v: nat)
    requires v < WORD_RANGE
    ensures Join(Digit(v), Digit(v / 0x100), Digit(v / 0x1_0000), Digit(v / 0x100_0000)) == v
  {
    hide Digit, Value;
    DigitValue(v);
    DigitValue(v / 0x100);
    DigitValue(v / 0x1_0000);
    DigitValue(v / 0x100_0000);
    DigitsOf(v);
  }

  /** A stored word reads back, and no other word moves. */
  lemma GetSetWord(b: Block, j: nat, v: nat, i: nat)
    requires j < WORDS && i < WORDS && v < WORD_RANGE
    ensures GetWord(SetWord(b, j, v), i) == if i == j then v else GetWord(b, i)
  {
    hide Digit, Join;
    JoinDigits(v);
    var r := SetWord(b, j, v);
    if i == j {
      assert r[4 * j] == Digit(v) && r[4 * j + 1] == Digit(v / 0x100);
      assert r[4 * j + 2] == Digit(v / 0x1_0000) && r[4 * j + 3] == Digit(v / 0x100_0000);
    }
  }

  lemma ZeroWords(j: nat)
    requires j < WORDS
    ensures GetWord(Zero(), j) == 0
  {}

  /** Bit k of a byte: `x & (1 << k)`. */
  predicate Bit(x: bv8, k: nat)
    requires k < 8
  {
    x & (1 << k) != 0
  }

  /** Setting and clearing one bit leaves the other seven alone. */
  lemma SetAndClearBit(x: bv8, k: nat, m: nat)
    requires k < 8 && m < 8
    ensures Bit(x | (1 << k), m) <==> m == k || Bit(x, m)
    ensures Bit(x & !(1 << k), m) <==> m != k && Bit(x, m)
  {
    hide Bit;
    SetBit(x, k, m);
    ClearBit(x, k, m);
  }

  lemma SetBit(x: bv8, k: nat, m: nat)
    requires k < 8 && m < 8
    ensures Bit(x | (1 << k), m) <==> m == k || Bit(x, m)
  {}

  lemma ClearBit(x: bv8, k: nat, m: nat)
    requires k < 8 && m < 8
    ensures Bit(x & !(1 << k), m) <==> m != k && Bit(x, m)
  {}
}
