/** Disk blocks and their bytewise exclusive or, the algebra that RAID parity is built on. */
module Blocks {

  const BSIZE: nat := 1024

  type Block = b: seq<bv8> | |b| == BSIZE witness seq(BSIZE, _ => 0)

  function Zero(): Block {
    seq(BSIZE, _ => 0)
  }

  function Xor(a: Block, b: Block): Block {
    seq(BSIZE, i requires 0 <= i < BSIZE => a[i] ^ b[i])
  }

  /** The exclusive or of a whole row of blocks. */
  function XorAll(s: seq<Block>): Block {
    if s == [] then Zero() else Xor(s[0], XorAll(s[1..]))
  }

  lemma XorCommutes(a: Block, b: Block)
    ensures Xor(a, b) == Xor(b, a)
  {
    assert forall i :: 0 <= i < BSIZE ==> Xor(a, b)[i] == Xor(b, a)[i];
  }

  lemma XorAssociates(a: Block, b: Block, c: Block)
    ensures Xor(Xor(a, b), c) == Xor(a, Xor(b, c))
  {
    assert forall i :: 0 <= i < BSIZE ==> Xor(Xor(a, b), c)[i] == Xor(a, Xor(b, c))[i];
  }

  lemma XorZero(a: Block)
    ensures Xor(a, Zero()) == a && Xor(Zero(), a) == a
  {
    assert forall i :: 0 <= i < BSIZE ==> Xor(a, Zero())[i] == a[i] && Xor(Zero(), a)[i] == a[i];
  }

  lemma XorSelf(a: Block)
    ensures Xor(a, a) == Zero()
  {
    assert forall i :: 0 <= i < BSIZE ==> Xor(a, a)[i] == Zero()[i];
  }

  /** A block xored in twice drops out. */
  lemma XorCancels(a: Block, b: Block)
    ensures Xor(a, Xor(a, b)) == b
  {
    XorAssociates(a, a, b);
    XorSelf(a);
    XorZero(b);
  }

  lemma XorInjective(a: Block, b: Block, c: Block)
    ensures Xor(a, b) == Xor(a, c) <==> b == c
  {
    XorCancels(a, b);
    XorCancels(a, c);
  }

  lemma XorSwap(a: Block, b: Block, c: Block)
    ensures Xor(a, Xor(b, c)) == Xor(b, Xor(a, c))
  {
    XorAssociates(a, b, c);
    XorAssociates(b, a, c);
    XorCommutes(a, b);
  }

  lemma {:induction false} XorAllConcat(s: seq<Block>, t: seq<Block>)
    ensures XorAll(s + t) == Xor(XorAll(s), XorAll(t))
  {
    if s == [] {
      assert s + t == t;
      XorZero(XorAll(t));
    } else {
      assert (s + t)[1..] == s[1..] + t;
      XorAllConcat(s[1..], t);
      XorAssociates(s[0], XorAll(s[1..]), XorAll(t));
    }
  }

  lemma XorAllSingleton(b: Block)
    ensures XorAll([b]) == b
  {
    assert XorAll([b]) == Xor(b, XorAll([b][1..]));
    XorZero(b);
  }

  /** One block can be pulled out of a row's exclusive or. */
  lemma XorAllSplit(s: seq<Block>, i: nat)
    requires i < |s|
    ensures XorAll(s) == Xor(s[i], XorAll(s[..i] + s[i + 1..]))
  {
    hide Xor, XorAll;
    var before, after := s[..i], s[i + 1..];
    assert s == before + ([s[i]] + after);
    XorAllConcat(before, [s[i]] + after);
    XorAllConcat([s[i]], after);
    XorAllSingleton(s[i]);
    XorAllConcat(before, after);
    XorSwap(s[i], XorAll(before), XorAll(after));
  }

  /** Replacing one block changes the row's exclusive or by old xor new. */
  lemma XorAllUpdate(s: seq<Block>, i: nat, v: Block)
    requires i < |s|
    ensures XorAll(s[i := v]) == Xor(Xor(s[i], v), XorAll(s))
  {
    hide Xor, XorAll;
    var t := s[i := v];
    var rest := XorAll(s[..i] + s[i + 1..]);
    assert t[..i] + t[i + 1..] == s[..i] + s[i + 1..];
    XorAllSplit(s, i);
    XorAllSplit(t, i);
    XorCommutes(s[i], v);
    XorAssociates(v, s[i], Xor(s[i], rest));
    XorCancels(s[i], rest);
  }
}
