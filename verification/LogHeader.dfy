/** The log header as bytes: a count and that many block numbers, 32 bits each. */
module LogHeader {
  import opened Blocks
  import opened Words

  /** Most blocks a transaction may hold: any number for which the header fits in a block. kernel/param.h
      sets it to 30. */
  type Capacity = n: nat | n < WORDS witness 0
  const LOGSIZE: Capacity

  /** The header's count and block numbers written over `b`; entries past the count stay as they are. */
  function EncodeHead(b: Block, list: seq<nat>): Block
    requires |list| <= LOGSIZE && InWords(list)
  {
    EncodeEntries(SetWord(b, 0, |list|), list, |list|)
  }

  function EncodeEntries(b: Block, list: seq<nat>, k: nat): Block
    requires k <= |list| <= LOGSIZE && InWords(list)
  {
    if k == 0 then b else SetWord(EncodeEntries(b, list, k - 1), k, list[k - 1])
  }

  predicate InWords(list: seq<nat>) {
    forall i :: 0 <= i < |list| ==> list[i] < WORD_RANGE
  }

  function DecodeHead(b: Block): seq<nat>
    requires GetWord(b, 0) <= LOGSIZE
  {
    seq(GetWord(b, 0), i requires 0 <= i < GetWord(b, 0) => GetWord(b, i + 1))
  }

  lemma {:induction false} EncodedWords(b: Block, list: seq<nat>, k: nat, j: nat)
    requires k <= |list| <= LOGSIZE && InWords(list) && j < WORDS
    ensures GetWord(EncodeEntries(b, list, k), j) == if 1 <= j <= k then list[j - 1] else GetWord(b, j)
    decreases k
  {
    hide GetWord, SetWord;
    if k > 0 {
      EncodedWords(b, list, k - 1, j);
      GetSetWord(EncodeEntries(b, list, k - 1), k, list[k - 1], j);
    }
  }

  lemma HeadRoundTrip(b: Block, list: seq<nat>)
    requires |list| <= LOGSIZE && InWords(list)
    ensures GetWord(EncodeHead(b, list), 0) == |list|
    ensures DecodeHead(EncodeHead(b, list)) == list
  {
    forall j | 0 <= j <= |list|
      ensures GetWord(EncodeHead(b, list), j) == if j == 0 then |list| else list[j - 1]
    {
      EncodedWords(SetWord(b, 0, |list|), list, |list|, j);
      GetSetWord(b, 0, |list|, 0);
    }
  }

  /** The header that a block's bytes spell out; a count past the log's size reads as empty. */
  function HeadOf(b: Block): seq<nat> {
    if GetWord(b, 0) <= LOGSIZE then DecodeHead(b) else []
  }

  /** write_head's loop over the in-memory header. */
  method FillHead(b: Block, list: seq<nat>) returns (r: Block)
    requires |list| <= LOGSIZE && InWords(list)
    ensures GetWord(r, 0) == |list| && HeadOf(r) == list
  {
    hide GetWord, SetWord;
    r := SetWord(b, 0, |list|);
    var i := 0;
    while i < |list|
      invariant 0 <= i <= |list|
      invariant r == EncodeEntries(SetWord(b, 0, |list|), list, i)
    {
      r := SetWord(r, i + 1, list[i]);
      i := i + 1;
    }
    HeadRoundTrip(b, list);
  }

  /** read_head's loop over the block's words. */
  method ReadHead(b: Block) returns (list: seq<nat>)
    requires GetWord(b, 0) <= LOGSIZE
    ensures list == HeadOf(b)
  {
    hide GetWord;
    ghost var all := DecodeHead(b);
    list := [];
    while |list| < GetWord(b, 0)
      invariant |list| <= |all| && list == all[..|list|]
    {
      var k := |list|;
      list := list + [GetWord(b, k + 1)];
      assert list[k] == all[k];
    }
  }
}
