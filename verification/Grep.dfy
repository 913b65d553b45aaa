/** grep's backtracking matcher: it finds exactly the texts that the pattern's language says it should. */
module Grep {

  // ---- What a pattern means

  /** One position of a pattern: a character, a starred character, or the end-of-text anchor. */
  datatype Item = One(c: char) | Many(c: char) | End

  /** `.` matches anything; a star binds the character before it; `$` is an anchor only at the very end. */
  function Items(re: string): seq<Item> {
    if re == "" then []
    else if |re| > 1 && re[1] == '*' then [Many(re[0])] + Items(re[2..])
    else if re == "$" then [End]
    else [One(re[0])] + Items(re[1..])
  }

  predicate Admits(c: char, x: char) {
    c == '.' || c == x
  }

  predicate AllAdmitted(c: char, w: string) {
    forall i :: 0 <= i < |w| ==> Admits(c, w[i])
  }

  predicate Fits(item: Item, w: string) {
    match item
    case One(c) => |w| == 1 && Admits(c, w[0])
    case Many(c) => AllAdmitted(c, w)
    case End => w == ""
  }

  function Flatten(parts: seq<string>): string {
    if parts == [] then "" else parts[0] + Flatten(parts[1..])
  }

  /** `parts` cuts `w` into one piece for each item, each piece fitting its item. */
  ghost predicate Splits(items: seq<Item>, w: string, parts: seq<string>) {
    && |parts| == |items| && Flatten(parts) == w
    && forall i :: 0 <= i < |items| ==> Fits(items[i], parts[i])
  }

  /** `w` is in the language of the items; `atEnd` says whether the text ends where `w` does. */
  ghost predicate Denotes(items: seq<Item>, w: string, atEnd: bool) {
    (End in items ==> atEnd) && exists parts :: Splits(items, w, parts)
  }

  /** Some beginning of the text is in the language. */
  ghost predicate MatchesHere(re: string, text: string) {
    exists k :: 0 <= k <= |text| && Denotes(Items(re), text[..k], k == |text|)
  }

  /** Some part of the text is in the language; `^` ties that part to the beginning. */
  ghost predicate Matches(re: string, text: string) {
    if re != "" && re[0] == '^' then MatchesHere(re[1..], text)
    else exists i :: 0 <= i <= |text| && MatchesHere(re, text[i..])
  }

  // ---- The language, one item at a time

  lemma DenotesEmpty(w: string, atEnd: bool)
    ensures Denotes([], w, atEnd) <==> w == ""
  {
    if w == "" {
      assert Splits([], w, []);
    }
  }

  /** The first item fits the first `k` characters and the other items the rest. */
  ghost predicate CutAt(item: Item, items: seq<Item>, w: string, atEnd: bool, k: nat) {
    k <= |w| && Fits(item, w[..k]) && Denotes(items, w[k..], atEnd)
  }

  lemma CutFirst(item: Item, items: seq<Item>, w: string, atEnd: bool)
    requires Denotes([item] + items, w, atEnd)
    ensures item.End? ==> atEnd
    ensures exists k: nat :: CutAt(item, items, w, atEnd, k)
  {
    var all := [item] + items;
    var parts :| Splits(all, w, parts);
    var k := |parts[0]|;
    assert End in all <==> item.End? || End in items;
    assert Fits(all[0], parts[0]) && w[..k] == parts[0] && w[k..] == Flatten(parts[1..]);
    assert Splits(items, w[k..], parts[1..]) by {
      forall i | 0 <= i < |items| ensures Fits(items[i], parts[1..][i]) { assert Fits(all[i + 1], parts[i + 1]); }
    }
    assert CutAt(item, items, w, atEnd, k);
  }

  lemma JoinFirst(item: Item, items: seq<Item>, w: string, atEnd: bool, k: nat)
    requires CutAt(item, items, w, atEnd, k) && (item.End? ==> atEnd)
    ensures Denotes([item] + items, w, atEnd)
  {
    var all := [item] + items;
    var rest :| Splits(items, w[k..], rest);
    var parts := [w[..k]] + rest;
    assert parts[1..] == rest && w == w[..k] + w[k..];
    assert Splits(all, w, parts);
  }

  /** An item takes a first piece, the other items the rest. */
  lemma DenotesCons(item: Item, items: seq<Item>, w: string, atEnd: bool)
    ensures Denotes([item] + items, w, atEnd) <==>
            (item.End? ==> atEnd) && exists k: nat :: CutAt(item, items, w, atEnd, k)
  {
    if Denotes([item] + items, w, atEnd) {
      CutFirst(item, items, w, atEnd);
    } else if item.End? ==> atEnd {
      forall k: nat | CutAt(item, items, w, atEnd, k) ensures false { JoinFirst(item, items, w, atEnd, k); }
    }
  }

  // ---- The beginning of a text, one item at a time

  lemma HereEmpty(text: string)
    ensures MatchesHere("", text)
  {
    DenotesEmpty(text[..0], 0 == |text|);
  }

  lemma EndDenotes(w: string, atEnd: bool)
    ensures Denotes([End], w, atEnd) <==> w == "" && atEnd
  {
    assert [End] == [End] + [];
    DenotesCons(End, [], w, atEnd);
    if w == "" {
      DenotesEmpty(w[0..], atEnd);
      assert CutAt(End, [], w, atEnd, 0);
    } else {
      forall k: nat | k <= |w| ensures !CutAt(End, [], w, atEnd, k) { DenotesEmpty(w[k..], atEnd); }
    }
  }

  lemma HereEnd(text: string)
    ensures MatchesHere("$", text) <==> text == ""
  {
    forall k | 0 <= k <= |text|
      ensures Denotes(Items("$"), text[..k], k == |text|) <==> k == 0 && |text| == 0
    {
      EndDenotes(text[..k], k == |text|);
    }
    if text == "" {
      assert Denotes(Items("$"), text[..0], 0 == |text|);
    }
  }

  lemma OneDenotes(c: char, items: seq<Item>, w: string, atEnd: bool)
    ensures Denotes([One(c)] + items, w, atEnd) <==> w != "" && Admits(c, w[0]) && Denotes(items, w[1..], atEnd)
  {
    DenotesCons(One(c), items, w, atEnd);
    if w != "" {
      assert w[..1] == [w[0]];
      assert CutAt(One(c), items, w, atEnd, 1) <==> Admits(c, w[0]) && Denotes(items, w[1..], atEnd);
    }
  }

  lemma HereOne(re: string, text: string)
    requires re != "" && !(|re| > 1 && re[1] == '*') && re != "$"
    ensures MatchesHere(re, text) <==> text != "" && Admits(re[0], text[0]) && MatchesHere(re[1..], text[1..])
  {
    if MatchesHere(re, text) {
      var k :| 0 <= k <= |text| && Denotes(Items(re), text[..k], k == |text|);
      OneDenotes(re[0], Items(re[1..]), text[..k], k == |text|);
      assert text[..k][1..] == text[1..][..k - 1];
      assert Denotes(Items(re[1..]), text[1..][..k - 1], k - 1 == |text[1..]|);
    } else if text != "" && Admits(re[0], text[0]) {
      forall j | 0 <= j <= |text[1..]| ensures !Denotes(Items(re[1..]), text[1..][..j], j == |text[1..]|) {
        OneDenotes(re[0], Items(re[1..]), text[..j + 1], j + 1 == |text|);
        assert text[..j + 1][1..] == text[1..][..j];
      }
    }
  }

  /** A starred item at the beginning: some run of admitted characters, then the rest of the pattern. */
  ghost predicate StarThen(c: char, re: string, text: string) {
    exists k :: 0 <= k <= |text| && AllAdmitted(c, text[..k]) && MatchesHere(re, text[k..])
  }

  lemma HereStar(re: string, text: string)
    requires |re| > 1 && re[1] == '*'
    ensures MatchesHere(re, text) <==> StarThen(re[0], re[2..], text)
  {
    var c, rest := re[0], re[2..];
    if MatchesHere(re, text) {
      var n :| 0 <= n <= |text| && Denotes(Items(re), text[..n], n == |text|);
      DenotesCons(Many(c), Items(rest), text[..n], n == |text|);
      var k: nat :| CutAt(Many(c), Items(rest), text[..n], n == |text|, k);
      assert text[..n][..k] == text[..k] && text[..n][k..] == text[k..][..n - k];
      assert Denotes(Items(rest), text[k..][..n - k], n - k == |text[k..]|);
    }
    if StarThen(c, rest, text) {
      var k :| 0 <= k <= |text| && AllAdmitted(c, text[..k]) && MatchesHere(rest, text[k..]);
      var m :| 0 <= m <= |text[k..]| && Denotes(Items(rest), text[k..][..m], m == |text[k..]|);
      var n := k + m;
      assert text[..n][..k] == text[..k] && text[..n][k..] == text[k..][..m];
      assert CutAt(Many(c), Items(rest), text[..n], n == |text|, k);
      DenotesCons(Many(c), Items(rest), text[..n], n == |text|);
    }
  }

  // ---- The code

  /** matchhere */
  method MatchHere(re: string, text: string) returns (r: bool)
    ensures r <==> MatchesHere(re, text)
    decreases |re|, 1
  {
    if re == "" {
      HereEmpty(text);
      return true;
    }
    if |re| > 1 && re[1] == '*' {
      HereStar(re, text);
      r := MatchStar(re[0], re[2..], text);
      return;
    }
    if re == "$" {
      HereEnd(text);
      return text == "";
    }
    HereOne(re, text);
    if text != "" && (re[0] == '.' || re[0] == text[0]) {
      r := MatchHere(re[1..], text[1..]);
      return;
    }
    return false;
  }

  /** matchstar: tries the rest of the pattern behind every run of admitted characters. */
  method MatchStar(c: char, re: string, text: string) returns (r: bool)
    ensures r <==> StarThen(c, re, text)
    decreases |re|, 2
  {
    var k := 0;
    while true
      invariant 0 <= k <= |text| && AllAdmitted(c, text[..k])
      invariant forall j :: 0 <= j < k ==> !MatchesHere(re, text[j..])
      decreases |text| - k
    {
      var here := MatchHere(re, text[k..]);
      if here {
        return true;
      }
      if k == |text| || !(text[k] == c || c == '.') {
        break;
      }
      assert text[..k + 1] == text[..k] + [text[k]];
      k := k + 1;
    }
    if k < |text| {
      forall j | k < j <= |text| ensures !AllAdmitted(c, text[..j]) { assert text[..j][k] == text[k]; }
    }
    return false;
  }

  /** match: at the beginning after `^`, anywhere otherwise. */
  method Match(re: string, text: string) returns (r: bool)
    ensures r <==> Matches(re, text)
  {
    if re != "" && re[0] == '^' {
      r := MatchHere(re[1..], text);
      return;
    }
    var i := 0;
    while true
      invariant 0 <= i <= |text|
      invariant forall j :: 0 <= j < i ==> !MatchesHere(re, text[j..])
      decreases |text| - i
    {
      var here := MatchHere(re, text[i..]);
      if here {
        return true;
      }
      if i == |text| {
        break;
      }
      i := i + 1;
    }
    return false;
  }
}
