/** Parsing a printed command tree gives the tree back, whatever surrounds it. */
module ShellRoundTrip {
  import opened Shell

  /** w stands in s at position p. */
  predicate Here(s: string, p: nat, w: string) {
    p + |w| <= |s| && s[p..p + |w|] == w
  }

  lemma HereSplit(s: string, p: nat, a: string, b: string)
    requires Here(s, p, a + b)
    ensures Here(s, p, a) && Here(s, p + |a|, b)
  {
    assert s[p..p + |a|] == (a + b)[..|a|] == a;
    assert s[p + |a|..p + |a| + |b|] == (a + b)[|a|..] == b;
  }

  /** What may follow a complete command: the closing parenthesis or the end of the line. */
  predicate Stop(s: string, p: nat) {
    p == |s| || (p < |s| && s[p] == ')')
  }

  lemma AtSymbol(s: string, p: nat, c: char)
    requires p < |s| && s[p] == c && c in "|();&<"
    ensures SkipSpace(s, p) == p
    ensures GetToken(s, p) == Token(c, Span(p, p + 1), SkipSpace(s, p + 1))
  {}

  lemma NoSpace(s: string, p: nat)
    requires p <= |s| && (p < |s| ==> !IsSpace(s[p]))
    ensures SkipSpace(s, p) == p
  {}

  // ---- Words

  lemma {:induction false} WordEndAt(s: string, p: nat, e: nat)
    requires p <= e <= |s|
    requires forall k :: p <= k < e ==> WordChar(s[k])
    requires e < |s| ==> !WordChar(s[e])
    ensures WordEnd(s, p) == e
    decreases e - p
  {
    if p < e {
      WordEndAt(s, p + 1, e);
    }
  }

  /** A legal word with something else after it is one token. */
  lemma WordToken(s: string, p: nat, w: string)
    requires LegalWord(w) && Here(s, p, w)
    requires p + |w| < |s| ==> !WordChar(s[p + |w|])
    ensures SkipSpace(s, p) == p
    ensures GetToken(s, p) == Token('a', Span(p, p + |w|), SkipSpace(s, p + |w|))
    ensures Word(Span(p, p + |w|), s) == w
    ensures !Peek(s, p, "<>") && !Peek(s, p, "(") && !Peek(s, p, "|)&;")
  {
    assert s[p] == s[p..p + |w|][0] == w[0];
    forall k | p <= k < p + |w| ensures WordChar(s[k]) { assert s[k] == s[p..p + |w|][k - p]; }
    WordEndAt(s, p, p + |w|);
  }

  /** Where the argument list goes on after one word: at the next word or at the stop. */
  lemma AfterWord(s: string, p: nat, words: seq<string>)
    requires words != [] && forall k :: 0 <= k < |words| ==> LegalWord(words[k])
    requires Here(s, p, PrintWords(words)) && Stop(s, p + |PrintWords(words)|)
    ensures Here(s, p, words[0])
    ensures p + |words[0]| < |s| ==> !WordChar(s[p + |words[0]|])
    ensures var p' := SkipSpace(s, p + |words[0]|);
            && p' + |PrintWords(words[1..])| == p + |PrintWords(words)|
            && Here(s, p', PrintWords(words[1..])) && !Peek(s, p', "<>")
  {
    if |words| > 1 {
      AfterOneOfMany(s, p, words[0], words[1..]);
    } else {
      AfterLast(s, p, words[0]);
    }
  }

  lemma AfterLast(s: string, p: nat, w: string)
    requires LegalWord(w) && Here(s, p, w) && Stop(s, p + |w|)
    ensures p + |w| < |s| ==> !WordChar(s[p + |w|])
    ensures SkipSpace(s, p + |w|) == p + |w| && Here(s, p + |w|, "") && !Peek(s, p + |w|, "<>")
  {
    hide LegalWord;
    NoSpace(s, p + |w|);
  }

  lemma AfterOneOfMany(s: string, p: nat, w: string, rest: seq<string>)
    requires rest != [] && LegalWord(w) && forall k :: 0 <= k < |rest| ==> LegalWord(rest[k])
    requires Here(s, p, w + " " + PrintWords(rest))
    ensures Here(s, p, w) && p + |w| < |s| && !WordChar(s[p + |w|])
    ensures SkipSpace(s, p + |w|) == p + |w| + 1 && Here(s, p + |w| + 1, PrintWords(rest))
    ensures !Peek(s, p + |w| + 1, "<>")
  {
    hide PrintWords, LegalWord;
    var e := p + |w|;
    HereSplit(s, p, w + " ", PrintWords(rest));
    HereSplit(s, p, w, " ");
    assert s[e] == s[e..e + 1][0] == ' ';
    HeadOfWords(s, e + 1, rest);
    NoSpace(s, e + 1);
  }

  /** A printed argument list begins with a word character or is empty. */
  lemma HeadOfWords(s: string, p: nat, words: seq<string>)
    requires words != [] && forall k :: 0 <= k < |words| ==> LegalWord(words[k])
    requires Here(s, p, PrintWords(words))
    ensures p < |s| && WordChar(s[p]) && s[p] != '\0'
  {
    assert PrintWords(words)[0] == words[0][0];
    assert s[p] == s[p..p + |PrintWords(words)|][0];
  }

  /** One turn of the argument loop. */
  lemma ArgsStep(s: string, p: nat, w: string, argv: seq<Span>)
    requires LegalWord(w) && Here(s, p, w) && |argv| + 1 < MAXARGS
    requires p + |w| < |s| ==> !WordChar(s[p + |w|])
    requires !Peek(s, SkipSpace(s, p + |w|), "<>")
    ensures ParseArgs(Exec(argv), |argv|, s, p)
         == ParseArgs(Exec(argv + [Span(p, p + |w|)]), |argv| + 1, s, SkipSpace(s, p + |w|))
  {
    hide SkipSpace, GetToken, Peek, Here, LegalWord, WordChar;
    WordToken(s, p, w);
    var p' := SkipSpace(s, p + |w|);
    NoSpace(s, p');
    assert ParseRedirs(Exec(argv + [Span(p, p + |w|)]), s, p') == Ok(Exec(argv + [Span(p, p + |w|)]), p');
  }

  lemma ArgsStop(s: string, p: nat, c: Cmd, argc: nat)
    requires p <= |s| && Stop(s, p)
    ensures ParseArgs(c, argc, s, p) == Ok(c, p)
  {}

  lemma WordsAppend(argv: seq<Span>, sp: Span, s: string, words: seq<string>)
    requires words != [] && Word(sp, s) == words[0]
    ensures Words(argv + [sp], s) + words[1..] == Words(argv, s) + words
  {
    hide Word;
    assert Words(argv + [sp], s) == Words(argv, s) + [words[0]];
    assert words == [words[0]] + words[1..];
  }

  /** The argument loop reads a printed word list to its end. */
  lemma {:induction false} ArgsRoundTrip(s: string, p: nat, words: seq<string>, argv: seq<Span>)
    requires forall k :: 0 <= k < |words| ==> LegalWord(words[k])
    requires |argv| + |words| < MAXARGS
    requires Here(s, p, PrintWords(words)) && Stop(s, p + |PrintWords(words)|)
    ensures var r := ParseArgs(Exec(argv), |argv|, s, p);
            && r.Ok? && r.next == p + |PrintWords(words)|
            && TreeOf(r.cmd, s) == TExec(Words(argv, s) + words)
    decreases |words|
  {
    hide ParseArgs, SkipSpace, Peek, LegalWord, WordChar, Stop, Word, Words;
    if words == [] {
      ArgsStop(s, p, Exec(argv), |argv|);
      assert Words(argv, s) + words == Words(argv, s) && TreeOf(Exec(argv), s) == TExec(Words(argv, s));
    } else {
      AfterWord(s, p, words);
      WordToken(s, p, words[0]);
      ArgsStep(s, p, words[0], argv);
      var sp := Span(p, p + |words[0]|);
      ArgsRoundTrip(s, SkipSpace(s, p + |words[0]|), words[1..], argv + [sp]);
      WordsAppend(argv, sp, s, words);
    }
  }

  // ---- Blocks and trees

  /** The line parser reads a printed tree from p to e. */
  ghost predicate LineReads(s: string, p: nat, t: Tree, e: nat) {
    p <= |s| && var r := ParseLine(s, p); r.Ok? && r.next == e && TreeOf(r.cmd, s) == t
  }

  /** The exec parser, which is where blocks are read, does. */
  ghost predicate ExecReads(s: string, p: nat, t: Tree, e: nat) {
    p <= |s| && var r := ParseExec(s, p); r.Ok? && r.next == e && TreeOf(r.cmd, s) == t
  }

  /** A block is its line, then the redirections after the closing parenthesis. */
  lemma BlockIsLine(s: string, p: nat, c: Cmd, e: nat)
    requires p + 1 < |s| && s[p] == '(' && !IsSpace(s[p + 1])
    requires ParseLine(s, p + 1) == Ok(c, e) && e < |s| && s[e] == ')' && (e + 1 < |s| ==> !IsSpace(s[e + 1]))
    ensures ParseExec(s, p) == ParseRedirs(c, s, e + 1)
  {
    hide ParseLine, ParseRedirs, ParseArgs;
    AtSymbol(s, p, '(');
    NoSpace(s, p + 1);
    AtSymbol(s, e, ')');
    NoSpace(s, e + 1);
    assert GetToken(s, p).next == p + 1 && GetToken(s, e).next == e + 1;
    BlockUnfolds(s, p, c, e);
  }

  lemma BlockUnfolds(s: string, p: nat, c: Cmd, e: nat)
    requires p + 1 < |s| && Peek(s, p, "(") && GetToken(s, p).next == p + 1
    requires ParseLine(s, p + 1) == Ok(c, e) && e < |s| && Peek(s, e, ")") && GetToken(s, e).next == e + 1
    ensures ParseExec(s, p) == ParseRedirs(c, s, e + 1)
  {
    hide ParseLine, ParseRedirs, ParseArgs, Peek, GetToken;
    assert ParseBlock(s, p) == ParseRedirs(c, s, e + 1);
  }

  /** A parenthesised line followed by a redirection-free rest is one exec. */
  lemma BlockReads(s: string, p: nat, t: Tree, e: nat)
    requires p + 1 < |s| && s[p] == '(' && !IsSpace(s[p + 1]) && LineReads(s, p + 1, t, e)
    requires e < |s| && s[e] == ')' && (e + 1 < |s| ==> s[e + 1] in ")|;&")
    ensures ExecReads(s, p, t, e + 1)
  {
    hide ParseLine, ParseExec, TreeOf;
    BlockIsLine(s, p, ParseLine(s, p + 1).cmd, e);
    NoSpace(s, e + 1);
    assert !Peek(s, e + 1, "<>");
  }

  /** A parenthesised line followed by one redirection is one exec. */
  lemma RedirReads(s: string, p: nat, t: Tree, e: nat, m: Mode, w: string)
    requires p + 1 < |s| && s[p] == '(' && !IsSpace(s[p + 1]) && LineReads(s, p + 1, t, e)
    requires e < |s| && s[e] == ')' && LegalWord(w)
    requires Here(s, e + 1, Symbol(m)) && Here(s, e + 1 + |Symbol(m)|, w) && Stop(s, e + 1 + |Symbol(m)| + |w|)
    ensures ExecReads(s, p, TRedir(t, w, m), e + 1 + |Symbol(m)| + |w|)
  {
    hide ParseLine, ParseExec, ParseRedirs, TreeOf, LegalWord, Here, Stop, Peek, GetToken;
    var f := e + 1 + |Symbol(m)|;
    var c := ParseLine(s, p + 1).cmd;
    RedirToken(s, e + 1, m, w);
    OneRedir(s, e + 1, c, m, w);
    WordFits(s, f, w);
    BlockIsLine(s, p, c, e);
    RedirTree(c, Span(f, f + |w|), m, s);
  }

  lemma WordFits(s: string, p: nat, w: string)
    requires Here(s, p, w)
    ensures p + |w| <= |s| && Word(Span(p, p + |w|), s) == w
  {}

  lemma RedirTree(c: Cmd, f: Span, m: Mode, s: string)
    ensures TreeOf(Redir(c, f, m), s) == TRedir(TreeOf(c, s), Word(f, s), m)
  {}

  /** The redirection sign in front of a word is one token. */
  lemma RedirToken(s: string, p: nat, m: Mode, w: string)
    requires Here(s, p, Symbol(m)) && LegalWord(w) && Here(s, p + |Symbol(m)|, w)
    ensures SkipSpace(s, p) == p && Peek(s, p, "<>")
    ensures GetToken(s, p).next == p + |Symbol(m)| && ModeOf(GetToken(s, p).kind) == m
  {
    hide WordEnd;
    var f := p + |Symbol(m)|;
    assert s[f] == s[f..f + |w|][0] == w[0];
    NoSpace(s, f);
    hide LegalWord;
    assert s[p] == s[p..f][0] == Symbol(m)[0];
    if m.Append? { assert s[p + 1] == s[p..f][1]; }
  }

  lemma OneRedir(s: string, p: nat, c: Cmd, m: Mode, w: string)
    requires Here(s, p, Symbol(m)) && LegalWord(w) && Here(s, p + |Symbol(m)|, w)
    requires Stop(s, p + |Symbol(m)| + |w|)
    ensures var f := p + |Symbol(m)|;
            ParseRedirs(c, s, p) == Ok(Redir(c, Span(f, f + |w|), m), f + |w|)
  {
    hide GetToken, WordEnd, Symbol, LegalWord, Here;
    var f := p + |Symbol(m)|;
    RedirToken(s, p, m, w);
    WordToken(s, f, w);
    NoSpace(s, f + |w|);
    assert !Peek(s, f + |w|, "<>");
  }

  ghost predicate PipeReads(s: string, p: nat, t: Tree, e: nat) {
    p <= |s| && var r := ParsePipe(s, p); r.Ok? && r.next == e && TreeOf(r.cmd, s) == t
  }

  lemma ExecToPipe(s: string, p: nat, t: Tree, e: nat)
    requires ExecReads(s, p, t, e) && (e < |s| ==> s[e] in ");&")
    ensures PipeReads(s, p, t, e)
  {
    hide ParseExec, TreeOf;
    NoSpace(s, e);
  }

  lemma PipeOfTwo(s: string, p: nat, l: Tree, e: nat, r: Tree, f: nat)
    requires ExecReads(s, p, l, e) && e + 1 < |s| && s[e] == '|' && !IsSpace(s[e + 1])
    requires PipeReads(s, e + 1, r, f)
    ensures PipeReads(s, p, TPipe(l, r), f)
  {
    hide ParseExec, GetToken;
    AtSymbol(s, e, '|');
    NoSpace(s, e + 1);
    var c, d := ParseExec(s, p).cmd, ParsePipe(s, e + 1).cmd;
    assert TreeOf(Pipe(c, d), s) == TPipe(TreeOf(c, s), TreeOf(d, s));
    assert ParsePipe(s, p) == Ok(Pipe(c, d), f);
  }

  /** A pipeline with the end of its line after it is a line. */
  lemma PipeToLine(s: string, p: nat, t: Tree, e: nat)
    requires PipeReads(s, p, t, e) && Stop(s, e)
    ensures LineReads(s, p, t, e)
  {
    hide ParsePipe, TreeOf;
    NoSpace(s, e);
    assert ParseBacks(ParsePipe(s, p).cmd, s, e) == Ok(ParsePipe(s, p).cmd, e);
  }

  lemma BackLine(s: string, p: nat, t: Tree, e: nat)
    requires PipeReads(s, p, t, e) && e < |s| && s[e] == '&' && Stop(s, e + 1)
    ensures LineReads(s, p, TBack(t), e + 1)
  {
    hide ParsePipe, GetToken;
    AtSymbol(s, e, '&');
    NoSpace(s, e + 1);
    var c := ParsePipe(s, p).cmd;
    assert ParseBacks(Back(c), s, e + 1) == Ok(Back(c), e + 1);
    assert ParseBacks(c, s, e) == Ok(Back(c), e + 1);
    assert TreeOf(Back(c), s) == TBack(TreeOf(c, s));
  }

  lemma ListLine(s: string, p: nat, l: Tree, e: nat, r: Tree, f: nat)
    requires PipeReads(s, p, l, e) && e + 1 < |s| && s[e] == ';' && !IsSpace(s[e + 1])
    requires LineReads(s, e + 1, r, f)
    ensures LineReads(s, p, TList(l, r), f)
  {
    hide ParsePipe, GetToken;
    AtSymbol(s, e, ';');
    NoSpace(s, e + 1);
    var c, d := ParsePipe(s, p).cmd, ParseLine(s, e + 1).cmd;
    assert ParseBacks(c, s, e) == Ok(c, e);
    assert TreeOf(List(c, d), s) == TList(TreeOf(c, s), TreeOf(d, s));
    assert ParseLine(s, p) == Ok(List(c, d), f);
  }

  /** An argument list is an exec. */
  lemma ExecOfWords(s: string, p: nat, words: seq<string>)
    requires Legal(TExec(words)) && Here(s, p, PrintWords(words)) && Stop(s, p + |PrintWords(words)|)
    ensures ExecReads(s, p, TExec(words), p + |PrintWords(words)|)
  {
    hide ParseArgs, TreeOf, LegalWord;
    if words != [] { HeadOfWords(s, p, words); }
    NoSpace(s, p);
    assert !Peek(s, p, "(") && !Peek(s, p, "<>");
    assert ParseRedirs(Exec([]), s, p) == Ok(Exec([]), p);
    ArgsRoundTrip(s, p, words, []);
    assert Words([], s) + words == words;
  }

  /** Every printed tree begins with something other than white space. */
  lemma HeadOfPrint(s: string, p: nat, t: Tree)
    requires Legal(t) && Here(s, p, Print(t) + ")")
    ensures p < |s| && !IsSpace(s[p])
  {
    hide LegalWord;
    HereSplit(s, p, Print(t), ")");
    if t.TExec? {
      if t.words != [] { HeadOfWords(s, p, t.words); }
      else { assert s[p] == s[p..p + 1][0]; }
    } else {
      assert Print(t)[0] == '(';
      assert s[p] == s[p..p + |Print(t)|][0];
    }
  }

  /** The text "(t)" at p, taken apart. */
  lemma ParensHere(s: string, p: nat, t: Tree, rest: string)
    requires Legal(t) && Here(s, p, "(" + Print(t) + ")" + rest)
    ensures p + 1 < |s| && s[p] == '(' && !IsSpace(s[p + 1])
    ensures Here(s, p + 1, Print(t))
    ensures var e := p + 1 + |Print(t)|; e < |s| && s[e] == ')' && Stop(s, e) && Here(s, e + 1, rest)
  {
    hide Print, Legal;
    HereSplit(s, p, "(" + Print(t) + ")", rest);
    assert "(" + Print(t) + ")" == "(" + (Print(t) + ")");
    HereSplit(s, p, "(", Print(t) + ")");
    HeadOfPrint(s, p + 1, t);
    HereSplit(s, p + 1, Print(t), ")");
    var e := p + 1 + |Print(t)|;
    assert s[p] == s[p..p + 1][0] && s[e] == s[e..e + 1][0];
  }

  lemma StopChar(s: string, e: nat)
    requires Stop(s, e)
    ensures e <= |s| && (e < |s| ==> s[e] in ");&" && s[e] in ")|;&")
  {}

  lemma CharHere(s: string, p: nat, c: char, rest: string)
    requires Here(s, p, [c] + rest)
    ensures p < |s| && s[p] == c && Here(s, p + 1, rest)
  {
    HereSplit(s, p, [c], rest);
    assert s[p] == s[p..p + 1][0];
  }

  /** The text "(l)c(r)" at p, taken apart. */
  lemma TwoBlocks(s: string, p: nat, l: Tree, c: char, r: Tree)
    requires Legal(l) && Legal(r)
    requires Here(s, p, "(" + Print(l) + ")" + ([c] + ("(" + Print(r) + ")")))
    requires Stop(s, p + |Print(l)| + |Print(r)| + 5)
    ensures p + 1 < |s| && s[p] == '(' && !IsSpace(s[p + 1]) && Here(s, p + 1, Print(l))
    ensures var f := p + 1 + |Print(l)|;
            && f + 3 < |s| && s[f] == ')' && Stop(s, f) && s[f + 1] == c && s[f + 2] == '('
            && !IsSpace(s[f + 2]) && !IsSpace(s[f + 3])
            && Here(s, f + 3, Print(r)) && Stop(s, f + 3 + |Print(r)|)
            && f + 3 + |Print(r)| < |s| && s[f + 3 + |Print(r)|] == ')'
  {
    hide Print, Legal, Here, Stop;
    ParensHere(s, p, l, [c] + ("(" + Print(r) + ")"));
    var f := p + 1 + |Print(l)|;
    CharHere(s, f + 1, c, "(" + Print(r) + ")");
    assert "(" + Print(r) + ")" == "(" + Print(r) + ")" + "";
    ParensHere(s, f + 2, r, "");
  }

  /** The pieces of a printed tree's text; each case of the round trip from those of its parts. */
  lemma WordsLine(s: string, p: nat, words: seq<string>)
    requires Legal(TExec(words)) && Here(s, p, PrintWords(words)) && Stop(s, p + |PrintWords(words)|)
    ensures LineReads(s, p, TExec(words), p + |PrintWords(words)|)
  {
    hide LineReads, PipeReads, ExecReads, LegalWord, Here, Stop, PrintWords;
    var e := p + |PrintWords(words)|;
    ExecOfWords(s, p, words);
    StopChar(s, e);
    ExecToPipe(s, p, TExec(words), e);
    PipeToLine(s, p, TExec(words), e);
  }

  lemma RedirLine(s: string, p: nat, u: Tree, name: string, m: Mode)
    requires Legal(u) && LegalWord(name) && Here(s, p, "(" + Print(u) + ")" + (Symbol(m) + name))
    requires Stop(s, p + 2 + |Print(u)| + |Symbol(m)| + |name|)
    requires LineReads(s, p + 1, u, p + 1 + |Print(u)|)
    ensures LineReads(s, p, TRedir(u, name, m), p + 2 + |Print(u)| + |Symbol(m)| + |name|)
  {
    hide LineReads, PipeReads, ExecReads, LegalWord, Here, Stop, IsSpace, Print, Legal;
    ParensHere(s, p, u, Symbol(m) + name);
    var f := p + 1 + |Print(u)|;
    var e := f + 1 + |Symbol(m)| + |name|;
    HereSplit(s, f + 1, Symbol(m), name);
    RedirReads(s, p, u, f, m, name);
    StopChar(s, e);
    ExecToPipe(s, p, TRedir(u, name, m), e);
    PipeToLine(s, p, TRedir(u, name, m), e);
  }

  lemma BackgroundLine(s: string, p: nat, u: Tree)
    requires Legal(u) && Here(s, p, "(" + Print(u) + ")" + "&") && Stop(s, p + 3 + |Print(u)|)
    requires LineReads(s, p + 1, u, p + 1 + |Print(u)|)
    ensures LineReads(s, p, TBack(u), p + 3 + |Print(u)|)
  {
    hide LineReads, PipeReads, ExecReads, Here, Stop, IsSpace, Print, Legal;
    ParensHere(s, p, u, "&");
    var f := p + 1 + |Print(u)|;
    assert ['&'] + "" == "&";
    CharHere(s, f + 1, '&', "");
    BlockReads(s, p, u, f);
    ExecToPipe(s, p, u, f + 1);
    BackLine(s, p, u, f + 1);
  }

  lemma TwoReads(s: string, p: nat, l: Tree, c: char, r: Tree)
    requires Legal(l) && Legal(r) && c in "|;"
    requires Here(s, p, "(" + Print(l) + ")" + ([c] + ("(" + Print(r) + ")")))
    requires Stop(s, p + |Print(l)| + |Print(r)| + 5)
    requires LineReads(s, p + 1, l, p + 1 + |Print(l)|)
    requires LineReads(s, p + 4 + |Print(l)|, r, p + 4 + |Print(l)| + |Print(r)|)
    ensures var f, e := p + 1 + |Print(l)|, p + |Print(l)| + |Print(r)| + 5;
            && ExecReads(s, p, l, f + 1) && PipeReads(s, f + 2, r, e)
            && f + 2 < |s| && s[f + 1] == c && !IsSpace(s[f + 2])
  {
    hide LineReads, PipeReads, ExecReads, Here, Stop, IsSpace, Print, Legal;
    var f, e := p + 1 + |Print(l)|, p + |Print(l)| + |Print(r)| + 5;
    TwoBlocks(s, p, l, c, r);
    StopChar(s, e);
    BlockReads(s, p, l, f);
    BlockReads(s, f + 2, r, e - 1);
    ExecToPipe(s, f + 2, r, e);
  }

  lemma JoinedLine(s: string, p: nat, l: Tree, c: char, r: Tree)
    requires Legal(l) && Legal(r) && c in "|;"
    requires Here(s, p, "(" + Print(l) + ")" + ([c] + ("(" + Print(r) + ")")))
    requires Stop(s, p + |Print(l)| + |Print(r)| + 5)
    requires LineReads(s, p + 1, l, p + 1 + |Print(l)|)
    requires LineReads(s, p + 4 + |Print(l)|, r, p + 4 + |Print(l)| + |Print(r)|)
    ensures LineReads(s, p, if c == '|' then TPipe(l, r) else TList(l, r), p + |Print(l)| + |Print(r)| + 5)
  {
    hide LineReads, PipeReads, ExecReads, Here, Stop, IsSpace, Print, Legal;
    var f, e := p + 1 + |Print(l)|, p + |Print(l)| + |Print(r)| + 5;
    TwoReads(s, p, l, c, r);
    if c == '|' {
      PipeOfTwo(s, p, l, f + 1, r, e);
      PipeToLine(s, p, TPipe(l, r), e);
    } else {
      PipeToLine(s, f + 2, r, e);
      ExecToPipe(s, p, l, f + 1);
      ListLine(s, p, l, f + 1, r, e);
    }
  }

  /** The line parser reads a printed tree, wherever it stands, up to the parenthesis that closes it or
      the end of the line. */
  lemma {:induction false} LineRoundTrip(s: string, p: nat, t: Tree)
    requires Legal(t) && Here(s, p, Print(t)) && Stop(s, p + |Print(t)|)
    ensures LineReads(s, p, t, p + |Print(t)|)
    decreases t
  {
    hide LineReads, LegalWord, Here, Stop, IsSpace, PrintWords, Symbol;
    match t
    case TExec(words) =>
      WordsLine(s, p, words);
    case TRedir(u, name, m) =>
      ParensHere(s, p, u, Symbol(m) + name);
      LineRoundTrip(s, p + 1, u);
      RedirLine(s, p, u, name, m);
    case TBack(u) =>
      ParensHere(s, p, u, "&");
      LineRoundTrip(s, p + 1, u);
      BackgroundLine(s, p, u);
    case TPipe(l, r) =>
      TwoBlocks(s, p, l, '|', r);
      LineRoundTrip(s, p + 1, l);
      LineRoundTrip(s, p + 4 + |Print(l)|, r);
      JoinedLine(s, p, l, '|', r);
    case TList(l, r) =>
      TwoBlocks(s, p, l, ';', r);
      LineRoundTrip(s, p + 1, l);
      LineRoundTrip(s, p + 4 + |Print(l)|, r);
      JoinedLine(s, p, l, ';', r);
  }

  /** Round trip: the whole line is consumed and the tree is the one that was printed. */
  lemma RoundTrip(t: Tree)
    requires Legal(t)
    ensures var r := ParseCmd(Print(t)); r.Ok? && TreeOf(r.cmd, Print(t)) == t
  {
    hide Print, ParseLine, TreeOf;
    LineRoundTrip(Print(t), 0, t);
  }
}
