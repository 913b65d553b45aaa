/** The parser as the shell runs it: a cursor moved by loops, and NULs written behind every word. */
module ShellParser {
  import opened Shell
  import opened ShellRoundTrip

  // ---- Every parsed word is a maximal run of word characters

  predicate SpanOk(w: Span, s: string) {
    && w.q < w.eq <= |s| && (forall k :: w.q <= k < w.eq ==> WordChar(s[k]))
    && (w.eq < |s| ==> !WordChar(s[w.eq]))
  }

  predicate CmdOk(c: Cmd, s: string) {
    match c
    case Exec(argv) => |argv| < MAXARGS && forall k :: 0 <= k < |argv| ==> SpanOk(argv[k], s)
    case Redir(d, f, _) => CmdOk(d, s) && SpanOk(f, s)
    case Pipe(l, r) => CmdOk(l, s) && CmdOk(r, s)
    case List(l, r) => CmdOk(l, s) && CmdOk(r, s)
    case Back(d) => CmdOk(d, s)
  }

  /** Arguments of the exec record under c's redirections. */
  ghost function Argc(c: Cmd): nat
    requires Wrapped(c)
  {
    if c.Exec? then |c.argv| else Argc(c.cmd)
  }

  lemma WordSpan(s: string, p: nat)
    requires p <= |s| && GetToken(s, p).kind == 'a'
    ensures SpanOk(GetToken(s, p).span, s)
  {
    hide SkipSpace;
    var q := SkipSpace(s, p);
    assert q < |s|;
    assert GetToken(s, p).span == Span(q, WordEnd(s, q));
  }

  lemma {:induction false} AddArgOk(c: Cmd, w: Span, s: string)
    requires Wrapped(c) && CmdOk(c, s) && SpanOk(w, s) && Argc(c) + 1 < MAXARGS
    ensures Wrapped(AddArg(c, w)) && CmdOk(AddArg(c, w), s) && Argc(AddArg(c, w)) == Argc(c) + 1
  {
    if c.Redir? { AddArgOk(c.cmd, w, s); }
  }

  lemma {:induction false} RedirsOk(c: Cmd, s: string, p: nat)
    requires p <= |s| && CmdOk(c, s)
    ensures var r := ParseRedirs(c, s, p); r.Ok? ==>
              CmdOk(r.cmd, s) && (Wrapped(c) ==> Wrapped(r.cmd) && Argc(r.cmd) == Argc(c))
    decreases |s| - p
  {
    hide SpanOk, GetToken, Peek;
    if Peek(s, p, "<>") {
      var t := GetToken(s, p);
      var f := GetToken(s, t.next);
      PeekedToken(s, p, "<>");
      if f.kind == 'a' {
        WordSpan(s, t.next);
        RedirsOk(Redir(c, f.span, ModeOf(t.kind)), s, f.next);
      }
    }
  }

  lemma {:induction false} ArgsOk(c: Cmd, argc: nat, s: string, p: nat)
    requires p <= |s| && Wrapped(c) && CmdOk(c, s) && Argc(c) == argc
    ensures var r := ParseArgs(c, argc, s, p); r.Ok? ==> CmdOk(r.cmd, s)
    decreases |s| - p
  {
    hide SpanOk, Peek, GetToken, CmdOk, Wrapped, ParseRedirs;
    if !Peek(s, p, "|)&;") {
      var t := GetToken(s, p);
      if t.kind == 'a' && argc + 1 < MAXARGS {
        WordSpan(s, p);
        AddArgOk(c, t.span, s);
        RedirsOk(AddArg(c, t.span), s, t.next);
        var r := ParseRedirs(AddArg(c, t.span), s, t.next);
        if r.Ok? { ArgsOk(r.cmd, argc + 1, s, r.next); }
      }
    }
  }

  lemma {:induction false} ExecOk(s: string, p: nat)
    requires p <= |s|
    ensures var r := ParseExec(s, p); r.Ok? ==> CmdOk(r.cmd, s)
    decreases |s| - p, 1
  {
    hide SpanOk, Peek, GetToken, ParseRedirs, ParseArgs;
    if Peek(s, p, "(") { BlockOk(s, p); }
    else {
      RedirsOk(Exec([]), s, p);
      var r := ParseRedirs(Exec([]), s, p);
      if r.Ok? { ArgsOk(r.cmd, 0, s, r.next); }
    }
  }

  lemma {:induction false} BlockOk(s: string, p: nat)
    requires p <= |s|
    ensures var r := ParseBlock(s, p); r.Ok? ==> CmdOk(r.cmd, s)
    decreases |s| - p, 0
  {
    hide SpanOk, Peek, GetToken, ParseRedirs;
    if Peek(s, p, "(") {
      PeekedToken(s, p, "(");
      LineOk(s, GetToken(s, p).next);
      var r := ParseLine(s, GetToken(s, p).next);
      if r.Ok? { RedirsOk(r.cmd, s, GetToken(s, r.next).next); }
    }
  }

  lemma {:induction false} PipeOk(s: string, p: nat)
    requires p <= |s|
    ensures var r := ParsePipe(s, p); r.Ok? ==> CmdOk(r.cmd, s)
    decreases |s| - p, 2
  {
    hide SpanOk, Peek, GetToken;
    ExecOk(s, p);
    var r := ParseExec(s, p);
    if r.Ok? && Peek(s, r.next, "|") {
      PeekedToken(s, r.next, "|");
      PipeOk(s, GetToken(s, r.next).next);
    }
  }

  lemma {:induction false} BacksOk(c: Cmd, s: string, p: nat)
    requires p <= |s| && CmdOk(c, s)
    ensures CmdOk(ParseBacks(c, s, p).cmd, s)
    decreases |s| - p
  {
    hide SpanOk, Peek, GetToken;
    if Peek(s, p, "&") {
      PeekedToken(s, p, "&");
      BacksOk(Back(c), s, GetToken(s, p).next);
    }
  }

  lemma {:induction false} LineOk(s: string, p: nat)
    requires p <= |s|
    ensures var r := ParseLine(s, p); r.Ok? ==> CmdOk(r.cmd, s)
    decreases |s| - p, 3
  {
    hide SpanOk, Peek, GetToken, ParseBacks;
    PipeOk(s, p);
    var r := ParsePipe(s, p);
    if r.Ok? {
      BacksOk(r.cmd, s, r.next);
      var b := ParseBacks(r.cmd, s, r.next);
      if Peek(s, b.next, ";") {
        PeekedToken(s, b.next, ";");
        LineOk(s, GetToken(s, b.next).next);
      }
    }
  }

  // ---- Whatever parses can be printed and parsed again

  lemma {:induction false} OkIsLegal(c: Cmd, s: string)
    requires CmdOk(c, s) && '\0' !in s
    ensures Legal(TreeOf(c, s))
  {
    match c
    case Exec(argv) =>
      forall k | 0 <= k < |argv| ensures LegalWord(Word(argv[k], s)) { SpanIsLegal(argv[k], s); }
    case Redir(d, f, _) => SpanIsLegal(f, s); OkIsLegal(d, s);
    case Pipe(l, r) => OkIsLegal(l, s); OkIsLegal(r, s);
    case List(l, r) => OkIsLegal(l, s); OkIsLegal(r, s);
    case Back(d) => OkIsLegal(d, s);
  }

  lemma SpanIsLegal(w: Span, s: string)
    requires SpanOk(w, s) && '\0' !in s
    ensures LegalWord(Word(w, s))
  {
    hide WordChar;
    assert forall k :: 0 <= k < |s[w.q..w.eq]| ==> s[w.q..w.eq][k] == s[w.q + k];
  }

  /** Any line that parses, printed from its tree, parses to the same tree. */
  lemma Reprint(s: string)
    requires '\0' !in s && ParseCmd(s).Ok?
    ensures var t := TreeOf(ParseCmd(s).cmd, s);
            && Legal(t) && ParseCmd(Print(t)).Ok? && TreeOf(ParseCmd(Print(t)).cmd, Print(t)) == t
  {
    hide ParseLine, Print, TreeOf, Legal, CmdOk;
    LineOk(s, 0);
    var c := ParseCmd(s).cmd;
    OkIsLegal(c, s);
    RoundTrip(TreeOf(c, s));
  }

  // ---- NUL termination

  /** Every word of a command. */
  function Spans(c: Cmd): set<Span> {
    match c
    case Exec(argv) => set w | w in argv
    case Redir(d, f, _) => Spans(d) + {f}
    case Pipe(l, r) => Spans(l) + Spans(r)
    case List(l, r) => Spans(l) + Spans(r)
    case Back(d) => Spans(d)
  }

  /** p is the end of one of the words. */
  ghost predicate IsEnd(c: Cmd, p: nat) {
    exists w :: w in Spans(c) && w.eq == p
  }

  /** The C string at q. */
  function CString(b: seq<char>, q: nat): string
    requires q <= |b|
    decreases |b| - q
  {
    if q == |b| || b[q] == '\0' then "" else [b[q]] + CString(b, q + 1)
  }

  lemma {:induction false} CStringIs(b: seq<char>, q: nat, e: nat)
    requires q <= e < |b| && b[e] == '\0' && forall k :: q <= k < e ==> b[k] != '\0'
    ensures CString(b, q) == b[q..e]
    decreases e - q
  {
    if q < e {
      CStringIs(b, q + 1, e);
      assert b[q..e] == [b[q]] + b[q + 1..e];
    }
  }

  lemma {:induction false} SpansOk(c: Cmd, s: string, w: Span)
    requires CmdOk(c, s) && w in Spans(c)
    ensures SpanOk(w, s)
  {
    hide SpanOk;
    match c
    case Exec(argv) =>
    case Redir(d, f, _) => if w != f { SpansOk(d, s, w); }
    case Pipe(l, r) => if w in Spans(l) { SpansOk(l, s, w); } else { SpansOk(r, s, w); }
    case List(l, r) => if w in Spans(l) { SpansOk(l, s, w); } else { SpansOk(r, s, w); }
    case Back(d) => SpansOk(d, s, w);
  }

  /** The line's buffer with a NUL behind every word: each word is now a C string of its own, because no
      word ends inside another. */
  lemma Terminated(c: Cmd, s: string, b: seq<char>, w: Span)
    requires CmdOk(c, s) && '\0' !in s && w in Spans(c)
    requires |b| == |s| + 1 && forall p :: 0 <= p <= |s| ==>
               b[p] == if IsEnd(c, p) || p == |s| then '\0' else s[p]
    ensures w.q <= |b| && CString(b, w.q) == Word(w, s)
  {
    hide WordChar, CmdOk, Spans;
    SpansOk(c, s, w);
    forall k | w.q <= k < w.eq ensures !IsEnd(c, k) {
      forall v | v in Spans(c) ensures v.eq != k { SpansOk(c, s, v); }
    }
    CStringIs(b, w.q, w.eq);
    assert b[w.q..w.eq] == s[w.q..w.eq];
  }

  /** Writes a NUL at the end of every word of the command, and nowhere else. */
  method NulTerminate(c: Cmd, buf: array<char>)
    requires forall w :: w in Spans(c) ==> w.eq < buf.Length
    modifies buf
    ensures forall p :: 0 <= p < buf.Length ==> buf[p] == if IsEnd(c, p) then '\0' else old(buf[p])
    decreases c
  {
    match c
    case Exec(argv) =>
      var i := 0;
      while i < |argv|
        invariant 0 <= i <= |argv|
        invariant forall p :: 0 <= p < buf.Length ==>
                    buf[p] == if exists k :: 0 <= k < i && argv[k].eq == p then '\0' else old(buf[p])
      {
        assert argv[i] in Spans(c);
        buf[argv[i].eq] := '\0';
        i := i + 1;
      }
      ExecEnds(argv);
    case Redir(d, f, m) =>
      assert forall w :: w in Spans(d) ==> w in Spans(c);
      assert f in Spans(c);
      RedirEnds(d, f, m);
      NulTerminate(d, buf);
      buf[f.eq] := '\0';
    case Pipe(l, r) =>
      TwoEnds(c, l, r);
      NulTerminate(l, buf);
      NulTerminate(r, buf);
    case List(l, r) =>
      TwoEnds(c, l, r);
      NulTerminate(l, buf);
      NulTerminate(r, buf);
    case Back(d) =>
      NulTerminate(d, buf);
      assert Spans(c) == Spans(d);
  }

  lemma ExecEnds(argv: seq<Span>)
    ensures forall p :: IsEnd(Exec(argv), p) <==> exists k :: 0 <= k < |argv| && argv[k].eq == p
  {
    forall p ensures IsEnd(Exec(argv), p) <==> exists k :: 0 <= k < |argv| && argv[k].eq == p {
      if k :| 0 <= k < |argv| && argv[k].eq == p { assert argv[k] in Spans(Exec(argv)); }
    }
  }

  lemma RedirEnds(d: Cmd, f: Span, m: Mode)
    ensures forall p :: IsEnd(Redir(d, f, m), p) <==> IsEnd(d, p) || p == f.eq
  {
    forall p ensures IsEnd(Redir(d, f, m), p) <==> IsEnd(d, p) || p == f.eq {
      if IsEnd(d, p) { var w :| w in Spans(d) && w.eq == p; assert w in Spans(Redir(d, f, m)); }
      if p == f.eq { assert f in Spans(Redir(d, f, m)); }
    }
  }

  lemma TwoEnds(c: Cmd, l: Cmd, r: Cmd)
    requires c == Pipe(l, r) || c == List(l, r)
    ensures forall p :: IsEnd(c, p) <==> IsEnd(l, p) || IsEnd(r, p)
    ensures forall w :: w in Spans(c) <==> w in Spans(l) || w in Spans(r)
  {
    assert Spans(c) == Spans(l) + Spans(r);
    forall p ensures IsEnd(c, p) <==> IsEnd(l, p) || IsEnd(r, p) {
      if IsEnd(l, p) { var w :| w in Spans(l) && w.eq == p; assert w in Spans(c); }
      if IsEnd(r, p) { var w :| w in Spans(r) && w.eq == p; assert w in Spans(c); }
    }
  }

  // ---- The cursor

  lemma SkipTwice(s: string, p: nat, toks: string)
    requires p <= |s|
    ensures SkipSpace(s, SkipSpace(s, p)) == SkipSpace(s, p)
    ensures Peek(s, SkipSpace(s, p), toks) == Peek(s, p, toks)
    ensures GetToken(s, SkipSpace(s, p)) == GetToken(s, p)
  {}

  /** A line and the cursor in it; each method does to the cursor what its function says. */
  class Parser {
    const s: string
    var pos: nat

    constructor (text: string)
      ensures s == text && pos == 0
    {
      s, pos := text, 0;
    }

    ghost predicate Valid()
      reads this
    {
      pos <= |s|
    }

    method SkipBlanks()
      requires Valid()
      modifies this
      ensures Valid() && pos == SkipSpace(s, old(pos))
    {
      while pos < |s| && IsSpace(s[pos])
        invariant Valid() && SkipSpace(s, pos) == SkipSpace(s, old(pos))
      {
        pos := pos + 1;
      }
    }

    method PeekAt(toks: string) returns (b: bool)
      requires Valid()
      modifies this
      ensures Valid() && pos == SkipSpace(s, old(pos)) && b == Peek(s, old(pos), toks)
    {
      SkipBlanks();
      b := pos < |s| && s[pos] != '\0' && s[pos] in toks;
    }

    method NextToken() returns (kind: char, span: Span)
      requires Valid()
      modifies this
      ensures Valid() && Token(kind, span, pos) == GetToken(s, old(pos))
    {
      SkipBlanks();
      var q := pos;
      if pos == |s| || s[pos] == '\0' {
        kind := '\0';
      } else if s[pos] in "|();&<" {
        kind := s[pos];
        pos := pos + 1;
      } else if s[pos] == '>' {
        kind := '>';
        pos := pos + 1;
        if pos < |s| && s[pos] == '>' {
          kind := '+';
          pos := pos + 1;
        }
      } else {
        kind := 'a';
        while pos < |s| && WordChar(s[pos])
          invariant q <= pos <= |s| && WordEnd(s, pos) == WordEnd(s, q)
        {
          pos := pos + 1;
        }
      }
      span := Span(q, pos);
      SkipBlanks();
    }

    method Redirs(c: Cmd) returns (r: Result)
      requires Valid()
      modifies this
      ensures Valid() && r == ParseRedirs(c, s, old(pos)) && (r.Ok? ==> pos == r.next)
    {
      hide GetToken, Peek;
      var cmd := c;
      while true
        invariant Valid() && ParseRedirs(cmd, s, pos) == ParseRedirs(c, s, old(pos))
        decreases |s| - pos
      {
        ghost var p := pos;
        var more := PeekAt("<>");
        SkipTwice(s, p, "<>");
        if !more {
          return Ok(cmd, pos);
        }
        PeekedToken(s, p, "<>");
        var kind, sp := NextToken();
        var kind2, file := NextToken();
        if kind2 != 'a' {
          return Panic;
        }
        cmd := Redir(cmd, file, ModeOf(kind));
      }
    }

    method ExecCommand() returns (r: Result)
      requires Valid()
      modifies this
      ensures Valid() && r == ParseExec(s, old(pos)) && (r.Ok? ==> pos == r.next)
      decreases |s| - pos, 1
    {
      hide GetToken, Peek, ParseRedirs, SkipSpace;
      ghost var start := pos;
      var block := PeekAt("(");
      SkipTwice(s, start, "(");
      if block {
        r := Block();
        BlockSkips(s, start);
        return;
      }
      RedirsSkip(Exec([]), s, start);
      r := Redirs(Exec([]));
      if r.Panic? {
        return;
      }
      var cmd, argc := r.cmd, 0;
      while true
        invariant Valid() && old(pos) <= pos && ParseArgs(cmd, argc, s, pos) == ParseExec(s, old(pos))
        decreases |s| - pos
      {
        ghost var p := pos;
        var stop := PeekAt("|)&;");
        SkipTwice(s, p, "|)&;");
        if stop {
          return Ok(cmd, pos);
        }
        var kind, span := NextToken();
        if kind == '\0' {
          return Ok(cmd, pos);
        }
        if kind != 'a' {
          return Panic;
        }
        cmd := AddArg(cmd, span);
        argc := argc + 1;
        if argc >= MAXARGS {
          return Panic;
        }
        r := Redirs(cmd);
        if r.Panic? {
          return;
        }
        cmd := r.cmd;
      }
    }

    method Block() returns (r: Result)
      requires Valid()
      modifies this
      ensures Valid() && r == ParseBlock(s, old(pos)) && (r.Ok? ==> pos == r.next)
      decreases |s| - pos, 0
    {
      hide GetToken, Peek, ParseRedirs, SkipSpace;
      ghost var start := pos;
      var open := PeekAt("(");
      SkipTwice(s, start, "(");
      if !open {
        return Panic;
      }
      PeekedToken(s, start, "(");
      var kind, span := NextToken();
      r := Line();
      if r.Panic? {
        return;
      }
      ghost var mid := pos;
      var close := PeekAt(")");
      SkipTwice(s, mid, ")");
      if !close {
        return Panic;
      }
      kind, span := NextToken();
      r := Redirs(r.cmd);
    }

    method Pipeline() returns (r: Result)
      requires Valid()
      modifies this
      ensures Valid() && r == ParsePipe(s, old(pos)) && (r.Ok? ==> pos == r.next)
      decreases |s| - pos, 2
    {
      hide GetToken, Peek, SkipSpace;
      r := ExecCommand();
      if r.Panic? {
        return;
      }
      ghost var mid := pos;
      var more := PeekAt("|");
      SkipTwice(s, mid, "|");
      if !more {
        return Ok(r.cmd, pos);
      }
      PeekedToken(s, mid, "|");
      var kind, span := NextToken();
      var rest := Pipeline();
      if rest.Panic? {
        return rest;
      }
      return Ok(Pipe(r.cmd, rest.cmd), pos);
    }

    method Line() returns (r: Result)
      requires Valid()
      modifies this
      ensures Valid() && r == ParseLine(s, old(pos)) && (r.Ok? ==> pos == r.next)
      decreases |s| - pos, 3
    {
      hide GetToken, Peek, SkipSpace;
      r := Pipeline();
      if r.Panic? {
        return;
      }
      var cmd := r.cmd;
      ghost var first := Ok(cmd, pos);
      ghost var mid := pos;
      var more := PeekAt("&");
      SkipTwice(s, mid, "&");
      while more
        invariant Valid() && old(pos) <= mid <= pos == SkipSpace(s, mid) && more == Peek(s, mid, "&")
        invariant ParseBacks(cmd, s, mid) == ParseBacks(first.cmd, s, first.next)
        decreases |s| - mid
      {
        SkipTwice(s, mid, "&");
        PeekedToken(s, mid, "&");
        var kind, span := NextToken();
        cmd := Back(cmd);
        mid := pos;
        more := PeekAt("&");
        SkipTwice(s, mid, "&");
      }
      SkipTwice(s, mid, ";");
      more := PeekAt(";");
      if !more {
        return Ok(cmd, pos);
      }
      PeekedToken(s, mid, ";");
      var kind, span := NextToken();
      var rest := Line();
      if rest.Panic? {
        return rest;
      }
      return Ok(List(cmd, rest.cmd), pos);
    }
  }

  lemma BlockSkips(s: string, p: nat)
    requires p <= |s|
    ensures ParseBlock(s, SkipSpace(s, p)) == ParseBlock(s, p)
  {
    hide GetToken, Peek, ParseRedirs, ParseLine;
    SkipTwice(s, p, "(");
  }

  lemma RedirsSkip(c: Cmd, s: string, p: nat)
    requires p <= |s|
    ensures ParseRedirs(c, s, SkipSpace(s, p)) == ParseRedirs(c, s, p)
  {
    hide GetToken, Peek, SkipSpace;
    SkipTwice(s, p, "<>");
  }

  /** parsecmd: parse the line in the buffer up to its NUL, refuse leftovers, and cut out every word. */
  method ParseCommand(buf: array<char>, n: nat) returns (r: Result)
    requires n + 1 == buf.Length && buf[n] == '\0' && '\0' !in buf[..n]
    modifies buf
    ensures r == ParseCmd(old(buf[..n]))
    ensures r.Panic? ==> buf[..] == old(buf[..])
    ensures r.Ok? ==> CmdOk(r.cmd, old(buf[..n]))
    ensures r.Ok? ==> forall w :: w in Spans(r.cmd) ==>
              w.q < buf.Length && CString(buf[..], w.q) == Word(w, old(buf[..n]))
  {
    hide ParseLine, CmdOk, Spans, Peek, SkipSpace, CString;
    ghost var text := buf[..n];
    var parser := new Parser(buf[..n]);
    r := parser.Line();
    if r.Panic? {
      return;
    }
    var _ := parser.PeekAt("");
    if parser.pos != |parser.s| {
      return Panic;
    }
    LineOk(text, 0);
    forall w | w in Spans(r.cmd) ensures w.q < w.eq <= n { SpansOk(r.cmd, text, w); }
    r := Ok(r.cmd, n);
    NulTerminate(r.cmd, buf);
    forall w | w in Spans(r.cmd) ensures w.q < buf.Length && CString(buf[..], w.q) == Word(w, text) {
      Terminated(r.cmd, text, buf[..], w);
    }
  }
}
