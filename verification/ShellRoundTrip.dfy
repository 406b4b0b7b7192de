/** Printing a command tree with every subcommand in parentheses and parsing the result gives
    the tree back. */
module ShellRoundTrip {
  import opened ShellParser

  // A command with its words in place of spans.
  datatype Tree =
    | TExec(args: seq<string>)
    | TRedir(sub: Tree, file: string, mode: nat, fd: nat)
    | TPipe(left: Tree, right: Tree)
    | TList(left: Tree, right: Tree)
    | TBack(sub: Tree)

  function Word(s: string, sp: Span): string {
    if sp.q <= sp.eq <= |s| then s[sp.q..sp.eq] else ""
  }

  function Words(s: string, sps: seq<Span>): (ws: seq<string>)
    ensures |ws| == |sps| && forall m | 0 <= m < |sps| :: ws[m] == Word(s, sps[m])
  {
    seq(|sps|, m requires 0 <= m < |sps| => Word(s, sps[m]))
  }

  function Erase(s: string, c: Cmd): Tree {
    match c
    case Exec(argv) => TExec(Words(s, argv))
    case Redir(sub, file, mode, fd) => TRedir(Erase(s, sub), Word(s, file), mode, fd)
    case Pipe(l, r) => TPipe(Erase(s, l), Erase(s, r))
    case List(l, r) => TList(Erase(s, l), Erase(s, r))
    case Back(sub) => TBack(Erase(s, sub))
  }

  predicate IsWord(w: string) { w != "" && forall k | 0 <= k < |w| :: IsWordChar(w[k]) }

  predicate Legal(t: Tree) {
    match t
    case TExec(args) => |args| < MAXARGS && forall m | 0 <= m < |args| :: IsWord(args[m])
    case TRedir(sub, file, mode, fd) =>
      Legal(sub) && IsWord(file) && ((mode == O_RDONLY && fd == 0) || (mode == O_WRITE_CREATE && fd == 1))
    case TPipe(l, r) => Legal(l) && Legal(r)
    case TList(l, r) => Legal(l) && Legal(r)
    case TBack(sub) => Legal(sub)
  }

  function Join(ws: seq<string>): string {
    if ws == [] then "" else if |ws| == 1 then ws[0] else ws[0] + " " + Join(ws[1..])
  }

  function Print(t: Tree): string
    decreases t, 0
  {
    match t
    case TExec(args) => Join(args)
    case TRedir(sub, file, mode, fd) => "(" + Print(sub) + ")" + (if mode == O_RDONLY then "<" else ">") + file
    case TPipe(l, r) => "(" + Print(l) + ")" + "|" + ("(" + Print(r) + ")")
    case TList(l, r) => "(" + Print(l) + ")" + ";" + ("(" + Print(r) + ")")
    case TBack(sub) => "(" + Print(sub) + ")" + "&"
  }

  // ----- looking at a place in the line -----

  predicate Has(s: string, i: nat, w: string) { i + |w| <= |s| && s[i..i + |w|] == w }

  lemma HasSplit(s: string, i: nat, a: string, b: string)
    requires Has(s, i, a + b)
    ensures Has(s, i, a) && Has(s, i + |a|, b)
  {
    assert s[i..i + |a|] == (a + b)[..|a|];
    assert s[i + |a|..i + |a| + |b|] == (a + b)[|a|..];
  }

  lemma HasFirst(s: string, i: nat, w: string)
    requires Has(s, i, w) && w != ""
    ensures At(s, i) == w[0]
  {
    assert s[i..i + |w|][0] == w[0];
  }

  // What follows a printed tree: the closing parenthesis around it, or the end.
  predicate Stops(c: char) { c == ')' || c == NUL }

  // Where no space is, skipping stays put, and peek sees the character itself.
  lemma Still(s: string, i: nat)
    requires i <= |s| && !IsSpace(At(s, i))
    ensures SkipSpace(s, i) == i
    ensures forall toks: string :: Sees(s, i, toks) <==> At(s, i) != NUL && At(s, i) in toks
  {
  }

  lemma WordToken(s: string, i: nat, w: string)
    requires IsLine(s) && IsWord(w) && Has(s, i, w) && !IsWordChar(At(s, i + |w|))
    ensures GetToken(s, i) == Token('a', i, i + |w|, SkipSpace(s, i + |w|))
  {
    HasFirst(s, i, w);
    Still(s, i);
    WordEndIs(s, i, i + |w|) by {
      forall k | i <= k < i + |w|
        ensures IsWordChar(s[k])
      {
        assert s[k] == s[i..i + |w|][k - i];
      }
    }
  }

  lemma {:induction false} WordEndIs(s: string, i: nat, j: nat)
    requires IsLine(s) && i <= j <= |s| && (forall k | i <= k < j :: IsWordChar(s[k])) && !IsWordChar(At(s, j))
    ensures WordEnd(s, i) == j
    decreases j - i
  {
    if i < j { WordEndIs(s, i + 1, j); }
  }

  // A one-character token, with something other than a space after it.
  lemma SymbolToken(s: string, i: nat)
    requires IsLine(s) && i < |s| && IsSymbol(s[i]) && !IsSpace(At(s, i + 1)) && (s[i] == '>' ==> At(s, i + 1) != '>')
    ensures GetToken(s, i) == Token(s[i], i, i + 1, i + 1)
  {
    Still(s, i);
    Still(s, i + 1);
  }

  // ----- simple commands -----

  lemma NoRedirs(s: string, i: nat)
    requires IsLine(s) && i <= |s| && !IsSpace(At(s, i)) && At(s, i) != '<' && At(s, i) != '>'
    ensures ParseRedirs(s, i) == Items([], i)
  {
    Still(s, i);
  }

  // The first word of a joined list, and where the scan stands after it.
  lemma FirstArg(s: string, i: nat, ws: seq<string>) returns (k: nat)
    requires IsLine(s) && ws != [] && forall m | 0 <= m < |ws| :: IsWord(ws[m])
    requires Has(s, i, Join(ws)) && Stops(At(s, i + |Join(ws)|))
    ensures i + |ws[0]| <= k <= |s|
    ensures GetToken(s, i) == Token('a', i, i + |ws[0]|, k) && Word(s, Span(i, i + |ws[0]|)) == ws[0]
    ensures SkipSpace(s, i) == i && !Sees(s, i, "|)&;")
    ensures ParseRedirs(s, k) == Items([], k)
    ensures Has(s, k, Join(ws[1..])) && k + |Join(ws[1..])| == i + |Join(ws)|
  {
    hide SkipSpace, GetToken, ParseRedirs, Sees;
    var w, j := ws[0], i + |ws[0]|;
    if |ws| > 1 {
      k := j + 1;
      HasSplit(s, i, w + " ", Join(ws[1..]));
      HasSplit(s, i, w, " ");
      HasFirst(s, j, " ");
      JoinFirst(s, k, ws[1..]);
      Still(s, k);
      SkipOne(s, j);
    } else {
      k := j;
      Still(s, j);
    }
    HasFirst(s, i, w);
    Still(s, i);
    WordToken(s, i, w);
    NoRedirs(s, k);
  }

  lemma SkipOne(s: string, j: nat)
    requires j < |s| && s[j] == ' ' && !IsSpace(At(s, j + 1))
    ensures SkipSpace(s, j) == j + 1
  {
    Still(s, j + 1);
  }

  lemma {:induction false} ArgsRoundTrip(s: string, i: nat, ws: seq<string>, argc: nat)
    requires IsLine(s) && argc + |ws| < MAXARGS && forall m | 0 <= m < |ws| :: IsWord(ws[m])
    requires Has(s, i, Join(ws)) && Stops(At(s, i + |Join(ws)|))
    ensures var r := ParseArgs(s, i, argc);
      r.Args? && r.items == [] && r.next == i + |Join(ws)| && Words(s, r.argv) == ws
    decreases |ws|
  {
    hide SkipSpace, GetToken, ParseRedirs, ParseArgs, Sees, Has, IsWord, Join, Words, Word;
    hide IsLine, At, Stops, WordSpan, ItemOk;
    if ws == [] {
      NoArgs(s, i, ws, argc);
    } else {
      var k := FirstArg(s, i, ws);
      var more := ws[1..];
      assert ws == [ws[0]] + more;
      ArgsRoundTrip(s, k, more, argc + 1);
      OneArg(s, i, i + |ws[0]|, k, argc);
      WordsCons(s, Span(i, i + |ws[0]|), ParseArgs(s, k, argc + 1).argv);
    }
  }

  lemma OneArg(s: string, i: nat, e: nat, k: nat, argc: nat)
    requires IsLine(s) && i <= e <= k <= |s| && argc + 1 < MAXARGS
    requires SkipSpace(s, i) == i && !Sees(s, i, "|)&;") && GetToken(s, i) == Token('a', i, e, k)
    requires ParseRedirs(s, k) == Items([], k) && ParseArgs(s, k, argc + 1).Args?
    ensures var rest := ParseArgs(s, k, argc + 1);
      ParseArgs(s, i, argc) == Args([Span(i, e)] + rest.argv, rest.items, rest.next)
  {
    hide SkipSpace, GetToken, ParseRedirs, Sees;
    var rest := ParseArgs(s, k, argc + 1);
    assert [] + rest.items == rest.items;
  }

  lemma WordsCons(s: string, sp: Span, sps: seq<Span>)
    ensures Words(s, [sp] + sps) == [Word(s, sp)] + Words(s, sps)
  {
  }

  lemma NoArgs(s: string, i: nat, ws: seq<string>, argc: nat)
    requires IsLine(s) && argc < MAXARGS && ws == [] && Has(s, i, Join(ws)) && Stops(At(s, i + |Join(ws)|))
    ensures ParseArgs(s, i, argc) == Args([], [], i) && i + |Join(ws)| == i && Words(s, []) == ws
  {
    Still(s, i);
  }

  lemma JoinFirst(s: string, i: nat, ws: seq<string>)
    requires ws != [] && IsWord(ws[0]) && Has(s, i, Join(ws))
    ensures IsWordChar(At(s, i))
  {
    HasFirst(s, i, Join(ws));
  }

  lemma ExecRoundTrip(s: string, i: nat, ws: seq<string>)
    requires IsLine(s) && Legal(TExec(ws)) && Has(s, i, Join(ws)) && Stops(At(s, i + |Join(ws)|))
    ensures var r := ParseExec(s, i);
      r.Ok? && r.next == i + |Join(ws)| && Erase(s, r.cmd) == TExec(ws)
  {
    if ws != [] { JoinFirst(s, i, ws); }
    Still(s, i);
    NoRedirs(s, i);
    ArgsRoundTrip(s, i, ws, 0);
  }

  // ----- compound commands -----

  // At a parenthesised tree, parseblock gets through the closing parenthesis and goes on to
  // the redirections behind it.
  ghost predicate BlockAt(s: string, i: nat, j: nat, c: Cmd)
    requires IsLine(s)
  {
    && i < j <= |s| && SkipSpace(s, i) == i && Sees(s, i, "(")
    && ParseBlock(s, i) ==
         (var r := ParseRedirs(s, j); if r.ItemsErr? then Err(r.msg) else Ok(Wrap(c, r.items), r.next))
  }

  lemma BlockFrom(s: string, i: nat, j: nat, c: Cmd)
    requires IsLine(s) && i + 1 < j <= |s| && s[i] == '(' && s[j - 1] == ')'
    requires !IsSpace(At(s, i + 1)) && !IsSpace(At(s, j))
    requires ParseLine(s, i + 1) == Ok(c, j - 1)
    ensures BlockAt(s, i, j, c)
  {
    hide ParseLine, ParseRedirs, GetToken, SkipSpace, Sees;
    Still(s, i);
    Still(s, j - 1);
    SymbolToken(s, i);
    SymbolToken(s, j - 1);
  }

  // No redirection follows.
  lemma PlainBlock(s: string, i: nat, j: nat, c: Cmd)
    requires IsLine(s) && BlockAt(s, i, j, c) && !IsSpace(At(s, j)) && At(s, j) != '<' && At(s, j) != '>'
    ensures ParseExec(s, i) == Ok(c, j)
  {
    hide ParseBlock, GetToken, SkipSpace, Sees, ParseRedirs;
    NoRedirs(s, j);
  }

  // A printed tree starts with a parenthesis or a word, or is empty before its end.
  lemma PrintStart(s: string, i: nat, t: Tree)
    requires Legal(t) && Has(s, i, Print(t)) && Stops(At(s, i + |Print(t)|))
    ensures !IsSpace(At(s, i))
  {
    match t
    case TExec(args) => if args != [] { JoinFirst(s, i, args); }
    case _ => HasFirst(s, i, Print(t));
  }

  lemma BlockRoundTrip(s: string, i: nat, t: Tree) returns (c: Cmd)
    requires IsLine(s) && Legal(t) && Has(s, i, "(" + Print(t) + ")") && !IsSpace(At(s, i + |Print(t)| + 2))
    ensures BlockAt(s, i, i + |Print(t)| + 2, c) && Erase(s, c) == t
    decreases t, 4
  {
    hide ParseLine, Print, BlockAt, Erase;
    HasSplit(s, i, "(" + Print(t), ")");
    HasSplit(s, i, "(", Print(t));
    HasFirst(s, i, "(");
    HasFirst(s, i + 1 + |Print(t)|, ")");
    PrintStart(s, i + 1, t);
    c := LineRoundTrip(s, i + 1, t);
    BlockFrom(s, i, i + |Print(t)| + 2, c);
  }

  // A command that stops the line around it.
  lemma LineOfPipe(s: string, i: nat, c: Cmd, j: nat)
    requires IsLine(s) && i <= j <= |s| && Stops(At(s, j)) && ParsePipe(s, i) == Ok(c, j)
    ensures ParseLine(s, i) == Ok(c, j)
  {
    hide ParsePipe;
    Still(s, j);
  }

  lemma PipeOfExec(s: string, i: nat, c: Cmd, j: nat)
    requires IsLine(s) && i <= j <= |s| && !IsSpace(At(s, j)) && At(s, j) != '|' && ParseExec(s, i) == Ok(c, j)
    ensures ParsePipe(s, i) == Ok(c, j)
  {
    hide ParseExec;
    Still(s, j);
  }

  // The tree t is printed at i, with the end of the line or a parenthesis behind it.
  ghost predicate PrintedAt(s: string, i: nat, t: Tree) {
    IsLine(s) && Legal(t) && Has(s, i, Print(t)) && Stops(At(s, i + |Print(t)|))
  }

  // Parsing a line at i gives c, which is t, and ends behind the printed tree.
  ghost predicate ParsedAt(s: string, i: nat, t: Tree, c: Cmd)
    requires PrintedAt(s, i, t)
  {
    ParseLine(s, i) == Ok(c, i + |Print(t)|) && Erase(s, c) == t
  }

  lemma LineRoundTrip(s: string, i: nat, t: Tree) returns (c: Cmd)
    requires PrintedAt(s, i, t)
    ensures ParsedAt(s, i, t, c)
    decreases t, 3
  {
    hide PrintedAt, ParsedAt;
    match t
    case TExec(args) => c := ExecLine(s, i, t);
    case TBack(sub) => c := BackRoundTrip(s, i, t);
    case TPipe(l, r) => c := PipeRoundTrip(s, i, t);
    case TList(l, r) => c := ListRoundTrip(s, i, t);
    case TRedir(sub, file, mode, fd) => c := RedirRoundTrip(s, i, t);
  }

  lemma ExecLine(s: string, i: nat, t: Tree) returns (c: Cmd)
    requires PrintedAt(s, i, t) && t.TExec?
    ensures ParsedAt(s, i, t, c)
  {
    hide ParseExec, ParsePipe, ParseLine, Erase;
    var j := i + |Print(t)|;
    ExecRoundTrip(s, i, t.args);
    c := ParseExec(s, i).cmd;
    PipeOfExec(s, i, c, j);
    LineOfPipe(s, i, c, j);
  }

  lemma BackRoundTrip(s: string, i: nat, t: Tree) returns (c: Cmd)
    requires PrintedAt(s, i, t) && t.TBack?
    ensures ParsedAt(s, i, t, c)
    decreases t, 2
  {
    hide ParseExec, ParsePipe, BlockAt, GetToken, SkipSpace, Sees;
    var p, j := "(" + Print(t.sub) + ")", i + |Print(t.sub)| + 2;
    HasSplit(s, i, p, "&");
    HasFirst(s, j, "&");
    var sub := BlockRoundTrip(s, i, t.sub);
    PlainBlock(s, i, j, sub);
    PipeOfExec(s, i, sub, j);
    c := Back(sub);
    BackLine(s, i, j, sub);
  }

  lemma BackLine(s: string, i: nat, j: nat, sub: Cmd)
    requires IsLine(s) && i <= j < |s| && s[j] == '&' && Stops(At(s, j + 1)) && ParsePipe(s, i) == Ok(sub, j)
    ensures ParseLine(s, i) == Ok(Back(sub), j + 1)
  {
    hide ParsePipe, GetToken, SkipSpace, Sees;
    Still(s, j);
    Still(s, j + 1);
    SymbolToken(s, j);
    var c := Back(sub);
    assert Backs(s, j, sub) == Backs(s, j + 1, c) == (c, j + 1);
  }

  lemma PipeRoundTrip(s: string, i: nat, t: Tree) returns (c: Cmd)
    requires PrintedAt(s, i, t) && t.TPipe?
    ensures ParsedAt(s, i, t, c)
    decreases t, 2
  {
    hide ParseExec, ParsePipe, ParseLine, PrintedAt, ParsedAt, Print, Erase, Legal, Has;
    PairPieces(s, i, t, t.left, t.right, "|");
    var cl, cr, j := Halves(s, i, t, t.left, t.right, "|");
    var e := i + |Print(t)|;
    PipeOfExec(s, j + 1, cr, e);
    c := Pipe(cl, cr);
    PipeLine(s, i, j, e, cl, cr);
    LineOfPipe(s, i, c, e);
    PairParsed(s, i, t, c, cl, cr);
  }

  // What a printed pipe or list looks like in the line.
  lemma PairPieces(s: string, i: nat, t: Tree, l: Tree, r: Tree, op: string)
    requires PrintedAt(s, i, t)
    requires (t == TPipe(l, r) && op == "|") || (t == TList(l, r) && op == ";")
    ensures IsLine(s) && Legal(l) && Legal(r) && i + |Print(t)| <= |s|
    ensures Has(s, i, "(" + Print(l) + ")" + op + ("(" + Print(r) + ")"))
    ensures |Print(t)| == |Print(l)| + |Print(r)| + 5 && Stops(At(s, i + |Print(t)|))
  {
  }

  lemma PairParsed(s: string, i: nat, t: Tree, c: Cmd, cl: Cmd, cr: Cmd)
    requires PrintedAt(s, i, t)
    requires (t.TPipe? && c == Pipe(cl, cr)) || (t.TList? && c == List(cl, cr))
    requires Erase(s, cl) == t.left && Erase(s, cr) == t.right && ParseLine(s, i) == Ok(c, i + |Print(t)|)
    ensures ParsedAt(s, i, t, c)
  {
    hide ParseLine, Print, Legal, Has;
  }

  lemma PipeLine(s: string, i: nat, j: nat, e: nat, cl: Cmd, cr: Cmd)
    requires IsLine(s) && i <= j < |s| && s[j] == '|' && At(s, j + 1) == '('
    requires ParseExec(s, i) == Ok(cl, j) && ParsePipe(s, j + 1) == Ok(cr, e)
    ensures ParsePipe(s, i) == Ok(Pipe(cl, cr), e)
  {
    hide ParseExec, GetToken, SkipSpace, Sees;
    Still(s, j);
    SymbolToken(s, j);
  }

  lemma ListRoundTrip(s: string, i: nat, t: Tree) returns (c: Cmd)
    requires PrintedAt(s, i, t) && t.TList?
    ensures ParsedAt(s, i, t, c)
    decreases t, 2
  {
    hide ParseExec, ParsePipe, ParseLine, PrintedAt, ParsedAt, Print, Erase, Legal, Has;
    PairPieces(s, i, t, t.left, t.right, ";");
    var cl, cr, j := Halves(s, i, t, t.left, t.right, ";");
    var e := i + |Print(t)|;
    PipeOfExec(s, i, cl, j);
    PipeOfExec(s, j + 1, cr, e);
    LineOfPipe(s, j + 1, cr, e);
    c := List(cl, cr);
    ListLine(s, i, j, e, cl, cr);
    PairParsed(s, i, t, c, cl, cr);
  }

  lemma ListLine(s: string, i: nat, j: nat, e: nat, cl: Cmd, cr: Cmd)
    requires IsLine(s) && i <= j < |s| && s[j] == ';' && At(s, j + 1) == '('
    requires ParsePipe(s, i) == Ok(cl, j) && ParseLine(s, j + 1) == Ok(cr, e)
    ensures ParseLine(s, i) == Ok(List(cl, cr), e)
  {
    hide ParsePipe, GetToken, SkipSpace, Sees;
    Still(s, j);
    SymbolToken(s, j);
    assert Backs(s, j, cl) == (cl, j);
  }

  // Two parenthesised trees around the symbol op.
  lemma Halves(s: string, i: nat, t: Tree, l: Tree, r: Tree, op: string) returns (cl: Cmd, cr: Cmd, j: nat)
    requires IsLine(s) && Legal(l) && Legal(r) && (op == "|" || op == ";")
    requires (t.TPipe? && l == t.left && r == t.right) || (t.TList? && l == t.left && r == t.right)
    requires Has(s, i, "(" + Print(l) + ")" + op + ("(" + Print(r) + ")"))
    requires Stops(At(s, i + |Print(l)| + |Print(r)| + 5))
    ensures j == i + |Print(l)| + 2 < |s| && s[j] == op[0] && At(s, j + 1) == '('
    ensures ParseExec(s, i) == Ok(cl, j) && Erase(s, cl) == l
    ensures ParseExec(s, j + 1) == Ok(cr, i + |Print(l)| + |Print(r)| + 5) && Erase(s, cr) == r
    decreases t, 1
  {
    hide ParseExec, BlockAt, Erase, Print;
    var pl, pr := "(" + Print(l) + ")", "(" + Print(r) + ")";
    j := i + |pl|;
    HasSplit(s, i, pl + op, pr);
    HasSplit(s, i, pl, op);
    HasFirst(s, j, op);
    HasFirst(s, j + 1, pr);
    cl := BlockRoundTrip(s, i, l);
    PlainBlock(s, i, j, cl);
    cr := BlockRoundTrip(s, j + 1, r);
    PlainBlock(s, j + 1, j + 1 + |pr|, cr);
  }

  lemma RedirRoundTrip(s: string, i: nat, t: Tree) returns (c: Cmd)
    requires PrintedAt(s, i, t) && t.TRedir?
    ensures ParsedAt(s, i, t, c)
    decreases t, 2
  {
    hide ParseLine, ParsePipe, ParseExec, GetToken, SkipSpace, Sees, ParseRedirs, BlockAt;
    hide Print, Erase, Legal, PrintedAt, ParsedAt, IsWord;
    var j := i + |Print(t.sub)| + 2;
    var e := j + 1 + |t.file|;
    RedirPieces(s, i, t);
    var sub := BlockRoundTrip(s, i, t.sub);
    OneRedir(s, j, t.file);
    RedirBlock(s, i, j, e, sub);
    c := Redir(sub, Span(j + 1, e), t.mode, t.fd);
    PipeOfExec(s, i, c, e);
    LineOfPipe(s, i, c, e);
    RedirParsed(s, i, t, sub, Span(j + 1, e));
  }

  // What a printed redirection looks like in the line.
  lemma RedirPieces(s: string, i: nat, t: Tree)
    requires PrintedAt(s, i, t) && t.TRedir?
    ensures var j := i + |Print(t.sub)| + 2;
      && IsLine(s) && Legal(t.sub) && IsWord(t.file) && Has(s, i, "(" + Print(t.sub) + ")")
      && j < |s| && (s[j] == '<' || s[j] == '>') && Has(s, j + 1, t.file)
      && j + 1 + |t.file| == i + |Print(t)| && Stops(At(s, j + 1 + |t.file|))
      && RedirItem(s[j], Span(j + 1, j + 1 + |t.file|)) == Item(Span(j + 1, j + 1 + |t.file|), t.mode, t.fd)
  {
    var p, sym, j := "(" + Print(t.sub) + ")", if t.mode == O_RDONLY then "<" else ">", i + |Print(t.sub)| + 2;
    HasSplit(s, i, p + sym, t.file);
    HasSplit(s, i, p, sym);
    HasFirst(s, j, sym);
  }

  lemma RedirParsed(s: string, i: nat, t: Tree, sub: Cmd, file: Span)
    requires PrintedAt(s, i, t) && t.TRedir? && Erase(s, sub) == t.sub && Word(s, file) == t.file
    requires ParseLine(s, i) == Ok(Redir(sub, file, t.mode, t.fd), i + |Print(t)|)
    ensures ParsedAt(s, i, t, Redir(sub, file, t.mode, t.fd))
  {
    hide ParseLine, Print, Legal, Word;
  }

  lemma RedirBlock(s: string, i: nat, j: nat, e: nat, sub: Cmd)
    requires IsLine(s) && BlockAt(s, i, j, sub) && j < e <= |s|
    requires ParseRedirs(s, j) == Items([RedirItem(s[j], Span(j + 1, e))], e)
    ensures ParseExec(s, i) == Ok(Redir(sub, Span(j + 1, e), RedirItem(s[j], Span(j + 1, e)).mode, RedirItem(s[j], Span(j + 1, e)).fd), e)
  {
    hide ParseRedirs, GetToken, SkipSpace, Sees, ParseBlock;
    var it := RedirItem(s[j], Span(j + 1, e));
    assert Wrap(sub, [it]) == Wrap(Redir(sub, it.file, it.mode, it.fd), []);
  }

  lemma OneRedir(s: string, j: nat, file: string)
    requires IsLine(s) && j < |s| && (s[j] == '<' || s[j] == '>') && IsWord(file) && Has(s, j + 1, file)
    requires Stops(At(s, j + 1 + |file|))
    ensures ParseRedirs(s, j) == Items([RedirItem(s[j], Span(j + 1, j + 1 + |file|))], j + 1 + |file|)
    ensures Word(s, Span(j + 1, j + 1 + |file|)) == file
  {
    hide GetToken, SkipSpace, Sees, ParseRedirs;
    var e := j + 1 + |file|;
    HasFirst(s, j + 1, file);
    Still(s, j);
    Still(s, e);
    SymbolToken(s, j);
    WordToken(s, j + 1, file);
    NoRedirs(s, e);
    RedirTokens(s, j, e);
  }

  lemma RedirTokens(s: string, j: nat, e: nat)
    requires IsLine(s) && j < e <= |s| && SkipSpace(s, j) == j && Sees(s, j, "<>")
    requires GetToken(s, j) == Token(s[j], j, j + 1, j + 1) && GetToken(s, j + 1) == Token('a', j + 1, e, e)
    requires ParseRedirs(s, e) == Items([], e)
    ensures ParseRedirs(s, j) == Items([RedirItem(s[j], Span(j + 1, e))], e)
  {
    hide GetToken, SkipSpace, Sees;
  }

  // Parsing a printed tree gives the tree.
  lemma RoundTrip(t: Tree)
    requires Legal(t)
    ensures IsLine(Print(t))
    ensures var r := ParseCmd(Print(t)); r.Ok? && Erase(Print(t), r.cmd) == t
  {
    var s := Print(t);
    PrintIsLine(t);
    assert Has(s, 0, s);
    var c := LineRoundTrip(s, 0, t);
  }

  lemma PrintIsLine(t: Tree)
    requires Legal(t)
    ensures IsLine(Print(t))
  {
    match t
    case TExec(args) => JoinIsLine(args);
    case TRedir(sub, _, _, _) => PrintIsLine(sub);
    case TPipe(l, r) => PrintIsLine(l); PrintIsLine(r);
    case TList(l, r) => PrintIsLine(l); PrintIsLine(r);
    case TBack(sub) => PrintIsLine(sub);
  }

  lemma {:induction false} JoinIsLine(ws: seq<string>)
    requires forall m | 0 <= m < |ws| :: IsWord(ws[m])
    ensures IsLine(Join(ws))
  {
    if |ws| > 1 {
      JoinIsLine(ws[1..]);
      assert IsWord(ws[0]);
    }
  }
}
