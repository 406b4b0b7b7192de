/** user/sh.c: the recursive-descent parser, over a command line s whose end stands for the
    terminating NUL. Positions are indices; words are spans of the line. */
module ShellParser {
  const MAXARGS: nat := 10
  const O_RDONLY: nat := 0
  const O_WRITE_CREATE: nat := 0x201  // O_WRONLY|O_CREATE
  const NUL: char := '\0'

  datatype Span = Span(q: nat, eq: nat)

  datatype Cmd =
    | Exec(argv: seq<Span>)
    | Redir(cmd: Cmd, file: Span, mode: nat, fd: nat)
    | Pipe(left: Cmd, right: Cmd)
    | List(left: Cmd, right: Cmd)
    | Back(cmd: Cmd)

  datatype Result = Ok(cmd: Cmd, next: nat) | Err(msg: string)

  // One redirection, before it is wrapped around a command.
  datatype Item = Item(file: Span, mode: nat, fd: nat)

  datatype Items = Items(items: seq<Item>, next: nat) | ItemsErr(msg: string)

  datatype Args = Args(argv: seq<Span>, items: seq<Item>, next: nat) | ArgsErr(msg: string)

  datatype Token = Token(kind: char, q: nat, eq: nat, next: nat)

  // ----- characters -----

  predicate IsSpace(c: char) { c == ' ' || c == '\t' || c == '\r' || c == '\n' || c == '\U{0B}' }

  predicate IsSymbol(c: char) { c in "<|>&;()" }

  predicate IsWordChar(c: char) { !IsSpace(c) && !IsSymbol(c) && c != NUL }

  function At(s: string, i: nat): char { if i < |s| then s[i] else NUL }

  function SkipSpace(s: string, i: nat): (j: nat)
    requires i <= |s|
    ensures i <= j <= |s| && (j < |s| ==> !IsSpace(s[j]))
    ensures forall k | i <= k < j :: IsSpace(s[k])
    decreases |s| - i
  {
    if i < |s| && IsSpace(s[i]) then SkipSpace(s, i + 1) else i
  }

  function WordEnd(s: string, i: nat): (j: nat)
    requires i <= |s|
    ensures i <= j <= |s| && (j < |s| ==> IsSpace(s[j]) || IsSymbol(s[j]))
    ensures forall k | i <= k < j :: !IsSpace(s[k]) && !IsSymbol(s[k])
    decreases |s| - i
  {
    if i < |s| && !IsSpace(s[i]) && !IsSymbol(s[i]) then WordEnd(s, i + 1) else i
  }

  // The line as strlen delimits it.
  predicate IsLine(s: string) { forall k | 0 <= k < |s| :: s[k] != NUL }

  // ----- tokens -----

  // Where the token at j ends, and its kind.
  function TokenAt(s: string, j: nat): (r: (char, nat))
    requires IsLine(s) && j <= |s| && (j < |s| ==> !IsSpace(s[j]))
    ensures j <= r.1 <= |s| && (j < |s| ==> j < r.1)
    ensures r.0 == NUL <==> j == |s|
    ensures r.0 == 'a' <==> IsWordChar(At(s, j))
  {
    var c := At(s, j);
    if c == NUL then (NUL, j)
    else if c == '>' then (if At(s, j + 1) == '>' then ('+', j + 2) else ('>', j + 1))
    else if IsSymbol(c) then (c, j + 1)
    else ('a', WordEnd(s, j))
  }

  function GetToken(s: string, i: nat): (t: Token)
    requires IsLine(s) && i <= |s|
    ensures i <= t.q <= t.eq <= t.next <= |s|
    ensures t.kind != NUL ==> i < t.next
    ensures t.kind == 'a' ==> WordSpan(s, Span(t.q, t.eq))
  {
    var j := SkipSpace(s, i);
    var (kind, e) := TokenAt(s, j);
    Token(kind, j, e, SkipSpace(s, e))
  }

  // A maximal run of word characters, with a delimiter or the end of the line after it.
  predicate WordSpan(s: string, sp: Span) {
    && sp.q < sp.eq <= |s|
    && (forall k | sp.q <= k < sp.eq :: IsWordChar(s[k]))
    && (sp.eq < |s| ==> !IsWordChar(s[sp.eq]))
  }

  predicate Sees(s: string, i: nat, toks: string)
    requires i <= |s|
  {
    var c := At(s, SkipSpace(s, i));
    c != NUL && c in toks
  }

  // ----- the grammar -----

  function ParseRedirs(s: string, i: nat): (r: Items)
    requires IsLine(s) && i <= |s|
    ensures r.Items? ==> i <= r.next <= |s| && forall m | 0 <= m < |r.items| :: ItemOk(s, r.items[m])
    decreases |s| - i
  {
    var j := SkipSpace(s, i);
    if !Sees(s, i, "<>") then Items([], j) else
      var tok := GetToken(s, j);
      var file := GetToken(s, tok.next);
      if file.kind != 'a' then ItemsErr("missing file for redirection") else
        var rest := ParseRedirs(s, file.next);
        if rest.ItemsErr? then rest else Items([RedirItem(tok.kind, Span(file.q, file.eq))] + rest.items, rest.next)
  }

  // '>' and the double '+' both open for writing.
  function RedirItem(kind: char, file: Span): Item {
    if kind == '<' then Item(file, O_RDONLY, 0) else Item(file, O_WRITE_CREATE, 1)
  }

  predicate ItemOk(s: string, it: Item) {
    WordSpan(s, it.file) && (it == RedirItem('<', it.file) || it == RedirItem('>', it.file))
  }

  // Each redirection wraps what was there before it.
  function Wrap(c: Cmd, items: seq<Item>): Cmd
    decreases |items|
  {
    if items == [] then c else Wrap(Redir(c, items[0].file, items[0].mode, items[0].fd), items[1..])
  }

  // The loop of parseexec, once argc arguments are there.
  function ParseArgs(s: string, i: nat, argc: nat): (r: Args)
    requires IsLine(s) && i <= |s| && argc < MAXARGS
    ensures r.Args? ==> i <= r.next <= |s| && argc + |r.argv| < MAXARGS
    ensures r.Args? ==> forall m | 0 <= m < |r.argv| :: WordSpan(s, r.argv[m])
    ensures r.Args? ==> forall m | 0 <= m < |r.items| :: ItemOk(s, r.items[m])
    decreases |s| - i
  {
    var j := SkipSpace(s, i);
    if Sees(s, i, "|)&;") then Args([], [], j) else
      var tok := GetToken(s, j);
      if tok.kind == NUL then Args([], [], tok.next)
      else if tok.kind != 'a' then ArgsErr("syntax")
      else if argc + 1 >= MAXARGS then ArgsErr("too many args")
      else
        var r := ParseRedirs(s, tok.next);
        if r.ItemsErr? then ArgsErr(r.msg) else
          var rest := ParseArgs(s, r.next, argc + 1);
          if rest.ArgsErr? then rest else
            Args([Span(tok.q, tok.eq)] + rest.argv, r.items + rest.items, rest.next)
  }

  function ParseExec(s: string, i: nat): (r: Result)
    requires IsLine(s) && i <= |s|
    ensures r.Ok? ==> i <= r.next <= |s|
    decreases |s| - i, 2
  {
    var j := SkipSpace(s, i);
    if Sees(s, i, "(") then ParseBlock(s, j) else
      var r := ParseRedirs(s, j);
      if r.ItemsErr? then Err(r.msg) else
        var a := ParseArgs(s, r.next, 0);
        if a.ArgsErr? then Err(a.msg) else Ok(Wrap(Exec(a.argv), r.items + a.items), a.next)
  }

  function ParseBlock(s: string, i: nat): (r: Result)
    requires IsLine(s) && i <= |s|
    ensures r.Ok? ==> i <= r.next <= |s|
    decreases |s| - i, 1
  {
    if !Sees(s, i, "(") then Err("parseblock") else
      var open := GetToken(s, SkipSpace(s, i));
      var c := ParseLine(s, open.next);
      if c.Err? then c
      else if !Sees(s, c.next, ")") then Err("syntax - missing )")
      else
        var close := GetToken(s, SkipSpace(s, c.next));
        var r := ParseRedirs(s, close.next);
        if r.ItemsErr? then Err(r.msg) else Ok(Wrap(c.cmd, r.items), r.next)
  }

  function ParsePipe(s: string, i: nat): (r: Result)
    requires IsLine(s) && i <= |s|
    ensures r.Ok? ==> i <= r.next <= |s|
    decreases |s| - i, 3
  {
    var c := ParseExec(s, i);
    if c.Err? then c
    else if !Sees(s, c.next, "|") then Ok(c.cmd, SkipSpace(s, c.next))
    else
      var bar := GetToken(s, SkipSpace(s, c.next));
      var right := ParsePipe(s, bar.next);
      if right.Err? then right else Ok(Pipe(c.cmd, right.cmd), right.next)
  }

  // The loop of parseline over '&'.
  function Backs(s: string, i: nat, c: Cmd): (r: (Cmd, nat))
    requires IsLine(s) && i <= |s|
    ensures i <= r.1 <= |s|
    decreases |s| - i
  {
    var j := SkipSpace(s, i);
    if !Sees(s, i, "&") then (c, j) else Backs(s, GetToken(s, j).next, Back(c))
  }

  function ParseLine(s: string, i: nat): (r: Result)
    requires IsLine(s) && i <= |s|
    ensures r.Ok? ==> i <= r.next <= |s|
    decreases |s| - i, 4
  {
    var p := ParsePipe(s, i);
    if p.Err? then p else
      var (c, j) := Backs(s, p.next, p.cmd);
      if !Sees(s, j, ";") then Ok(c, SkipSpace(s, j)) else
        var semi := GetToken(s, SkipSpace(s, j));
        var rest := ParseLine(s, semi.next);
        if rest.Err? then rest else Ok(List(c, rest.cmd), rest.next)
  }

  function ParseCmd(s: string): (r: Result)
    requires IsLine(s)
  {
    var r := ParseLine(s, 0);
    if r.Err? then r
    else if SkipSpace(s, r.next) != |s| then Err("syntax")
    else Ok(r.cmd, |s|)
  }
}
