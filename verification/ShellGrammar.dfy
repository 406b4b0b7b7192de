/** The language of the shell, apart from its parser: derivations that say, character by character,
    where each piece of a line stands. The parser accepts exactly the lines that have one, and
    builds what it stands for. */
module ShellGrammar {
  import opened ShellParser

  datatype Op = In | Out | Append

  // A redirection: where its symbol stands, and its file.
  datatype RedirD = RedirD(at: nat, op: Op, q: nat, eq: nat)

  datatype ArgD = ArgD(q: nat, eq: nat, redirs: seq<RedirD>)

  datatype SimpleD =
    | PlainD(pre: seq<RedirD>, start: nat, args: seq<ArgD>)
    | BlockD(open: nat, line: LineD, mid: nat, close: nat, redirs: seq<RedirD>)

  // mid: where the first simple command ends.
  datatype PipeD = OneD(first: SimpleD) | BarD(first: SimpleD, mid: nat, bar: nat, rest: PipeD)

  // mid: where the pipe ends; amps: the places of '&'.
  datatype LineD =
    | LastD(pipe: PipeD, mid: nat, amps: seq<nat>)
    | SemiD(pipe: PipeD, mid: nat, amps: seq<nat>, semi: nat, rest: LineD)

  // ----- characters -----

  predicate BlankChar(c: char) { c in [' ', '\t', '\r', '\n', '\U{0B}'] }

  predicate SymbolChar(c: char) { c in ['<', '|', '>', '&', ';', '(', ')'] }

  ghost predicate Blank(s: string, i: nat, j: nat) { i <= j <= |s| && forall k | i <= k < j :: BlankChar(s[k]) }

  ghost predicate Letters(s: string, q: nat, e: nat) {
    && q < e <= |s| && (forall k | q <= k < e :: !BlankChar(s[k]) && !SymbolChar(s[k]))
    && (e < |s| ==> BlankChar(s[e]) || SymbolChar(s[e]))
  }

  // Blanks, then that character; '\0' stands for the end of the line.
  ghost predicate Next(s: string, i: nat, j: nat, c: char) { Blank(s, i, j) && (if j < |s| then s[j] else '\0') == c }

  // ----- derivations -----

  ghost predicate RedirAt(s: string, i: nat, r: RedirD) {
    && Blank(s, i, r.at)
    && (match r.op
        case In => r.at < |s| && s[r.at] == '<' && Blank(s, r.at + 1, r.q)
        case Out => r.at < |s| && s[r.at] == '>' && Blank(s, r.at + 1, r.q) && (r.at + 1 < |s| ==> s[r.at + 1] != '>')
        case Append => r.at + 1 < |s| && s[r.at] == s[r.at + 1] == '>' && Blank(s, r.at + 2, r.q))
    && Letters(s, r.q, r.eq)
  }

  ghost predicate RedirsAt(s: string, i: nat, e: nat, rs: seq<RedirD>)
    decreases |rs|
  {
    if rs == [] then i == e <= |s| else RedirAt(s, i, rs[0]) && RedirsAt(s, rs[0].eq, e, rs[1..])
  }

  ghost predicate ArgsAt(s: string, i: nat, e: nat, args: seq<ArgD>)
    decreases |args|
  {
    if args == [] then i == e <= |s| else
      && Blank(s, i, args[0].q) && Letters(s, args[0].q, args[0].eq)
      && exists m: nat :: RedirsAt(s, args[0].eq, m, args[0].redirs) && ArgsAt(s, m, e, args[1..])
  }

  ghost predicate SimpleAt(s: string, i: nat, e: nat, x: SimpleD)
    decreases x, 0
  {
    match x
    case PlainD(pre, start, args) => RedirsAt(s, i, start, pre) && ArgsAt(s, start, e, args) && |args| <= 9
    case BlockD(open, line, mid, close, redirs) =>
      && Next(s, i, open, '(') && LineAt(s, open + 1, mid, line)
      && Next(s, mid, close, ')') && RedirsAt(s, close + 1, e, redirs)
  }

  ghost predicate PipeAt(s: string, i: nat, e: nat, x: PipeD)
    decreases x, 1
  {
    match x
    case OneD(first) => SimpleAt(s, i, e, first)
    case BarD(first, mid, bar, rest) => SimpleAt(s, i, mid, first) && Next(s, mid, bar, '|') && PipeAt(s, bar + 1, e, rest)
  }

  ghost predicate AmpsAt(s: string, i: nat, e: nat, amps: seq<nat>)
    decreases |amps|
  {
    if amps == [] then i == e <= |s| else Next(s, i, amps[0], '&') && AmpsAt(s, amps[0] + 1, e, amps[1..])
  }

  ghost predicate LineAt(s: string, i: nat, e: nat, x: LineD)
    decreases x, 2
  {
    match x
    case LastD(pipe, mid, amps) => PipeAt(s, i, mid, pipe) && AmpsAt(s, mid, e, amps)
    case SemiD(pipe, mid, amps, semi, rest) =>
      && PipeAt(s, i, mid, pipe) && (exists m: nat :: AmpsAt(s, mid, m, amps) && Next(s, m, semi, ';'))
      && LineAt(s, semi + 1, e, rest)
  }

  // A whole line.
  ghost predicate Derives(s: string, x: LineD) { exists e: nat :: LineAt(s, 0, e, x) && Blank(s, e, |s|) }

  // ----- what a derivation stands for -----

  // "<" reads file descriptor 0; ">" and ">>" write descriptor 1 and create the file.
  function RedirOf(c: Cmd, r: RedirD): Cmd {
    match r.op
    case In => Redir(c, Span(r.q, r.eq), 0, 0)
    case Out => Redir(c, Span(r.q, r.eq), 0x201, 1)
    case Append => Redir(c, Span(r.q, r.eq), 0x201, 1)
  }

  function RedirsOf(c: Cmd, rs: seq<RedirD>): Cmd
    decreases |rs|
  {
    if rs == [] then c else RedirsOf(RedirOf(c, rs[0]), rs[1..])
  }

  function ArgRedirs(args: seq<ArgD>): seq<RedirD> { if args == [] then [] else args[0].redirs + ArgRedirs(args[1..]) }

  function ArgSpans(args: seq<ArgD>): seq<Span> {
    seq(|args|, k requires 0 <= k < |args| => Span(args[k].q, args[k].eq))
  }

  function AmpsOf(c: Cmd, n: nat): Cmd
    decreases n
  {
    if n == 0 then c else AmpsOf(Back(c), n - 1)
  }

  function SimpleOf(x: SimpleD): Cmd
    decreases x, 0
  {
    match x
    case PlainD(pre, _, args) => RedirsOf(Exec(ArgSpans(args)), pre + ArgRedirs(args))
    case BlockD(_, line, _, _, redirs) => RedirsOf(LineOf(line), redirs)
  }

  function PipeOf(x: PipeD): Cmd
    decreases x, 1
  {
    match x
    case OneD(first) => SimpleOf(first)
    case BarD(first, _, _, rest) => Pipe(SimpleOf(first), PipeOf(rest))
  }

  function LineOf(x: LineD): Cmd
    decreases x, 2
  {
    match x
    case LastD(pipe, _, amps) => AmpsOf(PipeOf(pipe), |amps|)
    case SemiD(pipe, _, amps, _, rest) => List(AmpsOf(PipeOf(pipe), |amps|), LineOf(rest))
  }

  // ----- the scanner on such pieces -----

  lemma SameChars(c: char)
    ensures IsSpace(c) == BlankChar(c) && IsSymbol(c) == SymbolChar(c)
  {
  }

  lemma {:induction false} SkipIs(s: string, i: nat, j: nat)
    requires Blank(s, i, j) && (j < |s| ==> !BlankChar(s[j]))
    ensures SkipSpace(s, i) == j
    decreases j - i
  {
    if i < j {
      SameChars(s[i]);
      SkipIs(s, i + 1, j);
    } else if j < |s| {
      SameChars(s[j]);
    }
  }

  lemma SkipBlank(s: string, i: nat)
    requires i <= |s|
    ensures Blank(s, i, SkipSpace(s, i))
    ensures SkipSpace(s, i) < |s| ==> !BlankChar(s[SkipSpace(s, i)])
    ensures SkipSpace(s, SkipSpace(s, i)) == SkipSpace(s, i)
  {
    var j := SkipSpace(s, i);
    forall k | i <= k <= j && k < |s|
      ensures IsSpace(s[k]) == BlankChar(s[k])
    {
      SameChars(s[k]);
    }
    SkipIs(s, j, j);
  }

  // Peek at a piece: the character that comes next.
  lemma NextSeen(s: string, i: nat, j: nat, c: char)
    requires IsLine(s) && Next(s, i, j, c) && !BlankChar(c)
    ensures SkipSpace(s, i) == j && At(s, j) == c && (c == NUL <==> j == |s|)
    ensures forall toks: string :: Sees(s, i, toks) <==> c != NUL && c in toks
  {
    SkipIs(s, i, j);
  }

  lemma NextIs(s: string, i: nat)
    requires IsLine(s) && i <= |s|
    ensures Next(s, i, SkipSpace(s, i), At(s, SkipSpace(s, i))) && !BlankChar(At(s, SkipSpace(s, i)))
    ensures forall toks: string :: Sees(s, i, toks) <==> At(s, SkipSpace(s, i)) != NUL && At(s, SkipSpace(s, i)) in toks
  {
    SkipBlank(s, i);
  }

  lemma {:induction false} WordEnds(s: string, q: nat, k: nat, e: nat)
    requires Letters(s, q, e) && q <= k <= e
    ensures WordEnd(s, k) == e
    decreases e - k
  {
    if k < e {
      SameChars(s[k]);
      WordEnds(s, q, k + 1, e);
    } else if e < |s| {
      SameChars(s[e]);
    }
  }

  // The token of a word.
  lemma WordIs(s: string, i: nat, q: nat, e: nat)
    requires IsLine(s) && Blank(s, i, q) && Letters(s, q, e)
    ensures GetToken(s, i) == Token('a', q, e, SkipSpace(s, e)) && SkipSpace(s, i) == q
    ensures !Sees(s, i, "|)&;") && !Sees(s, i, "<>") && !Sees(s, i, "(") && At(s, q) != NUL
  {
    SameChars(s[q]);
    SkipIs(s, i, q);
    WordEnds(s, q, q, e);
  }

  lemma WordFound(s: string, i: nat)
    requires IsLine(s) && i <= |s| && GetToken(s, i).kind == 'a'
    ensures var t := GetToken(s, i); Blank(s, i, t.q) && Letters(s, t.q, t.eq) && t.next == SkipSpace(s, t.eq)
  {
    var t := GetToken(s, i);
    SkipBlank(s, i);
    forall k | t.q <= k <= t.eq && k < |s|
      ensures IsSpace(s[k]) == BlankChar(s[k]) && IsSymbol(s[k]) == SymbolChar(s[k])
    {
      SameChars(s[k]);
    }
  }

  // A symbol other than '>'.
  lemma SymbolIs(s: string, i: nat, j: nat, c: char)
    requires IsLine(s) && Next(s, i, j, c) && SymbolChar(c) && c != '>'
    ensures GetToken(s, j) == Token(c, j, j + 1, SkipSpace(s, j + 1)) && j < |s| && SkipSpace(s, i) == j
  {
    SameChars(c);
    SkipIs(s, i, j);
    SkipIs(s, j, j);
  }

  // ----- redirections -----

  function ItemOf(r: RedirD): Item {
    if r.op == In then Item(Span(r.q, r.eq), 0, 0) else Item(Span(r.q, r.eq), 0x201, 1)
  }

  function ItemsOf(rs: seq<RedirD>): seq<Item> { seq(|rs|, k requires 0 <= k < |rs| => ItemOf(rs[k])) }

  lemma {:induction false} WrapIs(c: Cmd, rs: seq<RedirD>)
    ensures Wrap(c, ItemsOf(rs)) == RedirsOf(c, rs)
    decreases |rs|
  {
    if rs != [] {
      assert ItemsOf(rs)[1..] == ItemsOf(rs[1..]) && ItemsOf(rs)[0] == ItemOf(rs[0]);
      WrapIs(RedirOf(c, rs[0]), rs[1..]);
    }
  }

  lemma RedirToken(s: string, i: nat, r: RedirD)
    requires IsLine(s) && RedirAt(s, i, r)
    ensures Sees(s, i, "<>") && SkipSpace(s, i) == r.at
    ensures GetToken(s, r.at).kind == (if r.op == In then '<' else if r.op == Out then '>' else '+')
    ensures GetToken(s, GetToken(s, r.at).next) == Token('a', r.q, r.eq, SkipSpace(s, r.eq))
    ensures RedirItem(GetToken(s, r.at).kind, Span(r.q, r.eq)) == ItemOf(r)
  {
    SkipIs(s, i, r.at);
    SkipIs(s, r.at, r.at);
    var w := if r.op == Append then r.at + 2 else r.at + 1;
    WordIs(s, w, r.q, r.eq);
    SkipIs(s, r.q, r.q) by { SameChars(s[r.q]); }
    WordIs(s, r.q, r.q, r.eq);
  }

  // Not a redirection next.
  ghost predicate Past(s: string, i: nat) { i <= |s| && !Sees(s, i, "<>") }

  lemma {:induction false} RedirsParse(s: string, i: nat, e: nat, rs: seq<RedirD>)
    requires IsLine(s) && RedirsAt(s, i, e, rs) && Past(s, e)
    ensures i <= |s| && ParseRedirs(s, i) == Items(ItemsOf(rs), SkipSpace(s, e))
    decreases |rs|
  {
    hide GetToken, Sees, RedirAt, RedirItem, ParseRedirs;
    if rs != [] {
      RedirBounds(s, i, rs[0]);
      RedirsParse(s, rs[0].eq, e, rs[1..]);
      OneMoreRedir(s, i, rs[0]);
      assert ItemsOf(rs) == [ItemOf(rs[0])] + ItemsOf(rs[1..]);
    } else {
      assert ItemsOf(rs) == [];
      assert ParseRedirs(s, i) == Items([], SkipSpace(s, i)) by { NoMoreRedirs(s, i); }
    }
  }

  lemma NoMoreRedirs(s: string, i: nat)
    requires IsLine(s) && Past(s, i)
    ensures ParseRedirs(s, i) == Items([], SkipSpace(s, i))
  {
  }

  lemma OneMoreRedir(s: string, i: nat, r: RedirD)
    requires IsLine(s) && RedirAt(s, i, r)
    ensures i <= |s| && r.eq <= |s|
    ensures var rest := ParseRedirs(s, r.eq);
      ParseRedirs(s, i) == if rest.ItemsErr? then rest else Items([ItemOf(r)] + rest.items, rest.next)
  {
    hide GetToken, Sees, RedirAt, RedirItem;
    RedirToken(s, i, r);
    RedirBounds(s, i, r);
    ParseFrom(s, r.eq);
  }

  lemma RedirBounds(s: string, i: nat, r: RedirD)
    requires RedirAt(s, i, r)
    ensures i <= r.at < r.q < r.eq <= |s|
  {
  }

  // Parsing starts by skipping blanks, so it may as well start behind them.
  lemma ParseFrom(s: string, i: nat)
    requires IsLine(s) && i <= |s|
    ensures ParseRedirs(s, SkipSpace(s, i)) == ParseRedirs(s, i)
    ensures forall argc: nat | argc < MAXARGS :: ParseArgs(s, SkipSpace(s, i), argc) == ParseArgs(s, i, argc)
    ensures ParseExec(s, SkipSpace(s, i)) == ParseExec(s, i) && ParsePipe(s, SkipSpace(s, i)) == ParsePipe(s, i)
    ensures ParseLine(s, SkipSpace(s, i)) == ParseLine(s, i)
    ensures forall c :: Backs(s, SkipSpace(s, i), c) == Backs(s, i, c)
    ensures forall toks: string :: Sees(s, SkipSpace(s, i), toks) == Sees(s, i, toks)
  {
    SkipBlank(s, i);
  }

  // What was parsed as redirections is a list of them.
  lemma {:induction false} RedirsFound(s: string, i: nat) returns (rs: seq<RedirD>, e: nat)
    requires IsLine(s) && i <= |s| && ParseRedirs(s, i).Items?
    ensures i <= e <= |s| && RedirsAt(s, i, e, rs) && Past(s, e)
    ensures ParseRedirs(s, i) == Items(ItemsOf(rs), SkipSpace(s, e))
    decreases |s| - i
  {
    hide GetToken, RedirAt, RedirItem;
    if !Sees(s, i, "<>") {
      rs, e := [], i;
      assert ItemsOf(rs) == [];
    } else {
      var r := RedirFound(s, i);
      RedirToken(s, i, r);
      RedirBounds(s, i, r);
      ParseFrom(s, r.eq);
      var more;
      more, e := RedirsFound(s, r.eq);
      rs := [r] + more;
      assert rs[1..] == more;
      RedirsParse(s, i, e, rs);
    }
  }

  lemma RedirFound(s: string, i: nat) returns (r: RedirD)
    requires IsLine(s) && i <= |s| && Sees(s, i, "<>")
    requires GetToken(s, GetToken(s, SkipSpace(s, i)).next).kind == 'a'
    ensures RedirAt(s, i, r)
  {
    var j := SkipSpace(s, i);
    SkipBlank(s, i);
    var t := GetToken(s, j);
    WordFound(s, t.next);
    var f := GetToken(s, t.next);
    SkipBlank(s, t.eq);
    r := RedirD(j, if s[j] == '<' then In else if t.kind == '+' then Append else Out, f.q, f.eq);
  }

  // ----- arguments -----

  // What ends a simple command comes next.
  ghost predicate Stop(s: string, e: nat) { e <= |s| && (Sees(s, e, "|)&;") || SkipSpace(s, e) == |s|) }

  lemma StopIs(s: string, e: nat)
    requires IsLine(s) && Stop(s, e)
    ensures Past(s, e) && !Sees(s, e, "(")
  {
  }

  lemma {:induction false} ArgsParse(s: string, i: nat, e: nat, args: seq<ArgD>, argc: nat)
    requires IsLine(s) && ArgsAt(s, i, e, args) && Stop(s, e) && argc + |args| < MAXARGS
    ensures i <= |s| && ParseArgs(s, i, argc) == Args(ArgSpans(args), ItemsOf(ArgRedirs(args)), SkipSpace(s, e))
    ensures args != [] ==> Past(s, i) && !Sees(s, i, "(")
    decreases |args|
  {
    hide GetToken, Sees, SkipSpace, ParseArgs, Letters, Blank, RedirsAt, ParseRedirs;
    if args == [] {
      assert ArgSpans(args) == [] && ItemsOf(ArgRedirs(args)) == [];
      NoMoreArgs(s, i, argc);
    } else {
      var a := args[0];
      var m: nat :| RedirsAt(s, a.eq, m, a.redirs) && ArgsAt(s, m, e, args[1..]);
      WordIs(s, i, a.q, a.eq);
      WordBounds(s, i, a.q, a.eq);
      ArgsParse(s, m, e, args[1..], argc + 1);
      if |args| == 1 { StopIs(s, e); }
      RedirsParse(s, a.eq, m, a.redirs);
      ArgFirst(s, i, a, m, argc);
      ItemsJoin(a.redirs, ArgRedirs(args[1..]));
      assert ArgSpans(args) == [Span(a.q, a.eq)] + ArgSpans(args[1..]);
    }
  }

  lemma WordBounds(s: string, i: nat, q: nat, e: nat)
    requires Blank(s, i, q) && Letters(s, q, e)
    ensures i <= q < e <= |s|
  {
  }

  lemma ItemsJoin(a: seq<RedirD>, b: seq<RedirD>)
    ensures ItemsOf(a + b) == ItemsOf(a) + ItemsOf(b)
  {
  }

  lemma NoMoreArgs(s: string, i: nat, argc: nat)
    requires IsLine(s) && Stop(s, i) && argc < MAXARGS
    ensures ParseArgs(s, i, argc) == Args([], [], SkipSpace(s, i))
  {
    SkipBlank(s, i);
  }

  // One word and its redirections, which end at m.
  lemma ArgFirst(s: string, i: nat, a: ArgD, m: nat, argc: nat)
    requires IsLine(s) && Blank(s, i, a.q) && Letters(s, a.q, a.eq) && m <= |s| && argc + 1 < MAXARGS
    requires ParseRedirs(s, a.eq) == Items(ItemsOf(a.redirs), SkipSpace(s, m))
    ensures var rest := ParseArgs(s, m, argc + 1);
      ParseArgs(s, i, argc) == if rest.ArgsErr? then rest
                               else Args([Span(a.q, a.eq)] + rest.argv, ItemsOf(a.redirs) + rest.items, rest.next)
  {
    hide GetToken, Sees, Letters, Blank, ParseRedirs;
    WordIs(s, i, a.q, a.eq);
    WordBounds(s, i, a.q, a.eq);
    ParseFrom(s, a.eq);
    ParseFrom(s, m);
    ParseFrom(s, i);
    SkipBlank(s, i);
    SkipIs(s, a.q, a.q) by { FirstLetter(s, a.q, a.eq); }
    WordIs(s, a.q, a.q, a.eq) by { FirstLetter(s, a.q, a.eq); }
  }

  lemma FirstLetter(s: string, q: nat, e: nat)
    requires Letters(s, q, e)
    ensures Blank(s, q, q) && q < |s| && !BlankChar(s[q])
  {
  }

  lemma {:induction false} ArgsFound(s: string, i: nat, argc: nat) returns (args: seq<ArgD>, e: nat)
    requires IsLine(s) && i <= |s| && argc < MAXARGS && ParseArgs(s, i, argc).Args?
    ensures i <= e <= |s| && ArgsAt(s, i, e, args) && Stop(s, e) && argc + |args| < MAXARGS
    decreases |s| - i
  {
    hide GetToken, Letters, Blank, RedirsAt, ParseRedirs, ParseArgs, Sees, SkipSpace;
    var j := SkipSpace(s, i);
    SkipBlank(s, i);
    if Sees(s, i, "|)&;") || GetToken(s, j).kind == NUL {
      args, e := [], i;
      if !Sees(s, i, "|)&;") { EndToken(s, i); }
    } else {
      var t := GetToken(s, j);
      ArgThere(s, i, argc);
      WordFound(s, j);
      BlankJoin(s, i, j, t.q);
      ParseFrom(s, t.eq);
      var rs, m := RedirsFound(s, t.eq);
      ParseFrom(s, m);
      WordBounds(s, i, t.q, t.eq);
      var more;
      more, e := ArgsFound(s, m, argc + 1);
      args := [ArgD(t.q, t.eq, rs)] + more;
      assert args[1..] == more;
    }
  }

  lemma ArgThere(s: string, i: nat, argc: nat)
    requires IsLine(s) && i <= |s| && argc < MAXARGS && ParseArgs(s, i, argc).Args?
    requires !Sees(s, i, "|)&;") && GetToken(s, SkipSpace(s, i)).kind != NUL
    ensures var t := GetToken(s, SkipSpace(s, i));
      && t.kind == 'a' && argc + 1 < MAXARGS && ParseRedirs(s, t.next).Items?
      && ParseArgs(s, ParseRedirs(s, t.next).next, argc + 1).Args?
  {
    hide GetToken, Sees, SkipSpace, ParseRedirs;
  }

  lemma EndToken(s: string, i: nat)
    requires IsLine(s) && i <= |s| && GetToken(s, SkipSpace(s, i)).kind == NUL
    ensures SkipSpace(s, i) == |s|
  {
    SkipBlank(s, i);
  }

  lemma BlankJoin(s: string, i: nat, j: nat, k: nat)
    requires Blank(s, i, j) && Blank(s, j, k)
    ensures Blank(s, i, k)
  {
  }

  // ----- blanks in front of a piece -----

  lemma LineFrom(s: string, i: nat)
    requires IsLine(s) && i <= |s|
    ensures SkipSpace(s, i) <= |s| && ParseLine(s, SkipSpace(s, i)) == ParseLine(s, i)
  {
    ParseFrom(s, i);
  }

  lemma RedirsFrom(s: string, i: nat)
    requires IsLine(s) && i <= |s|
    ensures SkipSpace(s, i) <= |s| && ParseRedirs(s, SkipSpace(s, i)) == ParseRedirs(s, i)
  {
    ParseFrom(s, i);
  }

  lemma BacksFrom(s: string, i: nat, c: Cmd)
    requires IsLine(s) && i <= |s|
    ensures SkipSpace(s, i) <= |s| && Backs(s, SkipSpace(s, i), c) == Backs(s, i, c)
  {
    ParseFrom(s, i);
  }

  // Peeking behind blanks is peeking before them.
  lemma SeesFrom(s: string, i: nat, toks: string)
    requires i <= |s|
    ensures SkipSpace(s, i) <= |s| && SkipSpace(s, SkipSpace(s, i)) == SkipSpace(s, i)
    ensures Sees(s, SkipSpace(s, i), toks) == Sees(s, i, toks)
  {
    SkipBlank(s, i);
  }

  // One '&' more, or none.
  lemma BacksStep(s: string, i: nat, c: Cmd)
    requires IsLine(s) && i <= |s|
    ensures Sees(s, i, "&") ==> i <= SkipSpace(s, i) < |s| && Backs(s, i, c) == Backs(s, SkipSpace(s, i) + 1, Back(c))
    ensures !Sees(s, i, "&") ==> Backs(s, i, c) == (c, SkipSpace(s, i))
  {
    if Sees(s, i, "&") {
      SymbolHere(s, i, '&');
      BacksFrom(s, SkipSpace(s, i) + 1, Back(c));
    }
  }

  // ----- commands -----

  // What ends a pipe, and a line, comes next.
  ghost predicate PipeStop(s: string, e: nat) { Stop(s, e) && !Sees(s, e, "|") }

  ghost predicate LineStop(s: string, e: nat) { e <= |s| && (Sees(s, e, ")") || SkipSpace(s, e) == |s|) }

  lemma LineStopIs(s: string, e: nat)
    requires IsLine(s) && LineStop(s, e)
    ensures PipeStop(s, e) && Stop(s, e) && !Sees(s, e, "&") && !Sees(s, e, ";")
  {
  }

  lemma SimpleParse(s: string, i: nat, e: nat, x: SimpleD)
    requires IsLine(s) && SimpleAt(s, i, e, x) && Stop(s, e)
    ensures i <= |s| && ParseExec(s, i) == Ok(SimpleOf(x), SkipSpace(s, e))
    decreases x, 0
  {
    hide GetToken, Sees, SkipSpace, ParseExec, ParseLine, ParseArgs, ParseRedirs, Next, RedirsAt, ArgsAt;
    match x
    case PlainD(pre, start, args) => PlainParse(s, i, e, x);
    case BlockD(open, line, mid, close, redirs) =>
      CloseStops(s, mid, close);
      LineParse(s, open + 1, mid, line);
      BlockParse(s, i, e, x);
  }

  lemma CloseStops(s: string, mid: nat, close: nat)
    requires IsLine(s) && Next(s, mid, close, ')')
    ensures LineStop(s, mid) && mid <= |s|
  {
    NextSeen(s, mid, close, ')');
  }

  lemma PlainParse(s: string, i: nat, e: nat, x: SimpleD)
    requires IsLine(s) && x.PlainD? && SimpleAt(s, i, e, x) && Stop(s, e)
    ensures i <= |s| && ParseExec(s, i) == Ok(SimpleOf(x), SkipSpace(s, e))
  {
    hide GetToken, Sees, SkipSpace, ParseArgs, ParseRedirs, Wrap, ParseBlock;
    ArgsParse(s, x.start, e, x.args, 0);
    StopIs(s, e);
    RedirsParse(s, i, x.start, x.pre);
    if x.pre != [] { NotBlock(s, i, x.pre[0]); }
    ParseFrom(s, i);
    ParseFrom(s, x.start);
    ItemsJoin(x.pre, ArgRedirs(x.args));
    WrapIs(Exec(ArgSpans(x.args)), x.pre + ArgRedirs(x.args));
  }

  lemma NotBlock(s: string, i: nat, r: RedirD)
    requires IsLine(s) && RedirAt(s, i, r)
    ensures i <= |s| && !Sees(s, i, "(")
  {
    SkipIs(s, i, r.at);
  }

  lemma BlockParse(s: string, i: nat, e: nat, x: SimpleD)
    requires IsLine(s) && x.BlockD? && SimpleAt(s, i, e, x) && Stop(s, e) && x.open + 1 <= |s| && x.mid <= |s|
    requires ParseLine(s, x.open + 1) == Ok(LineOf(x.line), SkipSpace(s, x.mid))
    ensures i <= |s| && ParseExec(s, i) == Ok(SimpleOf(x), SkipSpace(s, e))
  {
    hide GetToken, Sees, SkipSpace, ParseLine, ParseRedirs, Wrap, Next, LineAt, RedirsAt, Stop, Past;
    SymbolAhead(s, i, x.open, '(');
    SymbolAhead(s, x.mid, x.close, ')');
    StopIs(s, e);
    RedirsParse(s, x.close + 1, e, x.redirs);
    WrapIs(LineOf(x.line), x.redirs);
    BlockSteps(s, i, x.open, x.mid, x.close);
  }

  lemma SymbolAhead(s: string, i: nat, j: nat, c: char)
    requires IsLine(s) && Next(s, i, j, c) && SymbolChar(c) && c != '>' && c != NUL
    ensures i <= j < |s| && SkipSpace(s, i) == j && SkipSpace(s, j) == j && Sees(s, i, [c]) && Sees(s, j, [c])
    ensures GetToken(s, j).next == SkipSpace(s, j + 1)
  {
    hide GetToken;
    NextSeen(s, i, j, c);
    SymbolIs(s, i, j, c);
    SkipIs(s, j, j);
  }

  // parseblock between the two parentheses.
  lemma BlockSteps(s: string, i: nat, open: nat, mid: nat, close: nat)
    requires IsLine(s) && i <= open < |s| && mid <= close < |s| && SkipSpace(s, i) == SkipSpace(s, open) == open
    requires Sees(s, i, "(") && Sees(s, open, "(") && GetToken(s, open).next == SkipSpace(s, open + 1)
    requires SkipSpace(s, mid) == SkipSpace(s, close) == close && Sees(s, mid, ")") && Sees(s, close, ")")
    requires GetToken(s, close).next == SkipSpace(s, close + 1)
    requires ParseLine(s, open + 1).Ok? && ParseLine(s, open + 1).next == close
    ensures ParseExec(s, i) == var r := ParseRedirs(s, close + 1);
                               if r.ItemsErr? then Err(r.msg) else Ok(Wrap(ParseLine(s, open + 1).cmd, r.items), r.next)
  {
    hide GetToken, Sees, SkipSpace, ParseLine, ParseRedirs, Wrap;
    LineFrom(s, open + 1);
    RedirsFrom(s, close + 1);
  }

  lemma NextBounds(s: string, i: nat, j: nat, c: char)
    requires Next(s, i, j, c)
    ensures i <= j <= |s| && (c != NUL ==> j < |s|)
  {
  }

  lemma PipeFrom(s: string, i: nat)
    requires IsLine(s) && i <= |s|
    ensures SkipSpace(s, i) <= |s| && ParsePipe(s, SkipSpace(s, i)) == ParsePipe(s, i)
  {
    ParseFrom(s, i);
  }

  lemma BarStops(s: string, mid: nat, bar: nat)
    requires IsLine(s) && Next(s, mid, bar, '|')
    ensures mid <= bar < |s| && Stop(s, mid)
  {
    NextSeen(s, mid, bar, '|');
    assert Sees(s, mid, "|)&;");
  }

  // A pipe goes on behind '|' or ends where its command does.
  lemma PipeStep(s: string, i: nat, mid: nat)
    requires IsLine(s) && i <= |s| && mid <= |s| && ParseExec(s, i).Ok? && ParseExec(s, i).next == SkipSpace(s, mid)
    ensures Sees(s, mid, "|") ==>
              && mid <= SkipSpace(s, mid) < |s| && Next(s, mid, SkipSpace(s, mid), '|')
              && ParsePipe(s, i) == var rest := ParsePipe(s, SkipSpace(s, mid) + 1);
                                    if rest.Err? then rest else Ok(Pipe(ParseExec(s, i).cmd, rest.cmd), rest.next)
    ensures !Sees(s, mid, "|") ==> ParsePipe(s, i) == Ok(ParseExec(s, i).cmd, SkipSpace(s, mid))
  {
    hide GetToken, Sees, SkipSpace, ParseExec, Next;
    SeesFrom(s, mid, "|");
    if Sees(s, mid, "|") {
      SymbolHere(s, mid, '|');
      PipeFrom(s, SkipSpace(s, mid) + 1);
    }
  }

  lemma PipeParse(s: string, i: nat, e: nat, x: PipeD)
    requires IsLine(s) && PipeAt(s, i, e, x) && PipeStop(s, e)
    ensures i <= |s| && ParsePipe(s, i) == Ok(PipeOf(x), SkipSpace(s, e))
    decreases x, 1
  {
    hide GetToken, Sees, SkipSpace, ParseExec, ParsePipe, Next, Stop;
    match x
    case OneD(first) =>
      SimpleParse(s, i, e, first);
      PipeStep(s, i, e);
    case BarD(first, mid, bar, rest) =>
      BarStops(s, mid, bar);
      SymbolAhead(s, mid, bar, '|');
      SimpleParse(s, i, mid, first);
      PipeParse(s, bar + 1, e, rest);
      PipeStep(s, i, mid);
  }

  lemma AmpStops(s: string, i: nat, j: nat)
    requires IsLine(s) && Next(s, i, j, '&')
    ensures i <= j < |s| && SkipSpace(s, i) == j && Sees(s, i, "&") && PipeStop(s, i)
  {
    NextSeen(s, i, j, '&');
    assert Sees(s, i, "&") && Sees(s, i, "|)&;") && !Sees(s, i, "|");
  }

  lemma {:induction false} AmpsParse(s: string, i: nat, e: nat, amps: seq<nat>, c: Cmd)
    requires IsLine(s) && AmpsAt(s, i, e, amps) && e <= |s| && !Sees(s, e, "&")
    ensures i <= |s| && Backs(s, i, c) == (AmpsOf(c, |amps|), SkipSpace(s, e))
    ensures amps != [] ==> PipeStop(s, i)
    decreases |amps|
  {
    hide GetToken, Sees, SkipSpace, Next, Backs, PipeStop;
    if amps != [] {
      AmpStops(s, i, amps[0]);
      AmpsParse(s, amps[0] + 1, e, amps[1..], Back(c));
    }
    BacksStep(s, i, c);
  }

  // The pipe and the marks behind it, in the parser's words.
  lemma MarksParse(s: string, i: nat, mid: nat, m: nat, pipe: PipeD, amps: seq<nat>)
    requires IsLine(s) && PipeAt(s, i, mid, pipe) && AmpsAt(s, mid, m, amps) && m <= |s| && PipeStop(s, m) && !Sees(s, m, "&")
    ensures i <= |s| && mid <= |s| && ParsePipe(s, i) == Ok(PipeOf(pipe), SkipSpace(s, mid)) && SkipSpace(s, mid) <= |s|
    ensures Backs(s, SkipSpace(s, mid), PipeOf(pipe)) == (AmpsOf(PipeOf(pipe), |amps|), SkipSpace(s, m))
    decreases pipe, 3
  {
    hide GetToken, Sees, SkipSpace, ParsePipe, Next, Backs, PipeStop;
    AmpsParse(s, mid, m, amps, PipeOf(pipe));
    PipeParse(s, i, mid, pipe);
    BacksFrom(s, mid, PipeOf(pipe));
  }

  lemma LineEnds(s: string, i: nat, m: nat, c: Cmd)
    requires IsLine(s) && i <= |s| && m <= |s| && ParsePipe(s, i).Ok? && !Sees(s, m, ";")
    requires Backs(s, ParsePipe(s, i).next, ParsePipe(s, i).cmd) == (c, SkipSpace(s, m))
    ensures ParseLine(s, i) == Ok(c, SkipSpace(s, m))
  {
    hide GetToken, Sees, SkipSpace, ParsePipe, Backs;
    SeesFrom(s, m, ";");
  }

  lemma LineGoesOn(s: string, i: nat, m: nat, semi: nat, c: Cmd)
    requires IsLine(s) && i <= |s| && m <= |s| && ParsePipe(s, i).Ok? && Next(s, m, semi, ';')
    requires Backs(s, ParsePipe(s, i).next, ParsePipe(s, i).cmd) == (c, SkipSpace(s, m))
    ensures semi < |s|
    ensures ParseLine(s, i) == var rest := ParseLine(s, semi + 1); if rest.Err? then rest else Ok(List(c, rest.cmd), rest.next)
  {
    hide GetToken, Sees, SkipSpace, ParsePipe, Backs, Next;
    SymbolAhead(s, m, semi, ';');
    SeesFrom(s, m, ";");
    LineFrom(s, semi + 1);
  }

  lemma LineParse(s: string, i: nat, e: nat, x: LineD)
    requires IsLine(s) && LineAt(s, i, e, x) && LineStop(s, e)
    ensures i <= |s| && ParseLine(s, i) == Ok(LineOf(x), SkipSpace(s, e))
    decreases x, 2
  {
    hide GetToken, Sees, SkipSpace, ParsePipe, ParseLine, Next, Backs, PipeStop;
    match x
    case LastD(pipe, mid, amps) =>
      LineStopIs(s, e);
      MarksParse(s, i, mid, e, pipe, amps);
      LineEnds(s, i, e, AmpsOf(PipeOf(pipe), |amps|));
    case SemiD(pipe, mid, amps, semi, rest) =>
      var m: nat :| AmpsAt(s, mid, m, amps) && Next(s, m, semi, ';');
      SemiIs(s, m, semi);
      MarksParse(s, i, mid, m, pipe, amps);
      LineGoesOn(s, i, m, semi, AmpsOf(PipeOf(pipe), |amps|));
      LineParse(s, semi + 1, e, rest);
  }

  lemma SemiIs(s: string, m: nat, semi: nat)
    requires IsLine(s) && Next(s, m, semi, ';')
    ensures m <= semi < |s| && PipeStop(s, m) && !Sees(s, m, "&")
  {
    NextSeen(s, m, semi, ';');
    assert Sees(s, m, "|)&;") && !Sees(s, m, "|");
  }

  // ----- what was parsed has a derivation -----

  // A line goes on behind ';' or ends.
  lemma LineStep(s: string, i: nat, m: nat)
    requires IsLine(s) && i <= |s| && m <= |s| && ParseLine(s, i).Ok?
    requires ParsePipe(s, i).Ok? ==> Backs(s, ParsePipe(s, i).next, ParsePipe(s, i).cmd).1 == SkipSpace(s, m)
    ensures ParsePipe(s, i).Ok?
    ensures Sees(s, m, ";") ==>
              && m <= SkipSpace(s, m) < |s| && Next(s, m, SkipSpace(s, m), ';')
              && ParseLine(s, SkipSpace(s, m) + 1).Ok? && ParseLine(s, SkipSpace(s, m) + 1).next == ParseLine(s, i).next
    ensures !Sees(s, m, ";") ==> ParseLine(s, i).next == SkipSpace(s, m)
  {
    hide GetToken, ParsePipe, Backs, Sees, SkipSpace, Next;
    SeesFrom(s, m, ";");
    if Sees(s, m, ";") {
      SymbolHere(s, m, ';');
      LineFrom(s, SkipSpace(s, m) + 1);
    }
  }

  // A block: its parentheses and its line.
  lemma BlockStep(s: string, i: nat, mid: nat)
    requires IsLine(s) && i <= |s| && mid <= |s| && Sees(s, i, "(") && ParseExec(s, i).Ok?
    requires SkipSpace(s, i) + 1 <= |s| && ParseLine(s, SkipSpace(s, i) + 1).Ok? ==>
               ParseLine(s, SkipSpace(s, i) + 1).next == SkipSpace(s, mid)
    ensures i <= SkipSpace(s, i) < |s| && Next(s, i, SkipSpace(s, i), '(') && ParseLine(s, SkipSpace(s, i) + 1).Ok?
    ensures mid <= SkipSpace(s, mid) < |s| && Next(s, mid, SkipSpace(s, mid), ')')
    ensures ParseRedirs(s, SkipSpace(s, mid) + 1).Items?
    ensures ParseRedirs(s, SkipSpace(s, mid) + 1).next == ParseExec(s, i).next
  {
    hide GetToken, ParseLine, ParseRedirs, Wrap, Next, Sees, SkipSpace;
    SeesFrom(s, i, "(");
    SymbolHere(s, i, '(');
    LineFrom(s, SkipSpace(s, i) + 1);
    SeesFrom(s, mid, ")");
    SymbolHere(s, mid, ')');
    RedirsFrom(s, SkipSpace(s, mid) + 1);
  }

  lemma BlockOpens(s: string, i: nat)
    requires IsLine(s) && i <= |s| && Sees(s, i, "(") && ParseExec(s, i).Ok?
    ensures i <= SkipSpace(s, i) < |s| && ParseLine(s, SkipSpace(s, i) + 1).Ok?
  {
    hide GetToken, ParseLine, ParseRedirs, Wrap, Next, Sees, SkipSpace;
    SeesFrom(s, i, "(");
    SymbolHere(s, i, '(');
    LineFrom(s, SkipSpace(s, i) + 1);
  }

  lemma SymbolHere(s: string, i: nat, c: char)
    requires IsLine(s) && i <= |s| && Sees(s, i, [c]) && SymbolChar(c) && c != '>'
    ensures var j := SkipSpace(s, i);
      && i <= j < |s| && Next(s, i, j, c) && SkipSpace(s, j) == j && GetToken(s, j).next == SkipSpace(s, j + 1)
      && GetToken(s, j).kind == c
  {
    hide GetToken;
    NextIs(s, i);
    SkipBlank(s, i);
    SymbolIs(s, i, SkipSpace(s, i), c);
  }

  lemma SimpleFound(s: string, i: nat) returns (x: SimpleD, e: nat)
    requires IsLine(s) && i <= |s| && ParseExec(s, i).Ok?
    ensures i <= e <= |s| && SimpleAt(s, i, e, x) && ParseExec(s, i).next == SkipSpace(s, e) && Past(s, e)
    ensures x.PlainD? ==> Stop(s, e)
    decreases |s| - i, 2
  {
    hide GetToken, ParseArgs, ParseRedirs, RedirsAt, ArgsAt, Wrap;
    ParseFrom(s, i);
    if Sees(s, i, "(") {
      x, e := BlockFound(s, i);
    } else {
      var pre, start := RedirsFound(s, i);
      ParseFrom(s, start);
      var args;
      args, e := ArgsFound(s, start, 0);
      ArgsParse(s, start, e, args, 0);
      StopIs(s, e);
      x := PlainD(pre, start, args);
    }
  }

  lemma BlockFound(s: string, i: nat) returns (x: SimpleD, e: nat)
    requires IsLine(s) && i <= |s| && Sees(s, i, "(") && ParseExec(s, i).Ok?
    ensures x.BlockD? && i <= e <= |s| && SimpleAt(s, i, e, x) && ParseExec(s, i).next == SkipSpace(s, e) && Past(s, e)
    decreases |s| - i, 1
  {
    hide GetToken, ParseLine, ParseExec, ParseRedirs, RedirsAt, LineAt, Wrap, Next, Sees, SkipSpace, Past;
    BlockOpens(s, i);
    var open := SkipSpace(s, i);
    var line, mid := LineFound(s, open + 1);
    BlockStep(s, i, mid);
    var close := SkipSpace(s, mid);
    var rs;
    rs, e := RedirsFound(s, close + 1);
    x := BlockD(open, line, mid, close, rs);
  }

  lemma PipeFound(s: string, i: nat) returns (x: PipeD, e: nat)
    requires IsLine(s) && i <= |s| && ParsePipe(s, i).Ok?
    ensures i <= e <= |s| && PipeAt(s, i, e, x) && ParsePipe(s, i).next == SkipSpace(s, e)
    decreases |s| - i, 3
  {
    hide GetToken, ParseExec, ParsePipe, SimpleAt, Next, Sees, SkipSpace, Stop, Past;
    PipeHasFirst(s, i);
    var first, mid := SimpleFound(s, i);
    PipeStep(s, i, mid);
    if Sees(s, mid, "|") {
      var bar := SkipSpace(s, mid);
      var rest;
      rest, e := PipeFound(s, bar + 1);
      x := BarD(first, mid, bar, rest);
    } else {
      x, e := OneD(first), mid;
    }
  }

  lemma PipeHasFirst(s: string, i: nat)
    requires IsLine(s) && i <= |s| && ParsePipe(s, i).Ok?
    ensures ParseExec(s, i).Ok?
  {
    hide ParseExec, GetToken, Sees, SkipSpace;
  }

  lemma {:induction false} AmpsFound(s: string, i: nat, c: Cmd) returns (amps: seq<nat>, e: nat)
    requires IsLine(s) && i <= |s|
    ensures i <= e <= |s| && AmpsAt(s, i, e, amps) && Backs(s, i, c).1 == SkipSpace(s, e)
    decreases |s| - i
  {
    hide GetToken, Next, Sees, SkipSpace, Backs;
    BacksStep(s, i, c);
    if Sees(s, i, "&") {
      var j := SkipSpace(s, i);
      SymbolHere(s, i, '&');
      var more;
      more, e := AmpsFound(s, j + 1, Back(c));
      amps := [j] + more;
      assert amps[1..] == more;
    } else {
      amps, e := [], i;
    }
  }

  lemma LineFound(s: string, i: nat) returns (x: LineD, e: nat)
    requires IsLine(s) && i <= |s| && ParseLine(s, i).Ok?
    ensures i <= e <= |s| && LineAt(s, i, e, x) && ParseLine(s, i).next == SkipSpace(s, e)
    decreases |s| - i, 4
  {
    hide GetToken, ParseLine, ParsePipe, PipeAt, AmpsAt, Next, Backs, Sees, SkipSpace;
    LineHasPipe(s, i);
    var pipe, mid := PipeFound(s, i);
    var c := ParsePipe(s, i).cmd;
    BacksFrom(s, mid, c);
    var amps, m := AmpsFound(s, mid, c);
    LineStep(s, i, m);
    if Sees(s, m, ";") {
      var rest;
      rest, e := LineFound(s, SkipSpace(s, m) + 1);
      x := SemiD(pipe, mid, amps, SkipSpace(s, m), rest);
    } else {
      x, e := LastD(pipe, mid, amps), m;
    }
  }

  lemma LineHasPipe(s: string, i: nat)
    requires IsLine(s) && i <= |s| && ParseLine(s, i).Ok?
    ensures ParsePipe(s, i).Ok?
  {
    hide ParsePipe, Backs;
  }

  // The parser accepts exactly the lines that have a derivation, and builds what it stands for.
  lemma ParserIsGrammar(s: string)
    requires IsLine(s)
    ensures ParseCmd(s).Ok? <==> exists x :: Derives(s, x)
    ensures forall x | Derives(s, x) :: ParseCmd(s) == Ok(LineOf(x), |s|)
  {
    hide ParseLine, LineAt;
    forall x | Derives(s, x)
      ensures ParseCmd(s) == Ok(LineOf(x), |s|)
    {
      var e: nat :| LineAt(s, 0, e, x) && Blank(s, e, |s|);
      SkipIs(s, e, |s|);
      LineParse(s, 0, e, x);
    }
    if ParseCmd(s).Ok? {
      var x, e := LineFound(s, 0);
      SkipBlank(s, e);
      assert Derives(s, x);
    }
  }

  ghost predicate PlainWord(w: string) {
    w != "" && forall k | 0 <= k < |w| :: !BlankChar(w[k]) && !SymbolChar(w[k]) && w[k] != '\0'
  }

  function SymbolOf(op: Op): string {
    match op
    case In => "<"
    case Out => ">"
    case Append => ">>"
  }

  // A command with its input or output sent elsewhere, in each of the three spellings.
  lemma RedirectedLine(w: string, op: Op, f: string)
    requires PlainWord(w) && PlainWord(f)
    ensures var s, q := w + SymbolOf(op) + f, |w| + |SymbolOf(op)|;
      && SymbolOf(In) == "<" && SymbolOf(Out) == ">" && SymbolOf(Append) == ">>" && IsLine(s)
      && ParseCmd(s) == Ok(Redir(Exec([Span(0, |w|)]), Span(q, |s|), if op == In then 0 else 0x201, if op == In then 0 else 1), |s|)
  {
    hide ParseCmd, ParseLine, RedirAt, Derives, LineAt;
    var s, q := w + SymbolOf(op) + f, |w| + |SymbolOf(op)|;
    var r := RedirD(|w|, op, q, |s|);
    RedirectionStands(w, op, f);
    OneCommand(s, |w|, r);
    ParserIsGrammar(s);
    assert ArgRedirs([]) == [] && RedirsOf(RedirOf(Exec([Span(0, |w|)]), r), []) == RedirOf(Exec([Span(0, |w|)]), r);
  }

  lemma RedirectionStands(w: string, op: Op, f: string)
    requires PlainWord(w) && PlainWord(f)
    ensures var s, q := w + SymbolOf(op) + f, |w| + |SymbolOf(op)|;
      IsLine(s) && Letters(s, 0, |w|) && RedirAt(s, |w|, RedirD(|w|, op, q, |s|))
  {
    var s, q := w + SymbolOf(op) + f, |w| + |SymbolOf(op)|;
    assert forall k | 0 <= k < |w| :: s[k] == w[k];
    assert forall k | q <= k < |s| :: s[k] == f[k - q];
    assert forall k | |w| <= k < q :: s[k] == SymbolOf(op)[k - |w|];
    assert s[q] == f[0];
  }

  // A word with one redirection behind it is a line.
  lemma OneCommand(s: string, n: nat, r: RedirD)
    requires Letters(s, 0, n) && RedirAt(s, n, r) && r.eq == |s|
    ensures var x := LastD(OneD(PlainD([], 0, [ArgD(0, n, [r])])), |s|, []);
      Derives(s, x) && LineOf(x) == RedirsOf(Exec([Span(0, n)]), [r])
  {
    hide Letters, RedirAt;
    var a := ArgD(0, n, [r]);
    var p := PlainD([], 0, [a]);
    assert RedirsAt(s, r.eq, |s|, [r][1..]);
    assert RedirsAt(s, n, |s|, [r]);
    assert ArgsAt(s, |s|, |s|, [a][1..]);
    assert Blank(s, 0, 0);
    assert ArgsAt(s, 0, |s|, [a]);
    assert SimpleAt(s, 0, |s|, p);
    assert LineAt(s, 0, |s|, LastD(OneD(p), |s|, []));
    assert [r] + ArgRedirs([a][1..]) == [r] && [] + ArgRedirs([a]) == [r];
    assert ArgSpans([a]) == [Span(0, n)];
    assert AmpsOf(SimpleOf(p), 0) == SimpleOf(p) == RedirsOf(Exec([Span(0, n)]), [r]);
    assert LineOf(LastD(OneD(p), |s|, [])) == AmpsOf(PipeOf(OneD(p)), 0) == SimpleOf(p);
  }
}
