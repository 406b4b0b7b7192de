/** user/sh.c as it runs: the scanning loops, the recursive descent and parsecmd. The exec
    node, which the C code goes on filling after redirections have been wrapped around it, is
    built here when its arguments are complete. */
module Shell {
  import opened ShellParser
  import opened ShellRoundTrip
  import opened ShellTerminate

  // while(s < es && strchr(whitespace, *s)) s++;
  method Skip(s: string, from: nat) returns (i: nat)
    requires from <= |s|
    ensures i == SkipSpace(s, from)
  {
    i := from;
    while i < |s| && IsSpace(s[i])
      invariant from <= i <= |s| && SkipSpace(s, i) == SkipSpace(s, from)
    {
      i := i + 1;
    }
  }

  method Gettoken(s: string, ps: nat) returns (ret: char, q: nat, eq: nat, next: nat)
    requires IsLine(s) && ps <= |s|
    ensures Token(ret, q, eq, next) == GetToken(s, ps)
  {
    var i := Skip(s, ps);
    q := i;
    ret := At(s, i);
    if ret == NUL {
    } else if ret == '|' || ret == '(' || ret == ')' || ret == ';' || ret == '&' || ret == '<' {
      i := i + 1;
    } else if ret == '>' {
      i := i + 1;
      if At(s, i) == '>' {
        ret := '+';
        i := i + 1;
      }
    } else {
      ret := 'a';
      while i < |s| && !IsSpace(s[i]) && !IsSymbol(s[i])
        invariant q <= i <= |s| && WordEnd(s, i) == WordEnd(s, q)
      {
        i := i + 1;
      }
    }
    eq := i;
    next := Skip(s, i);
  }

  method Peek(s: string, ps: nat, toks: string) returns (next: nat, hit: bool)
    requires ps <= |s|
    ensures next == SkipSpace(s, ps) && hit == Sees(s, ps, toks)
  {
    next := Skip(s, ps);
    hit := At(s, next) != NUL && At(s, next) in toks;
  }

  // Peeking twice at the same place gives the same answer.
  lemma SkipTwice(s: string, i: nat)
    requires i <= |s|
    ensures SkipSpace(s, SkipSpace(s, i)) == SkipSpace(s, i)
    ensures forall toks: string :: Sees(s, SkipSpace(s, i), toks) == Sees(s, i, toks)
  {
  }

  method Parseredirs(s: string, ps: nat) returns (r: Items)
    requires IsLine(s) && ps <= |s|
    ensures r == ParseRedirs(s, ps)
    ensures r.Items? && At(s, SkipSpace(s, ps)) == '<' ==> r.items != [] && r.items[0].mode == 0 && r.items[0].fd == 0
    ensures r.Items? && At(s, SkipSpace(s, ps)) == '>' ==> r.items != [] && r.items[0].mode == 0x201 && r.items[0].fd == 1
  {
    hide SkipSpace, GetToken, Sees, ParseRedirs, RedirItem;
    if ParseRedirs(s, ps).Items? { FirstRedir(s, ps); }
    var items: seq<Item> := [];
    var pos := ps;
    var next, hit := Peek(s, pos, "<>");
    while hit
      invariant pos <= next <= |s|
      invariant next == SkipSpace(s, pos) && hit == Sees(s, pos, "<>")
      invariant ParseRedirs(s, ps) == Prepend(items, ParseRedirs(s, pos))
      decreases |s| - pos
    {
      var tok, q0, e0, next0 := Gettoken(s, next);
      var kind, q, eq, next1 := Gettoken(s, next0);
      if kind != 'a' {
        NextRedir(s, pos);
        return ItemsErr("missing file for redirection");
      }
      TokenConsumes(s, pos, next0);
      NextRedir(s, pos);
      var item := if tok == '<' then Item(Span(q, eq), O_RDONLY, 0) else Item(Span(q, eq), O_WRITE_CREATE, 1);
      PrependOne(items, item, ParseRedirs(s, next1));
      items := items + [item];
      pos := next1;
      next, hit := Peek(s, pos, "<>");
    }
    NoMoreRedirs(s, pos);
    return Items(items, next);
  }

  // The next redirection and those behind it.
  lemma NextRedir(s: string, pos: nat)
    requires IsLine(s) && pos <= |s| && Sees(s, pos, "<>") && SkipSpace(s, pos) <= |s|
    ensures var tok := GetToken(s, SkipSpace(s, pos));
      var file := GetToken(s, tok.next);
      var it := if tok.kind == '<' then Item(Span(file.q, file.eq), 0, 0) else Item(Span(file.q, file.eq), 0x201, 1);
      ParseRedirs(s, pos) == if file.kind != 'a' then ItemsErr("missing file for redirection")
                             else Prepend([it], ParseRedirs(s, file.next))
  {
    hide SkipSpace, GetToken, Sees;
  }

  lemma NoMoreRedirs(s: string, pos: nat)
    requires IsLine(s) && pos <= |s| && !Sees(s, pos, "<>")
    ensures ParseRedirs(s, pos) == Items([], SkipSpace(s, pos))
  {
    hide SkipSpace, GetToken, Sees;
  }

  lemma FirstRedir(s: string, i: nat)
    requires IsLine(s) && i <= |s| && ParseRedirs(s, i).Items?
    ensures At(s, SkipSpace(s, i)) == '<' ==> var r := ParseRedirs(s, i).items; r != [] && r[0].mode == 0 && r[0].fd == 0
    ensures At(s, SkipSpace(s, i)) == '>' ==> var r := ParseRedirs(s, i).items; r != [] && r[0].mode == 0x201 && r[0].fd == 1
  {
    SkipTwice(s, i);
  }

  function Prepend(items: seq<Item>, r: Items): Items {
    if r.ItemsErr? then r else Items(items + r.items, r.next)
  }

  lemma PrependOne(items: seq<Item>, it: Item, r: Items)
    ensures Prepend(items, Prepend([it], r)) == Prepend(items + [it], r)
  {
    if r.Items? { assert items + ([it] + r.items) == (items + [it]) + r.items; }
  }

  lemma TokenConsumes(s: string, pos: nat, next: nat)
    requires IsLine(s) && pos <= |s| && Sees(s, pos, "<>") && next == GetToken(s, SkipSpace(s, pos)).next
    ensures pos < next
  {
    SkipTwice(s, pos);
  }

  // Peeking at a symbol leaves a token there, so the parser moves on.
  lemma SeenConsumes(s: string, pos: nat, toks: string)
    requires IsLine(s) && pos <= |s| && Sees(s, pos, toks)
    ensures SkipSpace(s, pos) <= |s| && pos < GetToken(s, SkipSpace(s, pos)).next
  {
    SkipTwice(s, pos);
  }

  method Parseexec(s: string, ps: nat) returns (r: Result)
    requires IsLine(s) && ps <= |s|
    ensures r == ParseExec(s, ps)
    decreases |s| - ps, 2
  {
    hide SkipSpace, GetToken, ParseRedirs, ParseBlock, ParseArgs, Wrap, Sees;
    var pos, hit := Peek(s, ps, "(");
    if hit {
      r := Parseblock(s, pos);
      return;
    }
    var redirs := Parseredirs(s, pos);
    if redirs.ItemsErr? {
      return Err(redirs.msg);
    }
    var argv: seq<Span>, items := [], redirs.items;
    pos := redirs.next;
    ghost var all := ParseArgs(s, pos, 0);
    ExecStart(items, all);
    var next, stop := Peek(s, pos, "|)&;");
    while !stop
      invariant pos <= next <= |s| && |argv| < MAXARGS
      invariant next == SkipSpace(s, pos) && stop == Sees(s, pos, "|)&;")
      invariant ExecOf([], redirs.items, all) == ExecOf(argv, items, ParseArgs(s, pos, |argv|))
      decreases |s| - pos
    {
      NextArg(s, pos, |argv|);
      var tok, q, eq, next0 := Gettoken(s, next);
      if tok == NUL {
        next := next0;
        break;
      }
      if tok != 'a' {
        return Err("syntax");
      }
      if |argv| + 1 >= MAXARGS {
        return Err("too many args");
      }
      var more := Parseredirs(s, next0);
      if more.ItemsErr? {
        return Err(more.msg);
      }
      ArgConsumes(s, pos, next0);
      ghost var rest := ParseArgs(s, more.next, |argv| + 1);
      if rest.Args? {
        ExecStep(argv, items, Span(q, eq), more.items, rest);
      }
      argv, items := argv + [Span(q, eq)], items + more.items;
      pos := more.next;
      next, stop := Peek(s, pos, "|)&;");
    }
    if stop { NoMoreArgs(s, pos, |argv|); }
    ExecDone(argv, items, next);
    return Ok(Wrap(Exec(argv), items), next);
  }

  // The next argument, or why there is none.
  lemma NextArg(s: string, pos: nat, argc: nat)
    requires IsLine(s) && pos <= |s| && argc < MAXARGS && !Sees(s, pos, "|)&;") && SkipSpace(s, pos) <= |s|
    ensures var tok, a := GetToken(s, SkipSpace(s, pos)), ParseArgs(s, pos, argc);
      && (tok.kind == NUL ==> a == Args([], [], tok.next))
      && (tok.kind != NUL && tok.kind != 'a' ==> a == ArgsErr("syntax"))
      && (tok.kind == 'a' && argc + 1 >= MAXARGS ==> a == ArgsErr("too many args"))
      && (tok.kind == 'a' && argc + 1 < MAXARGS ==>
            var r := ParseRedirs(s, tok.next);
            && (r.ItemsErr? ==> a == ArgsErr(r.msg))
            && (r.Items? ==>
                  var rest := ParseArgs(s, r.next, argc + 1);
                  a == if rest.ArgsErr? then rest
                       else Args([Span(tok.q, tok.eq)] + rest.argv, r.items + rest.items, rest.next)))
  {
    hide SkipSpace, GetToken, ParseRedirs, Sees;
  }

  lemma NoMoreArgs(s: string, pos: nat, argc: nat)
    requires IsLine(s) && pos <= |s| && argc < MAXARGS && Sees(s, pos, "|)&;")
    ensures ParseArgs(s, pos, argc) == Args([], [], SkipSpace(s, pos))
  {
    hide SkipSpace, GetToken, ParseRedirs, Sees;
  }

  // What parseexec returns when it has argv and items and the scan ahead gives a.
  function ExecOf(argv: seq<Span>, items: seq<Item>, a: Args): Result {
    if a.ArgsErr? then Err(a.msg) else Ok(Wrap(Exec(argv + a.argv), items + a.items), a.next)
  }

  lemma ExecStart(items: seq<Item>, a: Args)
    ensures ExecOf([], items, a) == if a.ArgsErr? then Err(a.msg) else Ok(Wrap(Exec(a.argv), items + a.items), a.next)
  {
    if a.Args? { assert [] + a.argv == a.argv; }
  }

  lemma ExecStep(argv: seq<Span>, items: seq<Item>, sp: Span, more: seq<Item>, rest: Args)
    requires rest.Args?
    ensures ExecOf(argv, items, Args([sp] + rest.argv, more + rest.items, rest.next)) == ExecOf(argv + [sp], items + more, rest)
  {
    assert argv + ([sp] + rest.argv) == (argv + [sp]) + rest.argv;
    assert items + (more + rest.items) == (items + more) + rest.items;
  }

  lemma ExecDone(argv: seq<Span>, items: seq<Item>, next: nat)
    ensures ExecOf(argv, items, Args([], [], next)) == Ok(Wrap(Exec(argv), items), next)
  {
    assert argv + [] == argv && items + [] == items;
  }

  lemma ArgConsumes(s: string, pos: nat, next: nat)
    requires IsLine(s) && pos <= |s| && next == GetToken(s, SkipSpace(s, pos)).next
    requires GetToken(s, SkipSpace(s, pos)).kind != NUL
    ensures pos < next
  {
  }

  method Parseblock(s: string, ps: nat) returns (r: Result)
    requires IsLine(s) && ps <= |s|
    ensures r == ParseBlock(s, ps)
    decreases |s| - ps, 1
  {
    hide SkipSpace, GetToken, ParseRedirs, ParseLine, Sees;
    var pos, hit := Peek(s, ps, "(");
    if !hit {
      return Err("parseblock");
    }
    SeenConsumes(s, ps, "(");
    var tok, q, eq, next := Gettoken(s, pos);
    r := Parseline(s, next);
    if r.Err? { return; }
    var cmd := r.cmd;
    pos, hit := Peek(s, r.next, ")");
    if !hit {
      return Err("syntax - missing )");
    }
    tok, q, eq, next := Gettoken(s, pos);
    var redirs := Parseredirs(s, next);
    if redirs.ItemsErr? {
      return Err(redirs.msg);
    }
    return Ok(Wrap(cmd, redirs.items), redirs.next);
  }

  method Parsepipe(s: string, ps: nat) returns (r: Result)
    requires IsLine(s) && ps <= |s|
    ensures r == ParsePipe(s, ps)
    decreases |s| - ps, 3
  {
    hide SkipSpace, GetToken, ParseExec, Sees;
    r := Parseexec(s, ps);
    if r.Err? { return; }
    var cmd := r.cmd;
    var pos, hit := Peek(s, r.next, "|");
    if hit {
      SeenConsumes(s, r.next, "|");
      var tok, q, eq, next := Gettoken(s, pos);
      r := Parsepipe(s, next);
      if r.Err? { return; }
      return Ok(Pipe(cmd, r.cmd), r.next);
    }
    return Ok(cmd, pos);
  }

  method Parseline(s: string, ps: nat) returns (r: Result)
    requires IsLine(s) && ps <= |s|
    ensures r == ParseLine(s, ps)
    decreases |s| - ps, 4
  {
    hide SkipSpace, GetToken, ParsePipe, Sees;
    r := Parsepipe(s, ps);
    if r.Err? { return; }
    ghost var p := r;
    var cmd, pos := r.cmd, r.next;
    var next, hit := Peek(s, pos, "&");
    while hit
      invariant ps <= pos <= next <= |s|
      invariant next == SkipSpace(s, pos) && hit == Sees(s, pos, "&")
      invariant Backs(s, pos, cmd) == Backs(s, p.next, p.cmd)
      decreases |s| - pos
    {
      SeenConsumes(s, pos, "&");
      var tok, q, eq, after := Gettoken(s, next);
      cmd := Back(cmd);
      pos := after;
      next, hit := Peek(s, pos, "&");
    }
    assert Backs(s, p.next, p.cmd) == (cmd, next);
    pos := next;
    next, hit := Peek(s, pos, ";");
    if hit {
      SeenConsumes(s, pos, ";");
      var tok, q, eq, after := Gettoken(s, next);
      r := Parseline(s, after);
      if r.Err? { return; }
      return Ok(List(cmd, r.cmd), r.next);
    }
    return Ok(cmd, next);
  }

  // parsecmd on a buffer that holds a NUL-terminated line. What it returns points, through
  // the terminated buffer, at exactly the words of the line.
  method Parsecmd(buf: array<char>) returns (r: Result)
    requires exists k :: 0 <= k < buf.Length && buf[k] == NUL
    modifies buf
    ensures exists n ::
              && 0 <= n < buf.Length && old(buf[n]) == NUL && IsLine(old(buf[..n]))
              && (var s := old(buf[..n]);
                  && r == ParseCmd(s)
                  && (r.Err? ==> buf[..] == old(buf[..]))
                  && (r.Ok? ==> ReadBack(buf[..], r.cmd) == Erase(s, r.cmd)))
  {
    var n := 0;
    while buf[n] != NUL
      decreases buf.Length - n
      invariant 0 <= n < buf.Length && (exists k :: n <= k < buf.Length && buf[k] == NUL)
      invariant forall k | 0 <= k < n :: buf[k] != NUL
    {
      n := n + 1;
    }
    var s := buf[..n];
    r := Parseline(s, 0);
    if r.Err? {
      return;
    }
    var next, hit := Peek(s, r.next, "");
    if next != |s| {
      return Err("syntax");
    }
    r := Ok(r.cmd, |s|);
    assert r == ParseCmd(s);
    LineSound(s, 0);
    Terminate(buf, n, r.cmd);
    ReadsAsParsed(s, r.cmd, buf[..]);
  }

  // nulterminate on the line's buffer.
  method Terminate(buf: array<char>, n: nat, cmd: Cmd)
    requires n < buf.Length && buf[n] == NUL && IsLine(buf[..n]) && Sound(buf[..n], cmd)
    modifies buf
    ensures forall sp | sp in SpansOf(cmd) :: sp.q < sp.eq <= n && CString(buf[..], sp.q) == old(buf[..n])[sp.q..sp.eq]
  {
    hide Sound, SpansOf, EndsAt, CString;
    ghost var s := buf[..n];
    forall sp | sp in SpansOf(cmd)
      ensures sp.eq <= n
    {
      SoundSpans(s, cmd, sp);
    }
    Nulterminate(buf, cmd);
    ghost var b := buf[..n + 1];
    assert Terminated(s, cmd, b);
    forall sp | sp in SpansOf(cmd)
      ensures sp.q < sp.eq <= n && CString(buf[..], sp.q) == s[sp.q..sp.eq]
    {
      PointersReadTokens(s, cmd, b, sp);
      CStringPrefix(buf[..], n + 1, sp.q);
    }
  }

  // A string that ends before n does not depend on what lies beyond.
  lemma {:induction false} CStringPrefix(b: seq<char>, n: nat, q: nat)
    requires q < n <= |b| && b[n - 1] == NUL
    ensures CString(b, q) == CString(b[..n], q)
    decreases n - q
  {
    if b[q] != NUL { CStringPrefix(b, n, q + 1); }
  }
}
