/** What parsed commands point at, and nulterminate's pass over the buffer. */
module ShellTerminate {
  import opened ShellParser
  import opened ShellRoundTrip

  // Every word of c is a maximal run of word characters of s, and c could have been printed.
  predicate Sound(s: string, c: Cmd) {
    match c
    case Exec(argv) => |argv| < MAXARGS && forall m | 0 <= m < |argv| :: WordSpan(s, argv[m])
    case Redir(sub, file, mode, fd) => Sound(s, sub) && ItemOk(s, Item(file, mode, fd))
    case Pipe(l, r) => Sound(s, l) && Sound(s, r)
    case List(l, r) => Sound(s, l) && Sound(s, r)
    case Back(sub) => Sound(s, sub)
  }

  lemma {:induction false} WrapSound(s: string, c: Cmd, items: seq<Item>)
    requires Sound(s, c) && forall m | 0 <= m < |items| :: ItemOk(s, items[m])
    ensures Sound(s, Wrap(c, items))
    decreases |items|
  {
    if items != [] {
      WrapSound(s, Redir(c, items[0].file, items[0].mode, items[0].fd), items[1..]);
    }
  }

  lemma {:induction false} BacksSound(s: string, i: nat, c: Cmd)
    requires IsLine(s) && i <= |s| && Sound(s, c)
    ensures Sound(s, Backs(s, i, c).0)
    decreases |s| - i
  {
    var j := SkipSpace(s, i);
    if Sees(s, i, "&") {
      BacksSound(s, GetToken(s, j).next, Back(c));
    }
  }

  lemma {:induction false} ExecSound(s: string, i: nat)
    requires IsLine(s) && i <= |s| && ParseExec(s, i).Ok?
    ensures Sound(s, ParseExec(s, i).cmd)
    decreases |s| - i, 2
  {
    var j := SkipSpace(s, i);
    if Sees(s, i, "(") {
      BlockSound(s, j);
    } else {
      var r := ParseRedirs(s, j);
      var a := ParseArgs(s, r.next, 0);
      WrapSound(s, Exec(a.argv), r.items + a.items);
    }
  }

  lemma {:induction false} BlockSound(s: string, i: nat)
    requires IsLine(s) && i <= |s| && ParseBlock(s, i).Ok?
    ensures Sound(s, ParseBlock(s, i).cmd)
    decreases |s| - i, 1
  {
    var open := GetToken(s, SkipSpace(s, i));
    LineSound(s, open.next);
    var c := ParseLine(s, open.next);
    var close := GetToken(s, SkipSpace(s, c.next));
    WrapSound(s, c.cmd, ParseRedirs(s, close.next).items);
  }

  lemma {:induction false} PipeSound(s: string, i: nat)
    requires IsLine(s) && i <= |s| && ParsePipe(s, i).Ok?
    ensures Sound(s, ParsePipe(s, i).cmd)
    decreases |s| - i, 3
  {
    ExecSound(s, i);
    var c := ParseExec(s, i);
    if Sees(s, c.next, "|") {
      PipeSound(s, GetToken(s, SkipSpace(s, c.next)).next);
    }
  }

  lemma {:induction false} LineSound(s: string, i: nat)
    requires IsLine(s) && i <= |s| && ParseLine(s, i).Ok?
    ensures Sound(s, ParseLine(s, i).cmd)
    decreases |s| - i, 4
  {
    PipeSound(s, i);
    var p := ParsePipe(s, i);
    BacksSound(s, p.next, p.cmd);
    var (c, j) := Backs(s, p.next, p.cmd);
    if Sees(s, j, ";") {
      LineSound(s, GetToken(s, SkipSpace(s, j)).next);
    }
  }

  lemma {:induction false} SoundIsLegal(s: string, c: Cmd)
    requires IsLine(s) && Sound(s, c)
    ensures Legal(Erase(s, c))
  {
    match c
    case Exec(argv) =>
    case Redir(sub, file, mode, fd) => SoundIsLegal(s, sub);
    case Pipe(l, r) => SoundIsLegal(s, l); SoundIsLegal(s, r);
    case List(l, r) => SoundIsLegal(s, l); SoundIsLegal(s, r);
    case Back(sub) => SoundIsLegal(s, sub);
  }

  // Whatever parses, its printing parses to the same tree.
  lemma PrintingIsNormal(s: string)
    requires IsLine(s) && ParseCmd(s).Ok?
    ensures var t := Erase(s, ParseCmd(s).cmd);
      IsLine(Print(t)) && ParseCmd(Print(t)).Ok? && Erase(Print(t), ParseCmd(Print(t)).cmd) == t
  {
    LineSound(s, 0);
    var t := Erase(s, ParseCmd(s).cmd);
    SoundIsLegal(s, ParseCmd(s).cmd);
    RoundTrip(t);
  }

  // ----- nulterminate -----

  // The spans that argv and file pointers stand for.
  function SpansOf(c: Cmd): set<Span> {
    match c
    case Exec(argv) => set m | 0 <= m < |argv| :: argv[m]
    case Redir(sub, file, _, _) => SpansOf(sub) + {file}
    case Pipe(l, r) => SpansOf(l) + SpansOf(r)
    case List(l, r) => SpansOf(l) + SpansOf(r)
    case Back(sub) => SpansOf(sub)
  }

  predicate EndsAt(c: Cmd, k: nat) { exists sp :: sp in SpansOf(c) && sp.eq == k }

  // The C string at position q of a buffer.
  function CString(b: seq<char>, q: nat): string
    requires q <= |b|
    decreases |b| - q
  {
    if q == |b| || b[q] == NUL then "" else [b[q]] + CString(b, q + 1)
  }

  lemma {:induction false} CStringIs(b: seq<char>, q: nat, eq: nat)
    requires q <= eq < |b| && b[eq] == NUL && forall k | q <= k < eq :: b[k] != NUL
    ensures CString(b, q) == b[q..eq]
    decreases eq - q
  {
    if q < eq { CStringIs(b, q + 1, eq); }
  }

  // b is the line in its buffer after a NUL was written at the end of every word of c.
  ghost predicate Terminated(s: string, c: Cmd, b: seq<char>) {
    |b| == |s| + 1 && forall k | 0 <= k < |b| :: b[k] == if EndsAt(c, k) then NUL else At(s, k)
  }

  lemma {:induction false} SoundSpans(s: string, c: Cmd, sp: Span)
    requires Sound(s, c) && sp in SpansOf(c)
    ensures WordSpan(s, sp)
  {
    match c
    case Exec(argv) =>
    case Redir(sub, file, _, _) => if sp != file { SoundSpans(s, sub, sp); }
    case Pipe(l, r) => if sp in SpansOf(l) { SoundSpans(s, l, sp); } else { SoundSpans(s, r, sp); }
    case List(l, r) => if sp in SpansOf(l) { SoundSpans(s, l, sp); } else { SoundSpans(s, r, sp); }
    case Back(sub) => SoundSpans(s, sub, sp);
  }

  lemma EndsOnDelimiter(s: string, c: Cmd, k: nat)
    requires Sound(s, c) && EndsAt(c, k)
    ensures k <= |s| && !IsWordChar(At(s, k))
  {
    var sp :| sp in SpansOf(c) && sp.eq == k;
    SoundSpans(s, c, sp);
  }

  // Each NUL lands on a delimiter, so every pointer reads as exactly its source token.
  lemma PointersReadTokens(s: string, c: Cmd, b: seq<char>, sp: Span)
    requires IsLine(s) && Sound(s, c) && Terminated(s, c, b) && sp in SpansOf(c)
    ensures sp.q < sp.eq <= |s| && CString(b, sp.q) == s[sp.q..sp.eq]
  {
    SoundSpans(s, c, sp);
    forall k | sp.q <= k < sp.eq
      ensures b[k] == s[k] != NUL
    {
      if EndsAt(c, k) { EndsOnDelimiter(s, c, k); }
    }
    CStringIs(b, sp.q, sp.eq);
  }

  // The command as it is run from the buffer: each pointer is read as a C string.
  function ReadBack(b: seq<char>, c: Cmd): Tree {
    match c
    case Exec(argv) => TExec(seq(|argv|, m requires 0 <= m < |argv| => if argv[m].q <= |b| then CString(b, argv[m].q) else ""))
    case Redir(sub, file, mode, fd) => TRedir(ReadBack(b, sub), if file.q <= |b| then CString(b, file.q) else "", mode, fd)
    case Pipe(l, r) => TPipe(ReadBack(b, l), ReadBack(b, r))
    case List(l, r) => TList(ReadBack(b, l), ReadBack(b, r))
    case Back(sub) => TBack(ReadBack(b, sub))
  }

  // With every pointer reading as its word, it is the tree that was parsed.
  lemma {:induction false} ReadsAsParsed(s: string, c: Cmd, b: seq<char>)
    requires |s| < |b|
    requires forall sp | sp in SpansOf(c) :: sp.q < sp.eq <= |s| && CString(b, sp.q) == s[sp.q..sp.eq]
    ensures ReadBack(b, c) == Erase(s, c)
  {
    match c
    case Exec(argv) =>
      forall m | 0 <= m < |argv|
        ensures argv[m].q <= |b| && CString(b, argv[m].q) == Word(s, argv[m])
      {
        assert argv[m] in SpansOf(c);
      }
    case Redir(sub, file, _, _) =>
      assert file in SpansOf(c);
      ReadsAsParsed(s, sub, b);
    case Pipe(l, r) => ReadsAsParsed(s, l, b); ReadsAsParsed(s, r, b);
    case List(l, r) => ReadsAsParsed(s, l, b); ReadsAsParsed(s, r, b);
    case Back(sub) => ReadsAsParsed(s, sub, b);
  }

  method Nulterminate(buf: array<char>, c: Cmd)
    requires forall sp | sp in SpansOf(c) :: sp.eq < buf.Length
    modifies buf
    ensures forall k | 0 <= k < buf.Length :: buf[k] == if EndsAt(c, k) then NUL else old(buf[k])
    decreases c
  {
    match c
    case Exec(argv) =>
      var i := 0;
      while i < |argv|
        invariant i <= |argv|
        invariant forall k | 0 <= k < buf.Length ::
          buf[k] == if exists m :: 0 <= m < i && argv[m].eq == k then NUL else old(buf[k])
      {
        assert argv[i] in SpansOf(c);
        buf[argv[i].eq] := NUL;
        i := i + 1;
      }
      ExecEnds(argv);
    case Redir(sub, file, _, _) =>
      Nulterminate(buf, sub);
      assert file in SpansOf(c);
      buf[file.eq] := NUL;
      forall k ensures EndsAt(c, k) <==> EndsAt(sub, k) || k == file.eq { EndsRedir(c, k); }
    case Pipe(l, r) =>
      Nulterminate(buf, l);
      Nulterminate(buf, r);
      forall k ensures EndsAt(c, k) <==> EndsAt(l, k) || EndsAt(r, k) { EndsPair(c, l, r, k); }
    case List(l, r) =>
      Nulterminate(buf, l);
      Nulterminate(buf, r);
      forall k ensures EndsAt(c, k) <==> EndsAt(l, k) || EndsAt(r, k) { EndsPair(c, l, r, k); }
    case Back(sub) =>
      Nulterminate(buf, sub);
      assert SpansOf(c) == SpansOf(sub);
  }

  lemma ExecEnds(argv: seq<Span>)
    ensures forall k :: EndsAt(Exec(argv), k) <==> exists m :: 0 <= m < |argv| && argv[m].eq == k
  {
    forall k
      ensures EndsAt(Exec(argv), k) <==> exists m :: 0 <= m < |argv| && argv[m].eq == k
    {
      if exists m :: 0 <= m < |argv| && argv[m].eq == k {
        var m :| 0 <= m < |argv| && argv[m].eq == k;
        assert argv[m] in SpansOf(Exec(argv));
      }
    }
  }

  lemma EndsRedir(c: Cmd, k: nat)
    requires c.Redir?
    ensures EndsAt(c, k) <==> EndsAt(c.cmd, k) || k == c.file.eq
  {
    assert c.file in SpansOf(c);
    assert SpansOf(c.cmd) <= SpansOf(c);
  }

  lemma EndsPair(c: Cmd, l: Cmd, r: Cmd, k: nat)
    requires SpansOf(c) == SpansOf(l) + SpansOf(r)
    ensures EndsAt(c, k) <==> EndsAt(l, k) || EndsAt(r, k)
  {
    assert SpansOf(l) <= SpansOf(c) && SpansOf(r) <= SpansOf(c);
  }
}
