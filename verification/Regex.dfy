/** The pattern matcher of user/grep.c. Strings are C strings without their final NUL. */
module Regex {
  // What a pattern is made of: a character or any number of copies of it; '.' is any character.
  datatype Atom = One(c: char) | Star(c: char)

  datatype Pattern = Pattern(atoms: seq<Atom>, atEnd: bool)

  predicate Fits(c: char, x: char) { c == '.' || c == x }

  // A star is seen before '$' is, so "$*" repeats dollars; a '$' anchors only at the very end.
  function Parse(re: string): Pattern {
    if re == "" then Pattern([], false)
    else if |re| > 1 && re[1] == '*' then
      var p := Parse(re[2..]);
      Pattern([Star(re[0])] + p.atoms, p.atEnd)
    else if re == "$" then Pattern([], true)
    else
      var p := Parse(re[1..]);
      Pattern([One(re[0])] + p.atoms, p.atEnd)
  }

  ghost predicate AllFit(c: char, s: string) { forall i | 0 <= i < |s| :: Fits(c, s[i]) }

  // s is in the language of the atoms: it splits into one piece for each.
  ghost predicate InLanguage(atoms: seq<Atom>, s: string) {
    if atoms == [] then s == ""
    else match atoms[0]
         case One(c) => |s| > 0 && Fits(c, s[0]) && InLanguage(atoms[1..], s[1..])
         case Star(c) => exists k :: 0 <= k <= |s| && AllFit(c, s[..k]) && InLanguage(atoms[1..], s[k..])
  }

  // Some prefix of text is in the language, the whole of it when the pattern ends in an anchor.
  ghost predicate MatchesHere(re: string, text: string) {
    exists j :: 0 <= j <= |text| && PrefixMatches(Parse(re), text, j)
  }

  ghost predicate PrefixMatches(p: Pattern, text: string, j: nat)
    requires j <= |text|
  {
    InLanguage(p.atoms, text[..j]) && (p.atEnd ==> j == |text|)
  }

  // Up to k copies of c and then re.
  ghost predicate StarThen(c: char, re: string, text: string, k: nat)
    requires k <= |text|
  {
    AllFit(c, text[..k]) && MatchesHere(re, text[k..])
  }

  lemma EmptyMatches(text: string)
    ensures MatchesHere("", text)
  {
    assert PrefixMatches(Parse(""), text, 0);
  }

  lemma DollarMatches(text: string)
    ensures MatchesHere("$", text) <==> text == ""
  {
    if text == "" { assert PrefixMatches(Parse("$"), text, 0); }
    forall j: nat | j <= |text| && PrefixMatches(Parse("$"), text, j)
      ensures text == ""
    {
    }
  }

  lemma OneMatches(re: string, text: string)
    requires re != "" && !(|re| > 1 && re[1] == '*') && re != "$"
    ensures MatchesHere(re, text) <==> text != "" && (re[0] == '.' || re[0] == text[0]) && MatchesHere(re[1..], text[1..])
  {
    var p, q := Parse(re), Parse(re[1..]);
    assert p.atoms[1..] == q.atoms;
    forall j: nat | 1 <= j <= |text|
      ensures PrefixMatches(p, text, j) <==> Fits(re[0], text[0]) && PrefixMatches(q, text[1..], j - 1)
    {
      assert text[..j][1..] == text[1..][..j - 1];
    }
    if MatchesHere(re, text) {
      var j :| 0 <= j <= |text| && PrefixMatches(p, text, j);
      assert PrefixMatches(q, text[1..], j - 1);
    }
    if text != "" && Fits(re[0], text[0]) && MatchesHere(re[1..], text[1..]) {
      var j :| 0 <= j <= |text| - 1 && PrefixMatches(q, text[1..], j);
      assert PrefixMatches(p, text, j + 1);
    }
  }

  lemma StarSplits(re: string, text: string)
    requires |re| > 1 && re[1] == '*'
    ensures MatchesHere(re, text) <==> exists k :: 0 <= k <= |text| && StarThen(re[0], re[2..], text, k)
  {
    var p, q := Parse(re), Parse(re[2..]);
    assert p.atoms[1..] == q.atoms;
    if MatchesHere(re, text) {
      var j :| 0 <= j <= |text| && PrefixMatches(p, text, j);
      var s := text[..j];
      var k :| 0 <= k <= |s| && AllFit(re[0], s[..k]) && InLanguage(q.atoms, s[k..]);
      assert s[..k] == text[..k] && s[k..] == text[k..][..j - k];
      assert PrefixMatches(q, text[k..], j - k);
      assert StarThen(re[0], re[2..], text, k);
    }
    if k :| 0 <= k <= |text| && StarThen(re[0], re[2..], text, k) {
      var j :| 0 <= j <= |text| - k && PrefixMatches(q, text[k..], j);
      var s := text[..k + j];
      assert s[..k] == text[..k] && s[k..] == text[k..][..j];
      assert PrefixMatches(p, text, k + j);
    }
  }

  // Any number of copies of the starred character, then the rest.
  lemma StarMatches(re: string, text: string)
    requires |re| > 1 && re[1] == '*'
    ensures MatchesHere(re, text) <==>
              exists k :: 0 <= k <= |text| && MatchesHere(re[2..], text[k..])
                       && forall i | 0 <= i < k :: re[0] == '.' || text[i] == re[0]
  {
    StarSplits(re, text);
    forall k | 0 <= k <= |text|
      ensures StarThen(re[0], re[2..], text, k) <==>
                MatchesHere(re[2..], text[k..]) && forall i | 0 <= i < k :: re[0] == '.' || text[i] == re[0]
    {
      assert forall i | 0 <= i < k :: text[..k][i] == text[i];
    }
  }

  // Whether some part text[i..j] is in the language: from the start when the pattern begins with '^'.
  method Match(re: string, text: string) returns (r: bool)
    ensures r <==> if re != "" && re[0] == '^' then MatchesHere(re[1..], text)
                   else exists i :: 0 <= i <= |text| && MatchesHere(re, text[i..])
  {
    if re != "" && re[0] == '^' {
      r := MatchHere(re[1..], text);
      return;
    }
    var i := 0;
    while true
      invariant 0 <= i <= |text|
      invariant forall k | 0 <= k < i :: !MatchesHere(re, text[k..])
      decreases |text| - i
    {
      var m := MatchHere(re, text[i..]);
      if m {
        return true;
      }
      if i == |text| {
        break;
      }
      i := i + 1;
    }
    r := false;
  }

  method MatchHere(re: string, text: string) returns (r: bool)
    ensures r <==> MatchesHere(re, text)
    decreases |re|, 0
  {
    if re == "" {
      EmptyMatches(text);
      return true;
    }
    if |re| > 1 && re[1] == '*' {
      StarSplits(re, text);
      r := MatchStar(re[0], re[2..], text);
      return;
    }
    if re == "$" {
      DollarMatches(text);
      return text == "";
    }
    OneMatches(re, text);
    if text != "" && (re[0] == '.' || re[0] == text[0]) {
      r := MatchHere(re[1..], text[1..]);
      return;
    }
    r := false;
  }

  method MatchStar(c: char, re: string, text: string) returns (r: bool)
    ensures r <==> exists k :: 0 <= k <= |text| && StarThen(c, re, text, k)
    decreases |re|, 1
  {
    var i := 0;
    while true
      invariant 0 <= i <= |text| && AllFit(c, text[..i])
      invariant forall k | 0 <= k < i :: !StarThen(c, re, text, k)
      decreases |text| - i
    {
      var m := MatchHere(re, text[i..]);
      if m {
        assert StarThen(c, re, text, i);
        return true;
      }
      if i == |text| {
        break;
      }
      if !(text[i] == c || c == '.') {
        TooFar(c, re, text, i);
        break;
      }
      i := i + 1;
    }
    r := false;
  }

  lemma TooFar(c: char, re: string, text: string, i: nat)
    requires i < |text| && !Fits(c, text[i])
    ensures forall k | i < k <= |text| :: !StarThen(c, re, text, k)
  {
    forall k | i < k <= |text|
      ensures !AllFit(c, text[..k])
    {
      assert text[..k][i] == text[i];
    }
  }

  // ----- the language, piece by piece -----

  ghost predicate FitsAtom(a: Atom, s: string) {
    match a
    case One(c) => |s| == 1 && Fits(c, s[0])
    case Star(c) => AllFit(c, s)
  }

  function Joined(pieces: seq<string>): string { if pieces == [] then "" else pieces[0] + Joined(pieces[1..]) }

  // The language is what the notation says: concatenations of one piece per atom.
  lemma {:induction false} LanguageIsPieces(atoms: seq<Atom>, s: string)
    ensures InLanguage(atoms, s) <==>
              exists pieces :: |pieces| == |atoms| && Joined(pieces) == s && PiecesFit(atoms, pieces)
  {
    if InLanguage(atoms, s) {
      var pieces := SplitUp(atoms, s);
    }
    forall pieces: seq<string> | |pieces| == |atoms| && Joined(pieces) == s && PiecesFit(atoms, pieces)
      ensures InLanguage(atoms, s)
    {
      PiecesAreIn(atoms, pieces);
    }
  }

  ghost predicate PiecesFit(atoms: seq<Atom>, pieces: seq<string>)
    requires |pieces| == |atoms|
  {
    forall i | 0 <= i < |atoms| :: FitsAtom(atoms[i], pieces[i])
  }

  lemma {:induction false} SplitUp(atoms: seq<Atom>, s: string) returns (pieces: seq<string>)
    requires InLanguage(atoms, s)
    ensures |pieces| == |atoms| && Joined(pieces) == s && PiecesFit(atoms, pieces)
  {
    if atoms == [] { return []; }
    var k: nat;
    match atoms[0] {
      case One(c) => k := 1;
      case Star(c) => k :| 0 <= k <= |s| && AllFit(c, s[..k]) && InLanguage(atoms[1..], s[k..]);
    }
    var rest := SplitUp(atoms[1..], s[k..]);
    pieces := [s[..k]] + rest;
    assert pieces[1..] == rest;
    forall i | 0 <= i < |atoms|
      ensures FitsAtom(atoms[i], pieces[i])
    {
      if i > 0 { assert FitsAtom(atoms[1..][i - 1], rest[i - 1]); }
    }
  }

  lemma {:induction false} PiecesAreIn(atoms: seq<Atom>, pieces: seq<string>)
    requires |pieces| == |atoms| && PiecesFit(atoms, pieces)
    ensures InLanguage(atoms, Joined(pieces))
  {
    if atoms != [] {
      forall i | 0 <= i < |atoms| - 1
        ensures FitsAtom(atoms[1..][i], pieces[1..][i])
      {
        assert FitsAtom(atoms[i + 1], pieces[i + 1]);
      }
      PiecesAreIn(atoms[1..], pieces[1..]);
      var s, k := Joined(pieces), |pieces[0]|;
      assert s[..k] == pieces[0] && s[k..] == Joined(pieces[1..]);
      assert FitsAtom(atoms[0], pieces[0]);
    }
  }
}
