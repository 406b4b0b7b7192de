/** Path names: skipelem of kernel/fs.c, and what a path leads to in the tree of inodes. */
module Paths {
  import opened DiskCodec
  import opened Directory
  import opened LinkTree

  const SLASH: byte := 47

  datatype Option<T> = None | Some(value: T)

  // ----- path elements -----

  // The length of the run of non-slash bytes that a path starts with.
  function ElementLength(path: seq<byte>): (n: nat)
    ensures n <= |path| && (n < |path| ==> path[n] == SLASH)
    ensures forall k | 0 <= k < n :: path[k] != SLASH
  {
    if path == [] || path[0] == SLASH then 0 else 1 + ElementLength(path[1..])
  }

  function Cut(name: seq<byte>): (c: seq<byte>)
    ensures c == if |name| < 14 then name else name[..14]
  {
    if |name| >= DIRSIZ then name[..DIRSIZ] else name
  }

  // The non-empty pieces between slashes, each cut to DIRSIZ bytes.
  function Elements(path: seq<byte>): seq<seq<byte>>
    decreases |path|
  {
    if path == [] then []
    else if path[0] == SLASH then Elements(path[1..])
    else
      var n := ElementLength(path);
      assert n > 0;
      [Cut(path[..n])] + Elements(path[n..])
  }

  lemma {:induction false} SlashesDropOut(path: seq<byte>, n: nat)
    requires n <= |path| && forall k | 0 <= k < n :: path[k] == SLASH
    ensures Elements(path[n..]) == Elements(path)
  {
    if n > 0 {
      SlashesDropOut(path[1..], n - 1);
      assert path[1..][n - 1..] == path[n..];
    } else {
      assert path[0..] == path;
    }
  }

  lemma {:induction false} LengthIs(path: seq<byte>, n: nat)
    requires n <= |path| && (n < |path| ==> path[n] == SLASH) && forall k | 0 <= k < n :: path[k] != SLASH
    ensures ElementLength(path) == n
  {
    if n > 0 { LengthIs(path[1..], n - 1); }
  }

  // A path starting with an element, then slashes, then rest.
  lemma FirstElement(path: seq<byte>, len: nat, rest: seq<byte>)
    requires 0 < len <= |path| && (forall k | 0 <= k < len :: path[k] != SLASH) && (len < |path| ==> path[len] == SLASH)
    requires |rest| <= |path| - len && rest == path[|path| - |rest|..]
    requires forall k | len <= k < |path| - |rest| :: path[k] == SLASH
    ensures Elements(path) == [Cut(path[..len])] + Elements(rest)
  {
    LengthIs(path, len);
    var tail := path[len..];
    var n := |tail| - |rest|;
    assert tail[n..] == rest;
    SlashesDropOut(tail, n);
  }

  lemma NoSlashNoEmpty(rest: seq<byte>)
    requires rest != [] ==> rest[0] != SLASH
    ensures rest == [] <==> Elements(rest) == []
  {
  }

  // The first element and the rest of the path without leading slashes; None when there is
  // no element.
  method Skipelem(path: seq<byte>) returns (r: Option<(seq<byte>, seq<byte>)>)
    ensures r == None <==> Elements(path) == []
    ensures r.Some? ==> Elements(path) == [r.value.1] + Elements(r.value.0) && |r.value.0| < |path|
    ensures r.Some? ==> (r.value.0 == [] <==> Elements(r.value.0) == [])
  {
    hide Elements, ElementLength;
    var i := 0;
    while i < |path| && path[i] == SLASH
      invariant i <= |path| && forall k | 0 <= k < i :: path[k] == SLASH
    {
      i := i + 1;
    }
    SlashesDropOut(path, i);
    NoSlashNoEmpty(path[i..]);
    if i == |path| {
      return None;
    }
    var s := i;
    ghost var p := path[s..];
    while i < |path| && path[i] != SLASH
      invariant s <= i <= |path| && forall k | 0 <= k < i - s :: p[k] != SLASH
    {
      i := i + 1;
    }
    var len := i - s;
    var name := if len >= DIRSIZ then path[s..s + DIRSIZ] else path[s..s + len];
    assert name == Cut(p[..len]);
    while i < |path| && path[i] == SLASH
      invariant s + len <= i <= |path| && forall k | len <= k < i - s :: p[k] == SLASH
    {
      i := i + 1;
    }
    FirstElement(p, len, path[i..]);
    NoSlashNoEmpty(path[i..]);
    return Some((path[i..], name));
  }

  // ----- resolution -----

  // The inode that the elements lead to from d.
  function Walk(t: Tree, d: nat, elems: seq<seq<byte>>): Option<nat>
    decreases |elems|
  {
    if d !in t then None
    else if elems == [] then Some(d)
    else if t[d].typ != T_DIR then None
    else
      var k := Lookup(t, d, elems[0]);
      if k == |t[d].ents| then None else Walk(t, t[d].ents[k].inum, elems[1..])
  }

  // The directory that holds, or would hold, the last element.
  function WalkParent(t: Tree, d: nat, elems: seq<seq<byte>>): Option<(nat, seq<byte>)>
    decreases |elems|
  {
    if d !in t || elems == [] || t[d].typ != T_DIR then None
    else if |elems| == 1 then Some((d, elems[0]))
    else
      var k := Lookup(t, d, elems[0]);
      if k == |t[d].ents| then None else WalkParent(t, t[d].ents[k].inum, elems[1..])
  }

  function Start(cwd: nat, path: seq<byte>): nat {
    if path != [] && path[0] == SLASH then ROOTINO else cwd
  }

  function Namei(t: Tree, cwd: nat, path: seq<byte>): Option<nat> {
    Walk(t, Start(cwd, path), Elements(path))
  }

  function NameiParent(t: Tree, cwd: nat, path: seq<byte>): Option<(nat, seq<byte>)> {
    WalkParent(t, Start(cwd, path), Elements(path))
  }

  // Resolution reads entries and types, not link counts.
  lemma {:induction false} WalkIgnoresCounts(t: Tree, i: nat, x: int, d: nat, elems: seq<seq<byte>>)
    requires i in t
    ensures Walk(AddLink(t, i, x), d, elems) == Walk(t, d, elems)
    ensures WalkParent(AddLink(t, i, x), d, elems) == WalkParent(t, d, elems)
    decreases |elems|
  {
    if d in t && elems != [] && t[d].typ == T_DIR {
      var k := Lookup(t, d, elems[0]);
      if k < |t[d].ents| {
        WalkIgnoresCounts(t, i, x, t[d].ents[k].inum, elems[1..]);
      }
    }
  }

  lemma {:induction false} WalkStaysInside(t: Tree, d: nat, elems: seq<seq<byte>>)
    ensures Walk(t, d, elems).Some? ==> Walk(t, d, elems).value in t
    ensures WalkParent(t, d, elems).Some? ==> IsDir(t, WalkParent(t, d, elems).value.0)
    decreases |elems|
  {
    if d in t && elems != [] && t[d].typ == T_DIR {
      var k := Lookup(t, d, elems[0]);
      if k < |t[d].ents| {
        WalkStaysInside(t, t[d].ents[k].inum, elems[1..]);
      }
    }
  }
}
