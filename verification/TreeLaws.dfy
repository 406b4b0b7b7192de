/** What create, link, unlink and path resolution mean to a caller, in terms of the entries of
    directories alone: which call fails, what a successful one changes, where a path leads then. */
module TreeLaws {
  import opened DiskCodec
  import opened Directory
  import opened LinkTree
  import opened LinkTreeProofs
  import opened Paths
  import opened Sysfile

  // Directory d has an entry for inode i under that name.
  ghost predicate Named(t: Tree, d: nat, name: seq<byte>, i: nat) {
    d in t && i != 0 && Dirent(i, name) in t[d].ents
  }

  // No entry of d can be reused and none added.
  ghost predicate Full(t: Tree, d: nat) {
    d in t && |t[d].ents| == 4480 && forall e | e in t[d].ents :: e.inum != 0
  }

  // ----- looking up -----

  lemma LookupFinds(t: Tree, d: nat, name: seq<byte>)
    requires d in t
    ensures var k := Lookup(t, d, name);
      && (k < |t[d].ents| <==> exists i :: Named(t, d, NameOf(name), i))
      && (k < |t[d].ents| ==> Named(t, d, NameOf(name), t[d].ents[k].inum))
  {
    hide Clip;
    var k := Lookup(t, d, name);
    if k < |t[d].ents| {
      assert t[d].ents[k] == Dirent(t[d].ents[k].inum, NameOf(name));
      assert Named(t, d, NameOf(name), t[d].ents[k].inum);
    }
    if i :| Named(t, d, NameOf(name), i) {
      var m :| 0 <= m < |t[d].ents| && t[d].ents[m] == Dirent(i, NameOf(name));
      assert Names(t[d].ents[m], name) && k == Find(t[d].ents, name);
      assert m >= k && k < |t[d].ents|;
    }
  }

  // In a good tree a name leads to one inode.
  lemma NamedOnceOnly(t: Tree, d: nat, name: seq<byte>, i: nat, j: nat)
    requires Good(t) && Named(t, d, name, i) && Named(t, d, name, j)
    ensures i == j && i in t && IsDir(t, d)
  {
    hide NamedOnce, Ranked, Counted;
    var depth :| Inv(t, depth);
    if t[d].typ == T_DIR { assert DirOk(t, d); }
  }

  lemma FullIs(t: Tree, d: nat)
    requires Good(t) && IsDir(t, d)
    ensures RoomFor(t, d) == MAXENTRIES <==> Full(t, d)
    ensures RoomFor(t, d) <= MAXENTRIES
  {
    hide NamedOnce, Ranked, Counted;
    var depth :| Inv(t, depth);
    assert DirOk(t, d);
    var k := RoomFor(t, d);
    if k < |t[d].ents| { assert t[d].ents[k] in t[d].ents; }
  }

  // ----- the entries afterwards -----

  lemma PlacedNamed(ents: seq<Dirent>, k: nat, e: Dirent)
    requires k <= |ents| && (k < |ents| ==> ents[k].inum == 0) && e.inum != 0
    ensures forall x: Dirent | x.inum != 0 :: x in Place(ents, k, e) <==> x in ents || x == e
  {
    var r := Place(ents, k, e);
    forall x: Dirent | x.inum != 0
      ensures x in r <==> x in ents || x == e
    {
      if x in ents {
        var m :| 0 <= m < |ents| && ents[m] == x;
        assert r[m] == x;
      }
      assert r[k] == e;
    }
  }

  lemma ClearedNamed(t: Tree, d: nat, k: nat)
    requires Good(t) && IsDir(t, d) && k < |t[d].ents| && t[d].ents[k].inum != 0
    ensures forall x: Dirent | x.inum != 0 ::
              x in Place(t[d].ents, k, UNUSED) <==> x in t[d].ents && x != t[d].ents[k]
  {
    hide NamedOnce, Ranked, Counted;
    var depth :| Inv(t, depth);
    assert DirOk(t, d);
    var ents, r := t[d].ents, Place(t[d].ents, k, UNUSED);
    forall x: Dirent | x.inum != 0
      ensures x in r <==> x in ents && x != ents[k]
    {
      if x in ents && x != ents[k] {
        var m :| 0 <= m < |ents| && ents[m] == x;
        assert r[m] == x;
      }
      if x in r {
        var m :| 0 <= m < |r| && r[m] == x;
        assert m != k && ents[m] == x;
      }
    }
  }

  // t' is t with one more entry in dp.
  ghost predicate EntryAdded(t: Tree, t': Tree, dp: nat, name: seq<byte>, ip: nat) {
    && dp in t && dp in t' && ip != 0
    && forall i: nat, m | i != 0 :: Named(t', dp, m, i) <==> Named(t, dp, m, i) || (i == ip && m == name)
  }

  ghost predicate EntryRemoved(t: Tree, t': Tree, dp: nat, name: seq<byte>, ip: nat) {
    && dp in t && dp in t' && Named(t, dp, name, ip)
    && forall i: nat, m | i != 0 :: Named(t', dp, m, i) <==> Named(t, dp, m, i) && !(i == ip && m == name)
  }

  // ----- create -----

  lemma CreateExisting(t: Tree, ninodes: nat, dp: nat, name: seq<byte>, typ: short, dev: Dev, i: nat)
    requires Good(t) && IsDir(t, dp) && Closed(t) && Named(t, dp, NameOf(name), i)
    ensures Create(t, ninodes, dp, name, typ, dev) == (t, if typ == 2 && i in t && t[i].typ == 2 then Done(i) else Error)
  {
    hide Find, FreeEntryOf, Clip;
    LookupFinds(t, dp, name);
    NamedOnceOnly(t, dp, NameOf(name), i, t[dp].ents[Lookup(t, dp, name)].inum);
  }

  // A name that is new: the least free inode number with a fresh node, and one more entry.
  lemma CreateNew(t: Tree, ninodes: nat, dp: nat, name: seq<byte>, typ: short, dev: Dev)
    requires Good(t) && IsDir(t, dp) && Closed(t) && forall i :: !Named(t, dp, NameOf(name), i)
    ensures var (t', o) := Create(t, ninodes, dp, name, typ, dev);
      && (o == Panic <==> Full(t, dp) || forall m | 1 <= m < ninodes :: m in t)
      && (o == Panic ==> t' == t)
      && (o != Panic ==>
            && o.Done? && 1 <= o.inum < ninodes && o.inum !in t && (forall m | 1 <= m < o.inum :: m in t)
            && t'.Keys == t.Keys + {o.inum} && EntryAdded(t, t', dp, NameOf(name), o.inum)
            && t'[o.inum] == Node(typ, 1, if typ == 1 then [Dirent(o.inum, [46]), Dirent(dp, [46, 46])] else [], dev, [])
            && t'[dp] == t[dp].(ents := t'[dp].ents, nlink := if typ == 1 then ToShort(t[dp].nlink + 1) else t[dp].nlink)
            && forall i | i in t && i != dp :: t'[i] == t[i])
  {
    hide Find, FreeEntryOf, Clip, Inv;
    LookupFinds(t, dp, name);
    FullIs(t, dp);
    var ip := FreeInum(t, ninodes, 1);
    if ip < ninodes && RoomFor(t, dp) < MAXENTRIES {
      PlacedNamed(t[dp].ents, RoomFor(t, dp), Dirent(ip, NameOf(name)));
      var t' := Create(t, ninodes, dp, name, typ, dev).0;
      forall i: nat, m | i != 0
        ensures Named(t', dp, m, i) <==> Named(t, dp, m, i) || (i == ip && m == NameOf(name))
      {
        assert Dirent(i, m) in t'[dp].ents <==> Dirent(i, m) in t[dp].ents || Dirent(i, m) == Dirent(ip, NameOf(name));
      }
    }
  }

  // ----- link -----

  lemma LinkLaw(t: Tree, ip: nat, dp: nat, name: seq<byte>)
    requires Good(t) && IsDir(t, dp) && ip in t
    ensures var (t', o) := Link(t, ip, dp, name);
      && (o == Error <==> t[ip].typ == 1 || exists i :: Named(t, dp, NameOf(name), i))
      && (o == Panic <==> o != Error && Full(t, dp))
      && (!o.Done? ==> t' == t)
      && (o.Done? ==>
            && o.inum == ip && t'.Keys == t.Keys && EntryAdded(t, t', dp, NameOf(name), ip)
            && t'[ip] == t[ip].(nlink := ToShort(t[ip].nlink + 1)) && t'[dp] == t[dp].(ents := t'[dp].ents)
            && forall i | i in t && i != dp && i != ip :: t'[i] == t[i])
  {
    hide Find, FreeEntryOf, Clip, Inv;
    LookupFinds(t, dp, name);
    FullIs(t, dp);
    GoodNode(t, ip);
    var (t', o) := Link(t, ip, dp, name);
    if o.Done? {
      PlacedNamed(t[dp].ents, RoomFor(t, dp), Dirent(ip, NameOf(name)));
      forall i: nat, m | i != 0
        ensures Named(t', dp, m, i) <==> Named(t, dp, m, i) || (i == ip && m == NameOf(name))
      {
        assert Dirent(i, m) in t'[dp].ents <==> Dirent(i, m) in t[dp].ents || Dirent(i, m) == Dirent(ip, NameOf(name));
      }
    }
  }

  // ----- unlink -----

  // A directory with an entry in use behind the first two.
  ghost predicate Occupied(t: Tree, d: nat) {
    d in t && exists k :: 2 <= k < |t[d].ents| && t[d].ents[k].inum != 0
  }

  // The name is refused if it is "." or "..", or is not there, or is that of a directory in use;
  // every other name goes.
  lemma UnlinkAnswer(t: Tree, dp: nat, name: seq<byte>)
    requires Good(t) && IsDir(t, dp) && Closed(t)
    ensures var (t', o) := Unlink(t, dp, name);
      && (o == Error <==>
            || NameOf(name) == [46] || NameOf(name) == [46, 46] || (forall i :: !Named(t, dp, NameOf(name), i))
            || exists i :: Named(t, dp, NameOf(name), i) && i in t && t[i].typ == 1 && Occupied(t, i))
      && (o != Error ==> o.Done? && Named(t, dp, NameOf(name), o.inum) && o.inum in t)
      && (o == Error ==> t' == t)
  {
    hide Find, FreeEntryOf, Clip, Inv, Refs;
    LookupFinds(t, dp, name);
    GoodUnlink(t, dp, name);
    var k := Lookup(t, dp, name);
    if k < |t[dp].ents| {
      var ip := t[dp].ents[k].inum;
      forall i | Named(t, dp, NameOf(name), i)
        ensures i == ip
      {
        NamedOnceOnly(t, dp, NameOf(name), i, ip);
      }
      assert t[ip].typ == 1 ==> (DirEmpty(t[ip].ents) <==> !Occupied(t, ip));
    }
  }

  ghost predicate NameGone(t: Tree, t': Tree, dp: nat, name: seq<byte>, ip: nat) {
    && ip in t && ip != dp && EntryRemoved(t, t', dp, name, ip)
    && t'.Keys == (if t[ip].nlink == 1 then t.Keys - {ip} else t.Keys)
    && (ip in t' ==> t'[ip] == t[ip].(nlink := t'[ip].nlink) && t'[ip].nlink == t[ip].nlink - 1)
    && t'[dp] == t[dp].(ents := t'[dp].ents, nlink := t'[dp].nlink)
    && t'[dp].nlink == t[dp].nlink - (if t[ip].typ == 1 then 1 else 0)
    && forall i | i in t && i != dp && i != ip :: t'[i] == t[i]
  }

  // What goes is that entry, a link of its inode and, with the last link, the inode.
  lemma UnlinkEffect(t: Tree, dp: nat, name: seq<byte>)
    requires Good(t) && IsDir(t, dp) && Closed(t) && Unlink(t, dp, name).1.Done?
    ensures NameGone(t, Unlink(t, dp, name).0, dp, NameOf(name), Unlink(t, dp, name).1.inum)
  {
    hide Find, FreeEntryOf, Clip, Inv, Refs;
    LookupFinds(t, dp, name);
    GoodUnlink(t, dp, name);
    var k := Lookup(t, dp, name);
    var (t', o) := Unlink(t, dp, name);
    GoodNode(t, o.inum);
    GoodNode(t, dp);
    ClearedNamed(t, dp, k);
    assert t'[dp].ents == Place(t[dp].ents, k, UNUSED);
    forall i: nat, m | i != 0
      ensures Named(t', dp, m, i) <==> Named(t, dp, m, i) && !(i == o.inum && m == NameOf(name))
    {
      assert Dirent(i, m) in t'[dp].ents <==> Dirent(i, m) in t[dp].ents && Dirent(i, m) != t[dp].ents[k];
    }
  }

  lemma OccupiedIs(t: Tree, d: nat)
    requires Good(t) && IsDir(t, d)
    ensures Occupied(t, d) <==> exists m, i :: Named(t, d, m, i) && m != [46] && m != [46, 46]
  {
    hide NamedOnce, Ranked, Counted;
    var depth :| Inv(t, depth);
    assert DirOk(t, d);
    var ents := t[d].ents;
    if k: nat :| 2 <= k < |ents| && ents[k].inum != 0 {
      assert ents[k] == Dirent(ents[k].inum, ents[k].name);
      assert Named(t, d, ents[k].name, ents[k].inum);
      assert ents[0].name != ents[k].name && ents[1].name != ents[k].name;
    }
    if m, i :| Named(t, d, m, i) && m != [46] && m != [46, 46] {
      var k: nat :| k < |ents| && ents[k] == Dirent(i, m);
      assert k >= 2;
    }
  }

  // A new file that is unlinked again leaves the directory as it was, so that it can go if it could
  // before.
  lemma CreateUndone(t: Tree, ninodes: nat, dp: nat, name: seq<byte>, typ: short, dev: Dev)
    requires Good(t) && IsDir(t, dp) && Closed(t) && typ != 1 && forall i :: !Named(t, dp, NameOf(name), i)
    requires NameOf(name) != [46] && NameOf(name) != [46, 46] && Create(t, ninodes, dp, name, typ, dev).1.Done?
    ensures var t1 := Create(t, ninodes, dp, name, typ, dev).0;
      Good(t1) && Closed(t1) && Unlink(t1, dp, name).1.Done? && SameTree(t, Unlink(t1, dp, name).0, dp)
  {
    hide Find, FreeEntryOf, Clip, Inv, Create, Unlink;
    var depth :| Inv(t, depth);
    CreateKeepsGood(t, depth, ninodes, dp, name, typ, dev);
    CreateNew(t, ninodes, dp, name, typ, dev);
    var (t1, o) := Create(t, ninodes, dp, name, typ, dev);
    GoodIsClosed(t1);
    UnlinkAnswer(t1, dp, name);
    assert Named(t1, dp, NameOf(name), o.inum);
    forall i: nat | Named(t1, dp, NameOf(name), i)
      ensures i == o.inum
    {
    }
    UnlinkEffect(t1, dp, name);
    var t2 := Unlink(t1, dp, name).0;
    GoodNode(t1, dp);
    UnlinkStaysGood(t1, dp, name);
    OccupiedIs(t, dp);
    OccupiedIs(t2, dp);
    assert t2.Keys == t.Keys;
  }

  // The same tree, apart from where the entries of dp stand.
  ghost predicate SameTree(t: Tree, t': Tree, dp: nat) {
    && t'.Keys == t.Keys && dp in t && t'[dp] == t[dp].(ents := t'[dp].ents)
    && (forall i | i in t && i != dp :: t'[i] == t[i])
    && (forall m, i :: Named(t', dp, m, i) <==> Named(t, dp, m, i))
    && (Occupied(t', dp) <==> Occupied(t, dp))
  }

  // ----- the calls by path -----

  lemma ByPath(t: Tree, ninodes: nat, cwd: nat, path: seq<byte>, typ: short, dev: Dev)
    requires Closed(t)
    ensures var p := NameiParent(t, cwd, path);
      && (p == None ==> Step(t, ninodes, OpCreate(cwd, path, typ, dev)) == Step(t, ninodes, OpUnlink(cwd, path)) == (t, Error))
      && (p.Some? ==> IsDir(t, p.value.0))
      && (p.Some? ==> Step(t, ninodes, OpCreate(cwd, path, typ, dev)) == Create(t, ninodes, p.value.0, p.value.1, typ, dev))
      && (p.Some? ==> Step(t, ninodes, OpUnlink(cwd, path)) == Unlink(t, p.value.0, p.value.1))
  {
    ParentIsDir(t, cwd, path);
  }

  lemma LinkByPath(t: Tree, ninodes: nat, cwd: nat, old_: seq<byte>, new_: seq<byte>)
    requires Closed(t)
    ensures var (ip, p) := (Namei(t, cwd, old_), NameiParent(t, cwd, new_));
      && (ip == None || p == None ==> Step(t, ninodes, OpLink(cwd, old_, new_)) == (t, Error))
      && (ip.Some? ==> ip.value in t) && (p.Some? ==> IsDir(t, p.value.0))
      && (ip.Some? && p.Some? ==> Step(t, ninodes, OpLink(cwd, old_, new_)) == Link(t, ip.value, p.value.0, p.value.1))
  {
    NameiIsNode(t, cwd, old_);
    ParentIsDir(t, cwd, new_);
  }

  // ----- paths -----

  lemma {:induction false} ElementsJoin(q: seq<byte>, p: seq<byte>)
    ensures Elements(q + [47] + p) == Elements(q) + Elements(p)
    decreases |q|
  {
    var whole := q + [47] + p;
    if q == [] {
      assert whole[1..] == p;
    } else if q[0] == SLASH {
      assert whole[1..] == q[1..] + [47] + p;
      ElementsJoin(q[1..], p);
    } else {
      var n := ElementLength(q);
      LengthIs(whole, n);
      assert whole[..n] == q[..n];
      assert whole[n..] == q[n..] + [47] + p;
      ElementsJoin(q[n..], p);
    }
  }

  lemma {:induction false} WalkJoin(t: Tree, d: nat, xs: seq<seq<byte>>, ys: seq<seq<byte>>)
    ensures Walk(t, d, xs + ys) == match Walk(t, d, xs) case None => None case Some(e) => Walk(t, e, ys)
    decreases |xs|
  {
    if xs == [] {
      assert xs + ys == ys;
    } else if d in t && t[d].typ == T_DIR {
      assert (xs + ys)[1..] == xs[1..] + ys;
      var k := Lookup(t, d, xs[0]);
      if k < |t[d].ents| { WalkJoin(t, t[d].ents[k].inum, xs[1..], ys); }
    }
  }

  lemma {:induction false} ParentJoin(t: Tree, d: nat, xs: seq<seq<byte>>, y: seq<byte>)
    ensures WalkParent(t, d, xs + [y])
         == match Walk(t, d, xs)
            case None => None
            case Some(e) => if e in t && t[e].typ == T_DIR then Some((e, y)) else None
    decreases |xs|
  {
    WalkStaysInside(t, d, xs);
    if xs == [] {
      assert xs + [y] == [y];
    } else if d in t && t[d].typ == T_DIR {
      assert (xs + [y])[1..] == xs[1..] + [y];
      var k := Lookup(t, d, xs[0]);
      if k < |t[d].ents| { ParentJoin(t, t[d].ents[k].inum, xs[1..], y); }
    }
  }

  // "/" is the root, from anywhere, and the empty path is the directory itself.
  lemma RootPath(t: Tree, cwd: nat)
    requires Good(t) && cwd in t
    ensures Namei(t, cwd, [47]) == Some(1) && Namei(t, cwd, []) == Some(cwd)
  {
    GoodIsClosed(t);
    assert Elements([47]) == [];
  }

  // A relative path p behind q and a slash is p seen from where q leads, absolute or not.
  lemma PathsCompose(t: Tree, cwd: nat, q: seq<byte>, p: seq<byte>)
    requires q != [] && (p != [] ==> p[0] != 47)
    ensures Namei(t, cwd, q + [47] + p)
         == match Namei(t, cwd, q) case None => None case Some(d) => Namei(t, d, p)
  {
    ElementsJoin(q, p);
    WalkJoin(t, Start(cwd, q), Elements(q), Elements(p));
    assert (q + [47] + p)[0] == q[0];
  }

  // A single element, of which 14 bytes count, is looked up in the directory.
  lemma OneName(t: Tree, d: nat, w: seq<byte>)
    requires Good(t) && IsDir(t, d) && w != [] && forall k | 0 <= k < |w| :: w[k] != 47
    ensures var short := if |w| < 14 then w else w[..14];
      && NameiParent(t, d, w) == Some((d, short))
      && (forall i: nat :: Named(t, d, NameOf(short), i) <==> Namei(t, d, w) == Some(i))
  {
    hide Find, Clip, Inv;
    LengthIs(w, |w|);
    assert w[..|w|] == w && w[|w|..] == [];
    var short := Cut(w);
    assert Elements(w) == [short];
    LookupFinds(t, d, short);
    GoodIsClosed(t);
    var k := Lookup(t, d, short);
    if k < |t[d].ents| {
      var e := t[d].ents[k].inum;
      assert Walk(t, e, [short][1..]) == Some(e);
      forall i | Named(t, d, NameOf(short), i)
        ensures i == e
      {
        NamedOnceOnly(t, d, NameOf(short), i, e);
      }
    }
  }

  // The directory part and the last element of a path.
  lemma ParentOfPath(t: Tree, cwd: nat, q: seq<byte>, w: seq<byte>)
    requires q != [] && w != [] && forall k | 0 <= k < |w| :: w[k] != 47
    ensures NameiParent(t, cwd, q + [47] + w)
         == match Namei(t, cwd, q)
            case None => None
            case Some(d) => if d in t && t[d].typ == 1 then Some((d, if |w| < 14 then w else w[..14])) else None
  {
    LengthIs(w, |w|);
    assert w[..|w|] == w && w[|w|..] == [];
    assert Elements(w) == [Cut(w)];
    ElementsJoin(q, w);
    ParentJoin(t, Start(cwd, q), Elements(q), Cut(w));
    WalkStaysInside(t, Start(cwd, q), Elements(q));
    assert (q + [47] + w)[0] == q[0];
  }

  // "." stays, ".." leads to the parent.
  lemma DotPaths(t: Tree, d: nat)
    requires Good(t) && IsDir(t, d)
    ensures Namei(t, d, [46]) == Some(d)
    ensures |t[d].ents| >= 2 && Namei(t, d, [46, 46]) == Some(t[d].ents[1].inum)
  {
    hide Find, NamedOnce, Ranked, Counted;
    OneName(t, d, [46]);
    OneName(t, d, [46, 46]);
    var depth :| Inv(t, depth);
    assert DirOk(t, d);
    DotsLinked(1, 1);
    assert t[d].ents[0] == Dirent(d, [46]) && t[d].ents[1] == Dirent(t[d].ents[1].inum, [46, 46]);
    assert Named(t, d, [46], d) && Named(t, d, [46, 46], t[d].ents[1].inum);
  }

  // ----- where a path leads after a call -----

  // A walk that succeeds takes the same steps in a tree with one entry more.
  lemma {:induction false} WalkAfterAdd(t: Tree, t': Tree, dp: nat, name: seq<byte>, ip: nat, d: nat, elems: seq<seq<byte>>)
    requires Good(t) && Good(t') && EntryAdded(t, t', dp, name, ip) && t.Keys <= t'.Keys
    requires forall i | i in t :: t'[i].typ == t[i].typ && (i != dp ==> t'[i].ents == t[i].ents)
    ensures Walk(t, d, elems).Some? ==> Walk(t', d, elems) == Walk(t, d, elems)
    ensures WalkParent(t, d, elems).Some? ==> WalkParent(t', d, elems) == WalkParent(t, d, elems)
    decreases |elems|
  {
    hide Find, Clip, Inv;
    if d in t && elems != [] && t[d].typ == T_DIR {
      var k := Lookup(t, d, elems[0]);
      if k < |t[d].ents| {
        SameStep(t, t', d, elems[0]);
        WalkAfterAdd(t, t', dp, name, ip, t[d].ents[k].inum, elems[1..]);
      }
    }
  }

  // A name found in t and still there is found in t' with the same inode.
  lemma SameStep(t: Tree, t': Tree, d: nat, e: seq<byte>)
    requires Good(t') && d in t && d in t' && Lookup(t, d, e) < |t[d].ents|
    requires Named(t, d, NameOf(e), t[d].ents[Lookup(t, d, e)].inum) ==> Named(t', d, NameOf(e), t[d].ents[Lookup(t, d, e)].inum)
    ensures Lookup(t', d, e) < |t'[d].ents| && t'[d].ents[Lookup(t', d, e)].inum == t[d].ents[Lookup(t, d, e)].inum
  {
    hide Find, Clip, Inv;
    LookupFinds(t, d, e);
    LookupFinds(t', d, e);
    NamedOnceOnly(t', d, NameOf(e), t[d].ents[Lookup(t, d, e)].inum, t'[d].ents[Lookup(t', d, e)].inum);
  }

  // A walk that succeeds in a tree with entries and nodes removed took the same steps before.
  lemma {:induction false} WalkBeforeRemoval(t: Tree, t': Tree, dp: nat, d: nat, elems: seq<seq<byte>>)
    requires Good(t) && Good(t') && t'.Keys <= t.Keys
    requires forall i | i in t' :: t'[i].typ == t[i].typ && (i != dp ==> t'[i].ents == t[i].ents)
    requires dp in t' ==> forall i, m | Named(t', dp, m, i) :: Named(t, dp, m, i)
    ensures Walk(t', d, elems).Some? ==> Walk(t, d, elems) == Walk(t', d, elems)
    decreases |elems|
  {
    hide Find, Clip, Inv;
    if d in t' && elems != [] && t'[d].typ == T_DIR {
      var k := Lookup(t', d, elems[0]);
      if k < |t'[d].ents| {
        LookupFinds(t', d, elems[0]);
        SameStep(t', t, d, elems[0]);
        WalkBeforeRemoval(t, t', dp, t'[d].ents[k].inum, elems[1..]);
      }
    }
  }

  // The last step of a path.
  lemma {:induction false} LastStep(t: Tree, d: nat, elems: seq<seq<byte>>)
    requires elems != []
    ensures var p := WalkParent(t, d, elems);
      && (p == None ==> Walk(t, d, elems) == None)
      && (p.Some? ==> Walk(t, d, elems) == Walk(t, p.value.0, [p.value.1]))
    decreases |elems|
  {
    if |elems| > 1 && d in t && t[d].typ == T_DIR {
      var k := Lookup(t, d, elems[0]);
      if k < |t[d].ents| { LastStep(t, t[d].ents[k].inum, elems[1..]); }
    } else if |elems| == 1 {
      assert elems == [elems[0]];
    }
  }

  lemma StepInto(t: Tree, d: nat, e: seq<byte>, i: nat)
    requires Good(t) && IsDir(t, d)
    ensures Walk(t, d, [e]) == Some(i) <==> Named(t, d, NameOf(e), i)
  {
    hide Find, Clip, Inv;
    LookupFinds(t, d, e);
    GoodIsClosed(t);
    var k := Lookup(t, d, e);
    if k < |t[d].ents| {
      var x := t[d].ents[k].inum;
      assert Walk(t, x, [e][1..]) == Some(x);
      if Named(t, d, NameOf(e), i) { NamedOnceOnly(t, d, NameOf(e), i, x); }
    }
  }

  // What create and link return is what the path then leads to.
  lemma CreatedIsFound(t: Tree, ninodes: nat, cwd: nat, path: seq<byte>, typ: short, dev: Dev)
    requires Good(t) && Closed(t) && Good(Step(t, ninodes, OpCreate(cwd, path, typ, dev)).0)
    ensures var (t', o) := Step(t, ninodes, OpCreate(cwd, path, typ, dev));
      o.Done? ==> Namei(t', cwd, path) == Some(o.inum)
  {
    hide Find, FreeEntryOf, Clip, Inv, Elements, Create, Walk, WalkParent;
    var (t', o) := CreateAt(t, ninodes, cwd, path, typ, dev);
    var p := NameiParent(t, cwd, path);
    if o.Done? {
      ParentIsDir(t, cwd, path);
      var (dp, name) := p.value;
      PathNotEmpty(t, cwd, path);
      LastStep(t', Start(cwd, path), Elements(path));
      if i :| Named(t, dp, NameOf(name), i) {
        CreateExisting(t, ninodes, dp, name, typ, dev, i);
        StepInto(t, dp, name, i);
      } else {
        CreateNew(t, ninodes, dp, name, typ, dev);
        WalkAfterAdd(t, t', dp, NameOf(name), o.inum, Start(cwd, path), Elements(path));
        StepInto(t', dp, name, o.inum);
      }
    }
  }

  lemma PathNotEmpty(t: Tree, cwd: nat, path: seq<byte>)
    requires NameiParent(t, cwd, path).Some?
    ensures Elements(path) != []
  {
  }

  lemma LinkedIsFound(t: Tree, ninodes: nat, cwd: nat, old_: seq<byte>, new_: seq<byte>)
    requires Good(t) && Closed(t) && Good(Step(t, ninodes, OpLink(cwd, old_, new_)).0)
    ensures var (t', o) := Step(t, ninodes, OpLink(cwd, old_, new_));
      o.Done? ==> Namei(t, cwd, old_) == Some(o.inum) && Namei(t', cwd, new_) == Some(o.inum)
  {
    hide Find, FreeEntryOf, Clip, Inv, Elements, Link, Walk, WalkParent;
    var (t', o) := LinkAt(t, cwd, old_, new_);
    if o.Done? {
      ParentIsDir(t, cwd, new_);
      var (dp, name) := NameiParent(t, cwd, new_).value;
      PathNotEmpty(t, cwd, new_);
      LastStep(t', Start(cwd, new_), Elements(new_));
      LinkLaw(t, Namei(t, cwd, old_).value, dp, name);
      WalkAfterAdd(t, t', dp, NameOf(name), o.inum, Start(cwd, new_), Elements(new_));
      StepInto(t', dp, name, o.inum);
    }
  }

  // What unlink removed, the path no longer leads to anything.
  lemma UnlinkedIsGone(t: Tree, ninodes: nat, cwd: nat, path: seq<byte>)
    requires Good(t) && Closed(t)
    ensures var (t', o) := Step(t, ninodes, OpUnlink(cwd, path));
      o.Done? ==> Namei(t, cwd, path) == Some(o.inum) && Namei(t', cwd, path) == None
  {
    hide Find, FreeEntryOf, Clip, Inv, Elements, Unlink, Walk, WalkParent;
    var (t', o) := UnlinkAt(t, cwd, path);
    if o.Done? {
      ParentIsDir(t, cwd, path);
      var (dp, name) := NameiParent(t, cwd, path).value;
      PathNotEmpty(t, cwd, path);
      UnlinkAnswer(t, dp, name);
      UnlinkEffect(t, dp, name);
      UnlinkStaysGood(t, dp, name);
      LastStep(t, Start(cwd, path), Elements(path));
      StepInto(t, dp, name, o.inum);
      WalkBeforeRemoval(t, t', dp, Start(cwd, path), Elements(path));
      LastStep(t', Start(cwd, path), Elements(path));
      NotThereNow(t, t', dp, name, o.inum, Start(cwd, path), Elements(path));
    }
  }

  lemma UnlinkStaysGood(t: Tree, dp: nat, name: seq<byte>)
    requires Good(t) && IsDir(t, dp) && Closed(t)
    ensures Good(Unlink(t, dp, name).0)
  {
    hide Inv;
    var depth :| Inv(t, depth);
    UnlinkKeepsInv(t, depth, dp, name);
  }

  // The path led to dp and the name there; if it still leads to a directory and a name, these are
  // the same, and the name is gone.
  lemma NotThereNow(t: Tree, t': Tree, dp: nat, name: seq<byte>, ip: nat, d: nat, elems: seq<seq<byte>>)
    requires Good(t) && Good(t') && EntryRemoved(t, t', dp, NameOf(name), ip) && t'.Keys <= t.Keys && IsDir(t, dp)
    requires forall i | i in t' :: t'[i].typ == t[i].typ && (i != dp ==> t'[i].ents == t[i].ents)
    requires elems != [] && WalkParent(t, d, elems) == Some((dp, name))
    ensures Walk(t', d, elems) == None
    decreases |elems|
  {
    hide Find, Clip, Inv;
    if d in t' && t'[d].typ == T_DIR {
      var k := Lookup(t', d, elems[0]);
      if k < |t'[d].ents| {
        LookupFinds(t', d, elems[0]);
        if |elems| == 1 {
          NamedOnceOnly(t, dp, NameOf(name), t'[d].ents[k].inum, ip);
        } else {
          SameStep(t', t, d, elems[0]);
          NotThereNow(t, t', dp, name, ip, t'[d].ents[k].inum, elems[1..]);
        }
      }
    }
  }
}
