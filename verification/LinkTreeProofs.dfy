/** Create, link and unlink keep link counts equal to the entries that name an inode, and
    keep the directories a tree. */
module LinkTreeProofs {
  import opened DiskCodec
  import opened Directory
  import opened LinkTree

  // ----- how references move -----

  lemma RefsAfterPut(t: Tree, d: nat, k: nat, e: Dirent, i: nat)
    requires d in t && 0 < k <= |t[d].ents|
    ensures Refs(SetDirent(t, d, k, e), i) == (Refs(t, i) - {(d, k)}) + (if e.inum == i then {(d, k)} else {})
  {
  }

  lemma RefsAfterAddLink(t: Tree, j: nat, x: int, i: nat)
    requires j in t
    ensures Refs(AddLink(t, j, x), i) == Refs(t, i)
  {
  }

  // A new entry where none was in use is one more reference to the inode it names.
  lemma RefsAfterLinking(t: Tree, d: nat, k: nat, e: Dirent, i: nat)
    requires d in t && 0 < k <= |t[d].ents| && (k < |t[d].ents| ==> t[d].ents[k].inum == 0) && i != 0
    ensures |Refs(SetDirent(t, d, k, e), i)| == |Refs(t, i)| + if e.inum == i then 1 else 0
  {
    RefsAfterPut(t, d, k, e, i);
    assert (d, k) !in Refs(t, i);
    assert Refs(t, i) - {(d, k)} == Refs(t, i);
  }

  // The positions that dirlink uses lie beyond "." and "..".
  lemma RoomIsBeyondDots(t: Tree, depth: map<nat, nat>, d: nat)
    requires Inv(t, depth) && IsDir(t, d)
    ensures 2 <= RoomFor(t, d) <= |t[d].ents| <= MAXENTRIES && d != 0
  {
    assert DirOk(t, d);
  }

  // ----- an entry for a plain inode -----

  // Directory dp gains, at the unused position k, an entry for ip under a name it lacked.
  ghost predicate Gains(t: Tree, t': Tree, dp: nat, k: nat, ip: nat, name: seq<byte>) {
    && IsDir(t, dp) && 2 <= k <= |t[dp].ents| && k < MAXENTRIES && (k < |t[dp].ents| ==> t[dp].ents[k].inum == 0)
    && Lookup(t, dp, name) == |t[dp].ents|
    && ip != 0 && ip in t' && t.Keys <= t'.Keys && t'.Keys <= t.Keys + {ip}
    && t'[dp].ents == Place(t[dp].ents, k, Dirent(ip, NameOf(name)))
    && (forall d | d in t :: t'[d].typ == t[d].typ)
    && (forall d | d in t && d != dp :: t'[d].ents == t[d].ents)
  }

  // Names stay distinct when the new entry's name is not among those in use.
  lemma PlacedDistinct(ents: seq<Dirent>, k: nat, e: Dirent)
    requires k <= |ents|
    requires forall i, j | 0 <= i < j < |ents| && ents[i].inum != 0 && ents[j].inum != 0 :: ents[i].name != ents[j].name
    requires e.inum != 0 ==> forall j | 0 <= j < |ents| && ents[j].inum != 0 && j != k :: ents[j].name != e.name
    ensures var r := Place(ents, k, e);
      forall i, j | 0 <= i < j < |r| && r[i].inum != 0 && r[j].inum != 0 :: r[i].name != r[j].name
  {
    hide Place;
  }

  lemma GainKeepsDirOk(t: Tree, depth: map<nat, nat>, t': Tree, dp: nat, k: nat, ip: nat, name: seq<byte>, d: nat)
    requires Inv(t, depth) && Gains(t, t', dp, k, ip, name) && IsDir(t, d)
    ensures IsDir(t', d) && DirOk(t', d) && Parent(t', d) == Parent(t, d)
  {
    hide Counted, NamedOnce, Ranked, Refs;
    assert DirOk(t, d);
    if d == dp {
      GainInDir(t, t', dp, k, ip, name);
    } else {
      SameEntsDirOk(t, t', d);
    }
  }

  lemma SameEntsDirOk(t: Tree, t': Tree, d: nat)
    requires d in t && DirOk(t, d) && t.Keys <= t'.Keys && t'[d].ents == t[d].ents
    requires forall i | i in t :: t'[i].typ == t[i].typ
    ensures DirOk(t', d)
  {
  }

  lemma GainInDir(t: Tree, t': Tree, d: nat, k: nat, ip: nat, name: seq<byte>)
    requires d in t && DirOk(t, d) && Gains(t, t', d, k, ip, name)
    ensures DirOk(t', d) && Parent(t', d) == Parent(t, d)
  {
    hide Place, Clip, Find;
    var ents, e := t[d].ents, Dirent(ip, NameOf(name));
    var ents' := Place(ents, k, e);
    assert forall j | 0 <= j < |ents| :: !Names(ents[j], name);
    PlacedDistinct(ents, k, e);
    assert ents'[0] == ents[0] && ents'[1] == ents[1];
    forall m | 0 <= m < |ents'| && ents'[m].inum != 0
      ensures ents'[m].inum in t'
    {
      assert ents'[m] == if m == k then e else ents[m];
    }
  }

  lemma GainKeepsHolds(t: Tree, t': Tree, dp: nat, k: nat, ip: nat, name: seq<byte>, p: nat, m: nat, d: nat)
    requires Gains(t, t', dp, k, ip, name) && d != 0 && p in t
    ensures Holds(t', p, m, d) <==> Holds(t, p, m, d) || (p == dp && m == k && d == ip)
  {
  }

  // Every directory other than the inode named keeps its one name.
  lemma GainKeepsNamedOnce(t: Tree, depth: map<nat, nat>, t': Tree, dp: nat, k: nat, ip: nat, name: seq<byte>, d: nat)
    requires Inv(t, depth) && Gains(t, t', dp, k, ip, name) && IsDir(t, d) && d != ip
    requires ip !in t ==> (|t'[ip].ents| <= 2)
    ensures IsDir(t', d) && |t'[d].ents| >= 2 && NamedOnce(t', d) && Ranked(t', depth, d)
  {
    hide Counted, DirOk;
    GainKeepsDirOk(t, depth, t', dp, k, ip, name, d);
    DirShape(t, depth, d);
    DirShape2(t', d);
    assert NamedOnce(t, d) && Ranked(t, depth, d);
    if d != ROOTINO {
      var m :| Holds(t, Parent(t, d), m, d);
      GainKeepsHolds(t, t', dp, k, ip, name, Parent(t, d), m, d);
    }
    forall p, m | Holds(t', p, m, d)
      ensures Holds(t, p, m, d)
    {
      assert p in t;
      GainKeepsHolds(t, t', dp, k, ip, name, p, m, d);
    }
  }

  lemma DirShape(t: Tree, depth: map<nat, nat>, d: nat)
    requires Inv(t, depth) && IsDir(t, d)
    ensures |t[d].ents| >= 2 && IsDir(t, Parent(t, d)) && Parent(t, d) != 0 && d != 0
    ensures forall k | 0 <= k < |t[d].ents| && t[d].ents[k].inum != 0 :: t[d].ents[k].inum in t
  {
    assert DirOk(t, d);
  }

  lemma DirShape2(t: Tree, d: nat)
    requires d in t && DirOk(t, d)
    ensures |t[d].ents| >= 2
  {
  }

  // The inode numbers in entries are those of allocated inodes, so a free number has no
  // references.
  lemma FreeHasNoRefs(t: Tree, depth: map<nat, nat>, i: nat)
    requires Inv(t, depth) && i !in t && i != 0
    ensures Refs(t, i) == {}
  {
    hide Counted, NamedOnce, Ranked;
    forall d, k | d in t && 0 < k < |t[d].ents| && t[d].ents[k].inum == i
      ensures false
    {
      DirShape(t, depth, d);
    }
  }

  // ----- link -----

  // Link counts stay exact until one would pass the largest short.
  lemma LinkKeepsInv(t: Tree, depth: map<nat, nat>, ip: nat, dp: nat, name: seq<byte>)
    requires Inv(t, depth) && ip in t && IsDir(t, dp)
    ensures var (t', o) := Link(t, ip, dp, name);
      && (!o.Done? ==> t' == t)
      && (o.Done? && t[ip].nlink < 0x7fff ==> Inv(t', depth))
      && (o.Done? && t[ip].nlink == 0x7fff ==> t'[ip].nlink == -0x8000 && !Good(t'))
  {
    hide Inv, Refs;
    var (t', o) := Link(t, ip, dp, name);
    if o.Done? {
      var k := RoomFor(t, dp);
      RoomIsBeyondDots(t, depth, dp);
      InvNodes(t, depth, ip);
      if t[ip].nlink == 0x7fff {
        NegativeIsBad(t', ip);
      } else {
        assert Gains(t, t', dp, k, ip, name);
        LinkCounts(t, depth, ip, dp, k, name, AddLink(t, ip, 1), t');
        GainKeepsInv(t, depth, t', dp, k, ip, name);
      }
    }
  }

  lemma InvNodes(t: Tree, depth: map<nat, nat>, i: nat)
    requires Inv(t, depth) && i in t
    ensures i != 0 && Counted(t, i) && (t[i].typ != T_DIR ==> t[i].ents == [])
  {
  }

  lemma NegativeIsBad(t: Tree, i: nat)
    requires i in t && t[i].nlink < 0
    ensures !Good(t)
  {
    assert !Counted(t, i);
  }

  lemma LinkCounts(t: Tree, depth: map<nat, nat>, ip: nat, dp: nat, k: nat, name: seq<byte>, t1: Tree, t': Tree)
    requires ip in t && t1 == AddLink(t, ip, 1) && IsDir(t, dp) && 2 <= k <= |t[dp].ents| == |t1[dp].ents|
    requires t' == SetDirent(t1, dp, k, Dirent(ip, NameOf(name)))
    requires t[ip].typ != T_DIR && t[ip].nlink < 0x7fff && (k < |t[dp].ents| ==> t[dp].ents[k].inum == 0)
    requires Inv(t, depth)
    ensures forall i | i in t' :: Counted(t', i)
  {
    hide NamedOnce, Ranked, DirOk, Place, Refs;
    forall i | i in t'
      ensures Counted(t', i)
    {
      assert Counted(t, i);
      RefsAfterAddLink(t, ip, 1, i);
      RefsAfterLinking(t1, dp, k, Dirent(ip, NameOf(name)), i);
    }
  }

  // A plain inode gained an entry; counts are given.
  lemma GainKeepsInv(t: Tree, depth: map<nat, nat>, t': Tree, dp: nat, k: nat, ip: nat, name: seq<byte>)
    requires Inv(t, depth) && Gains(t, t', dp, k, ip, name) && t'[ip].typ != T_DIR && t'[ip].ents == []
    requires forall i | i in t' :: Counted(t', i)
    requires ip in t ==> t[ip].typ != T_DIR
    ensures Inv(t', depth)
  {
    hide Counted, Place, Refs, DirOk, NamedOnce, Ranked;
    forall d | IsDir(t', d)
      ensures DirOk(t', d) && |t'[d].ents| >= 2 && NamedOnce(t', d) && Ranked(t', depth, d)
    {
      GainKeepsDirOk(t, depth, t', dp, k, ip, name, d);
      GainKeepsNamedOnce(t, depth, t', dp, k, ip, name, d);
    }
  }

  // ----- create -----

  lemma RefsAfterNew(t: Tree, ip: nat, n: Node, i: nat)
    requires ip !in t
    ensures Refs(t[ip := n], i) == Refs(t, i) + set k | 0 < k < |n.ents| && n.ents[k].inum == i :: (ip, k)
  {
  }

  lemma CreateFileKeepsInv(t: Tree, depth: map<nat, nat>, ip: nat, dp: nat, name: seq<byte>, typ: short, dev: Dev)
    requires Inv(t, depth) && IsDir(t, dp) && ip !in t && ip != 0 && typ != T_DIR
    requires Lookup(t, dp, name) == |t[dp].ents| && RoomFor(t, dp) < MAXENTRIES
    ensures Inv(SetDirent(t[ip := NewNode(typ, ip, dp, dev)], dp, RoomFor(t, dp), Dirent(ip, NameOf(name))), depth)
  {
    hide Inv, Refs;
    var k, n, e := RoomFor(t, dp), NewNode(typ, ip, dp, dev), Dirent(ip, NameOf(name));
    RoomIsBeyondDots(t, depth, dp);
    var t1 := t[ip := n];
    var t' := SetDirent(t1, dp, k, e);
    FreeHasNoRefs(t, depth, ip);
    forall i | i in t'
      ensures Counted(t', i)
    {
      if i in t { InvNodes(t, depth, i); }
      RefsAfterNew(t, ip, n, i);
      assert Refs(t1, i) == Refs(t, i);
      RefsAfterLinking(t1, dp, k, e, i);
    }
    GainKeepsInv(t, depth, t', dp, k, ip, name);
  }

  lemma CreateDirCounts(t: Tree, depth: map<nat, nat>, ip: nat, dp: nat, name: seq<byte>, dev: Dev)
    requires Inv(t, depth) && IsDir(t, dp) && ip !in t && ip != 0 && t[dp].nlink < 0x7fff
    requires RoomFor(t, dp) < MAXENTRIES
    ensures var t' := SetDirent(AddLink(t[ip := NewNode(T_DIR, ip, dp, dev)], dp, 1), dp, RoomFor(t, dp), Dirent(ip, NameOf(name)));
      forall i | i in t' :: Counted(t', i)
  {
    hide Inv, Refs;
    var k, n, e := RoomFor(t, dp), NewNode(T_DIR, ip, dp, dev), Dirent(ip, NameOf(name));
    RoomIsBeyondDots(t, depth, dp);
    var t1 := t[ip := n];
    var t2 := AddLink(t1, dp, 1);
    var t' := SetDirent(t2, dp, k, e);
    FreeHasNoRefs(t, depth, ip);
    forall i | i in t'
      ensures Counted(t', i)
    {
      if i in t { InvNodes(t, depth, i); }
      RefsAfterNew(t, ip, n, i);
      NewPairs(t, ip, dp, i, dev);
      RefsAfterAddLink(t1, dp, 1, i);
      RefsAfterLinking(t2, dp, k, e, i);
    }
  }

  // The entry ".." of a new directory is one more reference to its parent.
  lemma NewPairs(t: Tree, ip: nat, dp: nat, i: nat, dev: Dev)
    requires ip !in t && dp in t
    ensures var n := NewNode(T_DIR, ip, dp, dev);
      |Refs(t, i) + set k | 0 < k < |n.ents| && n.ents[k].inum == i :: (ip, k)| == |Refs(t, i)| + if i == dp then 1 else 0
  {
    var n := NewNode(T_DIR, ip, dp, dev);
    var pairs := set k | 0 < k < |n.ents| && n.ents[k].inum == i :: (ip, k);
    if i == dp {
      assert n.ents[1].inum == dp;
      assert pairs == {(ip, 1)};
      assert (ip, 1) !in Refs(t, i);
    } else {
      assert pairs == {};
      assert Refs(t, i) + pairs == Refs(t, i);
    }
  }

  lemma CreateDirKeepsInv(t: Tree, depth: map<nat, nat>, ip: nat, dp: nat, name: seq<byte>, dev: Dev)
    requires Inv(t, depth) && IsDir(t, dp) && ip !in t && ip != 0 && t[dp].nlink < 0x7fff
    requires Lookup(t, dp, name) == |t[dp].ents| && RoomFor(t, dp) < MAXENTRIES
    ensures dp in depth
    ensures Inv(SetDirent(AddLink(t[ip := NewNode(T_DIR, ip, dp, dev)], dp, 1), dp, RoomFor(t, dp), Dirent(ip, NameOf(name))),
                depth[ip := depth[dp] + 1])
  {
    hide Refs, Counted, DirOk, NamedOnce, Place, Clip, Find, FreeEntryOf;
    var k := RoomFor(t, dp);
    var t' := SetDirent(AddLink(t[ip := NewNode(T_DIR, ip, dp, dev)], dp, 1), dp, k, Dirent(ip, NameOf(name)));
    assert Ranked(t, depth, dp) by { DirShape(t, depth, dp); }
    var depth' := depth[ip := depth[dp] + 1];
    RoomIsBeyondDots(t, depth, dp);
    assert Gains(t, t', dp, k, ip, name);
    CreateDirCounts(t, depth, ip, dp, name, dev);
    NewDirIsGood(t, depth, t', dp, k, ip, name);
    forall d | IsDir(t', d) && d != ip
      ensures DirOk(t', d) && |t'[d].ents| >= 2 && NamedOnce(t', d) && Ranked(t', depth', d)
    {
      OldDirIsGood(t, depth, t', dp, k, ip, name, d);
    }
  }

  lemma OldDirIsGood(t: Tree, depth: map<nat, nat>, t': Tree, dp: nat, k: nat, ip: nat, name: seq<byte>, d: nat)
    requires Inv(t, depth) && Gains(t, t', dp, k, ip, name) && ip !in t && IsDir(t', d) && d != ip && dp in depth
    requires |t'[ip].ents| <= 2
    ensures DirOk(t', d) && |t'[d].ents| >= 2 && NamedOnce(t', d) && Ranked(t', depth[ip := depth[dp] + 1], d)
  {
    hide Refs, Counted, DirOk, NamedOnce, Clip, Find;
    GainKeepsDirOk(t, depth, t', dp, k, ip, name, d);
    GainKeepsNamedOnce(t, depth, t', dp, k, ip, name, d);
    DirShape(t, depth, d);
  }

  lemma NewDirIsGood(t: Tree, depth: map<nat, nat>, t': Tree, dp: nat, k: nat, ip: nat, name: seq<byte>)
    requires Inv(t, depth) && Gains(t, t', dp, k, ip, name) && ip !in t
    requires t'[ip].typ == T_DIR && t'[ip].ents == NewNode(T_DIR, ip, dp, Dev(0, 0)).ents
    ensures DirOk(t', ip) && NamedOnce(t', ip) && Parent(t', ip) == dp && ip != ROOTINO
  {
    hide Refs, Counted, Ranked, Place, Clip, Find, Inv;
    DirShape(t, depth, dp);
    RootIsIn(t, depth);
    forall p, m
      ensures Holds(t', p, m, ip) <==> p == dp && m == k
    {
      if p in t {
        GainKeepsHolds(t, t', dp, k, ip, name, p, m, ip);
        NotHeld(t, depth, p, m, ip);
      }
    }
    assert Parent(t', ip) == dp;
    assert Holds(t', Parent(t', ip), k, ip);
  }

  lemma RootIsIn(t: Tree, depth: map<nat, nat>)
    requires Inv(t, depth)
    ensures IsDir(t, ROOTINO)
  {
  }

  lemma NotHeld(t: Tree, depth: map<nat, nat>, p: nat, m: nat, ip: nat)
    requires Inv(t, depth) && ip !in t && ip != 0
    ensures !Holds(t, p, m, ip)
  {
    hide Refs, Counted, Ranked, NamedOnce;
    if p in t {
      if IsDir(t, p) { DirShape(t, depth, p); }
    }
  }

  // ----- unlink -----

  // Entry k of dp, which named ip, is cleared, and ip's node goes when `gone`.
  ghost predicate Loses(t: Tree, t': Tree, dp: nat, k: nat, ip: nat, gone: bool) {
    && IsDir(t, dp) && 2 <= k < |t[dp].ents| && t[dp].ents[k].inum == ip && ip in t && ip != dp && ip != ROOTINO
    && (t[ip].typ == T_DIR ==> gone && DirEmpty(t[ip].ents))
    && t'.Keys == t.Keys - (if gone then {ip} else {})
    && t'[dp].ents == Place(t[dp].ents, k, UNUSED)
    && (forall d | d in t' :: t'[d].typ == t[d].typ)
    && (forall d | d in t' && d != dp :: t'[d].ents == t[d].ents)
  }

  // An empty directory is nobody's parent.
  lemma EmptyHasNoChildren(t: Tree, depth: map<nat, nat>, ip: nat, d: nat)
    requires Inv(t, depth) && IsDir(t, ip) && DirEmpty(t[ip].ents) && ip != ROOTINO && IsDir(t, d)
    ensures |t[d].ents| >= 2 && Parent(t, d) != ip
  {
    hide Counted, DirOk, Ranked, Refs;
    DirShape(t, depth, d);
    assert NamedOnce(t, d);
  }

  // The only reference to an empty directory is the entry that names it.
  lemma EmptyHasOneRef(t: Tree, depth: map<nat, nat>, dp: nat, k: nat, ip: nat)
    requires Inv(t, depth) && IsDir(t, ip) && DirEmpty(t[ip].ents) && Holds(t, dp, k, ip)
    ensures Refs(t, ip) == {(dp, k)} && t[ip].nlink == 1 && ip != ROOTINO && ip != dp && IsDir(t, dp)
  {
    hide DirOk, Ranked;
    DirShape(t, depth, ip);
    assert NamedOnce(t, ip) && Counted(t, ip);
    assert dp == Parent(t, ip) && ip != ROOTINO;
    assert ip != dp by { SelfParent(t, depth, ip); }
    forall d, m | d in t && 0 < m < |t[d].ents| && t[d].ents[m].inum == ip
      ensures d == dp && m == k
    {
      assert IsDir(t, d);
      if m == 1 {
        EmptyHasNoChildren(t, depth, ip, d);
      } else {
        assert Holds(t, d, m, ip);
        assert Holds(t, Parent(t, ip), m, ip) && Holds(t, Parent(t, ip), k, ip);
      }
    }
    assert Refs(t, ip) == {(dp, k)};
  }

  lemma SelfParent(t: Tree, depth: map<nat, nat>, d: nat)
    requires Inv(t, depth) && IsDir(t, d) && d != ROOTINO
    ensures |t[d].ents| >= 2 && Parent(t, d) != d
  {
    hide Counted, DirOk, NamedOnce, Refs;
    DirShape(t, depth, d);
    assert Ranked(t, depth, d);
  }

  lemma LossKeepsHolds(t: Tree, t': Tree, dp: nat, k: nat, ip: nat, gone: bool, p: nat, m: nat, d: nat)
    requires Loses(t, t', dp, k, ip, gone) && d != 0
    ensures Holds(t', p, m, d) <==> Holds(t, p, m, d) && !(p == dp && m == k) && p in t'
  {
  }

  lemma LossKeepsDir(t: Tree, depth: map<nat, nat>, t': Tree, dp: nat, k: nat, ip: nat, gone: bool, d: nat)
    requires Inv(t, depth) && Loses(t, t', dp, k, ip, gone) && IsDir(t', d)
    requires gone ==> Refs(t, ip) == {(dp, k)}
    ensures DirOk(t', d) && Parent(t', d) == Parent(t, d) && IsDir(t, d)
  {
    hide Counted, NamedOnce, Ranked, Clip, Inv, Place, Refs;
    InvDirOk(t, depth, d);
    DirShape(t, depth, d);
    if IsDir(t, ip) {
      EmptyHasNoChildren(t, depth, ip, d);
    }
    forall m | 0 <= m < |t'[d].ents| && t'[d].ents[m].inum != 0
      ensures t'[d].ents[m].inum in t' && t'[d].ents[m] == t[d].ents[m]
    {
      LossKeepsEntry(t, depth, t', dp, k, ip, gone, d, m);
    }
  }

  lemma InvDirOk(t: Tree, depth: map<nat, nat>, d: nat)
    requires Inv(t, depth) && IsDir(t, d)
    ensures DirOk(t, d)
  {
  }

  lemma LossKeepsEntry(t: Tree, depth: map<nat, nat>, t': Tree, dp: nat, k: nat, ip: nat, gone: bool, d: nat, m: nat)
    requires Inv(t, depth) && Loses(t, t', dp, k, ip, gone) && IsDir(t', d)
    requires gone ==> Refs(t, ip) == {(dp, k)}
    requires m < |t'[d].ents| && t'[d].ents[m].inum != 0
    ensures t'[d].ents[m] == t[d].ents[m] && t'[d].ents[m].inum in t'
  {
    hide Counted, NamedOnce, Ranked, Inv, Place;
    InvDirOk(t, depth, d);
    assert m > 0 && t[d].ents[m].inum == ip ==> (d, m) in Refs(t, ip);
  }

  lemma LossKeepsNamedOnce(t: Tree, depth: map<nat, nat>, t': Tree, dp: nat, k: nat, ip: nat, gone: bool, d: nat)
    requires Inv(t, depth) && Loses(t, t', dp, k, ip, gone) && IsDir(t', d)
    requires gone ==> Refs(t, ip) == {(dp, k)}
    ensures |t'[d].ents| >= 2 && NamedOnce(t', d) && Ranked(t', depth, d)
  {
    hide Counted, DirOk, Refs, Place, Inv;
    LossKeepsDir(t, depth, t', dp, k, ip, gone, d);
    DirShape2(t', d);
    DirShape(t, depth, d);
    InvDir(t, depth, d);
    if d != ROOTINO {
      var m :| Holds(t, Parent(t, d), m, d);
      if IsDir(t, ip) { EmptyHasNoChildren(t, depth, ip, d); }
      LossKeepsHolds(t, t', dp, k, ip, gone, Parent(t, d), m, d);
      assert Holds(t', Parent(t', d), m, d);
    }
    forall p, m | Holds(t', p, m, d)
      ensures Holds(t, p, m, d)
    {
      LossKeepsHolds(t, t', dp, k, ip, gone, p, m, d);
    }
  }

  lemma InvDir(t: Tree, depth: map<nat, nat>, d: nat)
    requires Inv(t, depth) && IsDir(t, d)
    ensures |t[d].ents| >= 2 && NamedOnce(t, d) && Ranked(t, depth, d)
  {
    DirShape(t, depth, d);
  }

  lemma LossKeepsInv(t: Tree, depth: map<nat, nat>, t': Tree, dp: nat, k: nat, ip: nat, gone: bool)
    requires Inv(t, depth) && Loses(t, t', dp, k, ip, gone)
    requires gone ==> Refs(t, ip) == {(dp, k)}
    requires forall i | i in t' :: Counted(t', i)
    ensures Inv(t', depth)
  {
    hide Counted, Place, Refs, DirOk, NamedOnce, Ranked;
    forall d | IsDir(t', d)
      ensures DirOk(t', d) && |t'[d].ents| >= 2 && NamedOnce(t', d) && Ranked(t', depth, d)
    {
      LossKeepsDir(t, depth, t', dp, k, ip, gone, d);
      LossKeepsNamedOnce(t, depth, t', dp, k, ip, gone, d);
    }
  }

  // Clearing entry k takes one reference from the inode it named.
  lemma RefsAfterClearing(t: Tree, d: nat, k: nat, i: nat)
    requires d in t && 0 < k < |t[d].ents| && i != 0
    ensures var t' := SetDirent(t, d, k, UNUSED);
      Refs(t', i) == Refs(t, i) - {(d, k)} && |Refs(t', i)| == |Refs(t, i)| - if t[d].ents[k].inum == i then 1 else 0
  {
    RefsAfterPut(t, d, k, UNUSED, i);
    if t[d].ents[k].inum == i {
      assert (d, k) in Refs(t, i);
    } else {
      assert (d, k) !in Refs(t, i);
      assert Refs(t, i) - {(d, k)} == Refs(t, i);
    }
  }

  // With an empty directory goes its "..", a reference to its parent.
  lemma RefsAfterRemoval(t: Tree, ip: nat, i: nat)
    requires ip in t && i != 0
    requires t[ip].ents != [] ==> |t[ip].ents| >= 2 && DirEmpty(t[ip].ents)
    ensures |Refs(t - {ip}, i)| == |Refs(t, i)| - if |t[ip].ents| >= 2 && t[ip].ents[1].inum == i then 1 else 0
  {
    var pairs := if |t[ip].ents| >= 2 && t[ip].ents[1].inum == i then {(ip, 1)} else {};
    assert pairs <= Refs(t, i);
    assert Refs(t - {ip}, i) == Refs(t, i) - pairs;
  }

  // Unlinking a plain inode.
  lemma UnlinkFileKeepsInv(t: Tree, depth: map<nat, nat>, dp: nat, k: nat, ip: nat)
    requires Inv(t, depth) && IsDir(t, dp) && 2 <= k < |t[dp].ents| && t[dp].ents[k].inum == ip && ip in t
    requires t[ip].typ != T_DIR
    ensures Inv(Reclaim(AddLink(SetDirent(t, dp, k, UNUSED), ip, -1), ip), depth)
  {
    hide Inv, Refs;
    InvNodes(t, depth, ip);
    RootIsIn(t, depth);
    var t1 := SetDirent(t, dp, k, UNUSED);
    var t2 := AddLink(t1, ip, -1);
    var t' := Reclaim(t2, ip);
    var gone := t2[ip].nlink == 0;
    RefsAfterClearing(t, dp, k, ip);
    forall i | i in t'
      ensures Counted(t', i)
    {
      InvNodes(t, depth, i);
      RefsAfterClearing(t, dp, k, i);
      RefsAfterAddLink(t1, ip, -1, i);
      RefsAfterRemoval(t2, ip, i);
    }
    assert Loses(t, t', dp, k, ip, gone);
    if gone {
      OneRef(t, dp, k, ip);
    }
    LossKeepsInv(t, depth, t', dp, k, ip, gone);
  }

  lemma OneRef(t: Tree, d: nat, k: nat, i: nat)
    requires d in t && 0 < k < |t[d].ents| && t[d].ents[k].inum == i && |Refs(t, i)| == 1
    ensures Refs(t, i) == {(d, k)}
  {
    assert (d, k) in Refs(t, i);
    assert |Refs(t, i) - {(d, k)}| == 0;
  }

  // Unlinking an empty directory.
  lemma UnlinkDirKeepsInv(t: Tree, depth: map<nat, nat>, dp: nat, k: nat, ip: nat)
    requires Inv(t, depth) && IsDir(t, dp) && 2 <= k < |t[dp].ents| && t[dp].ents[k].inum == ip && ip in t
    requires t[ip].typ == T_DIR && DirEmpty(t[ip].ents)
    ensures t[ip].nlink == 1 && ip != dp
    ensures Inv(AddLink(SetDirent(t, dp, k, UNUSED), dp, -1) - {ip}, depth)
  {
    hide Inv, Refs;
    DirShape(t, depth, ip);
    assert Holds(t, dp, k, ip);
    EmptyHasOneRef(t, depth, dp, k, ip);
    HeldByParent(t, depth, dp, k, ip);
    var t1 := SetDirent(t, dp, k, UNUSED);
    var t2 := AddLink(t1, dp, -1);
    var t' := t2 - {ip};
    forall i | i in t'
      ensures Counted(t', i)
    {
      InvNodes(t, depth, i);
      RefsAfterClearing(t, dp, k, i);
      RefsAfterAddLink(t1, dp, -1, i);
      RefsAfterRemoval(t2, ip, i);
      if i == dp { ParentKeepsRef(t, depth, dp, ip, k); }
    }
    assert Loses(t, t', dp, k, ip, true);
    LossKeepsInv(t, depth, t', dp, k, ip, true);
  }

  lemma HeldByParent(t: Tree, depth: map<nat, nat>, dp: nat, k: nat, ip: nat)
    requires Inv(t, depth) && IsDir(t, ip) && Holds(t, dp, k, ip)
    ensures |t[ip].ents| >= 2 && Parent(t, ip) == dp
  {
    InvDir(t, depth, ip);
  }

  // A directory with a subdirectory has a second reference: its own name, or for the root
  // its own "..".
  lemma ParentKeepsRef(t: Tree, depth: map<nat, nat>, dp: nat, ip: nat, k: nat)
    requires Inv(t, depth) && IsDir(t, ip) && IsDir(t, dp) && Holds(t, dp, k, ip) && ip != ROOTINO && ip != dp
    ensures |Refs(t, dp)| >= 2
  {
    hide Inv;
    InvDir(t, depth, dp);
    HeldByParent(t, depth, dp, k, ip);
    assert (ip, 1) in Refs(t, dp);
    var other: (nat, nat);
    if dp == ROOTINO {
      other := (dp, 1);
    } else {
      var m :| Holds(t, Parent(t, dp), m, dp);
      other := (Parent(t, dp), m);
    }
    assert other in Refs(t, dp) && other != (ip, 1);
    assert {(ip, 1), other} <= Refs(t, dp);
    SubsetCard({(ip, 1), other}, Refs(t, dp));
  }

  lemma SubsetCard<T>(a: set<T>, b: set<T>)
    requires a <= b
    ensures |a| <= |b|
  {
    assert |b - a| == |b| - |a|;
  }

  // unlink keeps the tree, frees an inode exactly when its last reference goes, and cannot
  // reach its panic.
  lemma UnlinkKeepsInv(t: Tree, depth: map<nat, nat>, dp: nat, name: seq<byte>)
    requires Inv(t, depth) && IsDir(t, dp)
    ensures forall k | 0 <= k < |t[dp].ents| && t[dp].ents[k].inum != 0 :: t[dp].ents[k].inum in t
    ensures var (t', o) := Unlink(t, dp, name);
      && Inv(t', depth) && o != Panic
      && (o == Error ==> t' == t)
      && (o.Done? ==> o.inum in t && t'.Keys == t.Keys - (if |Refs(t, o.inum)| == 1 then {o.inum} else {}))
  {
    hide Inv, Refs, Counted, Names, Clip;
    DirShape(t, depth, dp);
    var (t', o) := Unlink(t, dp, name);
    var k := Lookup(t, dp, name);
    if NameOf(name) != DOT && NameOf(name) != DOTDOT && k < |t[dp].ents| {
      UnlinkFinds(t, depth, dp, name, k);
      var ip := t[dp].ents[k].inum;
      InvNodes(t, depth, ip);
      CountedMeans(t, ip);
      if t[ip].typ == T_DIR {
        if DirEmpty(t[ip].ents) {
          UnlinkDirKeepsInv(t, depth, dp, k, ip);
          var t2 := AddLink(SetDirent(t, dp, k, UNUSED), dp, -1);
          assert AddLink(t2, ip, -1) - {ip} == t2 - {ip};
        }
      } else {
        UnlinkFileKeepsInv(t, depth, dp, k, ip);
      }
    }
  }

  lemma CountedMeans(t: Tree, i: nat)
    requires i in t && Counted(t, i)
    ensures 1 <= t[i].nlink == |Refs(t, i)|
  {
  }

  lemma UnlinkFinds(t: Tree, depth: map<nat, nat>, dp: nat, name: seq<byte>, k: nat)
    requires Inv(t, depth) && IsDir(t, dp) && k < |t[dp].ents| && Names(t[dp].ents[k], name)
    requires NameOf(name) != DOT && NameOf(name) != DOTDOT
    ensures 2 <= k && t[dp].ents[k].inum in t
  {
    hide Counted, NamedOnce, Ranked;
    InvDirOk(t, depth, dp);
  }
}
