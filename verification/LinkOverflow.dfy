/** A file with as many links as a short can count: eight directories full of names for it. It takes
    a disk with more than a thousand data blocks. */
module LinkOverflow {
  import opened DiskCodec
  import opened Directory
  import opened LinkTree
  import opened LinkTreeProofs
  import opened Paths
  import opened Sysfile

  const FILE: nat := 2

  // The name of link j in each directory, and of directory j.
  function LinkName(j: nat): (s: seq<byte>)
    requires j < 4480
    ensures |s| == 3
  {
    [97, 1 + j % 200, 1 + j / 200]
  }

  function DirName(j: nat): (s: seq<byte>)
    requires j < 8
    ensures |s| == 2
  {
    [98, 1 + j]
  }

  lemma ShortName(s: seq<byte>)
    requires |s| <= 3 && forall k | 0 <= k < |s| :: s[k] != 0
    ensures NameOf(s) == s
  {
    var c := NameOf(s);
    assert |c| == |s|;
  }

  // Directory d holds its two dots and the first n links.
  ghost predicate Holding(t: Tree, d: nat, n: nat) {
    && IsDir(t, d) && n <= 4478 && |t[d].ents| == n + 2 && t[d].ents[0].inum != 0 && t[d].ents[1].inum != 0
    && t[d].ents[0].name == DOT && t[d].ents[1].name == DOTDOT
    && forall j | 0 <= j < n :: t[d].ents[j + 2] == Dirent(FILE, LinkName(j))
  }

  lemma NextLink(t: Tree, d: nat, n: nat)
    requires Holding(t, d, n) && n < 4478
    ensures NameOf(LinkName(n)) == LinkName(n)
    ensures Lookup(t, d, LinkName(n)) == |t[d].ents| == RoomFor(t, d) && |t[d].ents| < MAXENTRIES
  {
    var ents := t[d].ents;
    ShortName(LinkName(n));
    forall m | 0 <= m < |ents|
      ensures !Names(ents[m], LinkName(n)) && ents[m].inum != 0
    {
      if m >= 2 { assert ents[m] == Dirent(FILE, LinkName(m - 2)); }
    }
    FindIs(ents, LinkName(n), |ents|);
    FreeEntryIs(ents, |ents|);
  }

  // Links n, ..., n + m - 1 are made in directory d.
  lemma {:induction false} Fill(t: Tree, depth: map<nat, nat>, d: nat, n: nat, m: nat) returns (t': Tree)
    requires Inv(t, depth) && FILE in t && t[FILE].typ == T_FILE && Holding(t, d, n)
    requires n + m <= 4478 && t[FILE].nlink + m <= 0x7fff
    ensures Inv(t', depth) && FILE in t' && t'[FILE] == t[FILE].(nlink := t[FILE].nlink + m)
    ensures t'.Keys == t.Keys && forall x | x in t && x != d && x != FILE :: t'[x] == t[x]
    decreases m
  {
    hide Inv, Find, FreeEntryOf, Clip;
    if m == 0 {
      return t;
    }
    NextLink(t, d, n);
    LinkKeepsInv(t, depth, FILE, d, LinkName(n));
    var t1 := Link(t, FILE, d, LinkName(n)).0;
    assert t1 == SetDirent(AddLink(t, FILE, 1), d, |t[d].ents|, Dirent(FILE, LinkName(n)));
    t' := Fill(t1, depth, d, n + 1, m - 1);
  }

  // ----- the eight directories -----

  // The root's entries: its dots, the file and the first j directories.
  function RootEntries(j: nat): (es: seq<Dirent>)
    requires j <= 8
    ensures |es| == j + 3
  {
    [Dirent(ROOTINO, DOT), Dirent(ROOTINO, DOTDOT), Dirent(FILE, [102])]
      + seq(j, i requires 0 <= i < j => Dirent(3 + i, DirName(i)))
  }

  ghost predicate Built(t: Tree, j: nat) {
    && j <= 8 && IsDir(t, ROOTINO) && t[ROOTINO].ents == RootEntries(j) && t[ROOTINO].nlink <= 1 + j
    && FILE in t && t[FILE] == Node(T_FILE, 1, [], Dev(0, 0), [])
    && (forall x :: x in t <==> 1 <= x < 3 + j)
    && (forall d | 3 <= d < 3 + j :: Holding(t, d, 0))
  }

  // A name that the root does not have.
  lemma NotInRoot(t: Tree, j: nat, name: seq<byte>)
    requires j <= 8 && ROOTINO in t && t[ROOTINO].ents == RootEntries(j)
    requires |name| <= 3 && (forall k | 0 <= k < |name| :: name[k] != 0)
    requires name != DOT && name != DOTDOT && name != [102] && forall i | 0 <= i < j :: name != DirName(i)
    ensures NameOf(name) == name && Lookup(t, ROOTINO, name) == |t[ROOTINO].ents| == RoomFor(t, ROOTINO) < MAXENTRIES
  {
    ShortName(name);
    var ents := t[ROOTINO].ents;
    forall m | 0 <= m < |ents|
      ensures !Names(ents[m], name) && ents[m].inum != 0
    {
      if m >= 3 { assert ents[m] == Dirent(m, DirName(m - 3)); }
    }
    FindIs(ents, name, |ents|);
    FreeEntryIs(ents, |ents|);
  }

  lemma WithFile() returns (t: Tree, depth: map<nat, nat>)
    ensures Inv(t, depth) && Built(t, 0)
  {
    hide Inv, Find, FreeEntryOf, Clip;
    EmptyTreeIsGood();
    var e := EmptyTree();
    depth :| Inv(e, depth);
    assert e[ROOTINO].ents == [Dirent(ROOTINO, DOT), Dirent(ROOTINO, DOTDOT)];
    RootLacksFile(e);
    CreateFileKeepsInv(e, depth, FILE, ROOTINO, [102], T_FILE, Dev(0, 0));
    t := SetDirent(e[FILE := NewNode(T_FILE, FILE, ROOTINO, Dev(0, 0))], ROOTINO, RoomFor(e, ROOTINO), Dirent(FILE, NameOf([102])));
    assert t[ROOTINO].ents == RootEntries(0);
  }

  lemma RootLacksFile(t: Tree)
    requires t == EmptyTree()
    ensures NameOf([102]) == [102] && Lookup(t, ROOTINO, [102]) == 2 == RoomFor(t, ROOTINO)
  {
    ShortName([102]);
    FindIs(t[ROOTINO].ents, [102], 2);
    FreeEntryIs(t[ROOTINO].ents, 2);
  }

  lemma {:induction false} WithDirs(j: nat) returns (t: Tree, depth: map<nat, nat>)
    requires j <= 8
    ensures Inv(t, depth) && Built(t, j)
  {
    hide Inv, Find, FreeEntryOf, Clip;
    if j == 0 {
      t, depth := WithFile();
    } else {
      var u, depth0 := WithDirs(j - 1);
      var d, name := 2 + j, DirName(j - 1);
      NotInRoot(u, j - 1, name);
      CreateDirKeepsInv(u, depth0, d, ROOTINO, name, Dev(0, 0));
      t := SetDirent(AddLink(u[d := NewNode(T_DIR, d, ROOTINO, Dev(0, 0))], ROOTINO, 1), ROOTINO, RoomFor(u, ROOTINO),
                     Dirent(d, NameOf(name)));
      depth := depth0[d := depth0[ROOTINO] + 1];
      assert t[ROOTINO].ents == RootEntries(j);
      forall x | 3 <= x < 3 + j
        ensures Holding(t, x, 0)
      {
        if x < d { assert Holding(u, x, 0) && t[x] == u[x]; }
      }
    }
  }

  // ----- filling them -----

  // Directories 3, ..., 2 + j are full.
  lemma {:induction false} WithLinks(j: nat) returns (t: Tree, depth: map<nat, nat>)
    requires j <= 7
    ensures Inv(t, depth) && ROOTINO in t && t[ROOTINO].ents == RootEntries(8) && IsDir(t, ROOTINO)
    ensures FILE in t && t[FILE] == Node(T_FILE, 1 + 4478 * j, [], Dev(0, 0), [])
    ensures forall d | 3 + j <= d < 11 :: Holding(t, d, 0)
  {
    hide Inv;
    if j == 0 {
      t, depth := WithDirs(8);
    } else {
      var u;
      u, depth := WithLinks(j - 1);
      t := Fill(u, depth, 2 + j, 0, 4478);
      forall d | 3 + j <= d < 11
        ensures Holding(t, d, 0)
      {
        assert Holding(u, d, 0) && t[d] == u[d];
      }
    }
  }

  // A good tree in which one more link to a file overflows its count.
  lemma LinkOverflowInput() returns (t: Tree, op: Op)
    ensures Good(t) && Closed(t) && op == OpLink(ROOTINO, [102], [103])
    ensures Step(t, 200, op).1.Done? && Overflows(t, op) && !Good(Step(t, 200, op).0)
  {
    hide Inv, Find, FreeEntryOf, Clip, Link;
    var u, depth := WithLinks(7);
    t := Fill(u, depth, 10, 0, 1420);
    op := OpLink(ROOTINO, [102], [103]);
    GoodIsClosed(t);
    NotInRoot(t, 8, [103]);
    FileFound(t);
    assert Elements([102]) == [[102]] && Elements([103]) == [[103]] by { OneElement(102); OneElement(103); }
    assert Walk(t, FILE, [[102]][1..]) == Some(FILE);
    assert Namei(t, ROOTINO, [102]) == Some(FILE);
    assert NameiParent(t, ROOTINO, [103]) == Some((ROOTINO, [103]));
    LinkIsDone(t);
    StepKeepsGood(t, 200, op);
  }

  lemma LinkIsDone(t: Tree)
    requires FILE in t && ROOTINO in t && t[FILE].typ == T_FILE
    requires Lookup(t, ROOTINO, [103]) == |t[ROOTINO].ents| && RoomFor(t, ROOTINO) < MAXENTRIES
    ensures Link(t, FILE, ROOTINO, [103]).1 == Done(FILE)
  {
  }

  lemma FileFound(t: Tree)
    requires ROOTINO in t && t[ROOTINO].ents == RootEntries(8)
    ensures Lookup(t, ROOTINO, [102]) == 2 && t[ROOTINO].ents[2].inum == FILE
  {
    ShortName([102]);
    FindIs(t[ROOTINO].ents, [102], 2);
  }

  lemma OneElement(b: byte)
    requires b != SLASH
    ensures Elements([b]) == [[b]]
  {
    LengthIs([b], 1);
    assert Cut([b][..1]) == [b];
    assert [b][1..] == [];
  }
}
