/** kernel/sysfile.c over whole directories: create, link and unlink on the tree of inodes,
    with link counts kept as C shorts. */
module LinkTree {
  import opened DiskCodec
  import opened Directory

  const T_DIR: short := 1
  const T_FILE: short := 2
  const ROOTINO: nat := 1
  const MAXENTRIES: nat := 4480  // MAXFILE * BSIZE / sizeof(struct dirent)
  const DOT: seq<byte> := [46]
  const DOTDOT: seq<byte> := [46, 46]
  const UNUSED := Dirent(0, [])

  // Device numbers, kept for every inode.
  datatype Dev = Dev(major: short, minor: short)

  // An allocated inode: only directories have entries, and only other inodes have data of their own.
  datatype Node = Node(typ: short, nlink: short, ents: seq<Dirent>, dev: Dev, data: seq<byte>)

  type Tree = map<nat, Node>

  datatype Outcome = Done(inum: nat) | Error | Panic

  // ----- the elementary changes -----

  // nlink++ and nlink--, in sixteen bits.
  function AddLink(t: Tree, i: nat, d: int): (t': Tree)
    requires i in t
    ensures t'.Keys == t.Keys
  {
    t[i := t[i].(nlink := ToShort(t[i].nlink + d))]
  }

  function SetDirent(t: Tree, d: nat, k: nat, e: Dirent): (t': Tree)
    requires d in t && k <= |t[d].ents|
    ensures t'.Keys == t.Keys
  {
    t[d := t[d].(ents := Place(t[d].ents, k, e))]
  }

  // iput of the last reference.
  function Reclaim(t: Tree, i: nat): Tree
    requires i in t
  {
    if t[i].nlink == 0 then t - {i} else t
  }

  // The place where dirlink would put a new entry; None when the directory is full.
  function RoomFor(t: Tree, d: nat): (k: nat)
    requires d in t
    ensures k <= |t[d].ents| && (k < |t[d].ents| ==> t[d].ents[k].inum == 0)
  {
    FreeEntryOf(t[d].ents)
  }

  function Lookup(t: Tree, d: nat, name: seq<byte>): (k: nat)
    requires d in t
    ensures k <= |t[d].ents| && (k < |t[d].ents| ==> Names(t[d].ents[k], name))
  {
    Find(t[d].ents, name)
  }

  function FreeInum(t: Tree, ninodes: nat, from: nat): (i: nat)
    ensures i >= from && (i < ninodes ==> i !in t)
    ensures forall m | from <= m < i && m < ninodes :: m in t
    decreases ninodes - from
  {
    if from >= ninodes || from !in t then from else FreeInum(t, ninodes, from + 1)
  }

  // ----- the operations, after path resolution -----

  function NewNode(typ: short, inum: nat, dp: nat, dev: Dev): Node {
    Node(typ, 1, if typ == T_DIR then [Dirent(inum, DOT), Dirent(dp, DOTDOT)] else [], dev, [])
  }

  function Create(t: Tree, ninodes: nat, dp: nat, name: seq<byte>, typ: short, dev: Dev): (r: (Tree, Outcome))
    requires dp in t && forall k | 0 <= k < |t[dp].ents| && t[dp].ents[k].inum != 0 :: t[dp].ents[k].inum in t
  {
    var k := Lookup(t, dp, name);
    if k < |t[dp].ents| then
      var ip := t[dp].ents[k].inum;
      (t, if typ == T_FILE && t[ip].typ == T_FILE then Done(ip) else Error)
    else
      var ip := FreeInum(t, ninodes, 1);
      if ip >= ninodes || RoomFor(t, dp) == MAXENTRIES then (t, Panic) else
        var t1 := t[ip := NewNode(typ, ip, dp, dev)];
        var t2 := if typ == T_DIR then AddLink(t1, dp, 1) else t1;
        (SetDirent(t2, dp, RoomFor(t, dp), Dirent(ip, NameOf(name))), Done(ip))
  }

  // sys_link for an inode ip and the directory dp that nameiparent found, if any.
  function Link(t: Tree, ip: nat, dp: nat, name: seq<byte>): (r: (Tree, Outcome))
    requires ip in t && dp in t
  {
    if t[ip].typ == T_DIR || Lookup(t, dp, name) < |t[dp].ents| then (t, Error)
    else if RoomFor(t, dp) == MAXENTRIES then (t, Panic)
    else (SetDirent(AddLink(t, ip, 1), dp, RoomFor(t, dp), Dirent(ip, NameOf(name))), Done(ip))
  }

  // isdirempty: no entry in use after the first two.
  predicate DirEmpty(ents: seq<Dirent>) {
    forall k | 2 <= k < |ents| :: ents[k].inum == 0
  }

  function Unlink(t: Tree, dp: nat, name: seq<byte>): (r: (Tree, Outcome))
    requires dp in t && forall k | 0 <= k < |t[dp].ents| && t[dp].ents[k].inum != 0 :: t[dp].ents[k].inum in t
  {
    var k := Lookup(t, dp, name);
    if NameOf(name) == DOT || NameOf(name) == DOTDOT || k == |t[dp].ents| then (t, Error) else
      var ip := t[dp].ents[k].inum;
      if t[ip].nlink < 1 then (t, Panic)
      else if t[ip].typ == T_DIR && !DirEmpty(t[ip].ents) then (t, Error)
      else
        var t1 := SetDirent(t, dp, k, UNUSED);
        var t2 := if t[ip].typ == T_DIR then AddLink(t1, dp, -1) else t1;
        (Reclaim(AddLink(t2, ip, -1), ip), Done(ip))
  }

  // ----- what every reachable tree satisfies -----

  ghost predicate IsDir(t: Tree, d: nat) { d in t && t[d].typ == T_DIR }

  // The entries other than "." that name inode i, as (directory, position).
  ghost function Refs(t: Tree, i: nat): set<(nat, nat)> {
    set d, k | d in t && 0 < k < |t[d].ents| && t[d].ents[k].inum == i :: (d, k)
  }

  function Parent(t: Tree, d: nat): nat
    requires d in t && |t[d].ents| >= 2
  {
    t[d].ents[1].inum
  }

  ghost predicate DirOk(t: Tree, d: nat)
    requires d in t
  {
    var ents := t[d].ents;
    && 2 <= |ents| <= MAXENTRIES
    && ents[0] == Dirent(d, DOT)
    && ents[1].name == DOTDOT && IsDir(t, ents[1].inum)
    && (forall k | 0 <= k < |ents| && ents[k].inum != 0 :: ents[k].inum in t)
    && (forall j, k | 0 <= j < k < |ents| && ents[j].inum != 0 && ents[k].inum != 0 :: ents[j].name != ents[k].name)
  }

  // Position k >= 2 of directory p names the directory d.
  ghost predicate Holds(t: Tree, p: nat, k: nat, d: nat) {
    p in t && 2 <= k < |t[p].ents| && t[p].ents[k].inum == d
  }

  // A directory is named once, in the directory its ".." leads to; the root nowhere.
  ghost predicate NamedOnce(t: Tree, d: nat)
    requires d in t && |t[d].ents| >= 2
  {
    && (d == ROOTINO ==> Parent(t, d) == ROOTINO)
    && (d != ROOTINO ==> exists k :: Holds(t, Parent(t, d), k, d))
    && (forall p, k | Holds(t, p, k, d) :: d != ROOTINO && p == Parent(t, d))
    && (forall k, k' | Holds(t, Parent(t, d), k, d) && Holds(t, Parent(t, d), k', d) :: k == k')
  }

  // One step up the tree is one step nearer the root.
  ghost predicate Ranked(t: Tree, depth: map<nat, nat>, d: nat)
    requires d in t && |t[d].ents| >= 2
  {
    d in depth && (d == ROOTINO ==> depth[d] == 0)
    && (d != ROOTINO ==> Parent(t, d) in depth && depth[d] == depth[Parent(t, d)] + 1)
  }

  ghost predicate Counted(t: Tree, i: nat)
    requires i in t
  {
    t[i].nlink as int == |Refs(t, i)| > 0
  }

  ghost predicate Inv(t: Tree, depth: map<nat, nat>) {
    && IsDir(t, ROOTINO) && 0 !in t
    && (forall i | i in t && t[i].typ != T_DIR :: t[i].ents == [])
    && (forall d | IsDir(t, d) :: DirOk(t, d))
    && (forall d | IsDir(t, d) :: NamedOnce(t, d) && Ranked(t, depth, d))
    && (forall i | i in t :: Counted(t, i))
  }

  ghost predicate Good(t: Tree) { exists depth :: Inv(t, depth) }
}
