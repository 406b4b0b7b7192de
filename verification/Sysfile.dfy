/** sys_link, sys_unlink and create by path on the tree of inodes, and runs of them from an
    empty root. The calls are sequential; no file is open and no directory unlinked is anyone's
    cwd, so each iput drops the last reference. */
module Sysfile {
  import opened DiskCodec
  import opened Directory
  import opened LinkTree
  import opened LinkTreeProofs
  import opened Paths

  datatype Op =
    | OpCreate(cwd: nat, path: seq<byte>, typ: short, dev: Dev)
    | OpLink(cwd: nat, old_: seq<byte>, new_: seq<byte>)
    | OpUnlink(cwd: nat, path: seq<byte>)

  predicate Closed(t: Tree) {
    ROOTINO in t && forall d, k | d in t && 0 <= k < |t[d].ents| && t[d].ents[k].inum != 0 :: t[d].ents[k].inum in t
  }

  function CreateAt(t: Tree, ninodes: nat, cwd: nat, path: seq<byte>, typ: short, dev: Dev): (Tree, Outcome)
    requires Closed(t)
  {
    match NameiParent(t, cwd, path)
    case None => (t, Error)
    case Some((dp, name)) => if dp in t then Create(t, ninodes, dp, name, typ, dev) else (t, Error)
  }

  function LinkAt(t: Tree, cwd: nat, old_: seq<byte>, new_: seq<byte>): (Tree, Outcome) {
    match Namei(t, cwd, old_)
    case None => (t, Error)
    case Some(ip) =>
      match NameiParent(t, cwd, new_)
      case None => (t, Error)
      case Some((dp, name)) => if ip in t && dp in t then Link(t, ip, dp, name) else (t, Error)
  }

  function UnlinkAt(t: Tree, cwd: nat, path: seq<byte>): (Tree, Outcome)
    requires Closed(t)
  {
    match NameiParent(t, cwd, path)
    case None => (t, Error)
    case Some((dp, name)) => if dp in t then Unlink(t, dp, name) else (t, Error)
  }

  function Step(t: Tree, ninodes: nat, op: Op): (Tree, Outcome)
    requires Closed(t)
  {
    match op
    case OpCreate(cwd, path, typ, dev) => CreateAt(t, ninodes, cwd, path, typ, dev)
    case OpLink(cwd, old_, new_) => LinkAt(t, cwd, old_, new_)
    case OpUnlink(cwd, path) => UnlinkAt(t, cwd, path)
  }

  // ----- what the calls rely on between their steps -----

  function EmptyTree(): Tree {
    map[ROOTINO := Node(T_DIR, 1, [Dirent(ROOTINO, DOT), Dirent(ROOTINO, DOTDOT)], Dev(0, 0), [])]
  }

  lemma GoodIsClosed(t: Tree)
    requires Good(t)
    ensures Closed(t)
  {
    var depth :| Inv(t, depth);
    forall d, k | d in t && 0 <= k < |t[d].ents| && t[d].ents[k].inum != 0
      ensures t[d].ents[k].inum in t
    {
      DirShape(t, depth, d);
    }
  }

  lemma ParentIsDir(t: Tree, cwd: nat, path: seq<byte>)
    ensures var p := NameiParent(t, cwd, path); p.Some? ==> IsDir(t, p.value.0)
  {
    WalkStaysInside(t, Start(cwd, path), Elements(path));
  }

  lemma GoodDir(t: Tree, d: nat)
    requires Good(t) && IsDir(t, d)
    ensures d != 0 && 2 <= |t[d].ents| <= MAXENTRIES
  {
    var depth :| Inv(t, depth);
    assert DirOk(t, d);
  }

  lemma DotsLinked(ip: nat, dp: nat)
    requires ip != 0 && dp != 0
    ensures NameOf(DOT) == DOT && NameOf(DOTDOT) == DOTDOT
    ensures Find([], DOT) == 0 && FreeEntryOf([]) == 0
    ensures var one := [Dirent(ip, DOT)]; Find(one, DOTDOT) == 1 && FreeEntryOf(one) == 1
  {
  }

  lemma NameiIsNode(t: Tree, cwd: nat, path: seq<byte>)
    ensures Namei(t, cwd, path).Some? ==> Namei(t, cwd, path).value in t
  {
    WalkStaysInside(t, Start(cwd, path), Elements(path));
  }

  lemma GoodNode(t: Tree, i: nat)
    requires Good(t) && i in t
    ensures i != 0 && t[i].nlink >= 1
  {
    var depth :| Inv(t, depth);
    InvNodes(t, depth, i);
  }

  // What sys_unlink relies on between its steps: dp stays linked and is not ip.
  lemma GoodUnlink(t: Tree, dp: nat, name: seq<byte>)
    requires Good(t) && IsDir(t, dp)
    ensures forall k | 0 <= k < |t[dp].ents| && t[dp].ents[k].inum != 0 :: t[dp].ents[k].inum in t
    ensures Unlink(t, dp, name).1 != Panic
    ensures Unlink(t, dp, name).1.Done? ==>
              var ip := Unlink(t, dp, name).1.inum;
              ip in t && ip != dp && t[dp].nlink >= if t[ip].typ == T_DIR then 2 else 1
  {
    hide Inv, Refs, Clip, Counted;
    var depth :| Inv(t, depth);
    UnlinkKeepsInv(t, depth, dp, name);
    InvNodes(t, depth, dp);
    CountedMeans(t, dp);
    var k := Lookup(t, dp, name);
    if Unlink(t, dp, name).1.Done? {
      UnlinkFinds(t, depth, dp, name, k);
      var ip := t[dp].ents[k].inum;
      if t[ip].typ == T_DIR {
        EmptyHasOneRef(t, depth, dp, k, ip);
        ParentKeepsRef(t, depth, dp, ip, k);
      }
    }
  }

  // ----- runs -----

  lemma EmptyTreeIsGood()
    ensures Good(EmptyTree())
  {
    var t := EmptyTree();
    assert Refs(t, ROOTINO) == {(ROOTINO, 1)};
    assert forall d | IsDir(t, d) :: NamedOnce(t, d);
    assert Inv(t, map[ROOTINO := 0]);
  }

  // The inode whose count a successful op raises: a link's target, or the parent of a new
  // directory.
  function Raised(t: Tree, op: Op): Option<nat> {
    match op
    case OpCreate(cwd, path, typ, dev) =>
      (match NameiParent(t, cwd, path)
       case None => None
       case Some((dp, name)) =>
         if typ == T_DIR && dp in t && Lookup(t, dp, name) == |t[dp].ents| then Some(dp) else None)
    case OpLink(cwd, old_, new_) => Namei(t, cwd, old_)
    case OpUnlink(_, _) => None
  }

  // The op would take a link count past the largest short.
  predicate Overflows(t: Tree, op: Op) {
    var i := Raised(t, op);
    i.Some? && i.value in t && t[i.value].nlink == 0x7fff
  }

  // A step that succeeds keeps the tree good exactly when it overflows no link count; one
  // that fails changes nothing.
  lemma StepKeepsGood(t: Tree, ninodes: nat, op: Op)
    requires Good(t)
    ensures Closed(t)
    ensures var (t', o) := Step(t, ninodes, op);
      && (!o.Done? ==> t' == t)
      && (o.Done? ==> (Good(t') <==> !Overflows(t, op)))
  {
    hide Inv, Refs, Clip, Counted, Elements, Find, FreeEntryOf, Walk, WalkParent;
    GoodIsClosed(t);
    var depth :| Inv(t, depth);
    match op
    case OpCreate(cwd, path, typ, dev) =>
      ParentIsDir(t, cwd, path);
      var p := NameiParent(t, cwd, path);
      if p.Some? {
        CreateKeepsGood(t, depth, ninodes, p.value.0, p.value.1, typ, dev);
      }
    case OpLink(cwd, old_, new_) =>
      NameiIsNode(t, cwd, old_);
      ParentIsDir(t, cwd, new_);
      var ip, p := Namei(t, cwd, old_), NameiParent(t, cwd, new_);
      if ip.Some? && p.Some? {
        LinkKeepsInv(t, depth, ip.value, p.value.0, p.value.1);
      }
    case OpUnlink(cwd, path) =>
      ParentIsDir(t, cwd, path);
      var p := NameiParent(t, cwd, path);
      if p.Some? {
        UnlinkKeepsInv(t, depth, p.value.0, p.value.1);
      }
  }

  lemma CreateKeepsGood(t: Tree, depth: map<nat, nat>, ninodes: nat, dp: nat, name: seq<byte>, typ: short, dev: Dev)
    requires Inv(t, depth) && IsDir(t, dp)
    ensures forall k | 0 <= k < |t[dp].ents| && t[dp].ents[k].inum != 0 :: t[dp].ents[k].inum in t
    ensures var (t', o) := Create(t, ninodes, dp, name, typ, dev);
      && (!o.Done? ==> t' == t)
      && (o.Done? ==> (Good(t') <==> !(typ == T_DIR && Lookup(t, dp, name) == |t[dp].ents| && t[dp].nlink == 0x7fff)))
  {
    hide Inv, Refs, Clip, Counted, Find, FreeEntryOf;
    DirShape(t, depth, dp);
    RoomIsBeyondDots(t, depth, dp);
    var (t', o) := Create(t, ninodes, dp, name, typ, dev);
    if o.Done? {
      if Lookup(t, dp, name) < |t[dp].ents| {
        assert Good(t);
      } else if typ != T_DIR {
        CreateFileKeepsInv(t, depth, o.inum, dp, name, typ, dev);
      } else if t[dp].nlink == 0x7fff {
        NegativeIsBad(t', dp);
      } else {
        CreateDirKeepsInv(t, depth, o.inum, dp, name, dev);
      }
    }
  }

  // The trees of a run, each the last one after one call. As long as no call that succeeds
  // overflows a link count, all of them are good.
  lemma {:induction false} RunKeepsGood(trees: seq<Tree>, ninodes: nat, ops: seq<Op>, n: nat)
    requires |trees| == |ops| + 1 && Good(trees[0]) && n <= |ops|
    requires forall k | 0 <= k < |ops| ::
               Closed(trees[k]) ==>
                 && trees[k + 1] == Step(trees[k], ninodes, ops[k]).0
                 && (Step(trees[k], ninodes, ops[k]).1.Done? ==> !Overflows(trees[k], ops[k]))
    ensures Good(trees[n])
  {
    hide Step, Overflows, Good;
    if n > 0 {
      RunKeepsGood(trees, ninodes, ops, n - 1);
      StepKeepsGood(trees[n - 1], ninodes, ops[n - 1]);
    }
  }

  // ----- what a good tree is -----

  function Up(t: Tree, d: nat, steps: nat): nat
    decreases steps
  {
    if steps == 0 || d !in t || |t[d].ents| < 2 then d else Up(t, t[d].ents[1].inum, steps - 1)
  }

  ghost predicate LeadsToRoot(t: Tree, d: nat) { exists steps :: Up(t, d, steps) == ROOTINO }

  // Following ".." from any directory leads to the root.
  lemma {:induction false} ReachesRoot(t: Tree, depth: map<nat, nat>, d: nat)
    requires Inv(t, depth) && IsDir(t, d)
    ensures d in depth && Up(t, d, depth[d]) == ROOTINO
    decreases if d in depth then depth[d] else 0
  {
    hide Refs, Counted, DirOk, NamedOnce;
    DirShape(t, depth, d);
    assert Ranked(t, depth, d);
    if d != ROOTINO {
      ReachesRoot(t, depth, Parent(t, d));
    }
  }

  lemma GoodMeans(t: Tree)
    requires Good(t)
    ensures forall i | i in t :: t[i].nlink == |Refs(t, i)| > 0
    ensures forall d | IsDir(t, d) :: LeadsToRoot(t, d)
    ensures forall d | IsDir(t, d) && d != ROOTINO ::
              |t[d].ents| >= 2 && IsDir(t, Parent(t, d)) && exists k :: Holds(t, Parent(t, d), k, d)
  {
    hide Refs, DirOk;
    var depth :| Inv(t, depth);
    forall i | i in t
      ensures t[i].nlink == |Refs(t, i)| > 0
    {
      assert Counted(t, i);
    }
    forall d | IsDir(t, d)
      ensures LeadsToRoot(t, d)
      ensures |t[d].ents| >= 2 && IsDir(t, Parent(t, d)) && NamedOnce(t, d)
    {
      ReachesRoot(t, depth, d);
      assert Up(t, d, depth[d]) == ROOTINO;
      DirShape(t, depth, d);
    }
  }
}
