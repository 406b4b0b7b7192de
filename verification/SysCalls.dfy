/** namex of kernel/fs.c, and create, sys_link and sys_unlink of kernel/sysfile.c, on the disk:
    each has exactly the effect and the answer that Sysfile gives for the tree, or panics because
    it needs more blocks than are free. */
module SysCalls {
  import opened DiskCodec
  import opened Directory
  import opened LinkTree
  import opened LinkTreeProofs
  import opened Paths
  import opened Sysfile
  import opened FsTree
  import I = FsImage
  import F = FileSystem
  import Sp = FsSpace

  // The tree on the disk of fs.
  ghost function T(fs: F.FileSystem): Tree
    reads fs
    requires Ready(fs)
  {
    TreeOf(fs.Im())
  }

  // The blocks a call takes from those that are free.
  function BlocksNeeded(t: Tree, ninodes: nat, op: Op): nat
    requires Closed(t)
  {
    if !Step(t, ninodes, op).1.Done? then 0 else
      match op
      case OpCreate(cwd, path, typ, _) => CreateNeeds(t, NameiParent(t, cwd, path), typ)
      case OpLink(cwd, _, new_) => LinkNeeds(t, NameiParent(t, cwd, new_))
      case OpUnlink(_, _) => 0
  }

  function CreateNeeds(t: Tree, p: Option<(nat, seq<byte>)>, typ: short): nat {
    if p.Some? && p.value.0 in t && Lookup(t, p.value.0, p.value.1) == |t[p.value.0].ents| then
      EntryGrowth(t, p.value.0) + if typ == T_DIR then 1 else 0
    else 0
  }

  function LinkNeeds(t: Tree, p: Option<(nat, seq<byte>)>): nat {
    if p.Some? && p.value.0 in t then EntryGrowth(t, p.value.0) else 0
  }

  // dirlookup in a directory of the tree.
  method Look(fs: F.FileSystem, d: nat, name: seq<byte>) returns (found: bool, inum: nat, off: nat)
    requires Ready(fs) && IsDir(T(fs), d)
    modifies fs
    ensures Ready(fs) && T(fs) == old(T(fs)) && fs.Im() == old(fs.Im())
    ensures found <==> Lookup(T(fs), d, name) < |T(fs)[d].ents|
    ensures found ==> off == 16 * Lookup(T(fs), d, name) && inum == T(fs)[d].ents[Lookup(T(fs), d, name)].inum
  {
    hide I.Inv, Entries, I.Content, TreeOf, Find, WholeDirs;
    NodeIs(fs.Im(), d);
    WholeDir(fs.Im(), d);
    found, inum, off := fs.Dirlookup(d, name);
  }

  // The inode of the path, or with `parent` the directory and the last element.
  method Namex(fs: F.FileSystem, cwd: nat, path: seq<byte>, parent: bool) returns (r: Option<(nat, seq<byte>)>)
    requires Ready(fs) && Closed(T(fs)) && cwd in T(fs)
    modifies fs
    ensures Ready(fs) && T(fs) == old(T(fs)) && fs.Im() == old(fs.Im())
    ensures parent ==> r == NameiParent(T(fs), cwd, path)
    ensures !parent ==> (r.Some? <==> Namei(T(fs), cwd, path).Some?)
    ensures !parent && r.Some? ==> r.value.0 == Namei(T(fs), cwd, path).value
  {
    hide Elements, Find, Ready, TreeOf, Entries;
    ghost var t := T(fs);
    var ip := if path != [] && path[0] == SLASH then ROOTINO else cwd;
    var rest := path;
    while true
      invariant Ready(fs) && T(fs) == t && ip in t && fs.Im() == old(fs.Im())
      invariant Walk(t, ip, Elements(rest)) == Namei(t, cwd, path)
      invariant parent ==> WalkParent(t, ip, Elements(rest)) == NameiParent(t, cwd, path)
      decreases |rest|
    {
      var e := Skipelem(rest);
      if e == None {
        break;
      }
      ghost var elems := Elements(rest);
      assert elems[0] == e.value.1 && elems[1..] == Elements(e.value.0);
      rest := e.value.0;
      var name := e.value.1;
      TypeIs(fs, ip);
      if fs.inodes[ip].typ != T_DIR {
        return None;
      }
      if parent && rest == [] {
        return Some((ip, name));
      }
      var found, inum, off := Look(fs, ip, name);
      if !found {
        return None;
      }
      ip := inum;
    }
    if parent {
      return None;
    }
    return Some((ip, []));
  }

  lemma TypeIs(fs: F.FileSystem, i: nat)
    requires Ready(fs) && i in T(fs)
    ensures i < fs.ninodes == |fs.inodes| && fs.inodes[i].typ == T(fs)[i].typ && fs.inodes[i].nlink == T(fs)[i].nlink
    ensures T(fs)[i].dev == Dev(fs.inodes[i].major, fs.inodes[i].minor)
    ensures i < 0x1_0000 || fs.ninodes > 0x1_0000
  {
  }

  // sys_link.
  method Link(fs: F.FileSystem, cwd: nat, old_: seq<byte>, new_: seq<byte>) returns (r: Outcome)
    requires Ready(fs) && fs.ninodes <= 0x1_0000 && Good(T(fs)) && cwd in T(fs)
    modifies fs
    ensures r != Panic ==> Ready(fs) && r == LinkAt(old(T(fs)), cwd, old_, new_).1
    ensures r != Panic ==> T(fs) == LinkAt(old(T(fs)), cwd, old_, new_).0
    ensures Closed(old(T(fs)))
    ensures var (t, op) := (old(T(fs)), OpLink(cwd, old_, new_));
      && (r == Panic <==> LinkAt(t, cwd, old_, new_).1 == Panic || BlocksNeeded(t, fs.ninodes, op) > old(Free(fs)))
      && (r != Panic ==> Free(fs) == old(Free(fs)) - BlocksNeeded(t, fs.ninodes, op) && |fs.disk| == old(|fs.disk|))
  {
    hide Elements, Find, FreeEntryOf, Clip, LinkTree.Inv, WalkParent, Walk, Ready, TreeOf, Place, Sp.FreeCount, Sp.Growth;
    ghost var t0 := T(fs);
    GoodIsClosed(t0);
    NameiIsNode(t0, cwd, old_);
    ParentIsDir(t0, cwd, new_);
    var p := Namex(fs, cwd, old_, false);
    if p == None {
      return Error;
    }
    var ip := p.value.0;
    TypeIs(fs, ip);
    if fs.inodes[ip].typ == T_DIR {
      return Error;
    }
    GoodNode(t0, ip);
    ChangeLinks(fs, ip, 1);
    WalkIgnoresCounts(t0, ip, 1, Start(cwd, new_), Elements(new_));
    CountsKeepClosed(t0, ip, 1);
    p := Namex(fs, cwd, new_, true);
    if p != None {
      var (dp, name) := p.value;
      GoodDir(t0, dp);
      var s := LinkEntry(fs, dp, name, ip);
      if s == F.Panic {
        return Panic;
      }
      if s == F.Linked {
        return Done(ip);
      }
    }
    CountBack(fs, ip, t0);
    return Error;
  }

  // bad: the count goes back.
  method CountBack(fs: F.FileSystem, ip: nat, ghost t0: Tree)
    requires Ready(fs) && ip in t0 && T(fs) == AddLink(t0, ip, 1) && t0[ip].nlink >= 1
    modifies fs
    ensures Ready(fs) && T(fs) == t0 && Free(fs) == old(Free(fs)) && |fs.disk| == old(|fs.disk|)
  {
    hide Ready, TreeOf, Sp.FreeCount;
    ChangeLinks(fs, ip, -1);
    PutLast(fs, ip);
    assert T(fs) == t0;
  }

  // create.
  method Create(fs: F.FileSystem, cwd: nat, path: seq<byte>, typ: short, major: short, minor: short)
    returns (r: Outcome)
    requires Ready(fs) && fs.ninodes <= 0x1_0000 && Good(T(fs)) && cwd in T(fs) && typ != 0
    modifies fs
    ensures Closed(old(T(fs)))
    ensures r != Panic ==> Ready(fs) && r == CreateAt(old(T(fs)), fs.ninodes, cwd, path, typ, Dev(major, minor)).1
    ensures r != Panic ==> T(fs) == CreateAt(old(T(fs)), fs.ninodes, cwd, path, typ, Dev(major, minor)).0
    ensures var (t, op) := (old(T(fs)), OpCreate(cwd, path, typ, Dev(major, minor)));
      && (r == Panic <==>
            CreateAt(t, fs.ninodes, cwd, path, typ, Dev(major, minor)).1 == Panic || BlocksNeeded(t, fs.ninodes, op) > old(Free(fs)))
      && (r != Panic ==> Free(fs) == old(Free(fs)) - BlocksNeeded(t, fs.ninodes, op) && |fs.disk| == old(|fs.disk|))
  {
    hide Elements, Find, FreeEntryOf, Clip, LinkTree.Inv, WalkParent, Ready, TreeOf, Sp.FreeCount, Sp.Growth;
    ghost var t0 := T(fs);
    GoodIsClosed(t0);
    ParentIsDir(t0, cwd, path);
    var p := Namex(fs, cwd, path, true);
    if p == None {
      return Error;
    }
    var (dp, name) := p.value;
    GoodDir(t0, dp);
    var found, ip, off := Look(fs, dp, name);
    if found {
      TypeIs(fs, ip);
      if typ == T_FILE && fs.inodes[ip].typ == T_FILE {
        return Done(ip);
      }
      return Error;
    }
    var ok;
    ok, ip := NewInode(fs, dp, typ, major, minor);
    if !ok {
      return Panic;
    }
    var s := LinkEntry(fs, dp, name, ip);
    if s == F.Panic {
      return Panic;
    }
    return Done(ip);
  }

  // The middle of create: the inode and, for a directory, its entries and the link they make.
  method NewInode(fs: F.FileSystem, dp: nat, typ: short, major: short, minor: short) returns (ok: bool, ip: nat)
    requires Ready(fs) && fs.ninodes <= 0x1_0000 && IsDir(T(fs), dp) && dp != 0 && typ != 0
    modifies fs
    ensures ok <==> FreeInum(old(T(fs)), fs.ninodes, 1) < fs.ninodes && (typ == T_DIR ==> old(Free(fs)) >= 1)
    ensures ok ==>
              && Ready(fs) && ip == FreeInum(old(T(fs)), fs.ninodes, 1) && |fs.disk| == old(|fs.disk|)
              && Free(fs) == old(Free(fs)) - if typ == T_DIR then 1 else 0
    ensures ok ==>
              var t1 := old(T(fs))[ip := NewNode(typ, ip, dp, Dev(major, minor))];
              T(fs) == if typ == T_DIR then AddLink(t1, dp, 1) else t1
  {
    hide Find, FreeEntryOf, Clip, Ready, TreeOf, Sp.FreeCount, Sp.Growth;
    ghost var t0 := T(fs);
    TypeIs(fs, dp);
    ok, ip := Allocate(fs, typ);
    if !ok {
      return;
    }
    TypeIs(fs, ip);
    SetMeta(fs, ip, fs.inodes[ip].(major := major, minor := minor, nlink := 1));
    assert T(fs) == t0[ip := Node(typ, 1, [], Dev(major, minor), [])];
    if typ == T_DIR {
      TypeIs(fs, dp);
      ChangeLinks(fs, dp, 1);
      ok := AddDots(fs, ip, dp, Dev(major, minor));
      assert ok ==> T(fs) == AddLink(t0[ip := NewNode(typ, ip, dp, Dev(major, minor))], dp, 1);
    }
  }

  // The two entries of a new directory.
  method AddDots(fs: F.FileSystem, ip: nat, dp: nat, ghost dev: Dev) returns (ok: bool)
    requires Ready(fs) && ip in T(fs) && T(fs)[ip] == Node(T_DIR, 1, [], dev, []) && 0 < ip < 0x1_0000 && 0 < dp < 0x1_0000
    modifies fs
    ensures ok ==> Ready(fs) && T(fs) == old(T(fs))[ip := NewNode(T_DIR, ip, dp, dev)]
    ensures ok <==> old(Free(fs)) >= 1
    ensures ok ==> Free(fs) == old(Free(fs)) - 1 && |fs.disk| == old(|fs.disk|)
  {
    hide Find, FreeEntryOf, Clip, Ready, TreeOf, Sp.FreeCount;
    DotsLinked(ip, dp);
    var s := LinkEntry(fs, ip, DOT, ip);
    if s == F.Panic {
      return false;
    }
    assert T(fs)[ip].ents == [Dirent(ip, DOT)];
    s := LinkEntry(fs, ip, DOTDOT, dp);
    assert T(fs)[ip].ents == [Dirent(ip, DOT), Dirent(dp, DOTDOT)];
    ok := true;
  }

  // The root directory on an empty file system, the way create makes a directory: possible
  // exactly when there is a data block.
  method MakeRoot(n: nat, size: nat) returns (fs: F.FileSystem, ok: bool)
    requires 2 <= n <= 0x1_0000 && n / 8 + 3 + size / 4096 + 1 <= size < U32
    ensures fresh(fs) && (ok ==> Ready(fs) && T(fs) == EmptyTree())
    ensures fs.ninodes == n && (ok <==> size > n / 8 + 3 + size / 4096 + 1)
    ensures ok ==> |fs.disk| == size && Free(fs) == size - (n / 8 + 3 + size / 4096 + 1) - 1
  {
    hide TreeOf, I.Inv, Sp.FreeCount;
    fs := new F.FileSystem.Format(n, size);
    StillFormed(fs.Im(), fs.owner);
    NothingThere(fs.Im());
    NothingUsed(fs.Im(), fs.ninodes);
    Sp.Conservation(fs.Im(), fs.owner);
    FreeIs(fs);
    var ip;
    ok, ip := Allocate(fs, T_DIR);
    TypeIs(fs, ip);
    SetMeta(fs, ip, fs.inodes[ip].(nlink := 1));
    assert T(fs) == map[ROOTINO := Node(T_DIR, 1, [], Dev(0, 0), [])];
    ok := AddDots(fs, ip, ip, Dev(0, 0));
    assert ok ==> T(fs) == EmptyTree();
  }

  lemma FreeIs(fs: F.FileSystem)
    ensures Free(fs) == Sp.FreeCount(fs.Im())
  {
  }

  lemma {:induction false} NothingUsed(im: I.Image, n: nat)
    requires n <= |im.inodes| && forall i | 0 <= i < n :: im.inodes[i] == FreeInode()
    ensures Sp.Used(im, n) == 0
  {
    if n > 0 { NothingUsed(im, n - 1); }
  }

  lemma NothingThere(im: I.Image)
    requires I.WellFormed(im) && forall i | 0 <= i < im.ninodes :: im.inodes[i] == FreeInode()
    ensures TreeOf(im) == map[] && WholeDirs(im) && (im.ninodes >= 2 ==> FreeInum(TreeOf(im), im.ninodes, 1) == 1)
  {
  }

  // isdirempty, entry by entry.
  method IsDirEmpty(fs: F.FileSystem, d: nat) returns (empty: bool)
    requires Ready(fs) && IsDir(T(fs), d)
    modifies fs
    ensures Ready(fs) && T(fs) == old(T(fs)) && fs.Im() == old(fs.Im())
    ensures empty <==> forall k | 2 <= k < |T(fs)[d].ents| :: T(fs)[d].ents[k].inum == 0
  {
    hide I.Inv, Entries, I.Content, TreeOf, WholeDirs, DecodeDirent;
    ghost var im0 := fs.Im();
    NodeIs(im0, d);
    WholeDir(im0, d);
    EntriesSize(im0, d);
    ghost var ents := T(fs)[d].ents;
    assert ents == Entries(I.Content(im0, d));
    var off := 32;
    while off < fs.inodes[d].size
      invariant off % 16 == 0 && off >= 32 && fs.Im() == im0 && Ready(fs)
      invariant forall k | 2 <= k < off / 16 && k < |ents| :: ents[k].inum == 0
    {
      EntryOnDisk(im0, d, off / 16);
      var r, de := fs.Readi(d, off, 16);
      assert de == I.Content(im0, d)[off..off + 16];
      if Get16(de, 0) != 0 {
        return false;
      }
      off := off + 16;
    }
    empty := true;
  }

  lemma EntriesSize(im: I.Image, d: nat)
    requires I.WellFormed(im) && d < im.ninodes
    ensures |Entries(I.Content(im, d))| == im.inodes[d].size / 16
  {
  }

  lemma EntryOnDisk(im: I.Image, d: nat, k: nat)
    requires I.WellFormed(im) && d < im.ninodes && 16 * k + 16 <= im.inodes[d].size
    ensures |I.Content(im, d)| == im.inodes[d].size && k < |Entries(I.Content(im, d))|
    ensures Entries(I.Content(im, d))[k].inum == Get16(I.Content(im, d)[16 * k..16 * k + 16], 0)
  {
  }

  // sys_unlink. It cannot panic: the entry it clears is inside the directory.
  method Unlink(fs: F.FileSystem, cwd: nat, path: seq<byte>) returns (r: Outcome)
    requires Ready(fs) && Good(T(fs)) && cwd in T(fs)
    modifies fs
    ensures Closed(old(T(fs))) && Ready(fs)
    ensures r == UnlinkAt(old(T(fs)), cwd, path).1 != Panic
    ensures T(fs) == UnlinkAt(old(T(fs)), cwd, path).0
    ensures r.Done? ==> r.inum < |old(fs.inodes)|
    ensures Free(fs) == old(Free(fs)) + if r.Done? && r.inum !in T(fs) then Sp.BlocksFor(old(fs.inodes)[r.inum].size) else 0
    ensures |fs.disk| == old(|fs.disk|)
  {
    hide Elements, Find, FreeEntryOf, Clip, LinkTree.Inv, WalkParent, Walk, DirEmpty, Good, Refs, Ready, TreeOf, Sp.FreeCount;
    hide Sp.BlocksFor;
    ghost var t0 := T(fs);
    GoodIsClosed(t0);
    ParentIsDir(t0, cwd, path);
    var p := Namex(fs, cwd, path, true);
    if p == None {
      return Error;
    }
    var (dp, name) := p.value;
    GoodUnlink(t0, dp, name);
    if StrncmpEq(name, DOT, DIRSIZ) || StrncmpEq(name, DOTDOT, DIRSIZ) {
      DotNames(name);
      return Error;
    }
    DotNames(name);
    var found, ip, off := Look(fs, dp, name);
    if !found {
      return Error;
    }
    TypeIs(fs, ip);
    TypeIs(fs, dp);
    if fs.inodes[ip].nlink < 1 {
      return Panic;
    }
    if fs.inodes[ip].typ == T_DIR {
      EmptyIs(t0[ip].ents);
      var empty := IsDirEmpty(fs, ip);
      if !empty {
        return Error;
      }
    }
    RemoveEntry(fs, dp, off / 16, ip);
    return Done(ip);
  }

  // The second half of sys_unlink: entry k of dp is cleared and ip loses a link.
  method RemoveEntry(fs: F.FileSystem, dp: nat, k: nat, ip: nat)
    requires Ready(fs) && IsDir(T(fs), dp) && k < |T(fs)[dp].ents| && ip in T(fs) && ip != dp
    requires T(fs)[dp].nlink >= if T(fs)[ip].typ == T_DIR then 2 else 1
    requires ip < |fs.inodes|
    modifies fs
    ensures Ready(fs) && |fs.disk| == old(|fs.disk|)
    ensures var t1 := SetDirent(old(T(fs)), dp, k, UNUSED);
      var t2 := if t1[ip].typ == T_DIR then AddLink(t1, dp, -1) else t1;
      T(fs) == Reclaim(AddLink(t2, ip, -1), ip)
    ensures Free(fs) == old(Free(fs)) + if ip !in T(fs) then Sp.BlocksFor(old(fs.inodes)[ip].size) else 0
  {
    hide Ready, TreeOf, Sp.FreeCount, Sp.BlocksFor, Place;
    var cleared := ClearEntry(fs, dp, k);
    TypeIs(fs, ip);
    if fs.inodes[ip].typ == T_DIR {
      ChangeLinks(fs, dp, -1);
    }
    PutLast(fs, dp);
    ChangeLinks(fs, ip, -1);
    PutLast(fs, ip);
  }

  lemma EmptyIs(ents: seq<Dirent>)
    ensures DirEmpty(ents) <==> forall k | 2 <= k < |ents| :: ents[k].inum == 0
  {
  }

  lemma DotNames(name: seq<byte>)
    ensures StrncmpEq(name, DOT, DIRSIZ) <==> NameOf(name) == DOT
    ensures StrncmpEq(name, DOTDOT, DIRSIZ) <==> NameOf(name) == DOTDOT
  {
    NamecmpCorrect(name, DOT, DIRSIZ);
    NamecmpCorrect(name, DOTDOT, DIRSIZ);
    DotsLinked(1, 1);
  }

  lemma CountsKeepClosed(t: Tree, i: nat, x: int)
    requires Closed(t) && i in t
    ensures Closed(AddLink(t, i, x))
  {
  }
}
