/** The blocks and inodes of FileSystem read as the tree that create, link and unlink work on:
    each step those calls take has on disk exactly the effect it has on the tree. */
module FsTree {
  import opened DiskCodec
  import opened FsImage
  import opened FsTruncate
  import opened FsWrite
  import opened FsInodes
  import opened FsSpace
  import opened Directory
  import opened FileSystem
  import L = LinkTree

  function NodeAt(im: Image, i: nat): L.Node
    requires WellFormed(im) && i < im.ninodes
  {
    L.Node(im.inodes[i].typ, im.inodes[i].nlink,
           if im.inodes[i].typ == T_DIR then Entries(Content(im, i)) else [],
           L.Dev(im.inodes[i].major, im.inodes[i].minor),
           if im.inodes[i].typ == T_DIR then [] else Content(im, i))
  }

  // The tree an image stands for: its allocated inodes with their counts and entries.
  function TreeOf(im: Image): L.Tree
    requires WellFormed(im)
  {
    map i: nat | 0 <= i < im.ninodes && im.inodes[i].typ != 0 :: NodeAt(im, i)
  }

  // Directories hold whole entries.
  ghost predicate WholeDirs(im: Image)
    requires WellFormed(im)
  {
    forall i | 0 <= i < im.ninodes && im.inodes[i].typ == T_DIR :: im.inodes[i].size % 16 == 0
  }

  ghost predicate Ready(fs: FileSystem)
    reads fs
  {
    fs.Valid() && WellFormed(fs.Im()) && WholeDirs(fs.Im())
  }

  ghost function Free(fs: FileSystem): nat
    reads fs
  {
    FreeCount(fs.Im())
  }

  // The blocks that one more entry in directory d takes.
  function EntryGrowth(t: L.Tree, d: nat): nat
    requires d in t
  {
    Growth(16 * |t[d].ents|, 16 * L.RoomFor(t, d) + 16)
  }

  // ----- from bytes to nodes -----

  lemma SameNode(im: Image, im': Image, k: nat)
    requires WellFormed(im) && WellFormed(im') && SameShape(im, im') && k < im.ninodes && SameFile(im, im', k)
    ensures NodeAt(im', k) == NodeAt(im, k)
  {
    hide ByteAt, Entries, OnDisk, Ptr;
    assert Content(im', k) == Content(im, k);
  }

  // A step that touches inode i alone changes at most its node.
  lemma OneNode(im: Image, im': Image, i: nat)
    requires WellFormed(im) && WellFormed(im') && SameShape(im, im') && i < im.ninodes && OthersSame(im, im', i)
    requires WholeDirs(im) && (im'.inodes[i].typ == T_DIR ==> im'.inodes[i].size % 16 == 0)
    ensures WholeDirs(im')
    ensures im'.inodes[i].typ != 0 ==> TreeOf(im') == TreeOf(im)[i := NodeAt(im', i)]
    ensures im'.inodes[i].typ == 0 ==> TreeOf(im') == TreeOf(im) - {i}
  {
    hide NodeAt, SameFile;
    forall k: nat | k < im.ninodes && k != i
      ensures im'.inodes[k] == im.inodes[k] && NodeAt(im', k) == NodeAt(im, k)
    {
      assert SameFile(im, im', k);
      SameInode(im, im', k);
      SameNode(im, im', k);
    }
  }

  lemma SameInode(im: Image, im': Image, k: nat)
    requires WellFormed(im) && WellFormed(im') && SameShape(im, im') && k < im.ninodes && SameFile(im, im', k)
    ensures im'.inodes[k] == im.inodes[k]
  {
  }

  lemma NoEntries(im: Image, i: nat)
    requires WellFormed(im) && i < im.ninodes && im.inodes[i].size == 0
    ensures Entries(Content(im, i)) == [] && Content(im, i) == []
  {
  }

  // The zeroed entry that unlink writes.
  lemma ZeroEntry()
    ensures EncodeDirent(0, []) == seq<byte>(16, _ => 0) && NameOf([]) == []
  {
    PadZeros([], DIRSIZ);
  }

  lemma {:induction false} PadZeros(s: seq<byte>, n: nat)
    requires s == []
    ensures Padded(s, n) == seq<byte>(n, _ => 0)
  {
    if n > 0 { PadZeros(s, n - 1); }
  }

  // ----- the steps -----

  // dirlink.
  method LinkEntry(fs: FileSystem, d: nat, name: seq<byte>, inum: nat) returns (r: LinkResult)
    requires Ready(fs) && d in TreeOf(fs.Im()) && TreeOf(fs.Im())[d].typ == L.T_DIR && inum < 0x1_0000
    modifies fs
    ensures r == Exists <==> L.Lookup(old(TreeOf(fs.Im())), d, name) < |old(TreeOf(fs.Im()))[d].ents|
    ensures r == Exists ==> Ready(fs) && TreeOf(fs.Im()) == old(TreeOf(fs.Im()))
    ensures r == Linked ==>
              && Ready(fs)
              && TreeOf(fs.Im()) == L.SetDirent(old(TreeOf(fs.Im())), d, L.RoomFor(old(TreeOf(fs.Im())), d), Dirent(inum, NameOf(name)))
    ensures r == Linked ==> L.RoomFor(old(TreeOf(fs.Im())), d) < L.MAXENTRIES && |fs.disk| == old(|fs.disk|)
    ensures var t := old(TreeOf(fs.Im()));
      r == Panic <==> r != Exists && (L.RoomFor(t, d) == L.MAXENTRIES || EntryGrowth(t, d) > old(Free(fs)))
    ensures r == Linked ==> Free(fs) == old(Free(fs)) - EntryGrowth(old(TreeOf(fs.Im())), d)
    ensures r == Exists ==> fs.Im() == old(fs.Im())
  {
    hide FsImage.Inv, Entries, Content, OthersSame, FreeCount, Growth;
    ghost var im0 := fs.Im();
    DirSize(im0, d);
    r := fs.Dirlink(d, name, inum);
    if r == Linked {
      StillFormed(fs.Im(), fs.owner);
      OneNode(im0, fs.Im(), d);
    }
  }

  lemma DirSize(im: Image, d: nat)
    requires WellFormed(im) && WholeDirs(im) && d < im.ninodes && im.inodes[d].typ == T_DIR
    ensures 16 * |Entries(Content(im, d))| == im.inodes[d].size
  {
  }

  lemma StillFormed(im: Image, owner: map<nat, Slot>)
    requires Inv(im, owner)
    ensures WellFormed(im)
  {
  }

  // unlink's writei of a zeroed entry over entry k.
  method ClearEntry(fs: FileSystem, d: nat, k: nat) returns (ok: bool)
    requires Ready(fs) && d in TreeOf(fs.Im()) && TreeOf(fs.Im())[d].typ == L.T_DIR && k < |TreeOf(fs.Im())[d].ents|
    modifies fs
    ensures ok && Ready(fs) && TreeOf(fs.Im()) == L.SetDirent(old(TreeOf(fs.Im())), d, k, L.UNUSED)
    ensures Free(fs) == old(Free(fs)) && |fs.disk| == old(|fs.disk|)
    ensures forall i | 0 <= i < |old(fs.inodes)| && i != d :: i < |fs.inodes| && fs.inodes[i] == old(fs.inodes)[i]
  {
    hide FsImage.Inv, Entries, Content, OthersSame, Overwrite, EncodeDirent, FreeCount, SameFile;
    ghost var im0 := fs.Im();
    var de: seq<byte> := seq(16, _ => 0);
    ZeroEntry();
    WithinDir(im0, d, k);
    PlaceEntry(Content(im0, d), k, 0, []);
    InDir(im0, fs.owner, d);
    var w := fs.Writei(d, de, 16 * k, 16);
    ok := w == Count(16);
    assert de[..16] == de;
    StillFormed(fs.Im(), fs.owner);
    OneNode(im0, fs.Im(), d);
    OtherInodes(im0, fs.Im(), d);
  }

  lemma OtherInodes(im: Image, im': Image, d: nat)
    requires WellFormed(im) && WellFormed(im') && SameShape(im, im') && OthersSame(im, im', d)
    ensures forall i | 0 <= i < im.ninodes && i != d :: im'.inodes[i] == im.inodes[i]
  {
    hide SameFile;
    forall i | 0 <= i < im.ninodes && i != d
      ensures im'.inodes[i] == im.inodes[i]
    {
      SameInode(im, im', i);
    }
  }

  lemma WithinDir(im: Image, d: nat, k: nat)
    requires WellFormed(im) && d < im.ninodes && im.inodes[d].size % 16 == 0 && k < |Entries(Content(im, d))|
    ensures |Content(im, d)| == im.inodes[d].size && 16 * k + 16 <= im.inodes[d].size
  {
  }

  lemma InDir(im: Image, owner: map<nat, Slot>, d: nat)
    requires Inv(im, owner) && d < im.ninodes
    ensures im.inodes[d].size <= 71680
  {
    assert Settled(im, d);
  }

  // A count or device numbers changed in core and written by iupdate.
  method SetMeta(fs: FileSystem, i: nat, ip: Inode)
    requires Ready(fs) && i in TreeOf(fs.Im()) && OnlyMeta(fs.inodes[i], ip)
    modifies fs
    ensures Ready(fs) && fs.inodes == old(fs.inodes)[i := ip]
    ensures TreeOf(fs.Im()) == old(TreeOf(fs.Im()))[i := old(TreeOf(fs.Im()))[i].(nlink := ip.nlink, dev := L.Dev(ip.major, ip.minor))]
    ensures Free(fs) == old(Free(fs)) && |fs.disk| == old(|fs.disk|)
  {
    hide FsImage.Inv, Entries, Content, OthersSame, SameFile, FreeCount;
    ghost var im0, owner0 := fs.Im(), fs.owner;
    RecordFits(im0, owner0, i, ip);
    fs.Store(i, ip);
    MetaStored(im0, fs.Im(), owner0, i, ip);
    UpdatedFree(im0, fs.Im(), i, ip);
    OneNode(im0, fs.Im(), i);
  }

  // nlink++ and nlink--.
  method ChangeLinks(fs: FileSystem, i: nat, delta: int)
    requires Ready(fs) && i in TreeOf(fs.Im())
    modifies fs
    ensures Ready(fs) && TreeOf(fs.Im()) == L.AddLink(old(TreeOf(fs.Im())), i, delta)
    ensures Free(fs) == old(Free(fs)) && |fs.disk| == old(|fs.disk|)
    ensures |fs.inodes| == |old(fs.inodes)| && forall k | 0 <= k < |fs.inodes| :: fs.inodes[k].size == old(fs.inodes)[k].size
  {
    hide FsImage.Inv, TreeOf, WholeDirs, Free;
    NodeIs(fs.Im(), i);
    var ip := fs.inodes[i];
    SetMeta(fs, i, ip.(nlink := ToShort(ip.nlink as int + delta)));
  }

  lemma WholeDir(im: Image, i: nat)
    requires WellFormed(im) && WholeDirs(im) && i < im.ninodes && im.inodes[i].typ == T_DIR
    ensures im.inodes[i].size % 16 == 0
  {
  }

  lemma NodeIs(im: Image, i: nat)
    requires WellFormed(im) && i in TreeOf(im)
    ensures i < im.ninodes && TreeOf(im)[i].typ == im.inodes[i].typ != 0 && TreeOf(im)[i].nlink == im.inodes[i].nlink
    ensures im.inodes[i].typ == T_DIR ==> TreeOf(im)[i].ents == Entries(Content(im, i))
    ensures TreeOf(im)[i].dev == L.Dev(im.inodes[i].major, im.inodes[i].minor)
    ensures im.inodes[i].typ != T_DIR ==> TreeOf(im)[i].data == Content(im, i)
  {
  }

  predicate OnlyMeta(ip: Inode, ip': Inode) {
    ip' == ip.(major := ip'.major, minor := ip'.minor, nlink := ip'.nlink)
  }

  lemma RecordFits(im: Image, owner: map<nat, Slot>, i: nat, ip: Inode)
    requires Inv(im, owner) && i < im.ninodes && OnlyMeta(im.inodes[i], ip)
    ensures WellFormed(im) && InodeOk(ip)
  {
  }

  lemma MetaStored(im: Image, im': Image, owner: map<nat, Slot>, i: nat, ip: Inode)
    requires Inv(im, owner) && Updated(im, im', i, ip) && OnlyMeta(im.inodes[i], ip)
    ensures Inv(im', owner) && WellFormed(im') && SameShape(im, im') && OthersSame(im, im', i)
    ensures Content(im', i) == Content(im, i)
  {
    hide Marked, Ptr, ByteAt, OnDisk, Owned, OthersSame;
    assert Settled(im, i);
    UpdateSettles(im, im', owner, i, ip, ip.size);
    SameContent(im, im', i);
  }

  lemma SameContent(im: Image, im': Image, i: nat)
    requires WellFormed(im) && WellFormed(im') && SameShape(im, im') && SameBytes(im, im') && i < im.ninodes
    requires im'.inodes[i].size == im.inodes[i].size
    ensures Content(im', i) == Content(im, i)
  {
    hide ByteAt;
  }

  // ialloc.
  method Allocate(fs: FileSystem, typ: short) returns (ok: bool, inum: nat)
    requires Ready(fs) && typ != 0
    modifies fs
    ensures Ready(fs) && (ok <==> L.FreeInum(old(TreeOf(fs.Im())), fs.ninodes, 1) < fs.ninodes)
    ensures ok ==>
              && inum == L.FreeInum(old(TreeOf(fs.Im())), fs.ninodes, 1)
              && TreeOf(fs.Im()) == old(TreeOf(fs.Im()))[inum := L.Node(typ, 0, [], L.Dev(0, 0), [])]
    ensures !ok ==> TreeOf(fs.Im()) == old(TreeOf(fs.Im()))
    ensures Free(fs) == old(Free(fs)) && |fs.disk| == old(|fs.disk|)
  {
    hide FsImage.Inv, Entries, Content, OthersSame, FreeCount, SameBits;
    ghost var im0 := fs.Im();
    ok, inum := fs.Ialloc(typ);
    StillFormed(fs.Im(), fs.owner);
    if ok {
      SameFree(im0, fs.Im());
      FirstFree(im0, 1, inum);
      NoEntries(fs.Im(), inum);
      OneNode(im0, fs.Im(), inum);
    } else {
      NoneFree(im0, 1);
    }
  }

  lemma {:induction false} FirstFree(im: Image, from: nat, i: nat)
    requires WellFormed(im) && from <= i < im.ninodes && im.inodes[i].typ == 0
    requires forall k | from <= k < i :: im.inodes[k].typ != 0
    ensures L.FreeInum(TreeOf(im), im.ninodes, from) == i
    decreases i - from
  {
    hide NodeAt;
    if from < i { FirstFree(im, from + 1, i); }
  }

  lemma {:induction false} NoneFree(im: Image, from: nat)
    requires WellFormed(im) && forall k | from <= k < im.ninodes :: im.inodes[k].typ != 0
    ensures L.FreeInum(TreeOf(im), im.ninodes, from) >= im.ninodes
    decreases im.ninodes - from
  {
    hide NodeAt;
    if from < im.ninodes { NoneFree(im, from + 1); }
  }

  // iput of the last reference.
  method PutLast(fs: FileSystem, i: nat)
    requires Ready(fs) && i in TreeOf(fs.Im())
    modifies fs
    ensures Ready(fs) && TreeOf(fs.Im()) == L.Reclaim(old(TreeOf(fs.Im())), i)
    ensures |fs.disk| == old(|fs.disk|) && i < |old(fs.inodes)|
    ensures old(TreeOf(fs.Im()))[i].nlink == 0 ==> Free(fs) == old(Free(fs)) + BlocksFor(old(fs.inodes)[i].size)
    ensures old(TreeOf(fs.Im()))[i].nlink != 0 ==> fs.Im() == old(fs.Im())
  {
    hide FsImage.Inv, Entries, Content, OthersSame, FreeCount;
    ghost var im0 := fs.Im();
    var left := fs.Iput(i, 1);
    StillFormed(fs.Im(), fs.owner);
    if im0.inodes[i].nlink == 0 {
      OneNode(im0, fs.Im(), i);
    }
  }
}
