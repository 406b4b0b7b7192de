/** Directory entries as dirlookup and dirlink meet them in the blocks of an inode. */
module FsDirectory {
  import opened DiskCodec
  import opened FsImage
  import opened FsTruncate
  import opened FsWrite
  import opened Directory

  // Entry e of inode i, also beyond the inode's size.
  function EntryAt(im: Image, i: nat, e: nat): Dirent
    requires WellFormed(im) && i < im.ninodes
  {
    DecodeDirent(seq<byte>(16, r requires 0 <= r => ByteAt(im, i, 16 * e + r)))
  }

  // Below the size these are the directory's entries; beyond it they are unused, because
  // the bytes there are zero.
  lemma EntriesAt(im: Image, owner: map<nat, Slot>, i: nat, e: nat)
    requires Inv(im, owner) && i < im.ninodes && im.inodes[i].size % 16 == 0
    ensures 16 * e < im.inodes[i].size ==> e < |Entries(Content(im, i))| && EntryAt(im, i, e) == Entries(Content(im, i))[e]
    ensures 16 * e >= im.inodes[i].size ==> EntryAt(im, i, e).inum == 0
  {
    hide Marked, Ptr, ByteAt, OnDisk, DecodeDirent;
    assert Settled(im, i);
    var bytes := seq(16, r requires 0 <= r => ByteAt(im, i, 16 * e + r));
    if 16 * e < im.inodes[i].size {
      assert Content(im, i)[16 * e..16 * e + 16] == bytes;
    } else {
      assert ByteAt(im, i, 16 * e) == 0 && ByteAt(im, i, 16 * e + 1) == 0;
      assert bytes[0] == 0 && bytes[1] == 0;
      UnusedEntry(bytes);
    }
  }

  lemma UnusedEntry(s: seq<byte>)
    requires |s| == 16 && s[0] == 0 && s[1] == 0
    ensures DecodeDirent(s).inum == 0
  {
  }

  // The 16-byte pieces of a mapped block are the entries at its positions.
  lemma BlockEntry(im: Image, i: nat, n: nat, j: nat)
    requires WellFormed(im) && i < im.ninodes && n < MAXFILE && j < 32
    requires 0 < Ptr(im, Data(i, n)) < |im.disk|
    ensures DecodeDirent(im.disk[Ptr(im, Data(i, n))][16 * j..16 * j + 16]) == EntryAt(im, i, 32 * n + j)
  {
    hide Marked, OnDisk, DecodeDirent, Ptr;
    var b := Ptr(im, Data(i, n));
    var piece := im.disk[b][16 * j..16 * j + 16];
    var bytes := seq(16, r requires 0 <= r => ByteAt(im, i, 16 * (32 * n + j) + r));
    forall r | 0 <= r < 16
      ensures piece[r] == bytes[r]
    {
      var p := 16 * (32 * n + j) + r;
      assert p / 512 == n && p % 512 == 16 * j + r;
      assert ByteAt(im, i, p) == im.disk[b][16 * j + r];
    }
    assert piece == bytes;
  }

  // The test in dirlookup's inner loop.
  lemma EntryMatches(de: seq<byte>, name: seq<byte>)
    requires |de| == 16
    ensures Get16(de, 0) == DecodeDirent(de).inum
    ensures Get16(de, 0) != 0 && StrncmpEq(name, de[2..], DIRSIZ) <==> Names(DecodeDirent(de), name)
  {
    hide Clip, StrncmpEq;
    NamecmpCorrect(name, de[2..], DIRSIZ);
  }

  // The scan saw no match below entry e and one at e, or none at all up to the size.
  lemma LookupResult(im: Image, owner: map<nat, Slot>, i: nat, name: seq<byte>, e: nat)
    requires Inv(im, owner) && i < im.ninodes && im.inodes[i].size % 16 == 0
    requires forall m | 0 <= m < e :: !Names(EntryAt(im, i, m), name)
    requires 16 * e >= im.inodes[i].size || Names(EntryAt(im, i, e), name)
    ensures var es := Entries(Content(im, i));
      && (Names(EntryAt(im, i, e), name) ==> Find(es, name) == e < |es| && EntryAt(im, i, e) == es[e])
      && (!Names(EntryAt(im, i, e), name) ==> Find(es, name) == |es|)
  {
    hide Inv, Content, EntryAt, Entries;
    InvShape(im, owner);
    var es := Entries(Content(im, i));
    EntriesAt(im, owner, i, e);
    forall m | 0 <= m < e && m < |es|
      ensures !Names(es[m], name)
    {
      EntriesAt(im, owner, i, m);
    }
    if Names(EntryAt(im, i, e), name) {
      FindIs(es, name, e);
    } else {
      FindIs(es, name, |es|);
    }
  }

  // dirlink's search: entry k is read as 16 bytes, and everything before it is in use.
  lemma EntryRead(content: seq<byte>, k: nat)
    requires 16 * k + 16 <= |content|
    ensures k < |Entries(content)|
    ensures Get16(content[16 * k..16 * k + 16], 0) == Entries(content)[k].inum
  {
  }

  // writei of one entry at the place found.
  lemma LinkedEntries(content: seq<byte>, off: nat, inum: nat, name: seq<byte>)
    requires |content| % 16 == 0 && off % 16 == 0 && off <= |content| && inum < 0x1_0000
    requires FreeEntryOf(Entries(content)) == off / 16
    ensures |Overwrite(content, off, EncodeDirent(inum, name))| % 16 == 0
    ensures Entries(Overwrite(content, off, EncodeDirent(inum, name)))
         == Place(Entries(content), FreeEntryOf(Entries(content)), Dirent(inum, NameOf(name)))
  {
    hide EncodeDirent, Entries, Clip, Overwrite, FreeEntryOf;
    PlaceEntry(content, off / 16, inum, name);
  }
}
