/** Formatting an image, and taking a free inode into use. */
module FsInodes {
  import opened DiskCodec
  import opened FsImage
  import opened FsTruncate

  // No inode is in use, the bits of the blocks below b are set, and the rest is zero.
  ghost predicate Formatting(im: Image, b: nat) {
    && WellFormed(im)
    && (forall i | 0 <= i < im.ninodes :: im.inodes[i] == FreeInode() && OnDisk(im, i) == FreeInode())
    && (forall x | 0 <= x < |im.disk| || |im.disk| <= x < BitsScanned(im) :: Marked(im, x) <==> x < b)
    && (forall x | DataStart(im) <= x < |im.disk| :: im.disk[x] == ZeroBlock())
  }

  lemma FormatStarts(im: Image)
    requires WellFormed(im)
    requires forall i | 0 <= i < im.ninodes :: im.inodes[i] == FreeInode()
    requires forall x | 0 <= x < |im.disk| :: im.disk[x] == ZeroBlock()
    ensures Formatting(im, 0)
  {
    Layout(im);
    forall i | 0 <= i < im.ninodes
      ensures OnDisk(im, i) == FreeInode()
    {
      ZeroRecord(i % 8);
    }
    forall x | 0 <= x < |im.disk| || |im.disk| <= x < BitsScanned(im)
      ensures !Marked(im, x)
    {
      ZeroBit(x % 4096);
    }
  }

  lemma ZeroRecord(k: nat)
    requires k < IPB
    ensures InodeIn(ZeroBlock(), k) == FreeInode()
  {
    assert InodeIn(ZeroBlock(), k).addrs == FreeInode().addrs;
  }

  lemma ZeroBit(k: nat)
    requires k < BPB
    ensures !BitOf(ZeroBlock(), k)
  {
    ZeroHasNoBits(k % 8);
  }

  lemma {:induction false} ZeroHasNoBits(k: nat)
    ensures !TestBit(0, k)
  {
    if k > 0 { ZeroHasNoBits(k - 1); }
  }

  lemma FormatBit(im: Image, b: nat)
    requires Formatting(im, b) && b < DataStart(im)
    ensures BBlock(im.ninodes, b) < |im.disk| && BBlock(im.ninodes, b) < DataStart(im)
    ensures Formatting(WithMark(im, b, true), b + 1)
  {
    hide Marked, OnDisk, WithMark;
    Layout(im);
    MarkChanges(im, b, true);
    forall x | |im.disk| <= x < BitsScanned(im)
      ensures !Marked(WithMark(im, b, true), x)
    {
      BeyondDisk(im, x);
      MarkOne(im, b, true, x);
    }
  }

  lemma BeyondDisk(im: Image, x: nat)
    requires WellFormed(im) && x < BitsScanned(im)
    ensures BBlock(im.ninodes, x) < DataStart(im)
  {
  }

  lemma FormatEnds(im: Image)
    requires Formatting(im, DataStart(im))
    ensures Inv(im, map[])
  {
    hide Marked, OnDisk;
    forall k | 0 <= k < im.ninodes
      ensures Settled(im, k)
    {
      NoPointers(im, k);
    }
    forall s | ValidSlot(im, s)
      ensures Ptr(im, s) == 0
    {
      NoPointers(im, s.ino);
    }
  }

  // The in-core inode equals its record.
  lemma RecordBlock(im: Image, owner: map<nat, Slot>, i: nat)
    requires Inv(im, owner) && i < im.ninodes
    ensures WellFormed(im) && |im.inodes| == im.ninodes && IBlock(i) < |im.disk|
    ensures InodeIn(im.disk[IBlock(i)], i % 8) == im.inodes[i]
  {
    hide Marked, Ptr, ByteAt, InodeIn;
    Layout(im);
    assert Settled(im, i);
  }

  // A free inode has no blocks, so overwriting its record with an empty typed one is safe.
  lemma FreshInode(im: Image, owner: map<nat, Slot>, i: nat, ip: Inode)
    requires Inv(im, owner) && i < im.ninodes && im.inodes[i].typ == 0
    requires ip == FreeInode().(typ := ip.typ)
    ensures WellFormed(im) && InodeOk(ip)
    ensures WellFormed(WithInode(im, i, ip))
    ensures var im' := WithRecord(WithInode(im, i, ip), i, ip);
      Inv(im', owner) && SameShape(im, im') && OthersSame(im, im', i) && SameBits(im, im')
  {
    hide Marked, Ptr, ByteAt, OnDisk, PutInode;
    EmptyInode(im, i);
    var im' := WithRecord(WithInode(im, i, ip), i, ip);
    RecordUpdates(im, i, ip);
    assert ip.addrs == im.inodes[i].addrs;
    assert Growing(im, owner, i, 0);
    UpdateSettles(im, im', owner, i, ip, 0);
  }

  lemma EmptyInode(im: Image, i: nat)
    requires WellFormed(im) && i < im.ninodes && Settled(im, i) && im.inodes[i].typ == 0
    ensures im.inodes[i].addrs == FreeInode().addrs && Dense(im, i, 0)
  {
    hide OnDisk, ByteAt;
    forall k | 0 <= k <= NDIRECT
      ensures im.inodes[i].addrs[k] == 0
    {
      if k < NDIRECT {
        assert Ptr(im, Data(i, k)) == im.inodes[i].addrs[k];
      } else {
        assert Ptr(im, Indirect(i)) == im.inodes[i].addrs[k];
      }
    }
  }

  lemma Retyped(im: Image, im': Image, owner: map<nat, Slot>, i: nat, ip: Inode)
    requires Inv(im, owner) && Updated(im, im', i, ip) && im.inodes[i].size == 0 && ip == im.inodes[i].(typ := 0)
    ensures Inv(im', owner) && SameShape(im, im') && OthersSame(im, im', i) && SameBits(im, im')
    ensures WellFormed(im) && WellFormed(im')
  {
    hide Marked, Ptr, ByteAt, OnDisk;
    assert Settled(im, i);
    UpdateSettles(im, im', owner, i, ip, 0);
  }
}
