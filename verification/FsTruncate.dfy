/** How the image evolves while an inode is truncated, and when inode records change. */
module FsTruncate {
  import opened DiskCodec
  import opened FsImage

  ghost predicate OthersSame(im: Image, im': Image, i: nat)
    requires WellFormed(im) && WellFormed(im') && SameShape(im, im')
  {
    forall k | 0 <= k < im.ninodes && k != i :: SameFile(im, im', k)
  }

  lemma OthersCompose(im: Image, im1: Image, im2: Image, i: nat)
    requires WellFormed(im) && WellFormed(im1) && WellFormed(im2) && SameShape(im, im1) && SameShape(im1, im2)
    requires OthersSame(im, im1, i) && OthersSame(im1, im2, i)
    ensures OthersSame(im, im2, i)
  {
    hide OnDisk, Ptr, ByteAt;
    forall k | 0 <= k < im.ninodes && k != i
      ensures SameFile(im, im2, k)
    {
      assert SameFile(im, im1, k) && SameFile(im1, im2, k);
    }
  }

  // Inode i has a pointer to block x.
  ghost predicate Reaches(im: Image, i: nat, x: nat)
    requires WellFormed(im)
  {
    x != 0 && exists s :: ValidSlot(im, s) && s.ino == i && Ptr(im, s) == x
  }

  // No block of another inode has lost its owner, and no block has gained one.
  ghost predicate Kept(owner0: map<nat, Slot>, owner: map<nat, Slot>, i: nat) {
    && (forall b | b in owner :: b in owner0 && owner0[b] == owner[b])
    && (forall b | b in owner0 && owner0[b].ino != i :: b in owner)
  }

  // Inode i of im0 is being taken apart; the slots in dead lead to freed blocks.
  ghost predicate Trimming(im0: Image, owner0: map<nat, Slot>, im: Image, owner: map<nat, Slot>, dead: set<Slot>,
                           i: nat) {
    && WellFormed(im0) && SameShape(im0, im) && i < im.ninodes
    && Owned(im, owner, dead)
    && (forall s | s in dead :: s.ino == i)
    && SameInodesBut(im0, im, i)
    && SameRecords(im0, im)
    && OthersSame(im0, im, i)
    && Kept(owner0, owner, i)
  }

  lemma TrimRelease(im0: Image, owner0: map<nat, Slot>, im: Image, owner: map<nat, Slot>, dead: set<Slot>, i: nat,
                    im': Image, b: nat)
    requires Trimming(im0, owner0, im, owner, dead, i) && Releasable(im, owner, dead, b) && owner[b].ino == i
    requires Released(im, im', b)
    ensures Trimming(im0, owner0, im', owner - {b}, dead + {owner[b]}, i)
  {
    ReleaseKeepsOwned(im, im', owner, dead, b);
    hide Marked, OnDisk, ByteAt, Ptr, Owned;
    forall k | 0 <= k < im.ninodes && k != i
      ensures SameFile(im0, im', k)
    {
      assert SameFile(im0, im, k);
      forall s | ValidSlot(im, s) && s.ino == k
        ensures Ptr(im', s) == Ptr(im, s)
      {
        ReleaseKeepsPtr(im, im', owner, dead, b, s);
      }
      forall p | 0 <= p
        ensures ByteAt(im', k, p) == ByteAt(im, k, p)
      {
        ReleaseKeepsBytes(im, im', owner, dead, b, k, p);
      }
    }
  }

  lemma TrimClear(im0: Image, owner0: map<nat, Slot>, im: Image, owner: map<nat, Slot>, dead: set<Slot>, i: nat, k: nat)
    requires Trimming(im0, owner0, im, owner, dead, i) && k <= NDIRECT
    requires (if k < NDIRECT then Data(i, k) else Indirect(i)) in dead
    requires k == NDIRECT ==> forall n | NDIRECT <= n < MAXFILE :: Ptr(im, Data(i, n)) == 0
    requires forall s | s in dead :: s == (if k < NDIRECT then Data(i, k) else Indirect(i)) || (k == NDIRECT && s.Data? && NDIRECT <= s.n < MAXFILE)
    ensures Trimming(im0, owner0, WithAddr(im, i, k, 0), owner, {}, i)
  {
    assert WellFormed(im);
    hide Marked, OnDisk, ByteAt, Ptr, Owned;
    var im' := WithAddr(im, i, k, 0);
    var gone := if k < NDIRECT then Data(i, k) else Indirect(i);
    ClearDeadAddr(im, owner, dead, i, k);
    ClearedAddr(im, i, k);
    NothingDead(im', owner, dead);
    SameDiskSameMetadata(im, im');
    forall m | 0 <= m < im.ninodes && m != i
      ensures SameFile(im0, im', m)
    {
      assert SameFile(im0, im, m);
      forall p | 0 <= p
        ensures ByteAt(im', m, p) == ByteAt(im, m, p)
      {
        SamePtrSameByte(im, im', m, p);
      }
    }
  }

  lemma ClearedAddr(im: Image, i: nat, k: nat)
    requires WellFormed(im) && i < im.ninodes && k <= NDIRECT && WellFormed(WithAddr(im, i, k, 0))
    ensures Ptr(WithAddr(im, i, k, 0), if k < NDIRECT then Data(i, k) else Indirect(i)) == 0
  {
  }

  lemma SamePtrSameByte(im: Image, im': Image, m: nat, p: nat)
    requires WellFormed(im) && WellFormed(im') && SameShape(im, im') && m < im.ninodes && im'.disk == im.disk
    requires p / 512 < MAXFILE ==> Ptr(im', Data(m, p / 512)) == Ptr(im, Data(m, p / 512))
    ensures ByteAt(im', m, p) == ByteAt(im, m, p)
  {
  }

  // The blocks that itrunc frees are its inode's own, and marked.
  lemma DirectReleasable(im: Image, owner: map<nat, Slot>, i: nat, k: nat)
    requires Owned(im, owner, {}) && i < im.ninodes && k < NDIRECT && im.inodes[i].addrs[k] != 0
    ensures var b := im.inodes[i].addrs[k];
      Releasable(im, owner, {}, b) && owner[b] == Data(i, k) && Marked(im, b)
  {
    hide Marked, Entry;
    var b := im.inodes[i].addrs[k];
    assert Ptr(im, Data(i, k)) == b;
    assert OwnerOk(im, b, owner[b], {});
  }

  lemma EntryReleasable(im: Image, owner: map<nat, Slot>, dead: set<Slot>, i: nat, j: nat, b: nat)
    requires Owned(im, owner, dead) && i < im.ninodes && j < NINDIRECT && im.inodes[i].addrs[NDIRECT] != 0
    requires b == Entry(At(im, im.inodes[i].addrs[NDIRECT]), j) != 0
    requires forall s | s in dead :: s.Data? && s.ino == i && s.n < NDIRECT + j
    ensures Releasable(im, owner, dead, b) && owner[b] == Data(i, NDIRECT + j) && Marked(im, b)
    ensures b != im.inodes[i].addrs[NDIRECT]
  {
    hide Marked, Entry;
    assert Ptr(im, Data(i, NDIRECT + j)) == b;
    assert OwnerOk(im, b, owner[b], dead);
    var ind := im.inodes[i].addrs[NDIRECT];
    assert Ptr(im, Indirect(i)) == ind;
  }

  lemma IndirectReleasable(im: Image, owner: map<nat, Slot>, dead: set<Slot>, i: nat)
    requires Owned(im, owner, dead) && i < im.ninodes && im.inodes[i].addrs[NDIRECT] != 0
    requires forall s | s in dead :: s.Data?
    requires forall m | 0 <= m < NINDIRECT :: Entry(At(im, im.inodes[i].addrs[NDIRECT]), m) == 0 || Data(i, NDIRECT + m) in dead
    ensures var b := im.inodes[i].addrs[NDIRECT];
      Releasable(im, owner, dead, b) && owner[b] == Indirect(i) && Marked(im, b)
  {
    hide Marked, Entry;
    var b := im.inodes[i].addrs[NDIRECT];
    assert Ptr(im, Indirect(i)) == b;
    assert OwnerOk(im, b, owner[b], dead);
    forall n | NDIRECT <= n < MAXFILE && Data(i, n) !in dead
      ensures Ptr(im, Data(i, n)) == 0
    {
      assert Entry(At(im, b), n - NDIRECT) == 0;
    }
  }

  lemma ZeroIndirect(im: Image, i: nat)
    requires WellFormed(im) && i < im.ninodes && At(im, im.inodes[i].addrs[NDIRECT]) == ZeroBlock()
    ensures forall n | NDIRECT <= n < MAXFILE :: Ptr(im, Data(i, n)) == 0
  {
    hide Entry;
    forall n | NDIRECT <= n < MAXFILE
      ensures Ptr(im, Data(i, n)) == 0
    {
      ZeroBlockEntries(n - NDIRECT);
    }
  }

  lemma TrimmingShape(im0: Image, owner0: map<nat, Slot>, im: Image, owner: map<nat, Slot>, dead: set<Slot>, i: nat)
    requires Trimming(im0, owner0, im, owner, dead, i)
    ensures WellFormed(im0) && WellFormed(im) && SameShape(im0, im) && i < im.ninodes && Owned(im, owner, dead)
    ensures OthersSame(im0, im, i) && |im.inodes| == im.ninodes && |im.inodes[i].addrs| == NDIRECT + 1
  {
  }

  lemma TrimmingStarts(im0: Image, owner0: map<nat, Slot>, i: nat)
    requires Inv(im0, owner0) && i < im0.ninodes
    ensures Trimming(im0, owner0, im0, owner0, {}, i)
  {
  }

  lemma OwnedShape(im: Image, owner: map<nat, Slot>, i: nat)
    requires Owned(im, owner, {}) && i < im.ninodes
    ensures WellFormed(im) && |im.inodes| == im.ninodes && |im.inodes[i].addrs| == NDIRECT + 1
  {
  }

  // One turn of itrunc's first loop: bfree, then the pointer is cleared.
  lemma TrimDirect(im0: Image, owner0: map<nat, Slot>, im: Image, im1: Image, owner: map<nat, Slot>, i: nat, k: nat)
    requires Trimming(im0, owner0, im, owner, {}, i) && k < NDIRECT && im.inodes[i].addrs[k] != 0
    requires Released(im, im1, im.inodes[i].addrs[k])
    ensures Trimming(im0, owner0, WithAddr(im1, i, k, 0), owner - {im.inodes[i].addrs[k]}, {}, i)
    ensures WellFormed(WithAddr(im1, i, k, 0))
  {
    hide Marked, OnDisk, ByteAt, Ptr, Entry;
    var b := im.inodes[i].addrs[k];
    DirectReleasable(im, owner, i, k);
    TrimRelease(im0, owner0, im, owner, {}, i, im1, b);
    assert {} + {Data(i, k)} == {Data(i, k)};
    TrimClear(im0, owner0, im1, owner - {b}, {Data(i, k)}, i, k);
  }

  // One turn of the second loop.
  lemma TrimEntry(im0: Image, owner0: map<nat, Slot>, im: Image, im1: Image, owner: map<nat, Slot>, dead: set<Slot>,
                  i: nat, j: nat, b: nat)
    requires Trimming(im0, owner0, im, owner, dead, i) && j < NINDIRECT && im.inodes[i].addrs[NDIRECT] != 0
    requires b == Entry(At(im, im.inodes[i].addrs[NDIRECT]), j) != 0
    requires forall s | s in dead :: s.Data? && s.ino == i && s.n < NDIRECT + j
    requires Released(im, im1, b)
    ensures Trimming(im0, owner0, im1, owner - {b}, dead + {Data(i, NDIRECT + j)}, i)
    ensures WellFormed(im1) && At(im1, im.inodes[i].addrs[NDIRECT]) == At(im, im.inodes[i].addrs[NDIRECT])
  {
    EntryReleasable(im, owner, dead, i, j, b);
    TrimRelease(im0, owner0, im, owner, dead, i, im1, b);
    hide Marked, OnDisk, ByteAt, Entry;
    var ind := im.inodes[i].addrs[NDIRECT];
    assert Ptr(im, Indirect(i)) == ind;
    assert OwnerOk(im, ind, owner[ind], dead);
  }

  // The end of the second half: bfree of the indirect block, then its pointer is cleared.
  lemma TrimIndirect(im0: Image, owner0: map<nat, Slot>, im: Image, im1: Image, owner: map<nat, Slot>,
                     dead: set<Slot>, i: nat)
    requires Trimming(im0, owner0, im, owner, dead, i) && im.inodes[i].addrs[NDIRECT] != 0
    requires forall s | s in dead :: s.Data? && NDIRECT <= s.n < MAXFILE
    requires forall m | 0 <= m < NINDIRECT :: Entry(At(im, im.inodes[i].addrs[NDIRECT]), m) == 0 || Data(i, NDIRECT + m) in dead
    requires Released(im, im1, im.inodes[i].addrs[NDIRECT])
    ensures Trimming(im0, owner0, WithAddr(im1, i, NDIRECT, 0), owner - {im.inodes[i].addrs[NDIRECT]}, {}, i)
    ensures WellFormed(WithAddr(im1, i, NDIRECT, 0))
  {
    hide Marked, OnDisk, ByteAt, Ptr, Entry;
    var ind := im.inodes[i].addrs[NDIRECT];
    IndirectReleasable(im, owner, dead, i);
    TrimRelease(im0, owner0, im, owner, dead, i, im1, ind);
    ZeroIndirect(im1, i);
    TrimClear(im0, owner0, im1, owner - {ind}, dead + {Indirect(i)}, i, NDIRECT);
  }

  // The slots of the non-zero ones among the first j entries of the indirect block a.
  ghost function DeadEntries(i: nat, a: Block, j: nat): (dead: set<Slot>)
    requires j <= NINDIRECT
    ensures forall s | s in dead :: s.Data? && s.ino == i && NDIRECT <= s.n < NDIRECT + j
    ensures forall m | 0 <= m < j && Entry(a, m) != 0 :: Data(i, NDIRECT + m) in dead
  {
    if j == 0 then {} else
    if Entry(a, j - 1) == 0 then DeadEntries(i, a, j - 1) else DeadEntries(i, a, j - 1) + {Data(i, NDIRECT + j - 1)}
  }

  // With its pointers gone, the inode owns nothing and reads as empty.
  lemma Trimmed(im0: Image, owner0: map<nat, Slot>, im: Image, owner: map<nat, Slot>, i: nat)
    requires Inv(im0, owner0) && Trimming(im0, owner0, im, owner, {}, i)
    requires forall k | 0 <= k <= NDIRECT :: im.inodes[i].addrs[k] == 0
    ensures Growing(im, owner, i, 0)
    ensures forall x | 0 <= x < |im.disk| :: Marked(im, x) <==> Marked(im0, x) && !Reaches(im0, i, x)
  {
    NoPointers(im, i);
    hide Marked, OnDisk, Ptr, ByteAt, Dense, Reaches;
    forall k | 0 <= k < im.ninodes && k != i
      ensures Settled(im, k)
    {
      assert SameFile(im0, im, k);
      SameFileSettled(im0, im, k);
    }
    forall x | 0 <= x < |im.disk|
      ensures Marked(im, x) <==> Marked(im0, x) && !Reaches(im0, i, x)
    {
      TrimmedMark(im0, owner0, im, owner, i, x);
    }
  }

  lemma NoPointers(im: Image, i: nat)
    requires WellFormed(im) && i < im.ninodes
    requires forall k | 0 <= k <= NDIRECT :: im.inodes[i].addrs[k] == 0
    ensures forall s | ValidSlot(im, s) && s.ino == i :: Ptr(im, s) == 0
    ensures Dense(im, i, 0)
  {
  }

  lemma TrimmedMark(im0: Image, owner0: map<nat, Slot>, im: Image, owner: map<nat, Slot>, i: nat, x: nat)
    requires Owned(im0, owner0, {}) && Trimming(im0, owner0, im, owner, {}, i) && x < |im.disk|
    requires forall s | ValidSlot(im, s) && s.ino == i :: Ptr(im, s) == 0
    ensures Marked(im, x) <==> Marked(im0, x) && !Reaches(im0, i, x)
  {
    OwnerReaches(im0, owner0, i, x);
    hide Marked, OnDisk, Ptr, Reaches, SameFile, SameRecords, SameInodesBut, OthersSame;
    assert Marked(im, x) <==> x < DataStart(im) || x in owner;
    assert Marked(im0, x) <==> x < DataStart(im0) || x in owner0;
    if x in owner {
      assert OwnerOk(im, x, owner[x], {});
    }
    if x in owner0 {
      assert OwnerOk(im0, x, owner0[x], {});
    }
  }

  lemma OwnerReaches(im: Image, owner: map<nat, Slot>, i: nat, x: nat)
    requires Owned(im, owner, {})
    ensures Reaches(im, i, x) <==> x in owner && owner[x].ino == i
  {
    hide Marked, Ptr;
    if x in owner {
      assert OwnerOk(im, x, owner[x], {});
    }
  }

  // Records and inode fields other than block addresses carry no ownership.
  ghost predicate MetaOnly(im: Image, im': Image) {
    && WellFormed(im) && WellFormed(im') && SameShape(im, im')
    && (forall k | 0 <= k < im.ninodes :: im'.inodes[k].addrs == im.inodes[k].addrs)
    && SameBits(im, im') && SameDataBut(im, im', 0)
  }

  lemma MetaKeepsPtr(im: Image, im': Image, owner: map<nat, Slot>, s: Slot)
    requires MetaOnly(im, im') && Owned(im, owner, {}) && ValidSlot(im, s)
    ensures Ptr(im', s) == Ptr(im, s)
  {
    hide Marked, Entry;
    if im.inodes[s.ino].addrs[NDIRECT] != 0 {
      IndirectOwned(im, owner, s.ino);
    }
  }

  lemma MetaKeepsOwned(im: Image, im': Image, owner: map<nat, Slot>)
    requires MetaOnly(im, im') && Owned(im, owner, {})
    ensures Owned(im', owner, {}) && SameBytes(im, im')
    ensures forall s | ValidSlot(im, s) :: Ptr(im', s) == Ptr(im, s)
  {
    hide Marked, Ptr;
    forall s | ValidSlot(im, s)
      ensures Ptr(im', s) == Ptr(im, s)
    {
      MetaKeepsPtr(im, im', owner, s);
    }
    forall x | x in owner
      ensures OwnerOk(im', x, owner[x], {})
    {
      assert OwnerOk(im, x, owner[x], {});
    }
    forall k, p | 0 <= k < im.ninodes && 0 <= p
      ensures ByteAt(im', k, p) == ByteAt(im, k, p)
    {
      var s := Data(k, p / 512);
      if p / 512 < MAXFILE && Ptr(im, s) != 0 {
        assert OwnerOk(im, Ptr(im, s), s, {});
      }
    }
  }

  // Inode i became ip in core, and iupdate wrote it out.
  ghost predicate Updated(im: Image, im': Image, i: nat, ip: Inode) {
    && WellFormed(im) && WellFormed(im') && SameShape(im, im') && i < im.ninodes
    && im'.inodes == im.inodes[i := ip]
    && SameBits(im, im') && SameRecordsBut(im, im', i) && OnDisk(im', i) == ip && SameDataBut(im, im', 0)
  }

  lemma RecordUpdates(im: Image, i: nat, ip: Inode)
    requires WellFormed(im) && i < im.ninodes && InodeOk(ip)
    ensures WellFormed(WithInode(im, i, ip)) && Updated(im, WithRecord(WithInode(im, i, ip), i, ip), i, ip)
  {
    hide Marked, OnDisk, PutInode;
    var im1 := WithInode(im, i, ip);
    SameDiskSameMetadata(im, im1);
    RecordChanges(im1, i, ip);
  }

  lemma UpdateSettles(im: Image, im': Image, owner: map<nat, Slot>, i: nat, ip: Inode, top: nat)
    requires Growing(im, owner, i, top) && Updated(im, im', i, ip) && ip.addrs == im.inodes[i].addrs && ip.size == top
    requires ip.typ == 0 ==> ip.size == 0
    ensures Inv(im', owner) && SameBytes(im, im') && OthersSame(im, im', i)
  {
    hide Marked, OnDisk, ByteAt, Ptr, Dense;
    MetaKeepsOwned(im, im', owner);
    forall k | 0 <= k < im.ninodes
      ensures Settled(im', k)
    {
      assert k != i ==> Settled(im, k);
      DenseCarries(im, im', k, if k == i then top else im.inodes[k].size);
    }
  }

  lemma DenseCarries(im: Image, im': Image, k: nat, top: nat)
    requires WellFormed(im) && WellFormed(im') && SameShape(im, im') && k < im.ninodes && Dense(im, k, top)
    requires SameBytes(im, im') && forall s | ValidSlot(im, s) :: Ptr(im', s) == Ptr(im, s)
    ensures Dense(im', k, top)
  {
    hide ByteAt, Ptr;
    assert ValidSlot(im, Indirect(k));
    forall n | 0 <= n < MAXFILE
      ensures Ptr(im', Data(k, n)) != 0 <==> n * 512 < top
    {
      assert ValidSlot(im, Data(k, n));
      assert Ptr(im, Data(k, n)) != 0 <==> n * 512 < top;
    }
    forall p | p >= top
      ensures ByteAt(im', k, p) == 0
    {
      assert ByteAt(im, k, p) == 0;
    }
  }
}
