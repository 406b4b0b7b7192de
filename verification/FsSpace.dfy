/** How many blocks are free, and how many a file takes. */
module FsSpace {
  import opened DiskCodec
  import opened FsImage
  import opened FsTruncate
  import opened FsWrite

  ghost function FreeBlocks(im: Image): set<nat> { set b | 0 <= b < |im.disk| && !Marked(im, b) }

  ghost function FreeCount(im: Image): nat { |FreeBlocks(im)| }

  // The blocks of a file of that size, the indirect block among them.
  function BlocksFor(size: nat): nat { (size + 511) / 512 + if size > 6144 then 1 else 0 }

  lemma BlocksMonotone(a: nat, b: nat)
    requires a <= b
    ensures BlocksFor(a) <= BlocksFor(b)
  {
  }

  // What a write up to byte `end` adds to a file.
  function Growth(size: nat, end: nat): nat { if end <= size then 0 else BlocksFor(end) - BlocksFor(size) }

  // The blocks bmap has to allocate.
  ghost function Needed(im: Image, i: nat, n: nat): nat
    requires WellFormed(im) && i < im.ninodes && n < MAXFILE
  {
    if Ptr(im, Data(i, n)) != 0 then 0 else if n >= NDIRECT && Ptr(im, Indirect(i)) == 0 then 2 else 1
  }

  // ----- what the steps do to the free blocks -----

  lemma SameFree(im: Image, im': Image)
    requires |im'.disk| == |im.disk| && SameBits(im, im')
    ensures FreeCount(im') == FreeCount(im)
  {
    hide Marked;
    assert FreeBlocks(im') == FreeBlocks(im);
  }

  lemma OneTaken(im: Image, im': Image, b: nat)
    requires |im'.disk| == |im.disk| && SameBitsBut(im, im', b, true) && b < |im.disk| && !Marked(im, b)
    ensures FreeCount(im') == FreeCount(im) - 1
  {
    hide Marked;
    assert b in FreeBlocks(im);
    assert FreeBlocks(im') == FreeBlocks(im) - {b};
  }

  lemma {:induction false} SubsetSize<A>(s: set<A>, t: set<A>)
    requires s <= t
    ensures |s| <= |t|
  {
    if s != {} {
      var x :| x in s;
      SubsetSize(s - {x}, t - {x});
    }
  }

  lemma SomeFree(im: Image)
    ensures FreeCount(im) > 0 <==> exists x :: 0 <= x < |im.disk| && !Marked(im, x)
  {
    hide Marked;
    if x: nat :| x < |im.disk| && !Marked(im, x) { assert x in FreeBlocks(im); }
    if FreeCount(im) > 0 { var x :| x in FreeBlocks(im); }
  }

  // balloc and the store of the new number.
  lemma ClaimTakesOne(im: Image, im': Image, owner: map<nat, Slot>, s0: Slot, b: nat)
    requires Claims(im, im', owner, s0, b)
    ensures FreeCount(im') == FreeCount(im) - 1
    ensures forall s | ValidSlot(im, s) && s != s0 :: Ptr(im', s) == Ptr(im, s)
  {
    hide Marked, Ptr, OnDisk;
    OneTaken(im, im', b);
  }

  // The body of writei's loop needs the blocks by which the file grows.
  lemma NeedIsGrowth(im: Image, i: nat, pos: nat, m: nat, size: nat)
    requires WellFormed(im) && i < im.ninodes && pos < MAXBYTES && 0 < m <= 512 - pos % 512
    requires Dense(im, i, Max(size, pos))
    ensures pos / 512 < MAXFILE
    ensures Needed(im, i, pos / 512) == BlocksFor(Max(size, pos + m)) - BlocksFor(Max(size, pos))
  {
    hide Ptr, ByteAt;
    var n, top := pos / 512, Max(size, pos);
    assert Ptr(im, Data(i, n)) != 0 <==> n * 512 < top;
  }

  lemma GrowthSoFar(size: nat, off: nat, cnt: nat)
    requires off <= size
    ensures BlocksFor(Max(size, off + cnt)) == BlocksFor(size) + Growth(size, off + cnt)
    ensures BlocksFor(Max(size, off)) == BlocksFor(size)
  {
    BlocksMonotone(size, Max(size, off + cnt));
  }

  // ----- nothing is lost: free and used blocks add up to the data area -----

  // The blocks of the first n inodes.
  ghost function Used(im: Image, n: nat): nat
    requires n <= |im.inodes|
  {
    if n == 0 then 0 else Used(im, n - 1) + BlocksFor(im.inodes[n - 1].size)
  }

  ghost function DataBelow(owner: map<nat, Slot>, i: nat, m: nat): set<nat> {
    set b | b in owner && owner[b].Data? && owner[b].ino == i && owner[b].n < m
  }

  ghost function BlocksOf(owner: map<nat, Slot>, i: nat): set<nat> { set b | b in owner && owner[b].ino == i }

  ghost function OwnedBelow(owner: map<nat, Slot>, n: nat): set<nat> { set b | b in owner && owner[b].ino < n }

  lemma {:induction false} DataCount(im: Image, owner: map<nat, Slot>, i: nat, m: nat)
    requires Owned(im, owner, {}) && i < im.ninodes && m <= MAXFILE
    requires forall n | 0 <= n < m :: Ptr(im, Data(i, n)) != 0
    ensures |DataBelow(owner, i, m)| == m
  {
    hide Marked, Ptr;
    if m > 0 {
      DataCount(im, owner, i, m - 1);
      var b := Ptr(im, Data(i, m - 1));
      assert ValidSlot(im, Data(i, m - 1));
      forall c | c in DataBelow(owner, i, m)
        ensures c == b || c in DataBelow(owner, i, m - 1)
      {
        assert OwnerOk(im, c, owner[c], {});
      }
      assert DataBelow(owner, i, m) == DataBelow(owner, i, m - 1) + {b};
    } else {
      assert DataBelow(owner, i, 0) == {};
    }
  }

  lemma FileCount(im: Image, owner: map<nat, Slot>, i: nat)
    requires Inv(im, owner) && i < im.ninodes
    ensures |BlocksOf(owner, i)| == BlocksFor(im.inodes[i].size)
  {
    hide Marked, Ptr, OnDisk, ByteAt;
    assert Settled(im, i);
    var size := im.inodes[i].size;
    var m := (size + 511) / 512;
    forall n | 0 <= n < m
      ensures Ptr(im, Data(i, n)) != 0
    {
      assert Ptr(im, Data(i, n)) != 0 <==> n * 512 < size;
    }
    DataCount(im, owner, i, m);
    var ind := Ptr(im, Indirect(i));
    assert ValidSlot(im, Indirect(i));
    forall b | b in BlocksOf(owner, i)
      ensures b in DataBelow(owner, i, m) || (b == ind && size > 6144)
    {
      assert OwnerOk(im, b, owner[b], {});
      if owner[b].Data? { assert Ptr(im, Data(i, owner[b].n)) != 0 <==> owner[b].n * 512 < size; }
    }
    if size > 6144 {
      assert BlocksOf(owner, i) == DataBelow(owner, i, m) + {ind};
    } else {
      assert BlocksOf(owner, i) == DataBelow(owner, i, m);
    }
  }

  lemma {:induction false} OwnedCount(im: Image, owner: map<nat, Slot>, n: nat)
    requires Inv(im, owner) && n <= im.ninodes == |im.inodes|
    ensures |OwnedBelow(owner, n)| == Used(im, n)
  {
    hide Inv;
    if n == 0 {
      assert OwnedBelow(owner, 0) == {};
    } else {
      OwnedCount(im, owner, n - 1);
      FileCount(im, owner, n - 1);
      assert OwnedBelow(owner, n) == OwnedBelow(owner, n - 1) + BlocksOf(owner, n - 1);
      assert OwnedBelow(owner, n - 1) !! BlocksOf(owner, n - 1);
    }
  }

  predicate Between(lo: nat, b: nat, hi: nat) { lo <= b < hi }

  ghost function Area(lo: nat, hi: nat): set<nat> { set b: nat | b < hi && Between(lo, b, hi) }

  lemma {:induction false} AreaSize(lo: nat, hi: nat)
    requires lo <= hi
    ensures |Area(lo, hi)| == hi - lo
    decreases hi
  {
    if lo == hi {
      assert Area(lo, hi) == {};
    } else {
      AreaSize(lo, hi - 1);
      assert Area(lo, hi) == Area(lo, hi - 1) + {hi - 1};
    }
  }

  lemma Conservation(im: Image, owner: map<nat, Slot>)
    requires Inv(im, owner)
    ensures WellFormed(im) && FreeCount(im) + Used(im, im.ninodes) == |im.disk| - DataStart(im)
  {
    hide Marked, Ptr, Settled;
    var lo, hi := DataStart(im), |im.disk|;
    OwnedCount(im, owner, im.ninodes);
    forall b | b in owner
      ensures lo <= b < hi && owner[b].ino < im.ninodes
    {
      assert OwnerOk(im, b, owner[b], {});
    }
    assert OwnedBelow(owner, im.ninodes) == owner.Keys;
    assert Area(lo, hi) == FreeBlocks(im) + owner.Keys;
    assert FreeBlocks(im) !! owner.Keys;
    AreaSize(lo, hi);
  }

  lemma {:induction false} UsedCleared(im: Image, im': Image, i: nat, n: nat)
    requires |im'.inodes| == |im.inodes| && n <= |im.inodes| && i < |im.inodes| && im'.inodes[i].size == 0
    requires forall k | 0 <= k < |im.inodes| && k != i :: im'.inodes[k].size == im.inodes[k].size
    ensures Used(im, n) == Used(im', n) + if i < n then BlocksFor(im.inodes[i].size) else 0
  {
    if n > 0 { UsedCleared(im, im', i, n - 1); }
  }

  // Emptying one file gives back as many blocks as it took.
  lemma ClearedGivesBack(im: Image, im': Image, owner: map<nat, Slot>, owner': map<nat, Slot>, i: nat)
    requires Inv(im, owner) && Inv(im', owner') && SameShape(im, im') && i < im.ninodes && i < |im.inodes|
    requires im'.inodes == im.inodes[i := im'.inodes[i]] && im'.inodes[i].size == 0
    ensures FreeCount(im') == FreeCount(im) + BlocksFor(im.inodes[i].size)
  {
    hide Inv, FreeCount, BlocksFor;
    Conservation(im, owner);
    Conservation(im', owner');
    UsedCleared(im, im', i, im.ninodes);
  }
}
