/** kernel/fs.c: block allocation, the block map, truncation, reading and writing. The disk
    is what the buffer cache presents: bread is a block read, bwrite a block write. */
module FileSystem {
  import opened DiskCodec
  import opened FsImage
  import opened FsTruncate
  import opened FsInodes
  import opened FsWrite
  import opened FsSpace
  import opened Directory
  import opened FsDirectory

  const T_DIR: short := 1
  const T_FILE: short := 2
  const T_DEV: short := 3

  // What readi and writei return: a byte count, -1, the device driver's business, or a
  // kernel panic because no block below the superblock's size was free.
  datatype IoResult = Count(n: nat) | Fail | Device | OutOfBlocks

  // What dirlink returns: 0, -1, or a kernel panic.
  datatype LinkResult = Linked | Exists | Panic

  function Least(a: nat, b: nat): nat { if a < b then a else b }

  class FileSystem {
    const ninodes: nat
    var disk: seq<Block>
    var inodes: seq<Inode>
    ghost var owner: map<nat, Slot>

    ghost function Im(): Image
      reads this
    {
      Image(ninodes, disk, inodes)
    }

    ghost predicate Valid()
      reads this
    {
      Inv(Im(), owner)
    }

    // An empty file system, as tools/mkfs.c lays it out before it adds files: everything
    // zero except the bits of the metadata blocks.
    constructor Format(n: nat, size: nat)
      requires n / 8 + 3 + size / 4096 + 1 <= size < U32
      ensures ninodes == n && |disk| == size && Valid()
      ensures forall x | 0 <= x < |disk| || |disk| <= x < BitsScanned(Im()) :: Marked(Im(), x) <==> x < DataStart(Im())
      ensures forall i | 0 <= i < n :: inodes[i] == FreeInode()
    {
      ninodes := n;
      disk := seq(size, _ => ZeroBlock());
      inodes := seq(n, _ => FreeInode());
      owner := map[];
      new;
      hide Marked, OnDisk, Inv, Ptr, ByteAt, Owned, WithBit, BitOf;
      var b := 0;
      FormatStarts(Im());
      while b < n / 8 + 3 + size / 4096 + 1
        invariant 0 <= b <= n / 8 + 3 + size / 4096 + 1 && ninodes == n && |disk| == size && owner == map[]
        invariant Formatting(Im(), b)
      {
        FormatBit(Im(), b);
        disk := disk[BBlock(n, b) := WithBit(disk[BBlock(n, b)], b % 4096, true)];
        b := b + 1;
      }
      FormatEnds(Im());
    }

    // ----- blocks -----

    // Lowest clear bit. The inner loop runs to the end of the bitmap block, past size.
    method Balloc() returns (ok: bool, r: nat)
      requires WellFormed(Im())
      modifies `disk
      ensures ok ==> !Marked(old(Im()), r) && forall x | 0 <= x < r :: Marked(old(Im()), x)
      ensures ok ==> BBlock(ninodes, r) < DataStart(old(Im())) && Im() == WithMark(old(Im()), r, true)
      ensures !ok ==> disk == old(disk)
      ensures ok <==> exists x :: 0 <= x < BitsScanned(old(Im())) && !Marked(old(Im()), x)
      ensures ok && r < |disk| <==> exists x :: 0 <= x < |disk| && !Marked(old(Im()), x)
    {
      hide Marked, BBlock, BitOf, WithBit, WellFormed, DataStart;
      var b := 0;
      while b < |disk|
        invariant b % 4096 == 0 && disk == old(disk) && b <= BitsScanned(Im())
        invariant forall x | 0 <= x < b :: Marked(Im(), x)
      {
        BitOfBlock(Im(), b, 0);
        var data := disk[BBlock(ninodes, b)];
        var bi := 0;
        while bi < BPB
          invariant 0 <= bi <= BPB && disk == old(disk)
          invariant forall x | 0 <= x < b + bi :: Marked(Im(), x)
        {
          BitOfBlock(Im(), b, bi);
          if !BitOf(data, bi) {
            data := WithBit(data, bi, true);
            disk := disk[BBlock(ninodes, b) := data];
            return true, b + bi;
          }
          bi := bi + 1;
        }
        b := b + BPB;
      }
      assert Im() == old(Im()) && forall x | 0 <= x < |disk| :: Marked(Im(), x);
      return false, 0;
    }

    method Bwrite(b: nat, data: Block)
      requires b < |disk|
      modifies `disk
      ensures Im() == WithBlock(old(Im()), b, data)
    {
      disk := disk[b := data];
    }

    // Zero the block, then clear its bit; false stands for the panic "freeing free block".
    method Bfree(b: nat) returns (ok: bool)
      requires WellFormed(Im()) && DataStart(Im()) <= b < |disk|
      modifies `disk
      ensures ok <==> Marked(old(Im()), b)
      ensures Im() == if ok then WithMark(WithBlock(old(Im()), b, ZeroBlock()), b, false) else WithBlock(old(Im()), b, ZeroBlock())
    {
      hide BitOf;
      disk := disk[b := ZeroBlock()];
      DataWriteChanges(old(Im()), b, ZeroBlock());
      var data := disk[BBlock(ninodes, b)];
      var bi := b % 4096;
      assert Marked(Im(), b) == Marked(old(Im()), b);
      if !BitOf(data, bi) {
        return false;
      }
      data := WithBit(data, bi, false);
      disk := disk[BBlock(ninodes, b) := data];
      return true;
    }

    // Copy inode i to its record on disk.
    method Iupdate(i: nat)
      requires WellFormed(Im()) && i < ninodes
      modifies `disk
      ensures Im() == WithRecord(old(Im()), i, inodes[i])
    {
      Layout(Im());
      var data := disk[IBlock(i)];
      data := PutInode(data, i % 8, inodes[i]);
      disk := disk[IBlock(i) := data];
    }

    // balloc, and the new number stored in ip->addrs[k].
    method AllocAddr(i: nat, k: nat) returns (ok: bool, addr: nat)
      requires Owned(Im(), owner, {}) && i < ninodes && k <= NDIRECT && inodes[i].addrs[k] == 0
      modifies this
      ensures WellFormed(Im()) && SameShape(old(Im()), Im())
      ensures ok ==> ClaimsOrSame(old(Im()), Im(), old(owner), if k < NDIRECT then Data(i, k) else Indirect(i))
      ensures ok ==> Owned(Im(), owner, {}) && inodes[i].addrs[k] == addr != 0 && SameBytes(old(Im()), Im())
      ensures ok <==> old(FreeCount(Im())) > 0
      ensures ok ==> FreeCount(Im()) == old(FreeCount(Im())) - 1
      ensures ok ==> forall s | ValidSlot(old(Im()), s) && s != (if k < NDIRECT then Data(i, k) else Indirect(i)) ::
                Ptr(Im(), s) == Ptr(old(Im()), s)
    {
      hide Marked, OnDisk, ByteAt, FreeCount;
      SomeFree(Im());
      ok, addr := Balloc();
      if !ok { return; }
      ghost var im1 := Im();
      MarkChanges(old(Im()), addr, true);
      if addr >= |disk| {
        return false, 0;
      }
      inodes := inodes[i := inodes[i].(addrs := inodes[i].addrs[k := addr])];
      ghost var s0 := if k < NDIRECT then Data(i, k) else Indirect(i);
      ClaimAddr(old(Im()), im1, owner, i, k, addr);
      ClaimKeepsOwned(old(Im()), Im(), owner, s0, addr);
      ClaimKeepsBytes(old(Im()), Im(), owner, s0, addr);
      ClaimTakesOne(old(Im()), Im(), owner, s0, addr);
      owner := owner[addr := s0];
    }

    // balloc, and the new number stored in entry j of the indirect block `ind`.
    method AllocEntry(i: nat, j: nat, ind: nat) returns (ok: bool, addr: nat)
      requires Owned(Im(), owner, {}) && i < ninodes && j < NINDIRECT && ind < |disk|
      requires inodes[i].addrs[NDIRECT] == ind != 0 && Ptr(Im(), Data(i, NDIRECT + j)) == 0
      modifies this
      ensures WellFormed(Im()) && SameShape(old(Im()), Im())
      ensures ok ==> ClaimsOrSame(old(Im()), Im(), old(owner), Data(i, NDIRECT + j)) && Ptr(Im(), Data(i, NDIRECT + j)) == addr != 0
      ensures ok ==> Owned(Im(), owner, {}) && SameBytes(old(Im()), Im())
      ensures ok <==> old(FreeCount(Im())) > 0
      ensures ok ==> FreeCount(Im()) == old(FreeCount(Im())) - 1
    {
      hide Marked, OnDisk, ByteAt, FreeCount;
      SomeFree(Im());
      var data := disk[ind];
      ok, addr := Balloc();
      if !ok { return; }
      ghost var im1 := Im();
      MarkChanges(old(Im()), addr, true);
      if addr >= |disk| {
        return false, 0;
      }
      data := PutEntry(data, j, addr);
      disk := disk[ind := data];
      ghost var s0 := Data(i, NDIRECT + j);
      ClaimEntry(old(Im()), im1, owner, i, j, addr);
      ClaimKeepsOwned(old(Im()), Im(), owner, s0, addr);
      ClaimKeepsBytes(old(Im()), Im(), owner, s0, addr);
      ClaimTakesOne(old(Im()), Im(), owner, s0, addr);
      owner := owner[addr := s0];
    }

    // Inode i becomes ip in core and, by iupdate, on disk.
    method Store(i: nat, ip: Inode)
      requires WellFormed(Im()) && i < ninodes && InodeOk(ip)
      modifies `disk, `inodes
      ensures Updated(old(Im()), Im(), i, ip) && inodes == old(inodes)[i := ip]
    {
      hide Updated, PutInode;
      RecordUpdates(Im(), i, ip);
      inodes := inodes[i := ip];
      Iupdate(i);
    }

    // The disk block of file block bn of inode i, allocating it when there is none.
    // false stands for the panic "balloc: out of blocks" and for a block beyond the disk, and
    // comes exactly when fewer blocks are free than it needs.
    method Bmap(i: nat, bn: nat) returns (ok: bool, addr: nat)
      requires Owned(Im(), owner, {}) && i < ninodes && bn < MAXFILE
      modifies this
      ensures ok ==> Owned(Im(), owner, {}) && Maps(old(Im()), Im(), i, bn, addr)
      ensures ok <==> Needed(old(Im()), i, bn) <= old(FreeCount(Im()))
      ensures ok ==> FreeCount(Im()) == old(FreeCount(Im())) - Needed(old(Im()), i, bn)
    {
      hide Marked, OnDisk, ByteAt, Claims, Owned, FreeCount;
      OwnedShape(Im(), owner, i);
      ghost var im0, owner0 := Im(), owner;
      if bn < NDIRECT {
        addr := inodes[i].addrs[bn];
        if addr == 0 {
          ok, addr := AllocAddr(i, bn);
          if !ok { return; }
        }
        ClaimsMap(im0, im0, Im(), owner0, owner0, i, bn);
        return true, addr;
      }
      var j := bn - NDIRECT;
      addr := inodes[i].addrs[NDIRECT];
      if addr == 0 {
        ok, addr := AllocAddr(i, NDIRECT);
        if !ok { return; }
      }
      ghost var im1, owner1 := Im(), owner;
      var ind := addr;
      assert Ptr(im1, Data(i, bn)) == Ptr(im0, Data(i, bn));
      IndirectOwned(im1, owner, i);
      addr := Entry(disk[ind], j);
      if addr == 0 {
        ok, addr := AllocEntry(i, j, ind);
        if !ok { return; }
      }
      ClaimsMap(im0, im1, Im(), owner0, owner1, i, bn);
      return true, addr;
    }

    // The body of itrunc's second loop: entry j of the indirect block, if it is set.
    method FreeEntry(i: nat, ind: nat, a: Block, j: nat, ghost im0: Image, ghost owner0: map<nat, Slot>)
      requires j < NINDIRECT && Trimming(im0, owner0, Im(), owner, DeadEntries(i, a, j), i)
      requires inodes[i].addrs[NDIRECT] == ind != 0 && At(Im(), ind) == a
      modifies this
      ensures Trimming(im0, owner0, Im(), owner, DeadEntries(i, a, j + 1), i)
      ensures inodes == old(inodes) && At(Im(), ind) == a
    {
      hide Marked, OnDisk, ByteAt, PutEntry, Trimming, Owned, SameBitsBut, SameRecords;
      hide Ptr, WithMark, Entry, OthersSame, At;
      ghost var dead := DeadEntries(i, a, j);
      TrimmingShape(im0, owner0, Im(), owner, dead, i);
      var b := Entry(a, j);
      if b != 0 {
        ghost var im1 := Im();
        EntryReleasable(im1, owner, dead, i, j, b);
        FreeReleases(im1, b);
        var ok := Bfree(b);
        TrimEntry(im0, owner0, im1, Im(), owner, dead, i, j, b);
        owner := owner - {b};
      }
    }

    // The second half of itrunc: the entries a of the indirect block ind.
    method TruncEntries(i: nat, ind: nat, a: Block, ghost im0: Image, ghost owner0: map<nat, Slot>)
      requires Trimming(im0, owner0, Im(), owner, {}, i) && inodes[i].addrs[NDIRECT] == ind != 0
      requires At(Im(), ind) == a
      modifies this
      ensures Trimming(im0, owner0, Im(), owner, DeadEntries(i, a, NINDIRECT), i)
      ensures inodes == old(inodes) && At(Im(), ind) == a
    {
      hide Trimming, Entry, At, WellFormed;
      TrimmingShape(im0, owner0, Im(), owner, {}, i);
      var j := 0;
      while j < NINDIRECT
        invariant 0 <= j <= NINDIRECT && inodes == old(inodes) && At(Im(), ind) == a
        invariant Trimming(im0, owner0, Im(), owner, DeadEntries(i, a, j), i)
      {
        FreeEntry(i, ind, a, j, im0, owner0);
        j := j + 1;
      }
    }

    // Then the indirect block itself.
    method TruncIndirect(i: nat, ghost im0: Image, ghost owner0: map<nat, Slot>)
      requires Trimming(im0, owner0, Im(), owner, {}, i) && inodes[i].addrs[NDIRECT] != 0
      modifies this
      ensures Trimming(im0, owner0, Im(), owner, {}, i) && WellFormed(Im())
      ensures inodes == old(inodes)[i := old(inodes)[i].(addrs := old(inodes)[i].addrs[NDIRECT := 0])]
    {
      hide Marked, OnDisk, ByteAt, PutEntry, Trimming, Owned, SameBitsBut, SameRecords;
      hide Ptr, WithMark, Entry, OthersSame, DeadEntries;
      TrimmingShape(im0, owner0, Im(), owner, {}, i);
      var ind := inodes[i].addrs[NDIRECT];
      IndirectOwned(Im(), owner, i);
      var a := disk[ind];
      TruncEntries(i, ind, a, im0, owner0);
      ghost var im1, dead := Im(), DeadEntries(i, a, NINDIRECT);
      TrimmingShape(im0, owner0, im1, owner, dead, i);
      IndirectReleasable(im1, owner, dead, i);
      FreeReleases(im1, ind);
      var ok := Bfree(ind);
      TrimIndirect(im0, owner0, im1, Im(), owner, dead, i);
      inodes := inodes[i := inodes[i].(addrs := inodes[i].addrs[NDIRECT := 0])];
      owner := owner - {ind};
    }

    // The body of itrunc's first loop.
    method FreeDirect(i: nat, k: nat, ghost im0: Image, ghost owner0: map<nat, Slot>)
      requires Trimming(im0, owner0, Im(), owner, {}, i) && k < NDIRECT
      modifies this
      ensures Trimming(im0, owner0, Im(), owner, {}, i) && WellFormed(Im())
      ensures inodes == old(inodes)[i := old(inodes)[i].(addrs := old(inodes)[i].addrs[k := 0])]
    {
      hide Marked, OnDisk, ByteAt, Trimming, Inv, Owned, SameBitsBut, SameRecords;
      hide Ptr, WithMark, Entry, Reaches, OthersSame;
      TrimmingShape(im0, owner0, Im(), owner, {}, i);
      var b := inodes[i].addrs[k];
      if b != 0 {
        ghost var im1 := Im();
        DirectReleasable(im1, owner, i, k);
        FreeReleases(im1, b);
        var ok := Bfree(b);
        TrimDirect(im0, owner0, im1, Im(), owner, i, k);
        inodes := inodes[i := inodes[i].(addrs := inodes[i].addrs[k := 0])];
        owner := owner - {b};
      } else {
        assert inodes[i].addrs[k := 0] == inodes[i].addrs;
      }
    }

    // The first half of itrunc: the direct blocks.
    method TruncDirect(i: nat, ghost im0: Image, ghost owner0: map<nat, Slot>)
      requires Trimming(im0, owner0, Im(), owner, {}, i)
      modifies this
      ensures Trimming(im0, owner0, Im(), owner, {}, i) && WellFormed(Im())
      ensures inodes == old(inodes)[i := old(inodes)[i].(addrs := inodes[i].addrs)]
      ensures forall m | 0 <= m < NDIRECT :: inodes[i].addrs[m] == 0
    {
      hide Trimming;
      TrimmingShape(im0, owner0, Im(), owner, {}, i);
      var k := 0;
      while k < NDIRECT
        invariant k <= NDIRECT && Trimming(im0, owner0, Im(), owner, {}, i) && WellFormed(Im())
        invariant inodes == old(inodes)[i := old(inodes)[i].(addrs := inodes[i].addrs)]
        invariant forall m | 0 <= m < k :: inodes[i].addrs[m] == 0
      {
        FreeDirect(i, k, im0, owner0);
        k := k + 1;
      }
    }

    // Discard the contents of inode i.
    method Itrunc(i: nat)
      requires Valid() && i < ninodes
      modifies this
      ensures Valid() && SameShape(old(Im()), Im())
      ensures inodes == old(inodes)[i := old(inodes)[i].(size := 0, addrs := FreeInode().addrs)]
      ensures |inodes[i].addrs| == 13 && forall k | 0 <= k < 13 :: inodes[i].addrs[k] == 0
      ensures OthersSame(old(Im()), Im(), i)
      ensures forall x | 0 <= x < |disk| :: Marked(Im(), x) <==> Marked(old(Im()), x) && !Reaches(old(Im()), i, x)
      ensures FreeCount(Im()) == old(FreeCount(Im())) + BlocksFor(old(inodes)[i].size)
    {
      hide Marked, OnDisk, ByteAt, Trimming, Inv, Owned, SameBitsBut, SameRecords, FreeCount, BlocksFor;
      hide Ptr, WithMark, Entry, Reaches, OthersSame;
      ghost var im0, owner0 := Im(), owner;
      TrimmingStarts(im0, owner0, i);
      TruncDirect(i, im0, owner0);
      if inodes[i].addrs[NDIRECT] != 0 {
        TruncIndirect(i, im0, owner0);
      }
      assert inodes[i].addrs == FreeInode().addrs;
      ghost var im3 := Im();
      TrimmingShape(im0, owner0, im3, owner, {}, i);
      Trimmed(im0, owner0, im3, owner, i);
      Store(i, inodes[i].(size := 0));
      UpdateSettles(im3, Im(), owner, i, inodes[i], 0);
      OthersCompose(im0, im3, Im(), i);
      ClearedGivesBack(im0, Im(), owner0, owner, i);
    }

    // ----- reading and writing -----

    // bread(bmap(n)) for a block below the inode's size: it is there already.
    method MappedBlock(i: nat, n: nat) returns (b: nat)
      requires Valid() && i < ninodes && n * 512 < inodes[i].size
      modifies this
      ensures Valid() && Im() == old(Im()) && n < MAXFILE
      ensures b == Ptr(Im(), Data(i, n)) && 0 < b < |disk|
    {
      hide Marked, OnDisk, Inv, Owned, Ptr, ByteAt, Maps;
      ghost var im0, own := Im(), owner;
      InvBasics(im0, own, i);
      BelowSize(im0, own, i, n);
      var ok;
      ok, b := Bmap(i, n);
      ReadMapped(im0, own, Im(), owner, i, n, b);
    }

    // readi's loop.
    method ReadLoop(i: nat, off: nat, cnt: nat) returns (dst: seq<byte>)
      requires Valid() && i < ninodes && off + cnt <= inodes[i].size
      modifies this
      ensures Valid() && Im() == old(Im())
      ensures dst == Content(Im(), i)[off..off + cnt]
    {
      hide Marked, OnDisk, Inv, Owned, Ptr, ByteAt, Content;
      dst := [];
      ghost var im0 := Im();
      InvBasics(im0, owner, i);
      ghost var content := Content(im0, i);
      var tot := 0;
      while tot < cnt
        invariant 0 <= tot <= cnt
        invariant Im() == im0 && Valid()
        invariant dst == content[off..off + tot]
      {
        var pos := off + tot;
        var m := if cnt - tot < BSIZE - pos % 512 then cnt - tot else BSIZE - pos % 512;
        var b := MappedBlock(i, pos / 512);
        ReadStep(im0, owner, i, pos, m);
        dst := dst + disk[b][pos % 512..pos % 512 + m];
        assert content[off..pos] + content[pos..pos + m] == content[off..pos + m];
        tot := tot + m;
      }
    }

    method Readi(i: nat, off: nat, n: nat) returns (r: IoResult, dst: seq<byte>)
      requires Valid() && i < ninodes && off < U32 && n < U32
      modifies this
      ensures Valid() && Im() == old(Im())
      ensures inodes[i].typ == T_DEV ==> r == Device
      ensures inodes[i].typ != T_DEV ==>
                if off > inodes[i].size || off + n >= 0x1_0000_0000 then r == Fail
                else
                  var m := Least(n, inodes[i].size - off);
                  r == Count(m) && dst == Content(Im(), i)[off..off + m]
    {
      hide Inv, Content;
      InvBasics(Im(), owner, i);
      dst := [];
      if inodes[i].typ == T_DEV {
        return Device, [];
      }
      if off > inodes[i].size || (off + n) % U32 < off {
        return Fail, [];
      }
      var cnt := n;
      if off + n > inodes[i].size {
        cnt := inodes[i].size - off;
      }
      dst := ReadLoop(i, off, cnt);
      r := Count(cnt);
    }

    // The body of writei's loop: the m bytes at tot of src go to file position off + tot.
    method WriteBlock(i: nat, src: seq<byte>, off: nat, tot: nat, m: nat, ghost im0: Image) returns (ok: bool)
      requires Writing(im0, Im(), owner, i, src, off, off + tot)
      requires tot + m <= |src| && off + tot + m <= MAXBYTES && 0 < m <= BSIZE - (off + tot) % 512
      requires i < |im0.inodes|
      modifies this
      ensures ok ==> Writing(im0, Im(), owner, i, src, off, off + tot + m)
      ensures var size := im0.inodes[i].size;
        var need := BlocksFor(Max(size, off + tot + m)) - BlocksFor(Max(size, off + tot));
        (ok <==> need <= old(FreeCount(Im()))) && (ok ==> FreeCount(Im()) == old(FreeCount(Im())) - need)
    {
      hide Marked, OnDisk, Owned, Ptr, ByteAt, OthersSame, Growing, Writing, Maps, WellFormed, FreeCount;
      hide Needed, BlocksFor, Dense;
      var pos := off + tot;
      ghost var im, own := Im(), owner;
      WritingHere(im0, im, own, i, src, off, pos);
      NeedIsGrowth(im, i, pos, m, im0.inodes[i].size);
      var b;
      ok, b := Bmap(i, pos / 512);
      if !ok {
        return;
      }
      label Mapped:
      MappedInDisk(im, Im(), owner, i, pos / 512, b);
      DataWriteChanges(Im(), b, Splice(disk[b], pos % 512, src[tot..tot + m]));
      SameFree(Im(), WithBlock(Im(), b, Splice(disk[b], pos % 512, src[tot..tot + m])));
      Bwrite(b, Splice(disk[b], pos % 512, src[tot..tot + m]));
      WritingTurn(im0, im, own, i, src, off, pos, old@Mapped(Im()), owner, b, m, Im());
    }

    // writei's loop.
    method WriteLoop(i: nat, src: seq<byte>, off: nat, ghost im0: Image) returns (ok: bool)
      requires Writing(im0, Im(), owner, i, src, off, off) && off + |src| <= MAXBYTES
      requires i < |im0.inodes| && off <= im0.inodes[i].size
      modifies this
      ensures ok ==> Writing(im0, Im(), owner, i, src, off, off + |src|)
      ensures var need := Growth(im0.inodes[i].size, off + |src|);
        (ok <==> need <= old(FreeCount(Im()))) && (ok ==> FreeCount(Im()) == old(FreeCount(Im())) - need)
    {
      hide Writing, FreeCount, BlocksFor;
      ghost var size := im0.inodes[i].size;
      GrowthSoFar(size, off, 0);
      var tot := 0;
      while tot < |src|
        invariant 0 <= tot <= |src|
        invariant Writing(im0, Im(), owner, i, src, off, off + tot)
        invariant FreeCount(Im()) + BlocksFor(Max(size, off + tot)) == old(FreeCount(Im())) + BlocksFor(size)
      {
        GrowthSoFar(size, off, |src|);
        var pos := off + tot;
        var m := if |src| - tot < BSIZE - pos % 512 then |src| - tot else BSIZE - pos % 512;
        BlocksMonotone(Max(size, pos + m), Max(size, off + |src|));
        ok := WriteBlock(i, src, off, tot, m, im0);
        if !ok {
          return;
        }
        tot := tot + m;
      }
      GrowthSoFar(size, off, |src|);
      ok := true;
    }

    method Writei(i: nat, src: seq<byte>, off: nat, n: nat) returns (r: IoResult)
      requires Valid() && i < ninodes && inodes[i].typ != 0 && off < U32 && n < U32 && n <= |src|
      modifies this
      ensures old(inodes)[i].size <= MAXBYTES
      ensures old(inodes)[i].typ != T_DEV ==>
                if off > old(inodes)[i].size || off + n >= 0x1_0000_0000 then r == Fail
                else
                  var m := Least(n, 71680 - off);
                  && (r == OutOfBlocks <==> Growth(old(inodes)[i].size, off + m) > old(FreeCount(Im())))
                  && (r != OutOfBlocks ==>
                        FreeCount(Im()) == old(FreeCount(Im())) - Growth(old(inodes)[i].size, off + m))
      ensures r != OutOfBlocks ==> Valid() && SameShape(old(Im()), Im()) && OthersSame(old(Im()), Im(), i)
      ensures r != OutOfBlocks ==> inodes[i] == old(inodes)[i].(size := inodes[i].size, addrs := inodes[i].addrs)
      ensures r.Device? || r.Fail? ==> Im() == old(Im())
      ensures r == Device <==> old(inodes)[i].typ == T_DEV
      ensures r != OutOfBlocks && r != Device ==>
                if off > old(inodes)[i].size || off + n >= 0x1_0000_0000 then r == Fail
                else
                  var m := Least(n, 71680 - off);
                  r == Count(m) && m <= |src| && Content(Im(), i) == Overwrite(Content(old(Im()), i), off, src[..m])
    {
      hide Marked, OnDisk, Inv, Owned, Ptr, ByteAt, OthersSame, Growing, Writing;
      hide Settled, Updated, Overwrite, Content, FreeCount, BlocksFor;
      ghost var im0, owner0 := Im(), owner;
      InvBasics(im0, owner0, i);
      if inodes[i].typ == T_DEV {
        return Device;
      }
      if off > inodes[i].size || (off + n) % U32 < off {
        return Fail;
      }
      var cnt := n;
      if off + n > MAXBYTES {
        cnt := MAXBYTES - off;
      }
      WritingStarts(im0, owner0, i, src[..cnt], off);
      var ok := WriteLoop(i, src[..cnt], off, im0);
      if !ok {
        return OutOfBlocks;
      }
      ghost var im := Im();
      WritingHere(im0, im, owner, i, src[..cnt], off, off + cnt);
      if cnt > 0 && off + cnt > inodes[i].size {
        Store(i, inodes[i].(size := off + cnt));
        UpdatedFree(im, Im(), i, inodes[i]);
      }
      WritingEnds(im0, owner0, im, owner, i, src[..cnt], off, Im());
      return Count(cnt);
    }

    // ----- inodes -----

    // The lowest free inode, marked on disk with its type and loaded as ilock would;
    // false stands for the panic "ialloc: no inodes".
    method Ialloc(typ: short) returns (ok: bool, inum: nat)
      requires Valid() && typ != 0
      modifies this
      ensures Valid() && SameShape(old(Im()), Im())
      ensures ok ==> 1 <= inum < ninodes && old(inodes)[inum].typ == 0
      ensures ok ==> forall k | 1 <= k < inum :: old(inodes)[k].typ != 0
      ensures ok ==> inodes == old(inodes)[inum := Inode(typ, 0, 0, 0, 0, inodes[inum].addrs)]
      ensures ok ==> |inodes[inum].addrs| == 13 && forall k | 0 <= k < 13 :: inodes[inum].addrs[k] == 0
      ensures ok ==> OthersSame(old(Im()), Im(), inum) && SameBits(old(Im()), Im())
      ensures !ok ==> Im() == old(Im()) && forall k | 1 <= k < ninodes :: inodes[k].typ != 0
    {
      hide Marked, Ptr, ByteAt, OnDisk, Inv, Owned, PutInode, InodeIn, OthersSame;
      ghost var im0 := Im();
      InvShape(im0, owner);
      inum := 1;
      while inum < ninodes
        invariant 1 <= inum && inodes == old(inodes) && |inodes| == ninodes && Im() == im0 && Valid()
        invariant forall k | 1 <= k < inum && k < ninodes :: inodes[k].typ != 0
      {
        RecordBlock(im0, owner, inum);
        var data := disk[IBlock(inum)];
        if InodeIn(data, inum % 8).typ == 0 {
          var ip := FreeInode().(typ := typ);
          FreshInode(im0, owner, inum, ip);
          data := PutInode(data, inum % 8, ip);
          disk := disk[IBlock(inum) := data];
          inodes := inodes[inum := ip];
          return true, inum;
        }
        inum := inum + 1;
      }
      ok := false;
    }

    // Drop one of the ref references to inode i, loaded in core. The last one to an
    // unlinked inode frees it.
    method Iput(i: nat, ref: nat) returns (left: nat)
      requires Valid() && i < ninodes && ref >= 1
      modifies this
      ensures left == ref - 1 && Valid() && SameShape(old(Im()), Im())
      ensures ref != 1 || old(inodes)[i].nlink != 0 ==> Im() == old(Im())
      ensures ref == 1 && old(inodes)[i].nlink == 0 ==>
                && inodes == old(inodes)[i := old(inodes)[i].(typ := 0, size := 0, addrs := FreeInode().addrs)]
                && OthersSame(old(Im()), Im(), i)
                && (forall x | 0 <= x < |disk| :: Marked(Im(), x) <==> Marked(old(Im()), x) && !Reaches(old(Im()), i, x))
                && FreeCount(Im()) == old(FreeCount(Im())) + BlocksFor(old(inodes)[i].size)
    {
      hide Marked, Ptr, ByteAt, OnDisk, Inv, Owned, OthersSame, Updated, Reaches, Growing, FreeCount, BlocksFor;
      ghost var im0 := Im();
      InvBasics(im0, owner, i);
      if ref == 1 && inodes[i].nlink == 0 {
        Itrunc(i);
        ghost var im1 := Im();
        InvBasics(im1, owner, i);
        var ip := inodes[i].(typ := 0);
        Store(i, ip);
        Retyped(im1, Im(), owner, i, ip);
        UpdatedFree(im1, Im(), i, ip);
        OthersCompose(im0, im1, Im(), i);
      }
      left := ref - 1;
    }

    // ----- directories -----

    // The entries of directory i.
    ghost function Dirents(i: nat): seq<Dirent>
      requires Valid() && i < ninodes
      reads this
    {
      Entries(Content(Im(), i))
    }

    // Scans whole blocks, past size in the last one. The reference that iget takes on the
    // inode found is the caller's to drop.
    method Dirlookup(i: nat, name: seq<byte>) returns (found: bool, inum: nat, off: nat)
      requires Valid() && i < ninodes && inodes[i].typ == T_DIR && inodes[i].size % 16 == 0
      modifies this
      ensures Valid() && Im() == old(Im())
      ensures found <==> Find(Dirents(i), name) < |Dirents(i)|
      ensures found <==> exists k :: 0 <= k < |Dirents(i)| && Dirents(i)[k].inum != 0 && Dirents(i)[k].name == Clip(name, 14)
      ensures found ==> off == 16 * Find(Dirents(i), name) && inum == Dirents(i)[Find(Dirents(i), name)].inum
    {
      hide Inv, Owned, Marked, Ptr, ByteAt, OnDisk, Maps, EntryAt, DecodeDirent, StrncmpEq, Clip, Entries, Content;
      ghost var im0 := Im();
      InvShape(im0, owner);
      off := 0;
      while off < inodes[i].size
        invariant off % 512 == 0 && inodes == im0.inodes && Im() == im0 && Valid()
        invariant forall m | 0 <= m < off / 16 :: !Names(EntryAt(im0, i, m), name)
      {
        var b := MappedBlock(i, off / 512);
        var j := 0;
        while j < 32
          invariant 0 <= j <= 32 && inodes == im0.inodes && Im() == im0 && Valid()
          invariant forall m | 0 <= m < off / 16 + j :: !Names(EntryAt(im0, i, m), name)
        {
          var de := disk[b][16 * j..16 * j + 16];
          BlockEntry(im0, i, off / 512, j);
          EntryMatches(de, name);
          if Get16(de, 0) != 0 && StrncmpEq(name, de[2..], DIRSIZ) {
            LookupResult(im0, owner, i, name, off / 16 + j);
            return true, Get16(de, 0), off + 16 * j;
          }
          j := j + 1;
        }
        off := off + 512;
      }
      LookupResult(im0, owner, i, name, off / 16);
      return false, 0, 0;
    }

    // dirlink's loop: the offset of the first unused entry, or the size.
    method FindFree(i: nat) returns (off: nat)
      requires Valid() && i < ninodes && inodes[i].typ == T_DIR && inodes[i].size % 16 == 0
      modifies this
      ensures Valid() && Im() == old(Im())
      ensures off == 16 * FreeEntryOf(Dirents(i)) <= inodes[i].size
    {
      hide Inv, Marked, Ptr, ByteAt, OnDisk, Entries, Content, EncodeDirent;
      ghost var im0 := Im();
      InvBasics(im0, owner, i);
      ghost var content := Content(im0, i);
      off := 0;
      while off < inodes[i].size
        invariant inodes == im0.inodes && Im() == im0 && Valid() && off % 16 == 0 && off <= inodes[i].size
        invariant forall m | 0 <= m < off / 16 :: Entries(content)[m].inum != 0
      {
        var r, de := Readi(i, off, 16);
        EntryRead(content, off / 16);
        if Get16(de, 0) == 0 {
          FreeEntryIs(Entries(content), off / 16);
          return;
        }
        off := off + 16;
      }
      FreeEntryIs(Entries(content), off / 16);
    }

    // Adds (name, inum) to directory i. Panics exactly when the directory has no free entry and
    // cannot grow, or when it needs more blocks to grow than are free.
    method Dirlink(i: nat, name: seq<byte>, inum: nat) returns (r: LinkResult)
      requires Valid() && i < ninodes && inodes[i].typ == T_DIR && inodes[i].size % 16 == 0 && inum < 0x1_0000
      modifies this
      ensures r == Exists <==> Find(old(Dirents(i)), name) < |old(Dirents(i))|
      ensures r == Exists ==> Valid() && Im() == old(Im())
      ensures r == Linked ==> Valid() && SameShape(old(Im()), Im()) && OthersSame(old(Im()), Im(), i)
      ensures r == Linked ==> inodes[i] == old(inodes)[i].(size := inodes[i].size, addrs := inodes[i].addrs) && inodes[i].size % 16 == 0
      ensures r == Linked ==> Dirents(i) == Place(old(Dirents(i)), FreeEntryOf(old(Dirents(i))), Dirent(inum, NameOf(name)))
      ensures r == Linked ==> 16 * FreeEntryOf(old(Dirents(i))) < MAXBYTES
      ensures var k := FreeEntryOf(old(Dirents(i)));
        r == Panic <==> r != Exists && (16 * k == MAXBYTES || Growth(old(inodes)[i].size, 16 * k + 16) > old(FreeCount(Im())))
      ensures r == Linked ==>
                FreeCount(Im())
                == old(FreeCount(Im())) - Growth(old(inodes)[i].size, 16 * FreeEntryOf(old(Dirents(i))) + 16)
    {
      hide Inv, Marked, Ptr, ByteAt, OnDisk, Entries, Content, EncodeDirent, Overwrite, OthersSame, Place;
      hide FreeCount, Growth;
      ghost var im0 := Im();
      InvBasics(im0, owner, i);
      ghost var content := Content(im0, i);
      var found, ino, at := Dirlookup(i, name);
      if found {
        return Exists;
      }
      var off := FindFree(i);
      var de := EncodeDirent(inum, name);
      var w := Writei(i, de, off, 16);
      if w != Count(16) {
        return Panic;
      }
      assert de[..16] == de;
      LinkedEntries(content, off, inum, name);
      return Linked;
    }
  }

  // A disk of five blocks, all of them metadata: balloc hands out block 5.
  method BallocPastDisk() returns (fs: FileSystem, ok: bool, r: nat)
    ensures |fs.disk| == 5 && ok && r == 5
  {
    hide Marked;
    fs := new FileSystem.Format(8, 5);
    assert forall x | 0 <= x < 5 :: Marked(fs.Im(), x);
    assert BitsScanned(fs.Im()) == 4096 && !Marked(fs.Im(), 5);
    ok, r := fs.Balloc();
  }

  lemma UpdatedFree(im: Image, im': Image, i: nat, ip: Inode)
    requires Updated(im, im', i, ip)
    ensures FreeCount(im') == FreeCount(im)
  {
    hide Marked, OnDisk;
    SameFree(im, im');
  }
}
