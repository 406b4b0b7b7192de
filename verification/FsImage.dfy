/** The file system as a value: the disk blocks, the in-core inodes, and what they mean.
    Layout (include/fs.h): block 1 is the superblock, then the inode blocks, the bitmap
    blocks and the data blocks. */
module FsImage {
  import opened DiskCodec

  datatype Image = Image(ninodes: nat, disk: seq<Block>, inodes: seq<Inode>)

  function IBlock(inum: nat): nat { inum / 8 + 2 }

  function BBlock(ninodes: nat, b: nat): nat { b / 4096 + ninodes / 8 + 3 }

  // The first block after the bitmap, where mkfs starts handing out data blocks.
  function DataStart(im: Image): nat { im.ninodes / 8 + 3 + |im.disk| / 4096 + 1 }

  predicate WellFormed(im: Image) {
    && |im.inodes| == im.ninodes
    && (forall i | 0 <= i < im.ninodes :: InodeOk(im.inodes[i]))
    && DataStart(im) <= |im.disk| < U32
  }

  function At(im: Image, b: nat): Block {
    if b < |im.disk| then im.disk[b] else ZeroBlock()
  }

  predicate Marked(im: Image, b: nat) {
    BitOf(At(im, BBlock(im.ninodes, b)), b % 4096)
  }

  function OnDisk(im: Image, i: nat): Inode {
    InodeIn(At(im, IBlock(i)), i % 8)
  }

  // ----- places that can hold a block number -----

  // The pointer to file block n of inode ino, or its pointer to an indirect block.
  datatype Slot = Data(ino: nat, n: nat) | Indirect(ino: nat)

  predicate ValidSlot(im: Image, s: Slot) {
    s.ino < |im.inodes| && (s.Data? ==> s.n < MAXFILE)
  }

  function Ptr(im: Image, s: Slot): nat
    requires WellFormed(im) && ValidSlot(im, s)
  {
    var addrs := im.inodes[s.ino].addrs;
    match s
    case Indirect(_) => addrs[NDIRECT]
    case Data(_, n) =>
      if n < NDIRECT then addrs[n]
      else if addrs[NDIRECT] == 0 then 0
      else Entry(At(im, addrs[NDIRECT]), n - NDIRECT)
  }

  // Byte p of inode i; a file is zero beyond what its blocks hold.
  function ByteAt(im: Image, i: nat, p: nat): byte
    requires WellFormed(im) && i < |im.inodes|
  {
    if p / 512 >= MAXFILE then 0 else
      var b := Ptr(im, Data(i, p / 512));
      if b == 0 then 0 else At(im, b)[p % 512]
  }

  function Content(im: Image, i: nat): (s: seq<byte>)
    requires WellFormed(im) && i < |im.inodes|
    ensures |s| == im.inodes[i].size
  {
    seq(im.inodes[i].size, p requires 0 <= p => ByteAt(im, i, p))
  }

  // ----- ownership -----

  // Every block pointer outside `dead` leads to a block of its own in the data area; the
  // bitmap marks exactly the metadata and the owned blocks; every unmarked block is zero.
  ghost predicate Owned(im: Image, owner: map<nat, Slot>, dead: set<Slot>) {
    && WellFormed(im)
    && (forall s | ValidSlot(im, s) && s !in dead && Ptr(im, s) != 0 :: Ptr(im, s) in owner && owner[Ptr(im, s)] == s)
    && (forall b {:trigger OwnerOk(im, b, owner[b], dead)} | b in owner :: OwnerOk(im, b, owner[b], dead))
    && (forall b | 0 <= b < |im.disk| :: Marked(im, b) <==> b < DataStart(im) || b in owner)
    && (forall b | DataStart(im) <= b < |im.disk| && b !in owner :: im.disk[b] == ZeroBlock())
  }

  ghost predicate OwnerOk(im: Image, b: nat, s: Slot, dead: set<Slot>)
    requires WellFormed(im)
  {
    DataStart(im) <= b < |im.disk| && ValidSlot(im, s) && s !in dead && Ptr(im, s) == b
  }

  // Inode k has blocks for exactly the bytes below top, and is zero from there on.
  ghost predicate Dense(im: Image, k: nat, top: nat)
    requires WellFormed(im) && k < |im.inodes|
  {
    && top <= MAXBYTES
    && (forall n | 0 <= n < MAXFILE :: Ptr(im, Data(k, n)) != 0 <==> n * 512 < top)
    && (Ptr(im, Indirect(k)) != 0 <==> 12 * 512 < top)
    && (forall p | p >= top :: ByteAt(im, k, p) == 0)
  }

  // What holds between operations: ownership, files without holes or slack, and in-core
  // inodes equal to their on-disk records.
  ghost predicate Inv(im: Image, owner: map<nat, Slot>) {
    && Owned(im, owner, {})
    && (forall k | 0 <= k < im.ninodes :: Settled(im, k))
  }

  ghost predicate Settled(im: Image, k: nat)
    requires WellFormed(im) && k < |im.inodes|
  {
    && Dense(im, k, im.inodes[k].size)
    && OnDisk(im, k) == im.inodes[k]
    && (im.inodes[k].typ == 0 ==> im.inodes[k].size == 0)
  }

  // ----- the properties readers want, without the owner map -----

  // No block is reachable twice, and every reachable one is marked.
  lemma NoSharing(im: Image, owner: map<nat, Slot>, s: Slot, t: Slot)
    requires Owned(im, owner, {})
    requires ValidSlot(im, s) && ValidSlot(im, t) && Ptr(im, s) == Ptr(im, t) != 0
    ensures s == t
    ensures DataStart(im) <= Ptr(im, s) < |im.disk| && Marked(im, Ptr(im, s))
  {
    hide Marked, Entry;
    assert OwnerOk(im, Ptr(im, s), owner[Ptr(im, s)], {});
  }

  // A marked block is metadata or reachable: nothing leaks.
  lemma NoLeak(im: Image, owner: map<nat, Slot>, b: nat)
    requires Owned(im, owner, {}) && b < |im.disk|
    ensures Marked(im, b) <==> b < DataStart(im) || exists s :: ValidSlot(im, s) && Ptr(im, s) == b
    ensures !Marked(im, b) ==> im.disk[b] == ZeroBlock()
  {
    assert Marked(im, b) <==> b < DataStart(im) || b in owner;
    if b in owner {
      assert OwnerOk(im, b, owner[b], {});
      assert ValidSlot(im, owner[b]) && Ptr(im, owner[b]) == b;
    } else if b >= DataStart(im) {
      forall s | ValidSlot(im, s)
        ensures Ptr(im, s) != b
      {
        hide Ptr, Marked;
        assert Ptr(im, s) != 0 ==> Ptr(im, s) in owner;
      }
    }
  }

  // ----- elementary updates -----

  function WithBlock(im: Image, b: nat, data: Block): Image
    requires b < |im.disk|
  {
    im.(disk := im.disk[b := data])
  }

  function WithMark(im: Image, b: nat, on: bool): Image
    requires WellFormed(im) && BBlock(im.ninodes, b) < DataStart(im)
  {
    var c := BBlock(im.ninodes, b);
    WithBlock(im, c, WithBit(im.disk[c], b % 4096, on))
  }

  function WithInode(im: Image, i: nat, ip: Inode): Image
    requires i < |im.inodes|
  {
    im.(inodes := im.inodes[i := ip])
  }

  function WithAddr(im: Image, i: nat, k: nat, b: nat): Image
    requires i < |im.inodes| && k < |im.inodes[i].addrs|
  {
    WithInode(im, i, im.inodes[i].(addrs := im.inodes[i].addrs[k := b]))
  }

  // The bits of blocks b to b + BPB - 1 are those of one bitmap block.
  lemma BitOfBlock(im: Image, b: nat, bi: nat)
    requires WellFormed(im) && b % 4096 == 0 && b < |im.disk| && bi < BPB
    ensures BBlock(im.ninodes, b + bi) == BBlock(im.ninodes, b) < DataStart(im) <= |im.disk| && (b + bi) % 4096 == bi
    ensures Marked(im, b + bi) == BitOf(im.disk[BBlock(im.ninodes, b)], bi)
  {
    Layout(im);
  }

  // How many bits balloc looks at: whole bitmap blocks.
  function BitsScanned(im: Image): nat { (|im.disk| + 4095) / 4096 * 4096 }

  // Inode records, bitmap and data lie in this order, without overlap.
  lemma Layout(im: Image)
    requires WellFormed(im)
    ensures forall b | 0 <= b < |im.disk| :: im.ninodes / 8 + 2 < BBlock(im.ninodes, b) < DataStart(im)
    ensures forall i | 0 <= i < im.ninodes :: IBlock(i) <= im.ninodes / 8 + 2
  {
  }

  // im' has the metadata of im, except that block b's bit may be `on`.
  ghost predicate SameBitsBut(im: Image, im': Image, b: nat, on: bool) {
    forall x | 0 <= x < |im.disk| :: Marked(im', x) == if x == b then on else Marked(im, x)
  }

  ghost predicate SameBits(im: Image, im': Image) {
    forall x | 0 <= x < |im.disk| :: Marked(im', x) == Marked(im, x)
  }

  ghost predicate SameRecordsBut(im: Image, im': Image, i: nat) {
    forall k | 0 <= k < im.ninodes && k != i :: OnDisk(im', k) == OnDisk(im, k)
  }

  ghost predicate SameRecords(im: Image, im': Image) {
    forall k | 0 <= k < im.ninodes :: OnDisk(im', k) == OnDisk(im, k)
  }

  ghost predicate SameShape(im: Image, im': Image) {
    im'.ninodes == im.ninodes && |im'.disk| == |im.disk| && |im'.inodes| == |im.inodes|
  }

  ghost predicate SameDataBut(im: Image, im': Image, b: nat)
    requires WellFormed(im) && SameShape(im, im')
  {
    forall c | DataStart(im) <= c < |im.disk| && c != b :: im'.disk[c] == im.disk[c]
  }

  lemma SameDiskSameMetadata(im: Image, im': Image)
    requires im'.disk == im.disk && im'.ninodes == im.ninodes
    ensures SameBits(im, im') && SameRecords(im, im')
  {
  }

  // im' differs from im at most in the bit of block b.
  ghost predicate Remarked(im: Image, im': Image, b: nat, on: bool)
    requires WellFormed(im)
  {
    && WellFormed(im') && SameShape(im, im') && im'.inodes == im.inodes
    && SameBitsBut(im, im', b, on) && SameRecords(im, im') && SameDataBut(im, im', 0)
  }

  // im' differs from im at most in the data block b.
  ghost predicate Rewritten(im: Image, im': Image, b: nat)
    requires WellFormed(im)
  {
    && WellFormed(im') && SameShape(im, im') && im'.inodes == im.inodes
    && SameBits(im, im') && SameRecords(im, im') && SameDataBut(im, im', b)
  }

  // Changing one bit of the bitmap changes nothing else that the disk means.
  lemma MarkChanges(im: Image, b: nat, on: bool)
    requires WellFormed(im) && BBlock(im.ninodes, b) < DataStart(im)
    ensures Remarked(im, WithMark(im, b, on), b, on)
  {
    Layout(im);
    var im' := WithMark(im, b, on);
    forall x | 0 <= x < |im.disk|
      ensures Marked(im', x) == if x == b then on else Marked(im, x)
    {
      MarkOne(im, b, on, x);
    }
    forall k | 0 <= k < im.ninodes
      ensures OnDisk(im', k) == OnDisk(im, k)
    {
      assert At(im', IBlock(k)) == At(im, IBlock(k));
    }
  }

  lemma MarkOne(im: Image, b: nat, on: bool, x: nat)
    requires WellFormed(im) && BBlock(im.ninodes, b) < DataStart(im) && BBlock(im.ninodes, x) < DataStart(im)
    ensures Marked(WithMark(im, b, on), x) == if x == b then on else Marked(im, x)
  {
    var im' := WithMark(im, b, on);
    Layout(im);
    var c, d := BBlock(im.ninodes, b), BBlock(im.ninodes, x);
    if c == d {
      var data, data' := At(im, c), At(im', c);
      assert data' == WithBit(data, b % 4096, on);
      assert x != b ==> x % 4096 != b % 4096;
      assert BitOf(data', x % 4096) == if x % 4096 == b % 4096 then on else BitOf(data, x % 4096);
    } else {
      assert At(im', d) == At(im, d);
    }
  }

  // Writing a data block leaves the bitmap and the inode records alone.
  lemma DataWriteChanges(im: Image, b: nat, data: Block)
    requires WellFormed(im) && DataStart(im) <= b < |im.disk|
    ensures Rewritten(im, WithBlock(im, b, data), b)
  {
    Layout(im);
    var im' := WithBlock(im, b, data);
    forall x | 0 <= x < |im.disk|
      ensures Marked(im', x) == Marked(im, x)
    {
      assert At(im', BBlock(im.ninodes, x)) == At(im, BBlock(im.ninodes, x));
    }
    forall k | 0 <= k < im.ninodes
      ensures OnDisk(im', k) == OnDisk(im, k)
    {
      assert At(im', IBlock(k)) == At(im, IBlock(k));
    }
  }

  // iupdate: the record of inode i alone changes.
  function WithRecord(im: Image, i: nat, ip: Inode): Image
    requires WellFormed(im) && i < im.ninodes && InodeOk(ip)
  {
    var c := IBlock(i);
    WithBlock(im, c, PutInode(im.disk[c], i % 8, ip))
  }

  lemma RecordChanges(im: Image, i: nat, ip: Inode)
    requires WellFormed(im) && i < im.ninodes && InodeOk(ip)
    ensures var im' := WithRecord(im, i, ip);
      WellFormed(im') && SameBits(im, im') && SameRecordsBut(im, im', i) && OnDisk(im', i) == ip && SameDataBut(im, im', 0)
  {
    hide PutInode, BitOf, InodeIn;
    Layout(im);
    var im' := WithRecord(im, i, ip);
    forall k | 0 <= k < im.ninodes
      ensures OnDisk(im', k) == if k == i then ip else OnDisk(im, k)
    {
      RecordOne(im, i, ip, k);
    }
    forall x | 0 <= x < |im.disk|
      ensures Marked(im', x) == Marked(im, x)
    {
      assert At(im', BBlock(im.ninodes, x)) == At(im, BBlock(im.ninodes, x));
    }
  }

  lemma RecordOne(im: Image, i: nat, ip: Inode, k: nat)
    requires WellFormed(im) && i < im.ninodes && InodeOk(ip) && k < im.ninodes
    ensures OnDisk(WithRecord(im, i, ip), k) == if k == i then ip else OnDisk(im, k)
  {
    hide InodeIn, PutInode;
    var im' := WithRecord(im, i, ip);
    var c, d := IBlock(i), IBlock(k);
    if c == d {
      assert At(im', c) == PutInode(At(im, c), i % 8, ip);
      assert k != i ==> k % 8 != i % 8;
    } else {
      assert At(im', d) == At(im, d);
    }
  }

  // ----- claiming a free block -----

  // Only the block addresses of inode i may differ.
  ghost predicate SameInodesBut(im: Image, im': Image, i: nat)
    requires SameShape(im, im')
  {
    forall k | 0 <= k < |im.inodes| :: im'.inodes[k] == if k == i then im.inodes[k].(addrs := im'.inodes[k].addrs) else im.inodes[k]
  }

  // Slot s0 now holds b; every other slot is as before.
  ghost predicate PtrsBut(im: Image, im': Image, s0: Slot, b: nat)
    requires WellFormed(im) && WellFormed(im') && SameShape(im, im')
  {
    forall s | ValidSlot(im, s) :: Ptr(im', s) == if s == s0 then b else Ptr(im, s)
  }

  ghost predicate Claims(im: Image, im': Image, owner: map<nat, Slot>, s0: Slot, b: nat) {
    && Owned(im, owner, {}) && WellFormed(im')
    && SameShape(im, im') && SameRecords(im, im')
    && SameInodesBut(im, im', s0.ino)
    && DataStart(im) <= b < |im.disk| && b !in owner
    && ValidSlot(im, s0) && Ptr(im, s0) == 0
    && PtrsBut(im, im', s0, b)
    && SameBitsBut(im, im', b, true)
    && SameButIndirect(im, im', owner)
  }

  // Free blocks and file data are as before.
  ghost predicate SameButIndirect(im: Image, im': Image, owner: map<nat, Slot>)
    requires SameShape(im, im')
  {
    forall x | DataStart(im) <= x < |im.disk| && (x !in owner || owner[x].Data?) :: im'.disk[x] == im.disk[x]
  }

  lemma ClaimKeepsOwned(im: Image, im': Image, owner: map<nat, Slot>, s0: Slot, b: nat)
    requires Claims(im, im', owner, s0, b)
    ensures Owned(im', owner[b := s0], {})
  {
    hide Marked, Ptr;
    var owner' := owner[b := s0];
    forall x | x in owner'
      ensures OwnerOk(im', x, owner'[x], {})
    {
      ClaimKeepsOwner(im, im', owner, s0, b, x);
    }
    assert forall x | DataStart(im') <= x < |im'.disk| && x !in owner' :: im'.disk[x] == ZeroBlock();
  }

  lemma ClaimKeepsOwner(im: Image, im': Image, owner: map<nat, Slot>, s0: Slot, b: nat, x: nat)
    requires Claims(im, im', owner, s0, b) && x in owner[b := s0]
    ensures OwnerOk(im', x, owner[b := s0][x], {})
  {
    hide Marked, Ptr;
    if x != b { assert OwnerOk(im, x, owner[x], {}); }
  }

  // A free block is zero, so gaining it changes no byte of any file.
  lemma ClaimKeepsBytes(im: Image, im': Image, owner: map<nat, Slot>, s0: Slot, b: nat)
    requires Claims(im, im', owner, s0, b)
    ensures forall k, p | 0 <= k < im.ninodes && 0 <= p :: ByteAt(im', k, p) == ByteAt(im, k, p)
  {
    hide Marked, Entry;
    forall k, p | 0 <= k < im.ninodes && 0 <= p
      ensures ByteAt(im', k, p) == ByteAt(im, k, p)
    {
      if p / 512 < MAXFILE {
        var s := Data(k, p / 512);
        assert ValidSlot(im, s);
        if s == s0 {
          assert im'.disk[b] == ZeroBlock();
        } else if Ptr(im, s) != 0 {
          assert OwnerOk(im, Ptr(im, s), s, {});
        }
      }
    }
  }

  lemma ClaimAddr(im: Image, im1: Image, owner: map<nat, Slot>, i: nat, k: nat, b: nat)
    requires Owned(im, owner, {}) && i < im.ninodes && k <= NDIRECT && im.inodes[i].addrs[k] == 0
    requires DataStart(im) <= b < |im.disk| && !Marked(im, b) && Remarked(im, im1, b, true)
    ensures Claims(im, WithAddr(im1, i, k, b), owner, if k < NDIRECT then Data(i, k) else Indirect(i), b)
  {
    var im' := WithAddr(im1, i, k, b);
    var s0 := if k < NDIRECT then Data(i, k) else Indirect(i);
    assert ValidSlot(im, s0) && Ptr(im, s0) == 0 && b !in owner;
    PtrsAfterAddr(im, im1, owner, i, k, b);
    MetadataThrough(im, im1, im', b);
    AddrKeepsRest(im, im1, owner, i, k, b);
    hide Marked, Entry, OnDisk, Ptr, PtrsBut, SameBitsBut, SameRecords, SameInodesBut;
    hide SameButIndirect, Remarked, WellFormed, Owned;
  }

  lemma AddrKeepsRest(im: Image, im1: Image, owner: map<nat, Slot>, i: nat, k: nat, b: nat)
    requires WellFormed(im) && i < im.ninodes && k <= NDIRECT && Remarked(im, im1, b, true)
    ensures SameShape(im, WithAddr(im1, i, k, b)) && SameInodesBut(im, WithAddr(im1, i, k, b), i)
    ensures SameButIndirect(im, WithAddr(im1, i, k, b), owner)
  {
    hide SameBitsBut, SameRecords;
  }

  lemma MetadataThrough(im: Image, im1: Image, im': Image, b: nat)
    requires WellFormed(im) && Remarked(im, im1, b, true) && im'.disk == im1.disk && im'.ninodes == im1.ninodes
    ensures SameBitsBut(im, im', b, true) && SameRecords(im, im')
  {
    SameDiskSameMetadata(im1, im');
    hide Marked, OnDisk;
  }

  lemma PtrsAfterAddr(im: Image, im1: Image, owner: map<nat, Slot>, i: nat, k: nat, b: nat)
    requires Owned(im, owner, {}) && i < im.ninodes && k <= NDIRECT && im.inodes[i].addrs[k] == 0
    requires DataStart(im) <= b < |im.disk| && !Marked(im, b) && Remarked(im, im1, b, true)
    ensures WellFormed(WithAddr(im1, i, k, b)) && SameShape(im, WithAddr(im1, i, k, b))
    ensures PtrsBut(im, WithAddr(im1, i, k, b), if k < NDIRECT then Data(i, k) else Indirect(i), b)
  {
    hide Marked, OnDisk, Entry;
    forall s | ValidSlot(im, s)
      ensures Ptr(WithAddr(im1, i, k, b), s) == if s == (if k < NDIRECT then Data(i, k) else Indirect(i)) then b else Ptr(im, s)
    {
      PtrAfterAddr(im, im1, owner, i, k, b, s);
    }
  }

  lemma PtrAfterAddr(im: Image, im1: Image, owner: map<nat, Slot>, i: nat, k: nat, b: nat, s: Slot)
    requires Owned(im, owner, {}) && i < im.ninodes && k <= NDIRECT && im.inodes[i].addrs[k] == 0
    requires DataStart(im) <= b < |im.disk| && !Marked(im, b) && Remarked(im, im1, b, true) && ValidSlot(im, s)
    ensures Ptr(WithAddr(im1, i, k, b), s) == if s == (if k < NDIRECT then Data(i, k) else Indirect(i)) then b else Ptr(im, s)
  {
    hide Marked, OnDisk;
    var ind := im.inodes[s.ino].addrs[NDIRECT];
    if s.Data? && s.n >= NDIRECT {
      if ind != 0 {
        assert Ptr(im, Indirect(s.ino)) == ind;
        assert OwnerOk(im, ind, owner[ind], {});
      } else if s.ino == i && k == NDIRECT {
        ZeroBlockEntries(s.n - NDIRECT);
      }
    }
  }

  lemma ClaimEntry(im: Image, im1: Image, owner: map<nat, Slot>, i: nat, j: nat, b: nat)
    requires Owned(im, owner, {}) && i < im.ninodes && j < NINDIRECT
    requires im.inodes[i].addrs[NDIRECT] != 0 && Ptr(im, Data(i, NDIRECT + j)) == 0
    requires DataStart(im) <= b < |im.disk| && !Marked(im, b) && Remarked(im, im1, b, true)
    ensures var ind := im.inodes[i].addrs[NDIRECT];
      ind < |im.disk| && Claims(im, WithBlock(im1, ind, PutEntry(im.disk[ind], j, b)), owner, Data(i, NDIRECT + j), b)
  {
    hide Marked, Entry, OnDisk, PutEntry, Ptr;
    var ind := im.inodes[i].addrs[NDIRECT];
    IndirectOwned(im, owner, i);
    var data := PutEntry(im.disk[ind], j, b);
    var im' := WithBlock(im1, ind, data);
    DataWriteChanges(im1, ind, data);
    PtrsAfterEntry(im, im', owner, i, j, b);
  }

  // A non-zero indirect pointer leads to a data block that this inode alone owns.
  lemma IndirectOwned(im: Image, owner: map<nat, Slot>, i: nat)
    requires Owned(im, owner, {}) && i < im.ninodes && im.inodes[i].addrs[NDIRECT] != 0
    ensures var ind := im.inodes[i].addrs[NDIRECT];
      DataStart(im) <= ind < |im.disk| && ind in owner && owner[ind] == Indirect(i)
  {
    hide Marked;
    var ind := im.inodes[i].addrs[NDIRECT];
    assert Ptr(im, Indirect(i)) == ind;
    assert OwnerOk(im, ind, owner[ind], {});
  }

  lemma PtrsAfterEntry(im: Image, im': Image, owner: map<nat, Slot>, i: nat, j: nat, b: nat)
    requires Owned(im, owner, {}) && WellFormed(im') && SameShape(im, im') && i < im.ninodes && j < NINDIRECT && b < U32
    requires var ind := im.inodes[i].addrs[NDIRECT];
      ind != 0 && DataStart(im) <= ind < |im.disk| && im'.disk[ind] == PutEntry(im.disk[ind], j, b) && SameDataBut(im, im', ind)
    requires im'.inodes == im.inodes
    ensures PtrsBut(im, im', Data(i, NDIRECT + j), b)
  {
    forall s | ValidSlot(im, s)
      ensures Ptr(im', s) == if s == Data(i, NDIRECT + j) then b else Ptr(im, s)
    {
      PtrAfterEntry(im, im', owner, i, j, b, s);
    }
  }

  lemma PtrAfterEntry(im: Image, im': Image, owner: map<nat, Slot>, i: nat, j: nat, b: nat, s: Slot)
    requires Owned(im, owner, {}) && WellFormed(im') && SameShape(im, im') && i < im.ninodes && j < NINDIRECT && b < U32
    requires var ind := im.inodes[i].addrs[NDIRECT];
      ind != 0 && DataStart(im) <= ind < |im.disk| && im'.disk[ind] == PutEntry(im.disk[ind], j, b) && SameDataBut(im, im', ind)
    requires im'.inodes == im.inodes && ValidSlot(im, s)
    ensures Ptr(im', s) == if s == Data(i, NDIRECT + j) then b else Ptr(im, s)
  {
    hide Marked, Entry;
    var ind := im.inodes[i].addrs[NDIRECT];
    var c := im.inodes[s.ino].addrs[NDIRECT];
    assert Ptr(im, Indirect(i)) == ind;
    if s.Data? && s.n >= NDIRECT && c != 0 {
      assert Ptr(im, Indirect(s.ino)) == c;
      assert OwnerOk(im, c, Indirect(s.ino), {});
      if s.ino == i {
        assert Ptr(im', s) == Entry(PutEntry(im.disk[ind], j, b), s.n - NDIRECT);
      } else {
        assert OwnerOk(im, ind, Indirect(i), {});
        assert c != ind;
        assert At(im', c) == At(im, c);
      }
    }
  }

  // ----- releasing an owned block -----

  // bfree: block b is zeroed and its bit cleared.
  ghost predicate Released(im: Image, im': Image, b: nat)
    requires WellFormed(im)
  {
    && WellFormed(im') && SameShape(im, im') && im'.inodes == im.inodes
    && DataStart(im) <= b < |im.disk|
    && SameBitsBut(im, im', b, false) && SameRecords(im, im') && SameDataBut(im, im', b)
    && im'.disk[b] == ZeroBlock()
  }

  lemma FreeReleases(im: Image, b: nat)
    requires WellFormed(im) && DataStart(im) <= b < |im.disk|
    ensures Released(im, WithMark(WithBlock(im, b, ZeroBlock()), b, false), b)
  {
    hide Marked, OnDisk, WithMark;
    var im1 := WithBlock(im, b, ZeroBlock());
    DataWriteChanges(im, b, ZeroBlock());
    MarkChanges(im1, b, false);
  }

  // What itrunc may free next: a block whose inode has no dead indirect pointer, and, for an
  // indirect block, only once each of its entries is dead or empty.
  ghost predicate Releasable(im: Image, owner: map<nat, Slot>, dead: set<Slot>, b: nat) {
    && Owned(im, owner, dead) && b in owner && OwnerOk(im, b, owner[b], dead)
    && (forall s | s in dead :: s.Data?)
    && (owner[b].Indirect? ==>
          forall n | NDIRECT <= n < MAXFILE && Data(owner[b].ino, n) !in dead :: Ptr(im, Data(owner[b].ino, n)) == 0)
  }

  lemma ReleaseKeepsPtr(im: Image, im': Image, owner: map<nat, Slot>, dead: set<Slot>, b: nat, s: Slot)
    requires Releasable(im, owner, dead, b) && Released(im, im', b)
    requires ValidSlot(im, s) && s !in dead && s != owner[b]
    ensures Ptr(im', s) == Ptr(im, s) != b
  {
    hide Marked, Entry, OnDisk;
    assert OwnerOk(im, b, owner[b], dead);
    var c := im.inodes[s.ino].addrs[NDIRECT];
    if s.Data? && s.n >= NDIRECT && c != 0 {
      assert Ptr(im, Indirect(s.ino)) == c;
      assert OwnerOk(im, c, owner[c], dead);
      if c == b {
        ZeroBlockEntries(s.n - NDIRECT);
      }
    }
  }

  lemma ReleaseKeepsOwned(im: Image, im': Image, owner: map<nat, Slot>, dead: set<Slot>, b: nat)
    requires Releasable(im, owner, dead, b) && Released(im, im', b)
    ensures Owned(im', owner - {b}, dead + {owner[b]})
  {
    hide Marked, Ptr;
    var owner', dead' := owner - {b}, dead + {owner[b]};
    assert OwnerOk(im, b, owner[b], dead);
    forall s | ValidSlot(im', s) && s !in dead' && Ptr(im', s) != 0
      ensures Ptr(im', s) in owner' && owner'[Ptr(im', s)] == s
    {
      ReleaseKeepsPtr(im, im', owner, dead, b, s);
    }
    forall x | x in owner'
      ensures OwnerOk(im', x, owner'[x], dead')
    {
      assert OwnerOk(im, x, owner[x], dead);
      ReleaseKeepsPtr(im, im', owner, dead, b, owner[x]);
    }
    assert forall x | DataStart(im') <= x < |im'.disk| && x !in owner' :: im'.disk[x] == ZeroBlock();
  }

  // The bytes of every other inode stay.
  lemma ReleaseKeepsBytes(im: Image, im': Image, owner: map<nat, Slot>, dead: set<Slot>, b: nat, k: nat, p: nat)
    requires Releasable(im, owner, dead, b) && Released(im, im', b)
    requires k < im.ninodes && k != owner[b].ino && forall s | s in dead :: s.ino != k
    ensures ByteAt(im', k, p) == ByteAt(im, k, p)
  {
    hide Marked, Entry;
    if p / 512 < MAXFILE {
      var s := Data(k, p / 512);
      ReleaseKeepsPtr(im, im', owner, dead, b, s);
      if Ptr(im, s) != 0 {
        assert OwnerOk(im, Ptr(im, s), s, dead);
      }
    }
  }

  // Clearing the pointer that led to a freed block.
  lemma ClearDeadAddr(im: Image, owner: map<nat, Slot>, dead: set<Slot>, i: nat, k: nat)
    requires Owned(im, owner, dead) && i < im.ninodes && k <= NDIRECT
    requires (if k < NDIRECT then Data(i, k) else Indirect(i)) in dead
    requires k == NDIRECT ==> forall n | NDIRECT <= n < MAXFILE :: Ptr(im, Data(i, n)) == 0
    ensures var im' := WithAddr(im, i, k, 0);
      && WellFormed(im') && Owned(im', owner, dead)
      && (forall s | ValidSlot(im, s) && (s.ino != i || s != if k < NDIRECT then Data(i, k) else Indirect(i)) :: Ptr(im', s) == Ptr(im, s))
  {
    hide Marked, Entry, OnDisk;
    var im' := WithAddr(im, i, k, 0);
    var gone := if k < NDIRECT then Data(i, k) else Indirect(i);
    assert WellFormed(im');
    forall s | ValidSlot(im, s) && s != gone
      ensures Ptr(im', s) == Ptr(im, s)
    {
      if s.Data? && s.n >= NDIRECT && k == NDIRECT && s.ino == i {
        assert Ptr(im, Data(i, s.n)) == 0;
      }
    }
    SameDiskSameMetadata(im, im');
    forall x | x in owner
      ensures OwnerOk(im', x, owner[x], dead)
    {
      assert OwnerOk(im, x, owner[x], dead);
    }
  }

  lemma NothingDead(im: Image, owner: map<nat, Slot>, dead: set<Slot>)
    requires Owned(im, owner, dead)
    requires forall s | s in dead && ValidSlot(im, s) :: Ptr(im, s) == 0
    ensures Owned(im, owner, {})
  {
    hide Marked, Ptr;
    forall x | x in owner
      ensures OwnerOk(im, x, owner[x], {})
    {
      assert OwnerOk(im, x, owner[x], dead);
    }
  }

  // ----- mapping and writing file blocks -----

  // What bmap promises: block n of inode i is mapped to addr, every other pointer is as
  // before, and no byte of any file has changed.
  ghost predicate Maps(im: Image, im': Image, i: nat, n: nat, addr: nat)
    requires WellFormed(im) && i < im.ninodes && n < MAXFILE
  {
    && WellFormed(im') && SameShape(im, im')
    && SameInodesBut(im, im', i)
    && addr == Ptr(im', Data(i, n)) != 0
    && (Ptr(im, Data(i, n)) != 0 ==> im' == im)
    && (forall k, m | 0 <= k < im.ninodes && 0 <= m < MAXFILE && !(k == i && m == n) :: Ptr(im', Data(k, m)) == Ptr(im, Data(k, m)))
    && (forall k | 0 <= k < im.ninodes && k != i :: Ptr(im', Indirect(k)) == Ptr(im, Indirect(k)))
    && (Ptr(im', Indirect(i)) != 0 <==> Ptr(im, Indirect(i)) != 0 || n >= NDIRECT)
    && SameRecords(im, im')
    && SameBytes(im, im')
  }

  ghost predicate SameBytes(im: Image, im': Image)
    requires WellFormed(im) && WellFormed(im') && SameShape(im, im')
  {
    forall k, p | 0 <= k < im.ninodes && 0 <= p :: ByteAt(im', k, p) == ByteAt(im, k, p)
  }

  // im' and im agree on everything about inode k.
  ghost predicate SameFile(im: Image, im': Image, k: nat)
    requires WellFormed(im) && WellFormed(im') && SameShape(im, im') && k < im.ninodes
  {
    && im'.inodes[k] == im.inodes[k]
    && OnDisk(im', k) == OnDisk(im, k)
    && (forall s | ValidSlot(im, s) && s.ino == k :: Ptr(im', s) == Ptr(im, s))
    && (forall p | 0 <= p :: ByteAt(im', k, p) == ByteAt(im, k, p))
  }

  lemma SameFileSettled(im: Image, im': Image, k: nat)
    requires WellFormed(im) && WellFormed(im') && SameShape(im, im') && k < im.ninodes
    requires Settled(im, k) && SameFile(im, im', k)
    ensures Settled(im', k)
  {
    hide OnDisk, Ptr, ByteAt;
    assert ValidSlot(im, Indirect(k));
    forall m | 0 <= m < MAXFILE
      ensures Ptr(im', Data(k, m)) != 0 <==> m * 512 < im'.inodes[k].size
    {
      assert ValidSlot(im, Data(k, m));
      assert Ptr(im, Data(k, m)) != 0 <==> m * 512 < im.inodes[k].size;
    }
    forall p | p >= im.inodes[k].size
      ensures ByteAt(im', k, p) == 0
    {
      assert ByteAt(im, k, p) == 0;
    }
  }

  // While inode i is being written its blocks cover the bytes below top.
  ghost predicate Growing(im: Image, owner: map<nat, Slot>, i: nat, top: nat) {
    && Owned(im, owner, {}) && i < im.ninodes
    && Dense(im, i, top)
    && (forall k | 0 <= k < im.ninodes && k != i :: Settled(im, k))
  }

  function Max(a: nat, b: nat): nat { if a < b then b else a }

  // bmap takes at most two blocks: one for the indirect block, then one for the data.
  ghost predicate ClaimsOrSame(im: Image, im': Image, owner: map<nat, Slot>, s0: Slot) {
    im' == im || (ValidSlot(im', s0) && WellFormed(im') && Claims(im, im', owner, s0, Ptr(im', s0)))
  }

  lemma ClaimsMap(im: Image, im1: Image, im2: Image, owner: map<nat, Slot>, owner1: map<nat, Slot>, i: nat, n: nat)
    requires Owned(im, owner, {}) && i < im.ninodes && n < MAXFILE && WellFormed(im1) && WellFormed(im2)
    requires SameShape(im1, im2)
    requires if n < NDIRECT then im1 == im else ClaimsOrSame(im, im1, owner, Indirect(i)) && Ptr(im1, Indirect(i)) != 0
    requires ClaimsOrSame(im1, im2, owner1, Data(i, n)) && Ptr(im2, Data(i, n)) != 0
    requires SameBytes(im, im1) && SameBytes(im1, im2)
    ensures Maps(im, im2, i, n, Ptr(im2, Data(i, n)))
  {
    hide Marked, OnDisk, ByteAt;
    assert WellFormed(im) && WellFormed(im1);
    hide Owned;
    if n >= NDIRECT && im1 != im {
      assert Ptr(im, Indirect(i)) == 0;
      assert Ptr(im, Data(i, n)) == 0;
    }
    hide Ptr;
    forall k, m | 0 <= k < im.ninodes && 0 <= m < MAXFILE && !(k == i && m == n)
      ensures Ptr(im2, Data(k, m)) == Ptr(im, Data(k, m))
    {
      assert ValidSlot(im, Data(k, m)) && ValidSlot(im1, Data(k, m));
    }
    forall k | 0 <= k < im.ninodes
      ensures Ptr(im2, Indirect(k)) == Ptr(im1, Indirect(k))
    {
      assert ValidSlot(im1, Indirect(k));
    }
    forall k | 0 <= k < im.ninodes && k != i
      ensures Ptr(im2, Indirect(k)) == Ptr(im, Indirect(k))
    {
      assert ValidSlot(im, Indirect(k));
    }
  }

  lemma MapsKeepsDense(im: Image, im': Image, i: nat, n: nat, addr: nat, top: nat)
    requires WellFormed(im) && i < im.ninodes && n < MAXFILE && Maps(im, im', i, n, addr)
    requires Dense(im, i, top) && n * 512 <= top
    ensures Dense(im', i, Max(top, n * 512 + 1))
    ensures Ptr(im, Data(i, n)) != 0 <==> n * 512 < top
  {
    hide OnDisk, Ptr, ByteAt;
    var top' := Max(top, n * 512 + 1);
    forall m | 0 <= m < MAXFILE
      ensures Ptr(im', Data(i, m)) != 0 <==> m * 512 < top'
    {
      assert Ptr(im, Data(i, m)) != 0 <==> m * 512 < top;
    }
    forall p | p >= top'
      ensures ByteAt(im', i, p) == 0
    {
      assert ByteAt(im, i, p) == 0;
    }
  }

  lemma MapsKeepsOthers(im: Image, im': Image, i: nat, n: nat, addr: nat, k: nat)
    requires WellFormed(im) && i < im.ninodes && n < MAXFILE && Maps(im, im', i, n, addr)
    requires k < im.ninodes && k != i
    ensures SameFile(im, im', k)
  {
    hide OnDisk, Ptr, ByteAt;
    forall s | ValidSlot(im, s) && s.ino == k
      ensures Ptr(im', s) == Ptr(im, s)
    {
      match s
      case Data(_, m) => assert Ptr(im', Data(k, m)) == Ptr(im, Data(k, m));
      case Indirect(_) => assert Ptr(im', Indirect(k)) == Ptr(im, Indirect(k));
    }
  }

  lemma MapsKeepsGrowing(im: Image, im': Image, owner: map<nat, Slot>, owner': map<nat, Slot>, i: nat, n: nat,
                         addr: nat, top: nat)
    requires Growing(im, owner, i, top) && n < MAXFILE && n * 512 <= top
    requires Maps(im, im', i, n, addr) && Owned(im', owner', {})
    ensures Growing(im', owner', i, Max(top, n * 512 + 1))
  {
    hide OnDisk, Ptr, ByteAt, Marked, Settled, Dense;
    MapsKeepsDense(im, im', i, n, addr, top);
    forall k | 0 <= k < im.ninodes && k != i
      ensures Settled(im', k)
    {
      MapsKeepsOthers(im, im', i, n, addr, k);
      SameFileSettled(im, im', k);
    }
  }

  // Writing inside one data block of inode i.
  lemma WriteKeepsPtr(im: Image, owner: map<nat, Slot>, b: nat, data: Block, s: Slot)
    requires Owned(im, owner, {}) && b in owner && owner[b].Data? && b < |im.disk| && ValidSlot(im, s)
    requires WellFormed(WithBlock(im, b, data))
    ensures Ptr(WithBlock(im, b, data), s) == Ptr(im, s)
  {
    hide Marked, Entry;
    var c := im.inodes[s.ino].addrs[NDIRECT];
    if s.Data? && s.n >= NDIRECT && c != 0 {
      IndirectOwned(im, owner, s.ino);
    }
  }

  lemma WriteKeepsOwned(im: Image, owner: map<nat, Slot>, b: nat, data: Block)
    requires Owned(im, owner, {}) && b in owner && owner[b].Data? && DataStart(im) <= b < |im.disk|
    ensures Owned(WithBlock(im, b, data), owner, {})
    ensures Rewritten(im, WithBlock(im, b, data), b)
  {
    hide Marked, Ptr, OnDisk;
    var im' := WithBlock(im, b, data);
    DataWriteChanges(im, b, data);
    forall s | ValidSlot(im, s)
      ensures Ptr(im', s) == Ptr(im, s)
    {
      WriteKeepsPtr(im, owner, b, data, s);
    }
    forall x | x in owner
      ensures OwnerOk(im', x, owner[x], {})
    {
      assert OwnerOk(im, x, owner[x], {});
    }
  }

  // The piece has been laid over inode i's bytes from pos on, inside one of its blocks.
  ghost predicate Stored(im: Image, im': Image, i: nat, pos: nat, piece: seq<byte>)
    requires WellFormed(im) && i < im.ninodes && pos / 512 < MAXFILE
  {
    var b := Ptr(im, Data(i, pos / 512));
    0 < |piece| <= BSIZE - pos % 512 && 0 < b < |im.disk| && im' == WithBlock(im, b, Splice(im.disk[b], pos % 512, piece))
  }

  lemma StoredBlock(im: Image, im': Image, owner: map<nat, Slot>, i: nat, pos: nat, piece: seq<byte>)
    requires Owned(im, owner, {}) && i < im.ninodes && pos / 512 < MAXFILE && Stored(im, im', i, pos, piece)
    ensures Owned(im', owner, {}) && SameRecords(im, im') && SameShape(im, im') && im'.inodes == im.inodes
    ensures forall s | ValidSlot(im, s) :: Ptr(im', s) == Ptr(im, s)
  {
    var b := Ptr(im, Data(i, pos / 512));
    hide Marked, Entry, OnDisk, Ptr;
    assert OwnerOk(im, b, Data(i, pos / 512), {});
    var data := Splice(im.disk[b], pos % 512, piece);
    WriteKeepsOwned(im, owner, b, data);
    forall s | ValidSlot(im, s)
      ensures Ptr(im', s) == Ptr(im, s)
    {
      WriteKeepsPtr(im, owner, b, data, s);
    }
  }

  lemma StoredByte(im: Image, im': Image, owner: map<nat, Slot>, i: nat, pos: nat, piece: seq<byte>, k: nat, p: nat)
    requires Owned(im, owner, {}) && i < im.ninodes && pos / 512 < MAXFILE && Stored(im, im', i, pos, piece)
    requires k < im.ninodes
    requires WellFormed(im') && SameShape(im, im') && forall s | ValidSlot(im, s) :: Ptr(im', s) == Ptr(im, s)
    ensures ByteAt(im', k, p) == if k == i && pos <= p < pos + |piece| then piece[p - pos] else ByteAt(im, k, p)
  {
    hide Marked, Entry, OnDisk, Ptr;
    var b := Ptr(im, Data(i, pos / 512));
    if p / 512 < MAXFILE {
      var s := Data(k, p / 512);
      assert ValidSlot(im, s);
      if Ptr(im, s) != 0 {
        assert OwnerOk(im, Ptr(im, s), s, {});
        assert Ptr(im, s) == b ==> s == Data(i, pos / 512);
      }
    }
  }

  lemma StoredKeepsFile(im: Image, im': Image, owner: map<nat, Slot>, i: nat, pos: nat, piece: seq<byte>, k: nat)
    requires Owned(im, owner, {}) && i < im.ninodes && pos / 512 < MAXFILE && Stored(im, im', i, pos, piece)
    requires k < im.ninodes && k != i
    ensures WellFormed(im') && SameShape(im, im') && SameFile(im, im', k)
  {
    hide Marked, Entry, OnDisk, Ptr, ByteAt, Stored;
    StoredBlock(im, im', owner, i, pos, piece);
    forall p | 0 <= p
      ensures ByteAt(im', k, p) == ByteAt(im, k, p)
    {
      StoredByte(im, im', owner, i, pos, piece, k, p);
    }
  }

  // One turn of writei's loop: the piece lands in a block that the bytes below top reach.
  lemma StoredGrows(im: Image, im': Image, owner: map<nat, Slot>, i: nat, pos: nat, piece: seq<byte>, top: nat)
    requires i < im.ninodes && pos / 512 < MAXFILE
    requires Growing(im, owner, i, top) && pos / 512 * 512 < top && Stored(im, im', i, pos, piece)
    ensures WellFormed(im') && SameRecords(im, im') && SameShape(im, im') && im'.inodes == im.inodes
    ensures Growing(im', owner, i, Max(top, pos + |piece|))
    ensures forall p | 0 <= p :: ByteAt(im', i, p) == if pos <= p < pos + |piece| then piece[p - pos] else ByteAt(im, i, p)
  {
    assert |piece| <= BSIZE - pos % 512;
    hide Marked, Entry, OnDisk, ByteAt, Ptr, Stored;
    StoredBlock(im, im', owner, i, pos, piece);
    forall p | 0 <= p
      ensures ByteAt(im', i, p) == if pos <= p < pos + |piece| then piece[p - pos] else ByteAt(im, i, p)
    {
      StoredByte(im, im', owner, i, pos, piece, i, p);
    }
    StoredKeepsDense(im, im', i, top, Max(top, pos + |piece|), pos / 512);
    forall k | 0 <= k < im.ninodes && k != i
      ensures Settled(im', k)
    {
      StoredKeepsFile(im, im', owner, i, pos, piece, k);
      SameFileSettled(im, im', k);
    }
  }

  lemma StoredKeepsDense(im: Image, im': Image, i: nat, top: nat, top': nat, n: nat)
    requires WellFormed(im) && WellFormed(im') && SameShape(im, im') && i < im.ninodes
    requires Dense(im, i, top) && n < MAXFILE && n * 512 < top <= top' && (top' == top || top' <= (n + 1) * 512)
    requires forall s | ValidSlot(im, s) :: Ptr(im', s) == Ptr(im, s)
    requires forall p | p >= top' :: ByteAt(im', i, p) == ByteAt(im, i, p)
    ensures Dense(im', i, top')
  {
    hide Marked, ByteAt, Ptr;
    assert ValidSlot(im, Indirect(i));
    forall m | 0 <= m < MAXFILE
      ensures Ptr(im', Data(i, m)) != 0 <==> m * 512 < top'
    {
      assert ValidSlot(im, Data(i, m));
      assert Ptr(im, Data(i, m)) != 0 <==> m * 512 < top;
    }
    forall p | p >= top'
      ensures ByteAt(im', i, p) == 0
    {
      assert ByteAt(im, i, p) == 0;
    }
  }
}
