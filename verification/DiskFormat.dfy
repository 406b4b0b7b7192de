/** The on-disk format byte by byte (include/fs.h), in plain numbers: where each field stands,
    the order of its bytes, and which bit of the bitmap belongs to a block. */
module DiskFormat {
  import opened DiskCodec
  import opened FsImage
  import opened Directory

  // A record has four shorts, the size and thirteen block numbers, low bytes first.
  lemma RecordBytes(ip: Inode)
    requires InodeOk(ip)
    ensures var s := EncodeInode(ip);
      && s[0] as int + 256 * (s[1] as int) == (if ip.typ >= 0 then ip.typ else ip.typ + 65536)
      && s[2] as int + 256 * (s[3] as int) == (if ip.major >= 0 then ip.major else ip.major + 65536)
      && s[4] as int + 256 * (s[5] as int) == (if ip.minor >= 0 then ip.minor else ip.minor + 65536)
      && s[6] as int + 256 * (s[7] as int) == (if ip.nlink >= 0 then ip.nlink else ip.nlink + 65536)
      && s[8] as int + 256 * (s[9] as int) + 65536 * (s[10] as int) + 16777216 * (s[11] as int) == ip.size
      && forall k | 0 <= k <= 12 ::
           s[12 + 4 * k] as int + 256 * (s[13 + 4 * k] as int) + 65536 * (s[14 + 4 * k] as int) + 16777216 * (s[15 + 4 * k] as int)
           == ip.addrs[k]
  {
    hide Bytes16, Bytes32, ToShort;
    var s, t := EncodeInode(ip), AddrBytes(ip.addrs);
    assert s[0..2] == Bytes16(Unsigned16(ip.typ)) && s[2..4] == Bytes16(Unsigned16(ip.major));
    assert s[4..6] == Bytes16(Unsigned16(ip.minor)) && s[6..8] == Bytes16(Unsigned16(ip.nlink));
    assert s[8..12] == Bytes32(ip.size);
    assert forall k | 0 <= k < 52 :: s[12 + k] == t[k];
    forall k | 0 <= k <= 12
      ensures Get32(s, 12 + 4 * k) == ip.addrs[k]
    {
      assert Get32(t, 4 * k) == ip.addrs[k];
    }
  }

  // Reading: record k of a block begins at byte 64k.
  lemma RecordRead(b: Block, k: nat)
    requires k < 8
    ensures var ip := InodeIn(b, k);
      && (ip.typ - (b[64 * k] as int + 256 * (b[64 * k + 1] as int))) % 65536 == 0
      && (ip.nlink - (b[64 * k + 6] as int + 256 * (b[64 * k + 7] as int))) % 65536 == 0
      && ip.size == b[64 * k + 8] as int + 256 * (b[64 * k + 9] as int) + 65536 * (b[64 * k + 10] as int) + 16777216 * (b[64 * k + 11] as int)
  {
  }

  // Entry j of an indirect block.
  lemma EntryRead(b: Block, j: nat)
    requires j < 128
    ensures Entry(b, j) == b[4 * j] as int + 256 * (b[4 * j + 1] as int) + 65536 * (b[4 * j + 2] as int)
                           + 16777216 * (b[4 * j + 3] as int)
  {
  }

  // Bit i of a bitmap block is bit i % 8, from the lowest, of byte i / 8.
  lemma BitRead(b: Block, i: nat)
    requires i < 4096
    ensures var x, k := b[i / 8] as int, i % 8;
      && (k == 0 ==> (BitOf(b, i) <==> x % 2 == 1)) && (k == 1 ==> (BitOf(b, i) <==> x / 2 % 2 == 1))
      && (k == 2 ==> (BitOf(b, i) <==> x / 4 % 2 == 1)) && (k == 3 ==> (BitOf(b, i) <==> x / 8 % 2 == 1))
      && (k == 4 ==> (BitOf(b, i) <==> x / 16 % 2 == 1)) && (k == 5 ==> (BitOf(b, i) <==> x / 32 % 2 == 1))
      && (k == 6 ==> (BitOf(b, i) <==> x / 64 % 2 == 1)) && (k == 7 ==> (BitOf(b, i) <==> x / 128 % 2 == 1))
  {
    BitIs(b[i / 8], i % 8);
  }

  lemma {:induction false} BitIs(x: nat, k: nat)
    requires k < 8
    ensures k == 0 ==> (TestBit(x, k) <==> x % 2 == 1)
    ensures k == 1 ==> (TestBit(x, k) <==> x / 2 % 2 == 1)
    ensures k == 2 ==> (TestBit(x, k) <==> x / 4 % 2 == 1)
    ensures k == 3 ==> (TestBit(x, k) <==> x / 8 % 2 == 1)
    ensures k == 4 ==> (TestBit(x, k) <==> x / 16 % 2 == 1)
    ensures k == 5 ==> (TestBit(x, k) <==> x / 32 % 2 == 1)
    ensures k == 6 ==> (TestBit(x, k) <==> x / 64 % 2 == 1)
    ensures k == 7 ==> (TestBit(x, k) <==> x / 128 % 2 == 1)
  {
    Halves(x);
    if k >= 4 {
      Shifted(x, k - 4);
      Halves(x / 16);
      LowBits(x / 16, k - 4);
    } else {
      LowBits(x, k);
    }
  }

  lemma {:induction false} LowBits(x: nat, k: nat)
    requires k < 4
    ensures TestBit(x, k) <==> (if k == 0 then x else if k == 1 then x / 2 else if k == 2 then x / 2 / 2 else x / 2 / 2 / 2) % 2 == 1
  {
    if k > 0 { LowBits(x / 2, k - 1); }
  }

  lemma Halves(x: nat)
    ensures x / 2 / 2 == x / 4 && x / 2 / 2 / 2 == x / 8 && x / 2 / 2 / 2 / 2 == x / 16
    ensures x / 16 / 2 == x / 32 && x / 16 / 4 == x / 64 && x / 16 / 8 == x / 128
  {
  }

  lemma {:induction false} Shifted(x: nat, k: nat)
    ensures TestBit(x, k + 4) == TestBit(x / 2 / 2 / 2 / 2, k)
  {
    assert TestBit(x, k + 4) == TestBit(x / 2, k + 3) == TestBit(x / 2 / 2, k + 2) == TestBit(x / 2 / 2 / 2, k + 1);
  }

  // Where the records, the bitmap and the data stand: inode i is record i % 8 of block
  // 2 + i / 8, and the bit of block b is bit b % 4096 of block 3 + ninodes / 8 + b / 4096.
  lemma Places(im: Image, i: nat, b: nat)
    requires WellFormed(im) && i < im.ninodes && b < |im.disk|
    ensures 2 + i / 8 < |im.disk| && OnDisk(im, i) == InodeIn(im.disk[2 + i / 8], i % 8)
    ensures 3 + im.ninodes / 8 + b / 4096 < |im.disk|
    ensures Marked(im, b) <==> BitOf(im.disk[3 + im.ninodes / 8 + b / 4096], b % 4096)
    ensures 2 + i / 8 < 3 + im.ninodes / 8 + b / 4096 < DataStart(im)
  {
    assert i / 8 <= im.ninodes / 8 && b / 4096 <= |im.disk| / 4096;
  }

  // On the disk mkfs makes the bitmap is block 28 and the data begin at 29.
  lemma FreshPlaces(im: Image)
    requires im.ninodes == 200 && |im.disk| == 1024
    ensures BBlock(im.ninodes, 1023) == 28 && DataStart(im) == 29 && IBlock(1) == 2 && IBlock(199) == 26
  {
  }

  // Byte p of a file: twelve blocks by the inode, the others by the entries of its indirect block.
  lemma ByteRead(im: Image, i: nat, p: nat)
    requires WellFormed(im) && i < |im.inodes| && p < 71680
    ensures var addrs := im.inodes[i].addrs;
      && (p < 6144 && 0 < addrs[p / 512] < |im.disk| ==> ByteAt(im, i, p) == im.disk[addrs[p / 512]][p % 512])
      && (p >= 6144 && 0 < addrs[12] < |im.disk| ==>
            var b := Entry(im.disk[addrs[12]], p / 512 - 12);
            0 < b < |im.disk| ==> ByteAt(im, i, p) == im.disk[b][p % 512])
  {
    hide Entry;
  }

  // An entry: the number, low byte first, and the name with zeros behind it.
  lemma DirentBytes(inum: nat, name: seq<byte>)
    requires inum < 65536
    ensures var s := EncodeDirent(inum, name);
      && s[0] as int + 256 * (s[1] as int) == inum
      && forall k | 0 <= k < 14 :: s[2 + k] == if k < |NameOf(name)| then NameOf(name)[k] else 0
  {
    var s, t := EncodeDirent(inum, name), Padded(name, 14);
    assert s[..2] == Bytes16(inum) && s[2..] == t;
    forall k | 0 <= k < 14
      ensures s[2 + k] == t[k]
      ensures t[k] == if k < |NameOf(name)| then NameOf(name)[k] else 0
    {
      PaddedAt(name, 14, k);
    }
  }

  lemma {:induction false} PaddedAt(s: seq<byte>, n: nat, k: nat)
    requires k < n
    ensures Padded(s, n)[k] == if k < |Clip(s, n)| then Clip(s, n)[k] else 0
    decreases n
  {
    if First(s) == 0 {
      if k > 0 { PaddedAt([], n - 1, k - 1); }
    } else if k > 0 {
      PaddedAt(s[1..], n - 1, k - 1);
    }
  }
}
