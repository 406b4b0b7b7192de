/** The byte encodings of the on-disk format (include/fs.h): little-endian integers,
    the block bitmap, the inode record and the indirect block. */
module DiskCodec {
  // The constants of fs.h. Where a position is multiplied or divided by BSIZE, BPB or IPB
  // the literal 512, 4096 or 8 is written, which keeps the arithmetic linear.
  const BSIZE: nat := 512        // bytes in a block
  const NDIRECT: nat := 12       // direct pointers in an inode
  const NINDIRECT: nat := 128    // BSIZE / sizeof(uint)
  const MAXFILE: nat := 140      // NDIRECT + NINDIRECT
  const MAXBYTES: nat := 71680   // MAXFILE * BSIZE
  const BPB: nat := 4096         // bits in a bitmap block
  const IPB: nat := 8            // inodes in a block
  const DINODE_SIZE: nat := 64
  const U32: nat := 0x1_0000_0000

  type byte = x: nat | x < 256
  type Block = b: seq<byte> | |b| == BSIZE witness seq(BSIZE, _ => 0)

  function ZeroBlock(): Block { seq(BSIZE, _ => 0) }

  // ----- little-endian integers -----

  function Get16(s: seq<byte>, at: nat): (u: nat)
    requires at + 2 <= |s|
    ensures u < 0x1_0000
  {
    s[at] as nat + 256 * (s[at + 1] as nat)
  }

  function Get32(s: seq<byte>, at: nat): (u: nat)
    requires at + 4 <= |s|
    ensures u < U32
  {
    s[at] as nat + 256 * (s[at + 1] as nat) + 65536 * (s[at + 2] as nat) + 16777216 * (s[at + 3] as nat)
  }

  function Bytes16(u: nat): (s: seq<byte>)
    requires u < 0x1_0000
    ensures |s| == 2 && Get16(s, 0) == u
  {
    [u % 256, u / 256]
  }

  function Bytes32(u: nat): (s: seq<byte>)
    requires u < U32
    ensures |s| == 4 && Get32(s, 0) == u
  {
    var a := u / 256;
    var b := a / 256;
    [u % 256, a % 256, b % 256, b / 256]
  }

  // A C `short`: sixteen bits in two's complement.
  type short = x: int | -0x8000 <= x < 0x8000

  function ToShort(u: int): short {
    var m := u % 0x1_0000;
    if m < 0x8000 then m else m - 0x1_0000
  }

  function Unsigned16(x: short): (u: nat)
    ensures u < 0x1_0000 && ToShort(u) == x
  {
    if x >= 0 then x else x + 0x1_0000
  }

  // ----- replacing a run of bytes inside a buffer (memmove into bp->data) -----

  function Splice(s: seq<byte>, at: nat, piece: seq<byte>): (r: seq<byte>)
    requires at + |piece| <= |s|
    ensures |r| == |s|
    ensures forall k | 0 <= k < |s| :: r[k] == if at <= k < at + |piece| then piece[k - at] else s[k]
  {
    s[..at] + piece + s[at + |piece|..]
  }

  // ----- indirect blocks: NINDIRECT unsigned integers -----

  function Entry(b: Block, j: nat): (u: nat)
    requires j < NINDIRECT
    ensures u < U32
  {
    Get32(b, 4 * j)
  }

  function PutEntry(b: Block, j: nat, u: nat): (r: Block)
    requires j < NINDIRECT && u < U32
    ensures forall k | 0 <= k < NINDIRECT :: Entry(r, k) == if k == j then u else Entry(b, k)
  {
    var piece := Bytes32(u);
    var r := Splice(b, 4 * j, piece);
    assert forall k | 0 <= k < NINDIRECT :: Entry(r, k) == if k == j then u else Entry(b, k) by {
      forall k | 0 <= k < NINDIRECT
        ensures Entry(r, k) == if k == j then u else Entry(b, k)
      {
        assert Get32(piece, 0) == u;
      }
    }
    r
  }

  lemma ZeroBlockEntries(j: nat)
    requires j < NINDIRECT
    ensures Entry(ZeroBlock(), j) == 0
  {
  }

  // ----- bitmap blocks: one bit a block -----

  function Pow2(n: nat): (p: nat)
    ensures p >= 1
  {
    if n == 0 then 1 else 2 * Pow2(n - 1)
  }

  // (x & (1 << k)) != 0
  predicate TestBit(x: nat, k: nat) {
    if k == 0 then x % 2 == 1 else TestBit(x / 2, k - 1)
  }

  // x | (1 << k) when on, x & ~(1 << k) otherwise, for an n-bit x
  function SetBit(x: nat, k: nat, on: bool, n: nat): (y: nat)
    requires k < n && x < Pow2(n)
    ensures y < Pow2(n)
    ensures TestBit(y, k) == on
    ensures forall i: nat | i != k :: TestBit(y, i) == TestBit(x, i)
  {
    if k == 0 then
      x - x % 2 + (if on then 1 else 0)
    else
      var z := SetBit(x / 2, k - 1, on, n - 1);
      var y := x % 2 + 2 * z;
      assert y / 2 == z && y % 2 == x % 2;
      assert forall i: nat | i != k :: TestBit(y, i) == TestBit(x, i) by {
        forall i: nat | i != k
          ensures TestBit(y, i) == TestBit(x, i)
        {
          if i > 0 { assert TestBit(z, i - 1) == TestBit(x / 2, i - 1); }
        }
      }
      y
  }

  predicate BitOf(b: Block, i: nat)
    requires i < BPB
  {
    TestBit(b[i / 8], i % 8)
  }

  function WithBit(b: Block, i: nat, on: bool): (r: Block)
    requires i < BPB
    ensures forall k | 0 <= k < BPB :: BitOf(r, k) <==> if k == i then on else BitOf(b, k)
  {
    assert Pow2(8) == 256;
    b[i / 8 := SetBit(b[i / 8], i % 8, on, 8)]
  }

  // ----- inode records: IPB to a block -----

  datatype Inode = Inode(typ: short, major: short, minor: short, nlink: short, size: nat, addrs: seq<nat>)

  predicate InodeOk(ip: Inode) {
    && ip.size < U32
    && |ip.addrs| == NDIRECT + 1
    && forall k | 0 <= k <= NDIRECT :: ip.addrs[k] < U32
  }

  function FreeInode(): Inode { Inode(0, 0, 0, 0, 0, seq(NDIRECT + 1, _ => 0)) }

  function AddrBytes(addrs: seq<nat>): (s: seq<byte>)
    requires forall k | 0 <= k < |addrs| :: addrs[k] < U32
    ensures |s| == 4 * |addrs|
    ensures forall k | 0 <= k < |addrs| :: Get32(s, 4 * k) == addrs[k]
  {
    if addrs == [] then [] else
      var rest := AddrBytes(addrs[1..]);
      var s := Bytes32(addrs[0]) + rest;
      assert forall k | 0 <= k < |addrs| :: Get32(s, 4 * k) == addrs[k] by {
        forall k | 0 <= k < |addrs|
          ensures Get32(s, 4 * k) == addrs[k]
        {
          if k > 0 {
            assert Get32(s, 4 * k) == Get32(rest, 4 * (k - 1));
          }
        }
      }
      s
  }

  function EncodeInode(ip: Inode): (s: seq<byte>)
    requires InodeOk(ip)
    ensures |s| == DINODE_SIZE
  {
    Bytes16(Unsigned16(ip.typ)) + Bytes16(Unsigned16(ip.major)) + Bytes16(Unsigned16(ip.minor))
    + Bytes16(Unsigned16(ip.nlink)) + Bytes32(ip.size) + AddrBytes(ip.addrs)
  }

  function DecodeInode(s: seq<byte>): (ip: Inode)
    requires |s| == DINODE_SIZE
    ensures InodeOk(ip)
  {
    Inode(ToShort(Get16(s, 0)), ToShort(Get16(s, 2)), ToShort(Get16(s, 4)), ToShort(Get16(s, 6)),
          Get32(s, 8), seq(NDIRECT + 1, k requires 0 <= k <= NDIRECT => Get32(s, 12 + 4 * k)))
  }

  lemma InodeRoundTrip(ip: Inode)
    requires InodeOk(ip)
    ensures DecodeInode(EncodeInode(ip)) == ip
  {
    var s := EncodeInode(ip);
    var a := AddrBytes(ip.addrs);
    assert s[12..] == a;
    assert s[0..2] == Bytes16(Unsigned16(ip.typ)) && s[2..4] == Bytes16(Unsigned16(ip.major));
    assert s[4..6] == Bytes16(Unsigned16(ip.minor)) && s[6..8] == Bytes16(Unsigned16(ip.nlink));
    assert s[8..12] == Bytes32(ip.size);
    forall k | 0 <= k <= NDIRECT
      ensures DecodeInode(s).addrs[k] == ip.addrs[k]
    {
      assert Get32(s, 12 + 4 * k) == Get32(a, 4 * k);
    }
    assert DecodeInode(s).addrs == ip.addrs;
  }

  function InodeIn(b: Block, k: nat): (ip: Inode)
    requires k < IPB
    ensures InodeOk(ip)
  {
    DecodeInode(b[64 * k..64 * (k + 1)])
  }

  function PutInode(b: Block, k: nat, ip: Inode): (r: Block)
    requires k < IPB && InodeOk(ip)
    ensures forall m | 0 <= m < IPB :: InodeIn(r, m) == if m == k then ip else InodeIn(b, m)
  {
    var r := Splice(b, 64 * k, EncodeInode(ip));
    assert forall m | 0 <= m < IPB :: InodeIn(r, m) == if m == k then ip else InodeIn(b, m) by {
      forall m | 0 <= m < IPB
        ensures InodeIn(r, m) == if m == k then ip else InodeIn(b, m)
      {
        var slice := r[64 * m..64 * (m + 1)];
        if m == k {
          assert slice == EncodeInode(ip);
          InodeRoundTrip(ip);
        } else {
          assert slice == b[64 * m..64 * (m + 1)];
        }
      }
    }
    r
  }
}
