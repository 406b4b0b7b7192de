/** The block list of p3a/xuyi/mem1.c: headers of h bytes inside the region, each followed by
    the bytes of its block. */
module Tiling {
  datatype Block = Block(a: int, n: int, busy: bool)

  // Blocks follow each other without a gap from address lo to address hi.
  ghost predicate Tiles(bl: seq<Block>, h: int, lo: int, hi: int) {
    && |bl| > 0 && bl[0].a == lo && bl[|bl| - 1].a + h + bl[|bl| - 1].n == hi
    && (forall i | 0 <= i < |bl| :: bl[i].n >= 0 && bl[i].n % 4 == 0)
    && (forall i | 0 <= i < |bl| - 1 :: bl[i + 1].a == bl[i].a + h + bl[i].n)
  }

  // No two neighbours are free, and the last block is.
  ghost predicate Coalesced(bl: seq<Block>) {
    && |bl| > 0 && !bl[|bl| - 1].busy
    && (forall i | 0 <= i < |bl| - 1 :: bl[i].busy || bl[i + 1].busy)
  }

  function Status(b: Block): int { if b.busy then b.n + 1 else b.n }

  // Address of the block after i, 0 behind the last one.
  function NextOf(bl: seq<Block>, i: int): int
    requires 0 <= i < |bl|
  {
    if i + 1 < |bl| then bl[i + 1].a else 0
  }

  ghost predicate Linked(next: map<int, int>, status: map<int, int>, bl: seq<Block>) {
    forall i | 0 <= i < |bl| ::
      && bl[i].a in next && bl[i].a in status && status[bl[i].a] == Status(bl[i])
      && next[bl[i].a] == NextOf(bl, i)
  }

  ghost function Busy(bl: seq<Block>): set<Block> { set b | b in bl && b.busy }

  function Total(bl: seq<Block>, h: int): int {
    if bl == [] then 0 else bl[0].n + h + Total(bl[1..], h)
  }

  // Sizes and headers always add up to the region.
  lemma {:induction false} TotalConstant(bl: seq<Block>, h: int, lo: int, hi: int)
    requires Tiles(bl, h, lo, hi)
    ensures Total(bl, h) == hi - lo
  {
    if |bl| == 1 {
      assert bl[1..] == [];
    } else {
      TotalConstant(bl[1..], h, bl[1].a, hi);
    }
  }

  lemma {:induction false} Ascending(bl: seq<Block>, h: int, lo: int, hi: int, i: nat, j: nat)
    requires Tiles(bl, h, lo, hi) && h > 0 && i < j < |bl|
    ensures bl[i].a + h + bl[i].n <= bl[j].a
    decreases j
  {
    if i + 1 < j { Ascending(bl, h, lo, hi, i, j - 1); }
    assert bl[j - 1 + 1].a == bl[j - 1].a + h + bl[j - 1].n;
  }

  // The bytes of two blocks, and their headers, are apart.
  lemma PayloadsApart(bl: seq<Block>, h: int, lo: int, hi: int, i: nat, j: nat)
    requires Tiles(bl, h, lo, hi) && h > 0 && i < |bl| && j < |bl| && i != j
    ensures bl[i].a != bl[j].a && bl[i].n >= 0 && bl[j].n >= 0
    ensures bl[i].a + h + bl[i].n <= bl[j].a || bl[j].a + h + bl[j].n <= bl[i].a
    ensures lo <= bl[i].a && bl[i].a + h + bl[i].n <= hi
  {
    if i < j { Ascending(bl, h, lo, hi, i, j); } else { Ascending(bl, h, lo, hi, j, i); }
    if i > 0 { Ascending(bl, h, lo, hi, 0, i); }
    if i < |bl| - 1 { Ascending(bl, h, lo, hi, i, |bl| - 1); }
  }

  // A neighbour of a free block, and whatever follows a busy one.
  lemma NextExists(bl: seq<Block>, i: nat)
    requires Coalesced(bl) && i < |bl| && bl[i].busy
    ensures i + 1 < |bl|
  {
  }

  // ----- allocation -----

  function RoundUp4(size: int): int { if size % 4 != 0 then (size / 4 + 1) * 4 else size }

  // A C int: 32 bits in two's complement.
  function Int32(x: int): (y: int)
    ensures -0x8000_0000 <= y < 0x8000_0000
    ensures -0x8000_0000 <= x < 0x8000_0000 ==> y == x
    ensures (y - x) % 0x1_0000_0000 == 0
  {
    (x + 0x8000_0000) % 0x1_0000_0000 - 0x8000_0000
  }

  // requestSize, and what a free block must have: both wrap for sizes near the largest int.
  function Request(size: int): int { Int32(RoundUp4(size)) }

  function Need(size: int): int { Int32(Request(size) + 8) }

  // From this size on.
  const WRAPS: int := 0x7fff_fff5

  lemma RequestSizes(size: int)
    requires 0 < size < 0x8000_0000
    ensures Request(size) % 4 == 0 && (Need(size) - Request(size) - 8) % 0x1_0000_0000 == 0
    ensures size < WRAPS ==> size <= Request(size) < size + 4 && Need(size) == Request(size) + 8
    ensures size >= WRAPS ==> Need(size) < 0 && (Request(size) == 0x7fff_fff8 || Request(size) == 0x7fff_fffc || Request(size) < 0)
  {
  }

  // The first free block with at least that many bytes, or |bl|.
  function FirstFit(bl: seq<Block>, need: int): (i: nat)
    ensures i <= |bl| && (i < |bl| ==> !bl[i].busy && bl[i].n >= need)
    ensures forall j | 0 <= j < i :: bl[j].busy || bl[j].n < need
  {
    if bl == [] || (!bl[0].busy && bl[0].n >= need) then 0 else 1 + FirstFit(bl[1..], need)
  }

  lemma FirstFitIs(bl: seq<Block>, need: int, i: nat)
    requires i <= |bl| && (i < |bl| ==> !bl[i].busy && bl[i].n >= need)
    requires forall j | 0 <= j < i :: bl[j].busy || bl[j].n < need
    ensures FirstFit(bl, need) == i
  {
  }

  // Block i split into a busy one of req bytes and the rest.
  function Split(bl: seq<Block>, h: int, i: nat, req: int): seq<Block>
    requires i < |bl|
  {
    bl[..i] + [Block(bl[i].a, req, true), Block(bl[i].a + h + req, bl[i].n - req - h, false)] + bl[i + 1..]
  }

  // The split keeps the tiling exactly when neither part is negative.
  lemma SplitTiles(bl: seq<Block>, h: int, lo: int, hi: int, i: nat, req: int)
    requires Tiles(bl, h, lo, hi) && i < |bl| && req % 4 == 0 && h % 4 == 0
    ensures Tiles(Split(bl, h, i, req), h, lo, hi) <==> req >= 0 && bl[i].n - req - h >= 0
  {
    hide Split;
    var r := Split(bl, h, i, req);
    SplitAt(bl, h, i, req, i);
    SplitAt(bl, h, i, req, i + 1);
    SplitAt(bl, h, i, req, 0);
    SplitAt(bl, h, i, req, |bl|);
    assert r[i].n == req && r[i + 1].n == bl[i].n - req - h;
    if req >= 0 && bl[i].n - req - h >= 0 {
      RestSize(bl[i].n, req, h);
      forall j: nat | j < |r|
        ensures r[j].n >= 0 && r[j].n % 4 == 0
        ensures j + 1 < |r| ==> r[j + 1].a == r[j].a + h + r[j].n
      {
        SplitAt(bl, h, i, req, j);
      }
    }
  }

  lemma RestSize(n: int, req: int, h: int)
    requires n % 4 == 0 && req % 4 == 0 && h % 4 == 0
    ensures (n - req - h) % 4 == 0
  {
  }

  lemma SplitAt(bl: seq<Block>, h: int, i: nat, req: int, j: nat)
    requires i < |bl| && j < |bl| + 1
    ensures |Split(bl, h, i, req)| == |bl| + 1
    ensures Split(bl, h, i, req)[j] ==
              if j < i then bl[j] else if j == i then Block(bl[i].a, req, true)
              else if j == i + 1 then Block(bl[i].a + h + req, bl[i].n - req - h, false) else bl[j - 1]
    ensures j < |bl| ==>
              Split(bl, h, i, req)[j + 1].a == (if j == i then bl[i].a + h + req else if j < i then bl[j + 1].a else bl[j].a)
  {
  }

  lemma SplitCoalesced(bl: seq<Block>, h: int, i: nat, req: int)
    requires Coalesced(bl) && i < |bl| && !bl[i].busy
    ensures Coalesced(Split(bl, h, i, req))
  {
    var r := Split(bl, h, i, req);
    forall j | 0 <= j < |r| - 1
      ensures r[j].busy || r[j + 1].busy
    {
      if j < i { assert r[j] == bl[j] && (j + 1 < i ==> r[j + 1] == bl[j + 1]); }
      if j == i + 1 { assert r[j + 1] == bl[i + 1]; }
      if j > i + 1 { assert r[j] == bl[j - 1] && r[j + 1] == bl[j]; }
    }
  }

  lemma LinkAt(next: map<int, int>, status: map<int, int>, bl: seq<Block>, i: nat)
    requires Linked(next, status, bl) && i < |bl|
    ensures bl[i].a in next && bl[i].a in status && status[bl[i].a] == Status(bl[i])
    ensures next[bl[i].a] == NextOf(bl, i)
  {
  }

  lemma SplitLinked(next: map<int, int>, status: map<int, int>, bl: seq<Block>, h: int, lo: int, hi: int, i: nat,
                    req: int)
    requires Tiles(bl, h, lo, hi) && Linked(next, status, bl) && h > 0 && i < |bl| && !bl[i].busy
    requires req >= 0 && bl[i].n - req - h >= 0
    ensures bl[i].a in next && bl[i].a in status
    ensures var a, b := bl[i].a, bl[i].a + h + req;
      Linked(next[b := next[a]][a := b], status[b := status[a] - req - h][a := req + 1], Split(bl, h, i, req))
  {
    hide Tiles;
    var a, b, r := bl[i].a, bl[i].a + h + req, Split(bl, h, i, req);
    var next', status' := next[b := next[a]][a := b], status[b := status[a] - req - h][a := req + 1];
    forall j | 0 <= j < |r|
      ensures r[j].a in next' && r[j].a in status' && status'[r[j].a] == Status(r[j])
      ensures next'[r[j].a] == NextOf(r, j)
    {
      if j < i {
        PayloadsApart(bl, h, lo, hi, j, i);
        LinkAt(next, status, bl, j);
        assert r[j] == bl[j] && r[j + 1].a == bl[j + 1].a;
      } else if j > i + 1 {
        PayloadsApart(bl, h, lo, hi, j - 1, i);
        LinkAt(next, status, bl, j - 1);
        assert r[j] == bl[j - 1] && (j + 1 < |r| ==> r[j + 1] == bl[j]);
      } else {
        LinkAt(next, status, bl, i);
        assert i + 2 < |r| ==> r[i + 2] == bl[i + 1];
      }
    }
  }

  lemma SplitBusy(bl: seq<Block>, h: int, i: nat, req: int)
    requires i < |bl| && !bl[i].busy
    ensures Busy(Split(bl, h, i, req)) == Busy(bl) + {Block(bl[i].a, req, true)}
  {
    var r := Split(bl, h, i, req);
    assert bl == bl[..i] + [bl[i]] + bl[i + 1..];
  }

  // The block whose header is at address a, or |bl|.
  function HeaderAt(bl: seq<Block>, a: int): (i: nat)
    ensures i <= |bl| && (i < |bl| ==> bl[i].a == a)
    ensures forall j | 0 <= j < i :: bl[j].a != a
  {
    if bl == [] || bl[0].a == a then 0 else 1 + HeaderAt(bl[1..], a)
  }

  // ----- freeing -----

  function Join(b: Block, c: Block, h: int): Block { Block(b.a, b.n + h + c.n, false) }

  // Blocks i and i + 1 joined into a free one.
  function JoinAt(bl: seq<Block>, h: int, i: nat): seq<Block>
    requires i + 1 < |bl|
  {
    bl[..i] + [Join(bl[i], bl[i + 1], h)] + bl[i + 2..]
  }

  lemma JoinTiles(bl: seq<Block>, h: int, lo: int, hi: int, i: nat)
    requires Tiles(bl, h, lo, hi) && i + 1 < |bl| && h >= 0 && h % 4 == 0
    ensures Tiles(JoinAt(bl, h, i), h, lo, hi)
  {
    var r := JoinAt(bl, h, i);
    forall j | 0 <= j < |r|
      ensures r[j].n >= 0 && r[j].n % 4 == 0
      ensures j + 1 < |r| ==> r[j + 1].a == r[j].a + h + r[j].n
    {
      if j < i { assert r[j] == bl[j] && r[j + 1].a == bl[j + 1].a; }
      if j == i { assert j + 1 < |r| ==> r[j + 1] == bl[i + 2]; }
      if j > i { assert r[j] == bl[j + 1] && (j + 1 < |r| ==> r[j + 1] == bl[j + 2]); }
    }
    assert i + 2 < |bl| ==> r[|r| - 1] == bl[|bl| - 1];
  }

  lemma JoinLinked(next: map<int, int>, status: map<int, int>, bl: seq<Block>, h: int, lo: int, hi: int, i: nat)
    requires Tiles(bl, h, lo, hi) && Linked(next, status, bl) && h > 0 && i + 1 < |bl|
    ensures bl[i].a in next && bl[i + 1].a in next
    ensures Linked(next[bl[i].a := next[bl[i + 1].a]], status[bl[i].a := bl[i].n + h + bl[i + 1].n], JoinAt(bl, h, i))
  {
    hide Tiles;
    var r, a := JoinAt(bl, h, i), bl[i].a;
    var next', status' := next[a := next[bl[i + 1].a]], status[a := bl[i].n + h + bl[i + 1].n];
    forall j | 0 <= j < |r|
      ensures r[j].a in next' && r[j].a in status' && status'[r[j].a] == Status(r[j])
      ensures next'[r[j].a] == NextOf(r, j)
    {
      if j < i {
        PayloadsApart(bl, h, lo, hi, j, i);
        LinkAt(next, status, bl, j);
        assert r[j] == bl[j] && r[j + 1].a == bl[j + 1].a;
      } else if j == i {
        LinkAt(next, status, bl, i + 1);
        assert j + 1 < |r| ==> r[j + 1] == bl[i + 2];
      } else {
        PayloadsApart(bl, h, lo, hi, j + 1, i);
        LinkAt(next, status, bl, j + 1);
        assert r[j] == bl[j + 1] && (j + 1 < |r| ==> r[j + 1] == bl[j + 2]);
      }
    }
  }

  lemma BusyParts(x: seq<Block>, y: seq<Block>)
    ensures Busy(x + y) == Busy(x) + Busy(y)
  {
  }

  // Joining two blocks takes them out of the busy ones, if they were.
  lemma JoinBusy(bl: seq<Block>, h: int, i: nat)
    requires i + 1 < |bl| && !bl[i + 1].busy
    ensures Busy(JoinAt(bl, h, i)) == Busy(bl[..i]) + Busy(bl[i + 1..])
    ensures !bl[i].busy ==> Busy(JoinAt(bl, h, i)) == Busy(bl)
  {
    hide Busy;
    var j := Join(bl[i], bl[i + 1], h);
    BusyParts(bl[..i] + [j], bl[i + 2..]);
    BusyParts(bl[..i], [j]);
    BusyParts([bl[i + 1]], bl[i + 2..]);
    BusyParts(bl[..i], bl[i..]);
    BusyParts([bl[i]], bl[i + 1..]);
    BusyOne(j);
    BusyOne(bl[i]);
    BusyOne(bl[i + 1]);
    assert bl == bl[..i] + bl[i..] && bl[i..] == [bl[i]] + bl[i + 1..] && bl[i + 1..] == [bl[i + 1]] + bl[i + 2..];
  }

  lemma BusyOne(b: Block)
    ensures Busy([b]) == if b.busy then {b} else {}
  {
  }

  // The list after block i is given back.
  function Freed(bl: seq<Block>, h: int, i: nat): seq<Block>
    requires i + 1 < |bl|
  {
    var bl1 := if !bl[i + 1].busy then JoinAt(bl, h, i) else bl[i := bl[i].(busy := false)];
    if i > 0 && !bl[i - 1].busy then JoinAt(bl1, h, i - 1) else bl1
  }

  lemma FreedTiles(bl: seq<Block>, h: int, lo: int, hi: int, i: nat)
    requires Tiles(bl, h, lo, hi) && i + 1 < |bl| && h >= 0 && h % 4 == 0
    ensures Tiles(Freed(bl, h, i), h, lo, hi)
  {
    hide JoinAt;
    JoinAtFacts(bl, h, i);
    var bl1 := if !bl[i + 1].busy then JoinAt(bl, h, i) else bl[i := bl[i].(busy := false)];
    if !bl[i + 1].busy { JoinTiles(bl, h, lo, hi, i); }
    if i > 0 && !bl[i - 1].busy { JoinTiles(bl1, h, lo, hi, i - 1); }
  }

  // Where the freed block is in the new list, and which blocks are behind it.
  lemma FreedAt(bl: seq<Block>, h: int, i: nat, j: nat)
    requires i + 1 < |bl|
    ensures var lo := if i > 0 && !bl[i - 1].busy then i - 1 else i;
      var up := if !bl[i + 1].busy then i + 2 else i + 1;
      && |Freed(bl, h, i)| == lo + 1 + |bl| - up
      && (j < |Freed(bl, h, i)| && j > lo ==> up + j - lo - 1 < |bl| && Freed(bl, h, i)[j].busy == bl[up + j - lo - 1].busy)
      && (j < |Freed(bl, h, i)| && j == lo ==> !Freed(bl, h, i)[j].busy)
      && (j < |Freed(bl, h, i)| && j < lo ==> Freed(bl, h, i)[j].busy == bl[j].busy)
  {
    hide JoinAt;
    var bl1 := if !bl[i + 1].busy then JoinAt(bl, h, i) else bl[i := bl[i].(busy := false)];
    JoinedAt(bl, h, i, j);
    JoinedAt(bl, h, i, j + 1);
    if i > 0 { JoinedAt(bl, h, i, i - 1); }
    if i > 0 && !bl[i - 1].busy { JoinedAt(bl1, h, i - 1, j); }
  }

  lemma JoinedAt(bl: seq<Block>, h: int, i: nat, j: nat)
    requires i + 1 < |bl|
    ensures |JoinAt(bl, h, i)| == |bl| - 1
    ensures j < |bl| - 1 ==>
              JoinAt(bl, h, i)[j] == if j < i then bl[j] else if j == i then Join(bl[i], bl[i + 1], h) else bl[j + 1]
  {
  }

  lemma FreedCoalesced(bl: seq<Block>, h: int, i: nat)
    requires Coalesced(bl) && i + 1 < |bl| && bl[i].busy
    ensures Coalesced(Freed(bl, h, i))
  {
    hide Freed;
    var r := Freed(bl, h, i);
    FreedAt(bl, h, i, 0);
    forall j: nat | j < |r| - 1
      ensures r[j].busy || r[j + 1].busy
    {
      FreedAt(bl, h, i, j);
      FreedAt(bl, h, i, j + 1);
    }
    FreedAt(bl, h, i, |r| - 1);
  }

  lemma FreedBusy(bl: seq<Block>, h: int, lo: int, hi: int, i: nat)
    requires Tiles(bl, h, lo, hi) && h > 0 && i + 1 < |bl| && bl[i].busy
    ensures Busy(Freed(bl, h, i)) == Busy(bl) - {bl[i]}
  {
    hide Busy, Tiles, JoinAt;
    var bl1 := if !bl[i + 1].busy then JoinAt(bl, h, i) else bl[i := bl[i].(busy := false)];
    BusyOnce(bl, h, lo, hi, i);
    BusyWithout(bl, i);
    if !bl[i + 1].busy { JoinBusy(bl, h, i); } else { BusyCleared(bl, i); }
    JoinAtFacts(bl, h, i);
    if i > 0 && !bl[i - 1].busy { JoinBusy(bl1, h, i - 1); }
  }

  lemma JoinAtFacts(bl: seq<Block>, h: int, i: nat)
    requires i + 1 < |bl|
    ensures |JoinAt(bl, h, i)| == |bl| - 1 && !JoinAt(bl, h, i)[i].busy
    ensures forall j | 0 <= j < i :: JoinAt(bl, h, i)[j] == bl[j]
  {
  }

  lemma BusyCleared(bl: seq<Block>, i: nat)
    requires i < |bl|
    ensures Busy(bl[i := bl[i].(busy := false)]) == Busy(bl[..i]) + Busy(bl[i + 1..])
  {
    hide Busy;
    var b := bl[i].(busy := false);
    BusyParts(bl[..i] + [b], bl[i + 1..]);
    BusyParts(bl[..i], [b]);
    BusyOne(b);
    assert bl[i := b] == bl[..i] + [b] + bl[i + 1..];
  }

  lemma BusyWithout(bl: seq<Block>, i: nat)
    requires i < |bl| && bl[i].busy && bl[i] !in bl[..i] && bl[i] !in bl[i + 1..]
    ensures Busy(bl) - {bl[i]} == Busy(bl[..i]) + Busy(bl[i + 1..])
  {
    assert bl == bl[..i] + [bl[i]] + bl[i + 1..];
  }

  lemma BusyOnce(bl: seq<Block>, h: int, lo: int, hi: int, i: nat)
    requires Tiles(bl, h, lo, hi) && h > 0 && i < |bl|
    ensures bl[i] !in bl[..i] && bl[i] !in bl[i + 1..]
  {
    forall j: nat | j < |bl| && j != i
      ensures bl[j] != bl[i]
    {
      PayloadsApart(bl, h, lo, hi, i, j);
    }
  }
}
