/** p3a/xuyi/mem1.c: Mem_Init, Mem_Alloc and Mem_Free on the in-band list of blocks. */
module TilingAllocator {
  import opened Tiling
  import Rounding

  class Region {
    const h: int               // sizeof(block_header)
    var next: map<int, int>    // header fields, by address
    var status: map<int, int>
    var listHead: int          // 0 is NULL
    ghost var lo: int          // the mapped region
    ghost var hi: int
    ghost var blocks: seq<Block>

    ghost predicate Valid()
      reads this
    {
      && h > 0 && h % 4 == 0 && lo > 0 && lo % 4 == 0 && listHead == lo
      && Tiles(blocks, h, lo, hi) && Coalesced(blocks) && Linked(next, status, blocks)
    }

    // A successful Mem_Init: one free block over a region of whole pages.
    constructor (header: int, space: int, size: nat, pageSize: nat)
      requires header > 0 && header % 4 == 0 && space > 0 && space % 4 == 0
      requires pageSize % 4 == 0 && pageSize >= header && size > 0
      ensures Valid() && h == header && lo == space && Busy(blocks) == {}
      ensures (hi - lo) % pageSize == 0 && size <= hi - lo < size + pageSize
      ensures blocks == [Block(space, hi - lo - header, false)]
    {
      hide Tiles, Coalesced, Linked, Busy, Pad;
      var pad := Pad(size, pageSize);
      var allocSize := size + pad;
      Padding(size, pageSize, pad);
      HeaderFits(size + pad, header);
      OneBlock(space, allocSize - header, header);
      h, listHead := header, space;
      next, status := map[space := 0], map[space := allocSize - header];
      lo, hi, blocks := space, space + allocSize, [Block(space, allocSize - header, false)];
    }

    // First fit. The list stays valid exactly when nothing fits or neither part of the split is
    // negative, which headers of at most eight bytes guarantee below the sizes that wrap.
    method MemAlloc(size: int) returns (r: int)
      requires Valid() && -0x8000_0000 <= size < 0x8000_0000
      modifies `next, `status, `blocks
      ensures var i := FirstFit(old(blocks), Need(size));
        if size <= 0 || i == |old(blocks)| then
          r == 0 && next == old(next) && status == old(status) && blocks == old(blocks) && Valid()
        else
          && r == old(blocks)[i].a + h != 0 && blocks == Split(old(blocks), h, i, Request(size))
          && Busy(blocks) == Busy(old(blocks)) + {Block(r - h, Request(size), true)}
          && (Valid() <==> Request(size) >= 0 && old(blocks)[i].n - Request(size) - h >= 0)
      ensures h <= 8 && size < WRAPS ==> Valid()
    {
      hide Tiles, Coalesced, Linked, Split, Busy, Int32, FirstFit;
      ghost var i := 0;
      if size <= 0 {
        return 0;
      }
      RequestSizes(size);
      var req := size;
      if req % 4 != 0 {
        req := Int32((req / 4 + 1) * 4);
      }
      assert req == Request(size);
      var cur := listHead;
      FirstIs(blocks, h, lo, hi);
      LinkAt(next, status, blocks, 0);
      while status[cur] % 2 == 1 || status[cur] < Int32(req + 8)
        invariant i < |blocks| && cur == blocks[i].a && cur in status && cur in next
        invariant status[cur] == Status(blocks[i]) && next[cur] == NextOf(blocks, i)
        invariant forall j | 0 <= j < i :: blocks[j].busy || blocks[j].n < Need(size)
        decreases |blocks| - i
        modifies {}
      {
        StatusBit(blocks, h, lo, hi, i);
        NotNull(blocks, h, lo, hi, i);
        cur := next[cur];
        if cur == 0 {
          FirstFitIs(blocks, Need(size), |blocks|);
          return 0;
        }
        i := i + 1;
        LinkAt(next, status, blocks, i);
      }
      StatusBit(blocks, h, lo, hi, i);
      NotNull(blocks, h, lo, hi, i);
      FirstFitIs(blocks, Need(size), i);
      SplitTiles(blocks, h, lo, hi, i, req);
      SplitCoalesced(blocks, h, i, req);
      SplitBusy(blocks, h, i, req);
      if req >= 0 && blocks[i].n - req - h >= 0 {
        SplitLinked(next, status, blocks, h, lo, hi, i, req);
      }
      r := cur + h;
      var nextPtr := cur + h + req;
      status := status[nextPtr := status[cur] - req - h];
      next := next[nextPtr := next[cur]];
      status := status[cur := req + 1];
      next := next[cur := nextPtr];
      blocks := Split(blocks, h, i, req);
    }

    // word is the size field read in front of ptr: a block's, or whatever lies there. A pointer
    // that is no block's is refused unless it looks like a busy one's; then the traversal runs off
    // the list.
    method MemFree(ptr: int, word: Word) returns (r: FreeResult)
      requires Valid() && (ptr == h ==> word == Unmapped)
      requires HeaderAt(blocks, ptr - h) < |blocks| ==> ptr - h in status && word == Word(status[ptr - h])
      modifies `next, `status, `blocks
      ensures Valid()
      ensures var i := HeaderAt(old(blocks), ptr - h);
        r == if ptr == 0 || ptr % 4 != 0 then Returned(-1)
             else if i < |old(blocks)| then Returned(if old(blocks)[i].busy then 0 else -1)
             else if word == Unmapped || (word.v >= 0 && word.v % 4 == 1) then Crash
             else Returned(-1)
      ensures r != Returned(0) ==> next == old(next) && status == old(status) && blocks == old(blocks)
      ensures r == Returned(0) ==>
                var i := HeaderAt(old(blocks), ptr - h);
                && i + 1 < |old(blocks)| && blocks == Freed(old(blocks), h, i)
                && Busy(blocks) == Busy(old(blocks)) - {old(blocks)[i]}
    {
      hide Tiles, Coalesced, Linked, Busy, Freed, HeaderAt;
      if ptr == 0 {
        return Returned(-1);
      }
      if ptr % 4 != 0 {
        return Returned(-1);
      }
      var cur := ptr - h;
      ghost var i := HeaderAt(blocks, cur);
      if i < |blocks| {
        LinkAt(next, status, blocks, i);
        StatusBit(blocks, h, lo, hi, i);
        NotNull(blocks, h, lo, hi, i);
      }
      if word == Unmapped {
        return Crash;
      }
      if !LooksBusy(word.v) {
        return Returned(-1);
      }
      var found, prev := FindPrev(cur);
      if !found {
        return Crash;
      }
      Merge(cur, prev, i);
      r := Returned(0);
    }

    // Busy block i becomes free and joins its free neighbours; prev is the block before it.
    method Merge(at: int, prev: int, ghost i: nat)
      requires Valid() && i < |blocks| && at == blocks[i].a && blocks[i].busy
      requires prev == blocks[if i == 0 then 0 else i - 1].a
      modifies `next, `status, `blocks
      ensures Valid() && i + 1 < |old(blocks)| && blocks == Freed(old(blocks), h, i)
      ensures Busy(blocks) == Busy(old(blocks)) - {old(blocks)[i]}
    {
      hide Tiles, Coalesced, Linked, Busy, Freed;
      var cur := at;
      ghost var k := if i == 0 then 0 else i - 1;
      LinkAt(next, status, blocks, i);
      NextExists(blocks, i);
      LinkAt(next, status, blocks, k);
      LinkAt(next, status, blocks, i + 1);
      StatusBit(blocks, h, lo, hi, k);
      StatusBit(blocks, h, lo, hi, i + 1);
      if i > 0 { PayloadsApart(blocks, h, lo, hi, i - 1, i + 1); }
      PayloadsApart(blocks, h, lo, hi, i, i + 1);
      FreedTiles(blocks, h, lo, hi, i);
      FreedCoalesced(blocks, h, i);
      FreedBusy(blocks, h, lo, hi, i);
      ghost var bl, next0, status0 := blocks, next, status;
      var nextPtr := next[cur];
      if status[prev] % 2 == 0 {
        status := status[prev := status[prev] + h + status[cur] - 1];
        next := next[prev := next[cur]];
        cur := prev;
        if status[nextPtr] % 2 == 0 {
          status := status[cur := status[cur] + h + status[nextPtr]];
          next := next[cur := next[nextPtr]];
        }
        MergedBelow(next0, status0, bl, h, lo, hi, i, next, status);
        blocks := Freed(bl, h, i);
        return;
      }
      if status[nextPtr] % 2 == 0 {
        status := status[cur := status[cur] - 1 + h + status[nextPtr]];
        next := next[cur := next[nextPtr]];
        MergedAbove(next0, status0, bl, h, lo, hi, i, next, status);
        blocks := Freed(bl, h, i);
        return;
      }
      status := status[cur := status[cur] - 1];
      Alone(next0, status0, bl, h, lo, hi, i, status);
      blocks := Freed(bl, h, i);
    }

    // The traversal of Mem_Free: the block before cur, or cur itself when it is the first. When
    // cur is no block it reaches NULL.
    method FindPrev(cur: int) returns (found: bool, trav: int)
      requires Valid() && cur != 0
      ensures var i := HeaderAt(blocks, cur);
        && (found <==> i < |blocks|)
        && trav == if !found then 0 else if i == 0 then blocks[0].a else blocks[i - 1].a
    {
      hide Tiles, Coalesced, Linked, HeaderAt;
      ghost var i := HeaderAt(blocks, cur);
      ghost var k := 0;
      trav := listHead;
      FirstIs(blocks, h, lo, hi);
      LinkAt(next, status, blocks, 0);
      NotNull(blocks, h, lo, hi, 0);
      while next[trav] != cur && trav != cur
        invariant k < |blocks| && k <= (if i == 0 then 0 else i - 1) && trav == blocks[k].a && trav in next
        invariant next[trav] == NextOf(blocks, k)
        decreases |blocks| - k
      {
        NotNull(blocks, h, lo, hi, k);
        trav := next[trav];
        if trav == 0 {
          return false, 0;
        }
        k := k + 1;
        LinkAt(next, status, blocks, k);
      }
      NotNull(blocks, h, lo, hi, k);
      if i < |blocks| { Located(blocks, h, lo, hi, k, i); }
      return true, trav;
    }
  }

  // What Mem_Free does: a crash is a read through NULL.
  datatype FreeResult = Returned(v: int) | Crash

  datatype Word = Unmapped | Word(v: int)

  // v % 4 == 1 in C.
  predicate LooksBusy(v: int) { v >= 0 && v % 4 == 1 }

  lemma Located(bl: seq<Block>, h: int, lo: int, hi: int, k: nat, i: nat)
    requires Tiles(bl, h, lo, hi) && h > 0 && lo > 0 && i < |bl| && k < |bl|
    ensures bl[k].a == bl[i].a <==> k == i
    ensures NextOf(bl, k) == bl[i].a <==> k + 1 == i
  {
    if k != i { PayloadsApart(bl, h, lo, hi, k, i); }
    if k + 1 < |bl| && k + 1 != i { PayloadsApart(bl, h, lo, hi, k + 1, i); }
    if k + 1 == |bl| { NotNull(bl, h, lo, hi, i); }
  }

  // What rounds a request up to whole pages.
  function Pad(size: nat, pageSize: nat): int
    requires pageSize > 0
  {
    (pageSize - size % pageSize) % pageSize
  }

  lemma HeaderFits(total: int, h: int)
    requires total % 4 == 0 && h % 4 == 0
    ensures (total - h) % 4 == 0
  {
  }

  lemma OneBlock(a: int, n: int, h: int)
    requires n >= 0 && n % 4 == 0
    ensures var bl := [Block(a, n, false)];
      && Tiles(bl, h, a, a + n + h) && Coalesced(bl) && Linked(map[a := 0], map[a := n], bl) && Busy(bl) == {}
  {
  }

  lemma Padding(size: nat, pageSize: nat, pad: int)
    requires pageSize > 0 && pageSize % 4 == 0 && size > 0 && pad == Pad(size, pageSize)
    ensures pad >= 0 && (size + pad) % 4 == 0 && size + pad >= pageSize
    ensures (size + pad) % pageSize == 0 && pad < pageSize
  {
    var q := PadIs(size, pageSize, pad);
    Rounding.Multiple(q, pageSize);
    Regroup(q, pageSize / 4, pageSize);
  }

  lemma PadIs(size: nat, pageSize: nat, pad: int) returns (q: int)
    requires pageSize > 0 && size > 0 && pad == Pad(size, pageSize)
    ensures 0 <= pad < pageSize && size + pad == q * pageSize && q >= 1
  {
    Whole(size, pageSize);
    q := size / pageSize + if size % pageSize == 0 then 0 else 1;
    SmallMod(if size % pageSize == 0 then 0 else pageSize - size % pageSize, pageSize);
  }

  lemma Whole(size: nat, pageSize: nat)
    requires pageSize > 0 && size > 0
    ensures size == size / pageSize * pageSize + size % pageSize && size % pageSize < pageSize
    ensures (size / pageSize + 1) * pageSize == size / pageSize * pageSize + pageSize
    ensures size % pageSize == 0 ==> size / pageSize >= 1
    ensures pageSize % pageSize == 0
  {
  }

  lemma SmallMod(x: nat, m: nat)
    requires x < m
    ensures x % m == x
  {
    var q := x / m;
    assert x == m * q + x % m;
    assert q >= 1 ==> m * q >= m;
  }

  lemma Regroup(q: int, k: int, pageSize: int)
    requires pageSize == 4 * k && k >= 0 && q >= 1
    ensures q * pageSize == 4 * (q * k) && q * pageSize >= pageSize && (4 * (q * k)) % 4 == 0
  {
  }

  lemma FirstIs(bl: seq<Block>, h: int, lo: int, hi: int)
    requires Tiles(bl, h, lo, hi)
    ensures |bl| > 0 && bl[0].a == lo
  {
  }

  // The low bit of size_status tells busy from free.
  lemma StatusBit(bl: seq<Block>, h: int, lo: int, hi: int, i: nat)
    requires Tiles(bl, h, lo, hi) && i < |bl|
    ensures Status(bl[i]) % 2 == 1 <==> bl[i].busy
    ensures Status(bl[i]) % 4 == 1 <==> bl[i].busy
    ensures bl[i].n >= 0
  {
    Fours(bl[i].n / 4);
    Twos(2 * (bl[i].n / 4));
  }

  lemma Fours(q: int)
    ensures (4 * q) % 4 == 0 && (4 * q + 1) % 4 == 1
  {
  }

  lemma Twos(q: int)
    ensures (2 * q) % 2 == 0 && (2 * q + 1) % 2 == 1
  {
  }

  lemma NotNull(bl: seq<Block>, h: int, lo: int, hi: int, i: nat)
    requires Tiles(bl, h, lo, hi) && h > 0 && lo > 0 && i < |bl|
    ensures bl[i].a > 0 && (NextOf(bl, i) == 0 <==> i + 1 == |bl|)
  {
    if i > 0 { Ascending(bl, h, lo, hi, 0, i); }
    if i + 1 < |bl| { Ascending(bl, h, lo, hi, 0, i + 1); }
  }

  // The writes of Mem_Free when the block below is free,
  lemma MergedBelow(next: map<int, int>, status: map<int, int>, bl: seq<Block>, h: int, lo: int, hi: int, i: nat,
                    next': map<int, int>, status': map<int, int>)
    requires Tiles(bl, h, lo, hi) && Linked(next, status, bl) && h > 0 && h % 4 == 0
    requires 0 < i && i + 1 < |bl| && bl[i].busy && !bl[i - 1].busy
    requires bl[i].a in next && bl[i + 1].a in next
    requires next' == (if bl[i + 1].busy then next[bl[i - 1].a := next[bl[i].a]]
                       else next[bl[i - 1].a := next[bl[i].a]][bl[i - 1].a := next[bl[i + 1].a]])
    requires status' == (if bl[i + 1].busy then status[bl[i - 1].a := bl[i - 1].n + h + bl[i].n]
                         else status[bl[i - 1].a := bl[i - 1].n + h + bl[i].n]
                                    [bl[i - 1].a := bl[i - 1].n + h + bl[i].n + h + bl[i + 1].n])
    ensures Linked(next', status', Freed(bl, h, i))
  {
    hide Tiles, Linked, JoinAt;
    JoinAtFacts(bl, h, i);
    LinkAt(next, status, bl, i - 1);
    LinkAt(next, status, bl, i);
    if bl[i + 1].busy {
      JoinLinked(next, status, bl, h, lo, hi, i - 1);
      JoinIgnoresFlag(bl, h, i);
    } else {
      JoinLinked(next, status, bl, h, lo, hi, i);
      JoinTiles(bl, h, lo, hi, i);
      var bl1 := JoinAt(bl, h, i);
      var next1, status1 := next[bl[i].a := next[bl[i + 1].a]], status[bl[i].a := bl[i].n + h + bl[i + 1].n];
      JoinLinked(next1, status1, bl1, h, lo, hi, i - 1);
      JoinAtJoined(bl, h, i);
      // The writes differ only at the header that is no longer one.
      PayloadsApart(bl, h, lo, hi, i - 1, i);
      ForgetHeader(next1[bl[i - 1].a := next1[bl[i].a]], status1[bl[i - 1].a := bl[i - 1].n + h + bl[i].n + h + bl[i + 1].n],
                   JoinAt(bl1, h, i - 1), next', status', bl[i].a, bl, h, lo, hi, i);
    }
  }

  lemma JoinIgnoresFlag(bl: seq<Block>, h: int, i: nat)
    requires 0 < i < |bl|
    ensures JoinAt(bl[i := bl[i].(busy := false)], h, i - 1) == JoinAt(bl, h, i - 1)
  {
    assert bl[i := bl[i].(busy := false)][i + 1..] == bl[i + 1..];
    assert bl[i := bl[i].(busy := false)][..i - 1] == bl[..i - 1];
  }

  lemma JoinAtJoined(bl: seq<Block>, h: int, i: nat)
    requires 0 < i && i + 1 < |bl|
    ensures JoinAt(bl, h, i)[i] == Join(bl[i], bl[i + 1], h) && JoinAt(bl, h, i)[i - 1] == bl[i - 1]
  {
  }

  // A header address that no block of the new list has may hold anything.
  lemma ForgetHeader(next: map<int, int>, status: map<int, int>, r: seq<Block>, next': map<int, int>,
                     status': map<int, int>, 
                     x: int, bl: seq<Block>, h: int, lo: int, hi: int, i: nat)
    requires Linked(next, status, r) && Tiles(bl, h, lo, hi) && h > 0 && 0 < i && i + 1 < |bl| && x == bl[i].a
    requires r == JoinAt(JoinAt(bl, h, i), h, i - 1)
    requires next'.Keys == next.Keys && status'.Keys == status.Keys
    requires forall a | a in next && a != x :: next'[a] == next[a]
    requires forall a | a in status && a != x :: status'[a] == status[a]
    ensures Linked(next', status', r)
  {
    hide Tiles, Linked;
    forall j: nat | j < |r|
      ensures r[j].a != x
      ensures r[j].a in next' && r[j].a in status' && status'[r[j].a] == Status(r[j]) && next'[r[j].a] == NextOf(r, j)
    {
      var o := if j < i then j else j + 2;
      assert r[j].a == bl[o].a;
      PayloadsApart(bl, h, lo, hi, o, i);
      LinkAt(next, status, r, j);
    }
    LinkedMeans(next', status', r);
  }

  lemma LinkedMeans(next: map<int, int>, status: map<int, int>, bl: seq<Block>)
    requires forall j: nat | j < |bl| :: bl[j].a in next && bl[j].a in status
               && status[bl[j].a] == Status(bl[j]) && next[bl[j].a] == NextOf(bl, j)
    ensures Linked(next, status, bl)
  {
  }

  // when only the block above is free,
  lemma MergedAbove(next: map<int, int>, status: map<int, int>, bl: seq<Block>, h: int, lo: int, hi: int, i: nat,
                    next': map<int, int>, status': map<int, int>)
    requires Tiles(bl, h, lo, hi) && Linked(next, status, bl) && h > 0 && i + 1 < |bl| && bl[i].busy && !bl[i + 1].busy
    requires (i > 0 ==> bl[i - 1].busy) && bl[i + 1].a in next
    requires next' == next[bl[i].a := next[bl[i + 1].a]] && status' == status[bl[i].a := bl[i].n + h + bl[i + 1].n]
    ensures Linked(next', status', Freed(bl, h, i))
  {
    JoinLinked(next, status, bl, h, lo, hi, i);
  }

  // and when neither is.
  lemma Alone(next: map<int, int>, status: map<int, int>, bl: seq<Block>, h: int, lo: int, hi: int, i: nat,
              status': map<int, int>)
    requires Tiles(bl, h, lo, hi) && Linked(next, status, bl) && h > 0 && i + 1 < |bl| && bl[i].busy && bl[i + 1].busy
    requires (i > 0 ==> bl[i - 1].busy) && status' == status[bl[i].a := bl[i].n]
    ensures Linked(next, status', Freed(bl, h, i))
  {
    hide Tiles;
    var r := bl[i := bl[i].(busy := false)];
    forall j: nat | j < |r|
      ensures r[j].a in next && r[j].a in status' && status'[r[j].a] == Status(r[j]) && next[r[j].a] == NextOf(r, j)
    {
      LinkAt(next, status, bl, j);
      if j != i { PayloadsApart(bl, h, lo, hi, j, i); }
    }
  }

  // With 16-byte headers, as sizeof gives on a 64-bit machine, a fresh page is lost at the
  // first request that leaves between 8 and 15 bytes.
  lemma WideHeaderBreaks(space: int)
    requires space > 0
    ensures var bl := [Block(space, 4080, false)];
      && Tiles(bl, 16, space, space + 4096) && Coalesced(bl) && FirstFit(bl, Need(4072)) == 0
      && !Tiles(Split(bl, 16, 0, Request(4072)), 16, space, space + 4096)
  {
    SplitTiles([Block(space, 4080, false)], 16, space, space + 4096, 0, 4072);
  }

  // A pointer to the second word of a fresh page, with 5 in front of it, looks like a busy block.
  method StrayFree() returns (m: Region, r: FreeResult)
    ensures r == Crash
  {
    m := new Region(8, 4096, 4096, 4096);
    assert HeaderAt(m.blocks, 4100) == 1;
    r := m.MemFree(4108, Word(5));
  }

  // With any header, a request within eleven bytes of the largest int wraps, fits anywhere and
  // breaks the tiling of a fresh page.
  lemma LargeRequestBreaks(space: int, h: int, size: int)
    requires space > 0 && 0 < h < 4096 && h % 4 == 0 && WRAPS <= size < 0x8000_0000
    ensures var bl := [Block(space, 4096 - h, false)];
      && Tiles(bl, h, space, space + 4096) && Coalesced(bl) && FirstFit(bl, Need(size)) == 0
      && !Tiles(Split(bl, h, 0, Request(size)), h, space, space + 4096)
  {
    RequestSizes(size);
    HeaderFits(4096, h);
    SplitTiles([Block(space, 4096 - h, false)], h, space, space + 4096, 0, Request(size));
  }
}
