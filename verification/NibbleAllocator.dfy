/** p3a/mem2.c: Mem_Init, Mem_Alloc and Mem_Free over the nibble map, which fills the first
    1/32 of the region and covers all of it, itself included. */
module NibbleAllocator {
  import opened NibbleMap
  import Rounding

  class Mem {
    var ready: bool            // first_time_init == 0
    var spacePtr: nat
    var header: array<bv8>     // header_size bytes at spacePtr
    var available: int         // mem_available
    ghost var blocks: map<nat, nat>  // blocks in use, by first unit; the header's units are single blocks

    ghost predicate Valid()
      reads this, header
    {
      && MapOk(Nibbles(header[..]), blocks) && available == 16 * FreeUnits(Nibbles(header[..]))
      && (ready ==> spacePtr > 0 && header.Length % 16 == 0) && (!ready ==> spacePtr == 0 && header.Length == 0)
      && HeaderKept(blocks, header.Length / 16)
    }

    predicate Inside(ptr: nat)
      reads this
    {
      spacePtr <= ptr < spacePtr + 32 * header.Length
    }

    constructor ()
      ensures Valid() && !ready
    {
      ready, spacePtr, available, blocks := false, 0, 0, map[];
      header := new bv8[0];
    }

    // mapped is mmap's answer, 0 for a failure; page is the page size.
    method Init(size: int, page: nat, mapped: nat) returns (r: int)
      requires Valid() && page > 0 && page % 512 == 0
      modifies this
      ensures Valid() && (r == 0 || r == -1)
      ensures r == 0 <==> !old(ready) && size > 0 && mapped > 0
      ensures r == -1 ==> header == old(header) && blocks == old(blocks) && available == old(available) && ready == old(ready)
      ensures r == 0 ==> ready && spacePtr == mapped && fresh(header)
      ensures r == 0 ==> 32 * header.Length % page == 0 && size <= 32 * header.Length < size + page
      ensures r == 0 ==> available == 31 * header.Length
      ensures r == 0 ==>
                && (forall a | a in blocks :: a < header.Length / 16 && blocks[a] == 1)
                && (forall a: nat | a < header.Length / 16 :: a in blocks)
    {
      hide FreeUnits, MapOk, WholePages, Ones;
      if ready {
        return -1;
      }
      if size <= 0 {
        return -1;
      }
      var pad := size % page;
      if pad != 0 {
        pad := page - pad;
      }
      var allocSize := size + pad;
      if mapped == 0 {
        return -1;
      }
      RoundedUp(size, page);
      var headerSize := allocSize / 16 * 4 / 8;
      var h := new bv8[headerSize];
      FillHeader(h);
      header, ready, spacePtr, available := h, true, mapped, allocSize - headerSize;
      blocks := Ones(headerSize / 16);
      HeaderMap(h[..], headerSize / 16);
      OnesAre(headerSize / 16);
      r := 0;
    }

    // Zero the map and mark the units it occupies itself.
    method FillHeader(h: array<bv8>)
      requires h.Length % 16 == 0
      modifies h
      ensures forall k | 0 <= k < h.Length ::
                h[k] == if k < h.Length / 32 then 0x66 else if k == h.Length / 32 && h.Length / 16 % 2 == 1 then 0x60 else 0
    {
      var i := 0;
      while i < h.Length
        invariant 0 <= i <= h.Length && forall k | 0 <= k < i :: h[k] == 0
      {
        h[i] := 0x00;
        i := i + 1;
      }
      var blocksForHeader := h.Length / 16;
      var chars := blocksForHeader * 4 / 8;
      i := 0;
      while i < chars
        invariant 0 <= i <= chars
        invariant forall k | 0 <= k < h.Length :: h[k] == if k < i then 0x66 else 0
      {
        h[i] := 0x66;
        i := i + 1;
      }
      if blocksForHeader % 2 == 1 {
        h[i] := 0x60;
      }
    }

    // Byte and half of the nibble m places after nibble j of byte i.
    method Locate(i: nat, j: nat, m: nat) returns (l1: nat, l2: nat)
      ensures l2 < 2 && 2 * l1 + l2 == 2 * i + j + m
    {
      l2, l1 := j + m, i;
      while l2 > 1
        invariant 2 * l1 + l2 == 2 * i + j + m
      {
        l2 := l2 - 2;
        l1 := l1 + 1;
      }
    }

    // Mark n free units from nibble j of byte i on as one block.
    method Mark(i: nat, j: nat, n: nat, mask: bv8)
      requires LegalUnits(n) && mask << 4 == HeadOf(n) && mask & 0xF0 == 0 && j < 2
      requires AllFree(Nibbles(header[..]), 2 * i + j, n)
      modifies header
      ensures Nibbles(header[..]) == Taken(old(Nibbles(header[..])), 2 * i + j, n)
    {
      hide Nib, OrNib;
      ghost var s, a := Nibbles(header[..]), 2 * i + j;
      OrAt(header[..], i, j, mask);
      header[i] := OrNib(header[i], j, mask);
      var m := 1;
      while m < n
        invariant 1 <= m <= n
        invariant |Nibbles(header[..])| == |s|
        invariant forall k | 0 <= k < |s| ::
                    Nibbles(header[..])[k] == if k == a then HeadOf(n) else if a < k < a + m then 0x20 else s[k]
      {
        var l1, l2 := Locate(i, j, m);
        OrAt(header[..], l1, l2, 0x02);
        header[l1] := OrNib(header[l1], l2, 0x02);
        m := m + 1;
      }
    }

    // What Mem_Alloc does once the run is found.
    method MarkRun(i: nat, j: nat, size: int)
      requires Valid() && size in {16, 80, 256} && j < 2
      requires FirstFit(Nibbles(header[..]), 2 * i + j, size / 16)
      modifies `available, `blocks, header
      ensures Valid()
      ensures Nibbles(header[..]) == Taken(old(Nibbles(header[..])), 2 * i + j, size / 16)
      ensures blocks == old(blocks)[2 * i + j := size / 16]
      ensures 2 * i + j !in old(blocks) && 2 * i + j >= header.Length / 16
      ensures AllFree(old(Nibbles(header[..])), 2 * i + j, size / 16) && available == old(available) - size
    {
      hide MapOk, AllFree, FirstFit, FreeUnits, Nib, Taken, Nibbles, HeaderKept;
      var mask := if size == 16 then 0x06 as bv8 else if size == 80 then 0x0A else 0x0E;
      Takes(Nibbles(header[..]), blocks, header.Length / 16, 2 * i + j, size / 16, available);
      Mark(i, j, size / 16, mask);
      blocks := blocks[2 * i + j := size / 16];
      available := available - size;
    }

    // The lowest run of enough free units, or 0 exactly when there is none.
    method Alloc(size: int) returns (addr: nat)
      requires Valid()
      modifies `available, `blocks, header
      ensures Valid()
      ensures addr == 0 <==> !(size in {16, 80, 256} && exists a: nat :: AllFree(old(Nibbles(header[..])), a, size / 16))
      ensures addr == 0 ==> header[..] == old(header[..]) && blocks == old(blocks) && available == old(available)
      ensures addr != 0 ==>
                var a := (addr - spacePtr) / 16;
                && addr == spacePtr + 16 * a && a >= 0
                && FirstFit(old(Nibbles(header[..])), a, size / 16)
                && Nibbles(header[..]) == Taken(old(Nibbles(header[..])), a, size / 16)
                && blocks == old(blocks)[a := size / 16] && a !in old(blocks) && a >= header.Length / 16
                && available == old(available) - size
    {
      hide MapOk, AllFree, FirstFit, FreeUnits, Nib, Taken, HeaderKept, Nibbles;
      if size <= 0 {
        return 0;
      }
      if size != 16 && size != 80 && size != 256 {
        return 0;
      }
      var found, i, j;
      found, addr, i, j := FindRun(size / 16);
      if !found {
        return 0;
      }
      FitExists(Nibbles(header[..]), 2 * i + j, size / 16);
      MarkRun(i, j, size);
    }

    // The scan of Mem_Alloc: byte i and nibble j where the lowest run begins, and its address,
    // which is added up on the way.
    method FindRun(n: nat) returns (found: bool, addr: nat, startI: nat, startJ: nat)
      requires LegalUnits(n) && MapOk(Nibbles(header[..]), blocks)
      ensures found ==> startJ < 2 && startI < header.Length && addr == spacePtr + 16 * (2 * startI + startJ)
      ensures found ==> FirstFit(Nibbles(header[..]), 2 * startI + startJ, n)
      ensures !found ==> forall a: nat :: !AllFree(Nibbles(header[..]), a, n)
    {
      hide MapOk, AllFree, FirstFit, NoFit, Nib, Scanning;
      addr := spacePtr;
      var count := 0;
      startI, startJ := 0, 0;
      ghost var s := Nibbles(header[..]);
      ghost var q: nat := 0;
      ScanStart(s, blocks, n);
      var i := 0;
      while i < header.Length
        invariant 0 <= i <= header.Length && addr == spacePtr + 16 * q
        invariant Scanning(s, blocks, 2 * i, count, q, n) && count < n
        invariant count > 0 ==> startJ < 2 && 2 * startI + startJ == 2 * i - count
      {
        var j := 0;
        while j < 2
          invariant 0 <= j <= 2 && addr == spacePtr + 16 * q
          invariant Scanning(s, blocks, 2 * i + j, count, q, n) && count < n
          invariant count > 0 ==> startJ < 2 && 2 * startI + startJ == 2 * i + j - count
        {
          var current := Nib(header[i], j);
          assert current == s[2 * i + j];
          if current == 0x00 {
            if count == 0 {
              startI, startJ := i, j;
            }
            ScanFree(s, blocks, 2 * i + j, count, q, n);
            count := count + 1;
            if count == n {
              found := true;
              return;
            }
          } else {
            ScanUsed(s, blocks, 2 * i + j, count, q, n);
            q := q + count + Units(s[2 * i + j]);
            addr := addr + count * 16;
            if current == 0x60 {
              addr := addr + 16;
            } else if current == 0xA0 {
              addr := addr + 5 * 16;
            } else if current == 0xE0 {
              addr := addr + 16 * 16;
            }
            count := 0;
          }
          j := j + 1;
        }
        i := i + 1;
      }
      ScanEnd(s, blocks, 2 * i, count, q, n);
      found := false;
    }

    // Any block's first address is accepted. Those of the header are too, and past the region so
    // is an address whose "nibble", in the byte read there, looks like a block's: exactly these
    // break the map.
    method Free(ptr: nat, beyond: bv8) returns (r: int)
      requires Valid() && (ptr != 0 ==> spacePtr <= ptr)
      modifies `available, `blocks, header
      ensures r == 0 || r == -1
      ensures r == 0 <==>
                && ptr != 0 && (ptr - spacePtr) % 16 == 0
                && if Inside(ptr) then (ptr - spacePtr) / 16 in old(blocks)
                   else Units(Nib(beyond, (ptr - spacePtr) / 16 % 2)) > 0
      ensures r == -1 ==> header[..] == old(header[..]) && blocks == old(blocks) && available == old(available)
      ensures r == 0 && Inside(ptr) ==>
                var a := (ptr - spacePtr) / 16;
                && Nibbles(header[..]) == Given(old(Nibbles(header[..])), a, old(blocks)[a])
                && blocks == old(blocks) - {a} && available == old(available) + 16 * old(blocks)[a]
      ensures r == 0 && !Inside(ptr) ==> header[..] == old(header[..]) && blocks == old(blocks)
      ensures r == 0 && !Inside(ptr) ==> available == old(available) + 16 * Units(Nib(beyond, (ptr - spacePtr) / 16 % 2))
      ensures Valid() <==>
                !(ptr != 0 && (ptr - spacePtr) % 16 == 0
                  && if Inside(ptr) then ptr < spacePtr + header.Length else Units(Nib(beyond, (ptr - spacePtr) / 16 % 2)) > 0)
    {
      hide MapOk, FreeUnits, Nib, AndNib, Given;
      if ptr == 0 {
        return -1;
      }
      if (ptr - spacePtr) % 16 != 0 {
        return -1;
      }
      var index := (ptr - spacePtr) / 16;
      var si, sj := index / 2, index % 2;
      var inside := si < header.Length;
      var current := Nib(if inside then header[si] else beyond, sj);
      ghost var s := Nibbles(header[..]);
      if inside {
        assert current == s[index];
        HeadIsBlock(s, blocks, index);
      }
      var n;
      if current == 0x60 {
        n := 1;
      } else if current == 0xA0 {
        n := 5;
      } else if current == 0xE0 {
        n := 16;
      } else {
        return -1;
      }
      if inside {
        Gives(s, blocks, header.Length / 16, index, available);
        Clear(si, sj, n);
        blocks := blocks - {index};
      }
      available := available + 16 * n;
      r := 0;
    }

    method Clear(i: nat, j: nat, n: nat)
      requires j < 2 && 2 * i + j + n <= 2 * header.Length
      modifies header
      ensures Nibbles(header[..]) == Given(old(Nibbles(header[..])), 2 * i + j, n)
    {
      hide Nib, AndNib;
      ghost var s, a := Nibbles(header[..]), 2 * i + j;
      var m := 0;
      while m < n
        invariant 0 <= m <= n && |Nibbles(header[..])| == |s|
        invariant forall k | 0 <= k < |s| :: Nibbles(header[..])[k] == if a <= k < a + m then 0 else s[k]
      {
        var l1, l2 := Locate(i, j, m);
        AndAt(header[..], l1, l2);
        header[l1] := AndNib(header[l1], l2);
        m := m + 1;
      }
    }
  }

  // A region of one page: freeing its first byte succeeds and gives away the map's own units.
  method FreeOfHeader() returns (m: Mem, r: int)
    ensures r == 0 && !m.Valid()
  {
    m := new Mem();
    r := m.Init(4096, 4096, 4096);
    assert WholePages(4096, 4096) == 4096;
    r := m.Free(4096, 0);
  }

  // n single-unit blocks.
  function Ones(n: nat): map<nat, nat> { map k: nat | k < n && Below(k, n) :: 1 }

  predicate Below(k: nat, n: nat) { k < n }

  lemma OnesAre(n: nat)
    ensures forall a | a in Ones(n) :: a < n && Ones(n)[a] == 1
    ensures forall a: nat | a < n :: a in Ones(n)
  {
    forall a: nat | a < n
      ensures a in Ones(n)
    {
      assert Below(a, n);
    }
  }

  lemma FitExists(s: seq<bv8>, a: nat, n: nat)
    requires FirstFit(s, a, n)
    ensures exists b: nat :: AllFree(s, b, n)
  {
  }

  ghost predicate HeaderKept(blocks: map<nat, nat>, n: nat) {
    forall k | 0 <= k < n :: k in blocks && blocks[k] == 1
  }

  // The request rounded up to whole pages.
  function WholePages(size: nat, page: nat): int
    requires page > 0
  {
    (size / page + if size % page == 0 then 0 else 1) * page
  }

  lemma RoundedUp(size: nat, page: nat)
    requires page > 0 && page % 512 == 0
    ensures var total := size + (if size % page == 0 then 0 else page - size % page);
      && total == WholePages(size, page) && total % 512 == 0 && size <= total < size + page && total % page == 0
      && total / 16 * 4 / 8 == total / 32 && 32 * (total / 32) == total && total / 32 % 16 == 0
  {
    var total := size + if size % page == 0 then 0 else page - size % page;
    var q := size / page + if size % page == 0 then 0 else 1;
    Quotient(size, page);
    Rounding.Multiple(q, page);
    assert total == q * page;
    Regroup(q, page / 512, page);
    ThirtySeconds(q * (page / 512), total);
  }

  lemma Quotient(size: nat, page: nat)
    requires page > 0
    ensures size == size / page * page + size % page
    ensures (size / page + 1) * page == size / page * page + page
    ensures size % page < page
  {
  }

  lemma Regroup(q: int, k: int, page: int)
    requires page == 512 * k
    ensures q * page == 512 * (q * k)
  {
  }

  lemma ThirtySeconds(x: int, total: int)
    requires total == 512 * x && total >= 0
    ensures total % 512 == 0 && total / 16 * 4 / 8 == total / 32 && 32 * (total / 32) == total && total / 32 % 16 == 0
  {
    By16(32 * x);
    By8(16 * x);
    By32(16 * x);
    Mod512(x);
    Mod16(x);
  }

  lemma By16(x: int)
    ensures 16 * x / 16 == x
  {
  }

  lemma By8(x: int)
    ensures 8 * x / 8 == x
  {
  }

  lemma By32(x: int)
    ensures 32 * x / 32 == x
  {
  }

  lemma Mod512(x: int)
    ensures 512 * x % 512 == 0
  {
  }

  lemma Mod16(x: int)
    ensures 16 * x % 16 == 0
  {
  }

  // The map Mem_Init writes: one single-unit block for each 16 bytes of header.
  lemma HeaderMap(h: seq<bv8>, n: nat)
    requires |h| == 16 * n
    requires forall k | 0 <= k < |h| :: h[k] == if k < n / 2 then 0x66 else if k == n / 2 && n % 2 == 1 then 0x60 else 0
    ensures MapOk(Nibbles(h), Ones(n)) && FreeUnits(Nibbles(h)) == 31 * n && HeaderKept(Ones(n), n)
  {
    hide Nib, FreeUnits;
    var s, blocks := Nibbles(h), Ones(n);
    forall k | 0 <= k < |s|
      ensures s[k] == if k < n then 0x60 else 0
    {
      HeaderNibble(h, n, k);
    }
    forall k: nat | k < n
      ensures k in blocks
    {
      assert Below(k, n);
    }
    forall k | 0 <= k < |s| && s[k] != 0
      ensures InUse(blocks, k)
    {
      assert k in blocks && k <= k < k + blocks[k];
    }
    HeaderFree(s, n);
  }

  lemma HeaderNibble(h: seq<bv8>, n: nat, k: nat)
    requires |h| == 16 * n && k < 32 * n
    requires forall k | 0 <= k < |h| :: h[k] == if k < n / 2 then 0x66 else if k == n / 2 && n % 2 == 1 then 0x60 else 0
    ensures Nibbles(h)[k] == if k < n then 0x60 else 0
  {
    var b := h[k / 2];
    assert b == if k / 2 < n / 2 then 0x66 else if k / 2 == n / 2 && n % 2 == 1 then 0x60 else 0;
  }

  lemma HeaderFree(s: seq<bv8>, n: nat)
    requires |s| == 32 * n && forall k | 0 <= k < |s| :: s[k] == if k < n then 0x60 else 0
    ensures FreeUnits(s) == 31 * n
  {
    FreeUnitsParts(s, 0, n);
    FreeUnitsAll(s[0..n], false);
    FreeUnitsAll(s[0 + n..], true);
    assert s[..0] == [];
  }

  // An or-write at nibble j of byte i of a map.
  lemma OrAt(m: seq<bv8>, i: nat, j: nat, v: bv8)
    requires i < |m| && j < 2 && Nibbles(m)[2 * i + j] == 0 && v & 0xF0 == 0
    ensures Nibbles(m[i := OrNib(m[i], j, v)]) == Nibbles(m)[2 * i + j := v << 4]
  {
    hide Nib, OrNib;
    OrStores(m[i], j, v);
    NibblesUpdate(m, i, j, OrNib(m[i], j, v));
  }

  lemma AndAt(m: seq<bv8>, i: nat, j: nat)
    requires i < |m| && j < 2
    ensures Nibbles(m[i := AndNib(m[i], j)]) == Nibbles(m)[2 * i + j := 0]
  {
    hide Nib, AndNib;
    AndClears(m[i], j);
    NibblesUpdate(m, i, j, AndNib(m[i], j));
  }

  lemma Takes(s: seq<bv8>, blocks: map<nat, nat>, h: nat, a: nat, n: nat, available: int)
    requires MapOk(s, blocks) && HeaderKept(blocks, h) && available == 16 * FreeUnits(s)
    requires FirstFit(s, a, n) && LegalUnits(n)
    ensures AllFree(s, a, n) && a !in blocks && a >= h
    ensures MapOk(Taken(s, a, n), blocks[a := n]) && HeaderKept(blocks[a := n], h)
    ensures available - 16 * n == 16 * FreeUnits(Taken(s, a, n))
  {
    hide MapOk, FreeUnits;
    TakeKeeps(s, blocks, a, n);
    FreeUnitsOfPart(s, Taken(s, a, n), a, n);
  }

  lemma Gives(s: seq<bv8>, blocks: map<nat, nat>, h: nat, a: nat, available: int)
    requires MapOk(s, blocks) && a in blocks && available == 16 * FreeUnits(s)
    ensures a + blocks[a] <= |s| && blocks[a] >= 1
    ensures MapOk(Given(s, a, blocks[a]), blocks - {a})
    ensures available + 16 * blocks[a] == 16 * FreeUnits(Given(s, a, blocks[a]))
    ensures HeaderKept(blocks, h) ==> (HeaderKept(blocks - {a}, h) <==> a >= h)
  {
    hide FreeUnits, MapOk;
    GiveKeeps(s, blocks, a);
    GivenIsBlock(s, blocks, a);
    FreeUnitsOfPart(Given(s, a, blocks[a]), s, a, blocks[a]);
    assert a < h && HeaderKept(blocks - {a}, h) ==> a in blocks - {a};
  }

  lemma GivenIsBlock(s: seq<bv8>, blocks: map<nat, nat>, a: nat)
    requires MapOk(s, blocks) && a in blocks
    ensures a + blocks[a] <= |s| && blocks[a] >= 1
    ensures forall k | a <= k < a + blocks[a] :: s[k] != 0
    ensures |Given(s, a, blocks[a])| == |s|
    ensures forall k | 0 <= k < |s| :: Given(s, a, blocks[a])[k] == if a <= k < a + blocks[a] then 0 else s[k]
  {
    assert BlockAt(s, a, blocks[a]);
  }

  // Two blocks in use share no byte, and those beyond the header do not reach into it.
  lemma BlocksApart(s: seq<bv8>, blocks: map<nat, nat>, h: nat, a: nat, b: nat)
    requires MapOk(s, blocks) && HeaderKept(blocks, h) && a in blocks && b in blocks && a != b
    ensures 16 * (a + blocks[a]) <= 16 * b || 16 * (b + blocks[b]) <= 16 * a
    ensures b < h <= a ==> 16 * (b + blocks[b]) <= 16 * h
  {
  }
}
