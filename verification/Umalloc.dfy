/** user/umalloc.c: free, morecore and malloc over headers in memory. */
module Umalloc {
  import opened FreeList

  const U32: nat := 0x1_0000_0000
  const HEADER: nat := 8  // sizeof(Header)

  // Units for a request of nbytes, header included, in 32-bit arithmetic.
  function UnitsFor(nbytes: nat): (n: nat)
    ensures n >= 1
  {
    (nbytes + HEADER - 1) % U32 / HEADER + 1
  }

  // The payload of the units covers the request exactly when the sum does not wrap.
  lemma UnitsHoldRequest(nbytes: nat)
    requires nbytes < U32
    ensures (UnitsFor(nbytes) - 1) * HEADER >= nbytes <==> nbytes <= U32 - HEADER
    ensures (UnitsFor(nbytes) - 1) * HEADER < nbytes + HEADER
    ensures nbytes > U32 - HEADER ==> UnitsFor(nbytes) == 1
  {
  }

  function CoreUnits(nunits: nat): (nu: nat)
    ensures nu >= nunits && nu >= 4096 && (nu == nunits || nu == 4096)
  {
    if nunits < 4096 then 4096 else nunits
  }

  // The largest request wraps to one unit, which has no payload at all.
  lemma LargestRequest()
    ensures UnitsFor(U32 - 1) == 1 && (UnitsFor(U32 - 1) - 1) * HEADER == 0
  {
  }

  // sbrk takes an int: morecore asks it for a positive number of bytes exactly in these cases.
  lemma GrowsByInt(nbytes: nat)
    requires nbytes < U32
    ensures CoreUnits(UnitsFor(nbytes)) * HEADER < 0x8000_0000 <==> nbytes <= 0x8000_0000 - 16 || nbytes > U32 - HEADER
  {
  }

  // Each block's header holds its size and points to the next, the last one to the first.
  ghost predicate Linked(ptr: map<int, int>, size: map<int, int>, bl: seq<Block>) {
    forall k | 0 <= k < |bl| ::
      bl[k].a in ptr && bl[k].a in size && size[bl[k].a] == bl[k].n && ptr[bl[k].a] == bl[Next(k, |bl|)].a
  }

  ghost predicate InLive(live: map<int, int>, x: int) { exists a :: a in live && Covers(Block(a, live[a]), x) }

  // Every unit obtained is free or in exactly one live block, never both.
  ghost predicate Accounted(bl: seq<Block>, live: map<int, int>, arena: set<int>) {
    && (forall x :: x in arena <==> InFree(bl, x) || InLive(live, x))
    && (forall x :: !(InFree(bl, x) && InLive(live, x)))
    && OneOwner(live)
  }

  ghost predicate OneOwner(live: map<int, int>) {
    forall a, b, x | a in live && b in live && Covers(Block(a, live[a]), x) && Covers(Block(b, live[b]), x) :: a == b
  }

  ghost predicate LiveOk(size: map<int, int>, live: map<int, int>) {
    forall a | a in live :: live[a] >= 1 && a in size && size[a] == live[a]
  }

  ghost predicate ListOk(base: int, freep: int, ptr: map<int, int>, size: map<int, int>, bl: seq<Block>) {
    && Sorted(bl) && bl[0] == Block(base, 0) && Linked(ptr, size, bl)
    && exists f :: 0 <= f < |bl| && bl[f].a == freep
  }

  // ----- where a block goes -----

  // The last block below b.
  lemma {:induction false} Position(bl: seq<Block>, b: Block, k: nat) returns (i: nat)
    requires Sorted(bl) && b.n >= 1 && k < |bl| && bl[0].a < b.a && forall x | Covers(b, x) :: !InFree(bl, x)
    requires forall j | k < j < |bl| :: b.a < bl[j].a
    ensures Between(bl, i, b)
  {
    if bl[k].a < b.a {
      i := k;
      ClearOf(bl, b, k);
    } else {
      assert bl[k].a != b.a by { if k > 0 { assert Covers(bl[k], bl[k].a); assert InFree(bl, bl[k].a); } }
      i := Position(bl, b, k - 1);
    }
  }

  lemma ClearOf(bl: seq<Block>, b: Block, k: nat)
    requires Sorted(bl) && b.n >= 1 && k < |bl| && bl[k].a < b.a && forall x | Covers(b, x) :: !InFree(bl, x)
    requires k + 1 < |bl| ==> b.a < bl[k + 1].a
    ensures Between(bl, k, b)
  {
    if bl[k].a + bl[k].n > b.a {
      assert Covers(b, b.a) && Covers(bl[k], b.a);
      assert InFree(bl, b.a);
    }
    if k + 1 < |bl| && b.a + b.n > bl[k + 1].a {
      assert Covers(b, bl[k + 1].a) && Covers(bl[k + 1], bl[k + 1].a);
      assert InFree(bl, bl[k + 1].a);
    }
  }

  // free's loop stops at block i exactly when b goes there.
  lemma StopsThere(ptr: map<int, int>, size: map<int, int>, bl: seq<Block>, i: nat, b: Block, star: nat)
    requires Sorted(bl) && Linked(ptr, size, bl) && i < |bl| && Between(bl, star, b) && bl[0].a < b.a
    ensures bl[i].a in ptr
    ensures var p, n := bl[i].a, ptr[bl[i].a];
      (b.a > p && b.a < n) || (p >= n && (b.a > p || b.a < n)) <==> i == star
  {
    if i < star { assert bl[i + 1].a <= bl[star].a; }
    if i > star { assert bl[star + 1].a <= bl[i].a; }
  }

  lemma StepsTowards(i: nat, star: nat, n: nat)
    requires i < n && star < n && i != star
    ensures Next(i, n) < n && Dist(Next(i, n), star, n) < Dist(i, star, n)
  {
  }

  // The headers after free has linked b in behind block i.
  ghost predicate Relinked(ptr: map<int, int>, size: map<int, int>, ptr': map<int, int>, size': map<int, int>,
                           bl: seq<Block>, i: nat, b: Block)
    requires i < |bl|
  {
    var p, nxt := bl[i].a, bl[Next(i, |bl|)].a;
    var up, down := MergedUp(bl, i, b), MergedDown(bl, i, b);
    && ptr.Keys <= ptr'.Keys && size.Keys <= size'.Keys && p in ptr' && p in size' && b.a in ptr' && b.a in size'
    && (forall a | a in ptr && a != p && a != b.a :: ptr'[a] == ptr[a])
    && (forall a | a in size && a != p && a != b.a :: size'[a] == size[a])
    && (!down ==> ptr'[p] == b.a && size'[p] == bl[i].n && size'[b.a] == Merged(bl, i, b).n)
    && (down ==> size'[p] == Merged(bl, i, b).n)
    && var behind := if up then bl[Next(i + 1, |bl|)].a else nxt;
       if down then ptr'[p] == behind else ptr'[b.a] == behind
  }

  lemma RelinkedIsLinked(ptr: map<int, int>, size: map<int, int>, ptr': map<int, int>, size': map<int, int>,
                         bl: seq<Block>, i: nat, b: Block)
    requires Sorted(bl) && Linked(ptr, size, bl) && Between(bl, i, b) && bl[0].a < b.a
    requires Relinked(ptr, size, ptr', size', bl, i, b)
    ensures Linked(ptr', size', Insert(bl, i, b))
    ensures |Insert(bl, i, b)| > i && Insert(bl, i, b)[i].a == bl[i].a && Insert(bl, i, b)[0] == bl[0]
  {
    hide Insert, Linked, Relinked, Sorted;
    InsertElements(bl, i, b);
    var r := Insert(bl, i, b);
    forall k | 0 <= k < |r|
      ensures r[k].a in ptr' && r[k].a in size' && size'[r[k].a] == r[k].n && ptr'[r[k].a] == r[Next(k, |r|)].a
    {
      if k < i || (if MergedDown(bl, i, b) then i else i + 1) < k {
        var m := OldPosition(bl, i, b, k);
        HeaderKept(ptr, size, ptr', size', bl, i, b, m);
      } else {
        LinkedHere(ptr, size, ptr', size', bl, i, b, k);
      }
    }
    LinkedMeans(ptr', size', r);
  }

  lemma LinkedMeans(ptr: map<int, int>, size: map<int, int>, bl: seq<Block>)
    requires forall k | 0 <= k < |bl| ::
               bl[k].a in ptr && bl[k].a in size && size[bl[k].a] == bl[k].n && ptr[bl[k].a] == bl[Next(k, |bl|)].a
    ensures Linked(ptr, size, bl)
  {
  }

  // A block other than i keeps its header.
  lemma HeaderKept(ptr: map<int, int>, size: map<int, int>, ptr': map<int, int>, size': map<int, int>,
                   bl: seq<Block>, i: nat, b: Block, m: nat)
    requires Sorted(bl) && Linked(ptr, size, bl) && Between(bl, i, b) && Relinked(ptr, size, ptr', size', bl, i, b)
    requires m < |bl| && m != i
    ensures bl[m].a in ptr' && bl[m].a in size'
    ensures size'[bl[m].a] == bl[m].n && ptr'[bl[m].a] == bl[Next(m, |bl|)].a
  {
    BetweenApart(bl, i, b, ptr, size);
    if m < i { assert bl[m].a < bl[i].a; } else { assert bl[i].a < bl[m].a; }
    assert bl[m].a in ptr && bl[m].a in size;
  }

  // Position k of the new list holds old block m, and so does the position after it.
  lemma OldPosition(bl: seq<Block>, i: nat, b: Block, k: nat) returns (m: nat)
    requires Sorted(bl) && Between(bl, i, b) && k < |Insert(bl, i, b)|
    requires k < i || (if MergedDown(bl, i, b) then i else i + 1) < k
    ensures m < |bl| && m != i && Insert(bl, i, b)[k] == bl[m]
    ensures Insert(bl, i, b)[Next(k, |Insert(bl, i, b)|)].a == bl[Next(m, |bl|)].a
  {
    hide Insert, Sorted;
    InsertElements(bl, i, b);
    m := if k < i then k else |bl| - |Insert(bl, i, b)| + k;
  }

  // The blocks that free itself writes: i, and b when it stays apart.
  lemma LinkedHere(ptr: map<int, int>, size: map<int, int>, ptr': map<int, int>, size': map<int, int>,
                   bl: seq<Block>, i: nat, b: Block, k: nat)
    requires Sorted(bl) && Linked(ptr, size, bl) && Between(bl, i, b) && Relinked(ptr, size, ptr', size', bl, i, b)
    requires k == i || (k == i + 1 && !MergedDown(bl, i, b))
    ensures var r := Insert(bl, i, b);
      && k < |r| && r[k].a in ptr' && r[k].a in size'
      && size'[r[k].a] == r[k].n && ptr'[r[k].a] == r[Next(k, |r|)].a
  {
    hide Insert, Sorted, Linked, Merged, MergedUp, MergedDown;
    NewBlockAt(bl, i, b);
    LinkedAt(ptr, size, bl, i);
  }

  // Position i, the joined block, and what is behind each.
  lemma NewBlockAt(bl: seq<Block>, i: nat, b: Block)
    requires Sorted(bl) && Between(bl, i, b)
    ensures var r, m := Insert(bl, i, b), if MergedDown(bl, i, b) then i else i + 1;
      && m < |r| && r[m] == Merged(bl, i, b) && r[m].a == (if MergedDown(bl, i, b) then bl[i].a else b.a)
      && r[Next(m, |r|)].a == (if MergedUp(bl, i, b) then bl[Next(i + 1, |bl|)].a else bl[Next(i, |bl|)].a)
      && (!MergedDown(bl, i, b) ==> r[i] == bl[i] && r[Next(i, |r|)].a == b.a)
  {
    hide Insert, Sorted;
    InsertElements(bl, i, b);
    var r := Insert(bl, i, b);
    assert r[0].a == bl[0].a;
  }

  // The new list accounts for one live block fewer.
  lemma FreedAccounts(bl: seq<Block>, live: map<int, int>, arena: set<int>, i: nat, b: Block)
    requires Sorted(bl) && Between(bl, i, b) && Accounted(bl, live, arena) && b.a in live && live[b.a] == b.n
    ensures Accounted(Insert(bl, i, b), live - {b.a}, arena)
  {
    hide InFree, Sorted, Insert;
    var live' := live - {b.a};
    forall x
      ensures InFree(Insert(bl, i, b), x) <==> InFree(bl, x) || Covers(b, x)
      ensures InLive(live, x) <==> InLive(live', x) || Covers(b, x)
      ensures !(InLive(live', x) && Covers(b, x))
    {
      InsertCovers(bl, i, b, x);
      LiveSplit(bl, live, arena, b, x);
    }
  }

  lemma LiveSplit(bl: seq<Block>, live: map<int, int>, arena: set<int>, b: Block, x: int)
    requires Accounted(bl, live, arena) && b.a in live && live[b.a] == b.n
    ensures InLive(live, x) <==> InLive(live - {b.a}, x) || Covers(b, x)
    ensures !(InLive(live - {b.a}, x) && Covers(b, x))
  {
    hide InFree;
    var live' := live - {b.a};
    if InLive(live, x) {
      var a :| a in live && Covers(Block(a, live[a]), x);
      assert a == b.a || a in live';
    }
    if InLive(live', x) {
      var a :| a in live' && Covers(Block(a, live'[a]), x);
      assert a in live && Covers(Block(a, live[a]), x);
    }
  }

  // A live block lies outside the free ones.
  lemma LiveIsNotFree(bl: seq<Block>, live: map<int, int>, arena: set<int>, a: int)
    requires Accounted(bl, live, arena) && a in live
    ensures forall x | Covers(Block(a, live[a]), x) :: !InFree(bl, x) && x in arena
  {
    hide InFree;
    forall x | Covers(Block(a, live[a]), x)
      ensures !InFree(bl, x) && x in arena
    {
      assert InLive(live, x);
    }
  }

  class Heap {
    const base: int  // address of the list head
    var ptr: map<int, int>
    var size: map<int, int>
    var freep: int   // 0 is NULL
    ghost var free: seq<Block>
    ghost var live: map<int, int>  // units of each block handed out, by header address
    ghost var arena: set<int>      // every unit obtained from sbrk

    ghost predicate Valid()
      reads this
    {
      && base > 0
      && (freep == 0 ==> free == [] && live == map[] && arena == {})
      && (freep != 0 ==> ListOk(base, freep, ptr, size, free))
      && LiveOk(size, live)
      && Accounted(free, live, arena)
      && (forall x | x in arena :: x > base)
    }

    constructor (base_: int)
      requires base_ > 0
      ensures Valid() && base == base_ && freep == 0 && live == map[] && arena == {}
    {
      base, ptr, size, freep := base_, map[], map[], 0;
      free, live, arena := [], map[], {};
    }

    // The last part of free: join bp with the neighbours it touches, or link it in.
    method LinkIn(bp: int, p: int, ghost i: nat)
      requires bp in ptr && bp in size && p in ptr && p in size && i < |free| && free[i].a == p != bp
      requires Sorted(free) && Linked(ptr, size, free) && Between(free, i, Block(bp, size[bp]))
      requires free[0].a == base < bp
      modifies `ptr, `size, `freep
      ensures Relinked(old(ptr), old(size), ptr, size, free, i, Block(bp, old(size)[bp])) && freep == p
    {
      var up := ptr[p];
      assert up == free[Next(i, |free|)].a;
      assert up in ptr && up in size;
      if bp + size[bp] == up {
        size := size[bp := size[bp] + size[up]];
        ptr := ptr[bp := ptr[up]];
      } else {
        ptr := ptr[bp := up];
      }
      if p + size[p] == bp {
        size := size[p := size[p] + size[bp]];
        ptr := ptr[p := ptr[bp]];
      } else {
        ptr := ptr[p := bp];
      }
      freep := p;
    }

    // The search of free: the block behind which bp belongs.
    method FindPlace(bp: int) returns (p: int)
      requires ListOk(base, freep, ptr, size, free) && bp in size && size[bp] >= 1 && bp > base
      requires forall x | Covers(Block(bp, size[bp]), x) :: !InFree(free, x)
      ensures exists i: nat :: i < |free| && free[i].a == p && Between(free, i, Block(bp, size[bp]))
    {
      hide InFree, Sorted;
      ghost var b, n := Block(bp, size[bp]), |free|;
      SortedHead(free);
      ghost var star := Position(free, b, n - 1);
      ghost var i: nat :| i < n && free[i].a == freep;
      p := freep;
      StopsThere(ptr, size, free, i, b, star);
      while !(bp > p && bp < ptr[p])
        invariant i < n && p == free[i].a && p in ptr
        invariant (bp > p && bp < ptr[p]) || (p >= ptr[p] && (bp > p || bp < ptr[p])) <==> i == star
        decreases Dist(i, star, n)
      {
        if p >= ptr[p] && (bp > p || bp < ptr[p]) {
          break;
        }
        StepsTowards(i, star, n);
        StopsThere(ptr, size, free, Next(i, n), b, star);
        p, i := ptr[p], Next(i, n);
      }
    }

    // Return the live block with header bp to the list.
    method Free(bp: int)
      requires Valid() && bp in live && freep != 0
      modifies this
      ensures Valid() && freep != 0
      ensures live == old(live) - {bp} && arena == old(arena)
      ensures forall x :: InFree(free, x) <==> InFree(old(free), x) || Covers(Block(bp, old(live)[bp]), x)
      ensures exists g :: 1 <= g < |free| && free[g].n >= old(live)[bp]
      ensures exists i :: 0 <= i < |old(free)| && old(free)[i].a == freep < bp
                       && (i + 1 < |old(free)| ==> bp < old(free)[i + 1].a)
    {
      hide InFree, Accounted, Sorted, Linked, Relinked, Between, Insert;
      ghost var b, bl0, ptr0, size0 := Block(bp, live[bp]), free, ptr, size;
      LiveIsNotFree(free, live, arena, bp);
      assert Covers(b, bp);
      var p := FindPlace(bp);
      ghost var i: nat :| i < |free| && free[i].a == p && Between(free, i, b);
      BetweenApart(free, i, b, ptr, size);
      if bp !in ptr {
        ptr := ptr[bp := 0];  // the field exists; its value is free's to set
        LinkedStill(ptr0, ptr, size, free, bp);
      }
      ghost var ptr1 := ptr;
      LinkIn(bp, p, i);
      RelinkedIsLinked(ptr1, size0, ptr, size, bl0, i, b);
      InsertSorted(bl0, i, b);
      FreedAccounts(bl0, live, arena, i, b);
      FreedLive(bl0, live, arena, i, b, ptr1, size0, ptr, size);
      MergedHolds(bl0, i, b);
      forall x
        ensures InFree(Insert(bl0, i, b), x) <==> InFree(bl0, x) || Covers(b, x)
      {
        InsertCovers(bl0, i, b, x);
      }
      free := Insert(free, i, b);
      live := live - {bp};
    }

    // Unlink block k, or cut the request off its tail, and move the rover behind it.
    method TakeAt(prevp: int, p0: int, nunits: nat, ghost k: nat) returns (r: int)
      requires Valid() && freep != 0 && 1 <= k < |free| && free[k].a == p0 && free[k - 1].a == prevp
      requires 1 <= nunits <= free[k].n
      modifies this
      ensures Valid() && freep != 0 && arena == old(arena)
      ensures r == Taken(old(free), k, nunits).a + 1 && r - 1 !in old(live) && r > base
      ensures live == old(live)[r - 1 := nunits] && free == Take(old(free), k, nunits)
      ensures r - 1 + nunits == old(free)[k].a + old(free)[k].n
      ensures k <= |free| && free[k - 1].a == freep && freep + free[k - 1].n < r - 1
      ensures k < |free| ==> free[k].a + free[k].n <= r - 1 || r - 1 < free[k].a
      ensures forall x :: InFree(free, x) <==> InFree(old(free), x) && !Covers(Block(r - 1, nunits), x)
      ensures forall x | Covers(Block(r - 1, nunits), x) :: InFree(old(free), x)
    {
      hide InFree, Accounted, Sorted, Linked, LiveOk, Take;
      var p := p0;
      ghost var bl0, ptr0, size0, b := free, ptr, size, Taken(free, k, nunits);
      LinkedAt(ptr, size, free, k);
      LinkedAt(ptr, size, free, k - 1);
      if size[p] == nunits {
        ptr := ptr[prevp := ptr[p]];
      } else {
        size := size[p := size[p] - nunits];
        p := p + size[p];
        size := size[p := nunits];
      }
      freep := prevp;
      r := p + 1;
      TakeLinked(ptr0, size0, ptr, size, bl0, k, nunits);
      TakeSorted(bl0, k, nunits);
      TakeKeeps(bl0, k, nunits);
      TakeAccounts(bl0, live, arena, k, nunits);
      TakeLive(bl0, live, arena, size0, size, k, nunits);
      live := live[p := nunits];
      forall x
        ensures InFree(Take(bl0, k, nunits), x) <==> InFree(bl0, x) && !Covers(b, x)
        ensures Covers(b, x) ==> InFree(bl0, x)
      {
        TakeCovers(bl0, k, nunits, x);
      }
      free := Take(free, k, nunits);
      assert free[k - 1].a == freep;
    }

    // Obtain memory; grant is sbrk's answer (in headers), -1 for none.
    method Morecore(nu: nat, grant: int) returns (p: int)
      requires Valid() && freep != 0 && GrantOk(base, arena, grant, CoreUnits(nu))
      modifies this
      ensures Valid() && freep != 0 && live == old(live)
      ensures p == if grant == -1 then 0 else freep
      ensures grant == -1 ==> arena == old(arena) && free == old(free) && freep == old(freep)
      ensures grant != -1 ==> arena == old(arena) + Region(grant, CoreUnits(nu)) && HasFit(free, nu)
      ensures grant != -1 ==>
                forall x :: InFree(free, x) <==> InFree(old(free), x) || x in Region(grant, CoreUnits(nu))
    {
      hide InFree, Accounted, LiveOk, ListOk;
      if grant == -1 {
        return 0;
      }
      var n := CoreUnits(nu);
      size := size[grant := n];
      GrantAccounts(free, live, arena, grant, n);
      GrantLive(free, live, arena, old(size), size, grant, n);
      GrantList(base, freep, ptr, old(size), size, free, live, arena, grant, n);
      arena := arena + Region(grant, n);
      live := live[grant := n];
      Free(grant);
      p := freep;
    }

    // The rover, with an empty list made for it on the first call.
    method StartList(ghost n: nat) returns (prevp: int)
      requires Valid() && n >= 1
      modifies this
      ensures Valid() && prevp == freep != 0 && live == old(live) && arena == old(arena)
      ensures old(freep) != 0 ==> free == old(free) && freep == old(freep)
      ensures old(freep) == 0 ==> !HasFit(old(free), n)
      ensures HasFit(free, n) == HasFit(old(free), n)
      ensures forall x :: InFree(free, x) <==> InFree(old(free), x)
    {
      prevp := freep;
      if prevp == 0 {
        FirstList(base, ptr, size, live, arena);
        NoFitFirst(free, base, n);
        ptr := ptr[base := base];
        size := size[base := 0];
        freep, prevp := base, base;
        free := [Block(base, 0)];
      }
    }

    // The block malloc picks is the first that fits behind the rover; memory is obtained
    // exactly when none fits, and once at most.
    method Malloc(nbytes: nat, grant: int) returns (r: int, ghost grew: bool, ghost from: nat)
      requires Valid() && GrantOk(base, arena, grant, CoreUnits(UnitsFor(nbytes)))
      modifies this
      ensures Valid() && freep != 0
      ensures r == 0 <==> grant == -1 && forall k | 0 <= k < |old(free)| :: old(free)[k].n < UnitsFor(nbytes)
      ensures r == 0 ==> live == old(live) && forall x :: InFree(free, x) <==> InFree(old(free), x)
      ensures r != 0 ==> r - 1 !in old(live) && live == old(live)[r - 1 := UnitsFor(nbytes)]
      ensures grew <==> grant != -1 && forall k | 0 <= k < |old(free)| :: old(free)[k].n < UnitsFor(nbytes)
      ensures arena == if grew then old(arena) + Region(grant, CoreUnits(UnitsFor(nbytes))) else old(arena)
      ensures r != 0 ==> forall x :: InFree(free, x) <==>
                (InFree(old(free), x) || (grew && x in Region(grant, CoreUnits(UnitsFor(nbytes)))))
                && !Covers(Block(r - 1, UnitsFor(nbytes)), x)
      ensures r != 0 ==> forall x | Covers(Block(r - 1, UnitsFor(nbytes)), x) ::
                InFree(old(free), x) || (grew && x in Region(grant, CoreUnits(UnitsFor(nbytes))))
      ensures r != 0 && !grew ==>
                && 1 <= from < |old(free)| && old(free)[from].n >= UnitsFor(nbytes)
                && r - 1 + UnitsFor(nbytes) == old(free)[from].a + old(free)[from].n
                && exists f :: 0 <= f < |old(free)| && old(free)[f].a == old(freep)
                     && forall m | 0 <= m < |old(free)| && (if f < from then f < m < from else m < from || m > f) ::
                       old(free)[m].n < UnitsFor(nbytes)
      ensures r != 0 && grew ==>
                var e := r - 1 + UnitsFor(nbytes);
                && grant + CoreUnits(UnitsFor(nbytes)) <= e && !InFree(old(free), e)
                && forall x | grant <= x < e :: InFree(old(free), x) || x < grant + CoreUnits(UnitsFor(nbytes))
      ensures r != 0 ==>
                && 1 <= from <= |free| && free[from - 1].a == freep && freep + free[from - 1].n < r - 1
                && (from < |free| ==> free[from].a + free[from].n <= r - 1 || r - 1 < free[from].a)
    {
      hide InFree, Accounted, LiveOk, ListOk, Sorted, Linked, Take, HasFit, GrantOk, UnitsFor, CoreUnits, Region, Covers;
      var nunits := UnitsFor(nbytes);
      ghost var free0 := free;
      FitMeans(free0, nunits);
      assert free0 == [] || Sorted(free0) by { if freep != 0 { ListSorted(base, freep, ptr, size, free); } }
      var prevp := StartList(nunits);
      var found, p;
      found, prevp, p, grew, from := Search(nunits, prevp, grant);
      if !found {
        return 0, false, from;
      }
      ListSorted(base, freep, ptr, size, free);
      if grew { GrownFit(free0, free, grant, CoreUnits(nunits), from, nunits); }
      r := TakeAt(prevp, p, nunits, from);
    }

    // The loop of malloc, from the rover on: the block to take, and the one before it.
    method Search(nunits: nat, prevp0: int, grant: int) returns (found: bool, prevp: int, p: int, ghost grew: bool, ghost k: nat)
      requires Valid() && freep == prevp0 != 0 && nunits >= 1 && GrantOk(base, arena, grant, CoreUnits(nunits))
      modifies this
      ensures Valid() && freep != 0 && live == old(live)
      ensures !grew ==> arena == old(arena) && free == old(free) && freep == old(freep)
      ensures grew ==> grant != -1 && !HasFit(old(free), nunits) && arena == old(arena) + Region(grant, CoreUnits(nunits))
      ensures grew ==> forall x :: InFree(free, x) <==> InFree(old(free), x) || x in Region(grant, CoreUnits(nunits))
      ensures !found ==> !grew && grant == -1 && !HasFit(free, nunits)
      ensures found ==> 1 <= k < |free| && free[k].a == p && free[k - 1].a == prevp && free[k].n >= nunits && HasFit(free, nunits)
      ensures found && !grew ==>
                exists f :: 0 <= f < |free| && free[f].a == freep
                    && forall m | 0 <= m < |free| && (if f < k then f < m < k else m < k || m > f) :: free[m].n < nunits
    {
      hide InFree, Accounted, LiveOk, Sorted, Linked, HasFit, Passed, GrantOk, UnitsFor, CoreUnits, Region, Covers;
      prevp := prevp0;
      ghost var j: nat :| j < |free| && free[j].a == freep;
      ghost var f: nat := j;
      k := Next(j, |free|);
      LinkedAt(ptr, size, free, j);
      p := ptr[prevp];
      grew := false;
      NothingPassed(free, f, nunits);
      while true
        invariant Valid() && freep != 0 && live == old(live) && f < |free| && free[f].a == freep
        invariant j < |free| && free[j].a == prevp && k == Next(j, |free|) && free[k].a == p
        invariant Passed(free, f, k, nunits)
        invariant !grew ==> arena == old(arena) && free == old(free) && freep == old(freep)
        invariant grew ==> grant != -1 && HasFit(free, nunits) && !HasFit(old(free), nunits)
        invariant grew ==> arena == old(arena) + Region(grant, CoreUnits(nunits))
        invariant grew ==> forall x :: InFree(free, x) <==> InFree(old(free), x) || x in Region(grant, CoreUnits(nunits))
        decreases !grew, Dist(k, f, |free|)
      {
        LinkedAt(ptr, size, free, k);
        if size[p] >= nunits {
          Behind(free, j, k, nunits);
          FitIs(free, f, k, nunits, freep);
          found := true;
          return;
        }
        PassedOne(free, f, k, nunits);
        if p == freep {
          SameAddress(free, k, f);
          p := Morecore(nunits, grant);
          if p == 0 {
            found := false;
            return;
          }
          grew := true;
          k :| 0 <= k < |free| && free[k].a == freep;
          f := k;
          LinkedAt(ptr, size, free, k);
          NothingPassed(free, f, nunits);
        } else {
          StepsTowards(k, f, |free|);
        }
        prevp, p := p, ptr[p];
        j, k := k, Next(k, |free|);
      }
    }
  }

  function Region(a: int, n: nat): (r: set<int>)
    ensures forall x :: x in r <==> a <= x < a + n
  {
    set x | a <= x < a + n && Covers(Block(a, n), x)
  }

  // What sbrk returns: memory above the program's data that was not part of the heap before.
  ghost predicate GrantOk(base: int, arena: set<int>, grant: int, n: nat) {
    grant == -1 || (grant > base && forall x | grant <= x < grant + n :: x !in arena)
  }

  ghost predicate HasFit(bl: seq<Block>, n: nat) { exists k :: 0 <= k < |bl| && bl[k].n >= n }

  // Of the blocks after the rover at f, in list order and cyclically, none before k is large enough.
  ghost predicate Passed(bl: seq<Block>, f: nat, k: nat, n: nat)
    requires f < |bl| && k < |bl|
  {
    forall m: nat | m < |bl| && Dist(m, f, |bl|) > Dist(k, f, |bl|) :: bl[m].n < n
  }

  lemma FitMeans(bl: seq<Block>, n: nat)
    ensures HasFit(bl, n) <==> !(forall k | 0 <= k < |bl| :: bl[k].n < n)
  {
  }

  lemma ListSorted(base: int, freep: int, ptr: map<int, int>, size: map<int, int>, bl: seq<Block>)
    requires ListOk(base, freep, ptr, size, bl)
    ensures Sorted(bl)
  {
  }

  // After growing, the block taken is the one with the new memory.
  lemma GrownFit(bl0: seq<Block>, bl: seq<Block>, a: int, len: nat, k: nat, n: nat)
    requires (bl0 == [] || Sorted(bl0)) && Sorted(bl) && len >= 1 && !HasFit(bl0, n)
    requires forall x :: InFree(bl, x) <==> InFree(bl0, x) || x in Region(a, len)
    requires k < |bl| && bl[k].n >= n >= 1
    ensures var e := bl[k].a + bl[k].n;
      a + len <= e && !InFree(bl0, e) && forall x | a <= x < e :: InFree(bl0, x) || x < a + len
  {
    hide Sorted, InFree;
    NewFit(bl0, bl, a, len, k, n);
  }

  // ----- the search of malloc -----

  lemma NothingPassed(bl: seq<Block>, f: nat, n: nat)
    requires f < |bl|
    ensures Passed(bl, f, Next(f, |bl|), n)
  {
  }

  // A block that does not fit is passed; at the rover, that was the last one.
  lemma PassedOne(bl: seq<Block>, f: nat, k: nat, n: nat)
    requires f < |bl| && k < |bl| && Passed(bl, f, k, n) && bl[k].n < n
    ensures k != f ==> Passed(bl, f, Next(k, |bl|), n)
    ensures k == f ==> !HasFit(bl, n)
  {
    forall m: nat | m < |bl| && k == f
      ensures bl[m].n < n
    {
      if m != f { assert Dist(m, f, |bl|) > Dist(k, f, |bl|); }
    }
    forall m: nat | m < |bl| && k != f && Dist(m, f, |bl|) > Dist(Next(k, |bl|), f, |bl|)
      ensures bl[m].n < n
    {
      if m != k { assert Dist(m, f, |bl|) > Dist(k, f, |bl|); }
    }
  }

  lemma FitIs(bl: seq<Block>, f: nat, k: nat, n: nat, freep: int)
    requires f < |bl| && 1 <= k < |bl| && bl[f].a == freep && Passed(bl, f, k, n) && bl[k].n >= n
    ensures HasFit(bl, n)
    ensures exists f :: 0 <= f < |bl| && bl[f].a == freep
                     && forall m | 0 <= m < |bl| && (if f < k then f < m < k else m < k || m > f) :: bl[m].n < n
  {
  }

  lemma Behind(bl: seq<Block>, j: nat, k: nat, n: nat)
    requires Sorted(bl) && j < |bl| && k == Next(j, |bl|) && bl[k].n >= n >= 1
    ensures k >= 1 && k - 1 == j
  {
  }

  lemma SameAddress(bl: seq<Block>, k: nat, f: nat)
    requires Sorted(bl) && k < |bl| && f < |bl| && bl[k].a == bl[f].a
    ensures k == f
  {
    Apart(bl, k, f);
  }

  lemma LinkedAt(ptr: map<int, int>, size: map<int, int>, bl: seq<Block>, k: nat)
    requires Linked(ptr, size, bl) && k < |bl|
    ensures bl[k].a in ptr && bl[k].a in size
    ensures size[bl[k].a] == bl[k].n && ptr[bl[k].a] == bl[Next(k, |bl|)].a
  {
  }

  // The list malloc makes on its first call.
  lemma FirstList(base: int, ptr: map<int, int>, size: map<int, int>, live: map<int, int>, arena: set<int>)
    requires live == map[] && arena == {}
    ensures ListOk(base, base, ptr[base := base], size[base := 0], [Block(base, 0)])
    ensures Accounted([Block(base, 0)], live, arena) && LiveOk(size[base := 0], live)
    ensures forall x :: !InFree([Block(base, 0)], x) && !InFree([], x)
  {
    assert [Block(base, 0)][0].a == base;
  }

  lemma NoFitFirst(bl: seq<Block>, base: int, n: nat)
    requires bl == [] && n >= 1
    ensures !HasFit(bl, n) && !HasFit([Block(base, 0)], n)
  {
  }

  // ----- taking -----

  lemma TakeKeeps(bl: seq<Block>, k: nat, n: nat)
    requires Sorted(bl) && 1 <= k < |bl| && n <= bl[k].n
    ensures Taken(bl, k, n).a > bl[0].a
    ensures |Take(bl, k, n)| >= k && Take(bl, k, n)[k - 1] == bl[k - 1] && Take(bl, k, n)[0] == bl[0]
    ensures bl[k - 1].a + bl[k - 1].n < Taken(bl, k, n).a
    ensures k < |Take(bl, k, n)| && n >= 1 ==>
              var b := Take(bl, k, n)[k]; b.a + b.n <= Taken(bl, k, n).a || Taken(bl, k, n).a < b.a
  {
  }

  lemma TakeLinked(ptr: map<int, int>, size: map<int, int>, ptr': map<int, int>, size': map<int, int>,
                   bl: seq<Block>, k: nat, n: nat)
    requires Sorted(bl) && Linked(ptr, size, bl) && 1 <= k < |bl| && 1 <= n <= bl[k].n
    requires bl[k].a in ptr && bl[k].a in size && bl[k - 1].a in ptr
    requires bl[k].n == n ==> ptr' == ptr[bl[k - 1].a := ptr[bl[k].a]] && size' == size
    requires bl[k].n != n ==>
               ptr' == ptr && size' == size[bl[k].a := bl[k].n - n][bl[k].a + bl[k].n - n := n]
    ensures Linked(ptr', size', Take(bl, k, n))
  {
    hide Sorted, Linked;
    var r := Take(bl, k, n);
    forall m | 0 <= m < |r|
      ensures r[m].a in ptr' && r[m].a in size' && size'[r[m].a] == r[m].n && ptr'[r[m].a] == r[Next(m, |r|)].a
    {
      var o := if bl[k].n == n && m >= k then m + 1 else m;
      LinkedAt(ptr, size, bl, o);
      LinkedAt(ptr, size, bl, k);
      Apart(bl, o, k);
      Apart(bl, o, k - 1);
      assert r[Next(m, |r|)].a == bl[if bl[k].n == n && m == k - 1 then Next(k, |bl|) else Next(o, |bl|)].a;
    }
    LinkedMeans(ptr', size', r);
  }

  // No other header lies in block k.
  lemma Apart(bl: seq<Block>, o: nat, k: nat)
    requires Sorted(bl) && o < |bl| && k < |bl|
    ensures o != k ==> bl[o].a < bl[k].a || bl[o].a > bl[k].a + bl[k].n
    ensures o != k ==> bl[o].a != bl[k].a
  {
  }

  lemma TakeAccounts(bl: seq<Block>, live: map<int, int>, arena: set<int>, k: nat, n: nat)
    requires Sorted(bl) && 1 <= k < |bl| && 1 <= n <= bl[k].n && Accounted(bl, live, arena)
    ensures Taken(bl, k, n).a !in live || live[Taken(bl, k, n).a] <= 0
    ensures Accounted(Take(bl, k, n), live[Taken(bl, k, n).a := n], arena)
  {
    hide InFree, Sorted, Take, InLive;
    var b := Taken(bl, k, n);
    forall x
      ensures InFree(Take(bl, k, n), x) <==> InFree(bl, x) && !Covers(b, x)
      ensures Covers(b, x) ==> InFree(bl, x)
    {
      TakeCovers(bl, k, n, x);
    }
    NewLive(bl, live, arena, b);
  }

  // A block of units that were not live becomes live.
  lemma NewLive(bl: seq<Block>, live: map<int, int>, arena: set<int>, b: Block)
    requires Accounted(bl, live, arena) && b.n >= 1 && forall x | Covers(b, x) :: !InLive(live, x)
    ensures b.a in live ==> live[b.a] <= 0
    ensures forall x :: InLive(live[b.a := b.n], x) <==> InLive(live, x) || Covers(b, x)
    ensures OneOwner(live[b.a := b.n])
  {
    hide InFree;
    var live' := live[b.a := b.n];
    assert Covers(b, b.a);
    forall x
      ensures InLive(live', x) <==> InLive(live, x) || Covers(b, x)
    {
      NewLiveAt(live, b, x);
    }
    forall a, c, x | a in live' && c in live' && Covers(Block(a, live'[a]), x) && Covers(Block(c, live'[c]), x)
      ensures a == c
    {
      assert a != b.a ==> InLive(live, x);
      assert c != b.a ==> InLive(live, x);
    }
  }

  lemma NewLiveAt(live: map<int, int>, b: Block, x: int)
    requires b.n >= 1 && !InLive(live, b.a)
    ensures InLive(live[b.a := b.n], x) <==> InLive(live, x) || Covers(b, x)
    ensures b.a in live ==> live[b.a] <= 0
  {
    var live' := live[b.a := b.n];
    assert b.a in live ==> !Covers(Block(b.a, live[b.a]), b.a);
    if InLive(live, x) {
      var a :| a in live && Covers(Block(a, live[a]), x);
      assert a in live' && Covers(Block(a, live'[a]), x);
    }
    if Covers(b, x) { assert Covers(Block(b.a, live'[b.a]), x); }
  }

  lemma TakeLive(bl: seq<Block>, live: map<int, int>, arena: set<int>, size: map<int, int>, size': map<int, int>,
                 k: nat, n: nat)
    requires Sorted(bl) && 1 <= k < |bl| && 1 <= n <= bl[k].n && Accounted(bl, live, arena) && LiveOk(size, live)
    requires bl[k].a in size && size[bl[k].a] == bl[k].n
    requires size' == if bl[k].n == n then size else size[bl[k].a := bl[k].n - n][bl[k].a + bl[k].n - n := n]
    ensures LiveOk(size', live[Taken(bl, k, n).a := n]) && Taken(bl, k, n).a !in live
  {
    forall a | a in live
      ensures a != bl[k].a && a != Taken(bl, k, n).a
    {
      LiveIsNotFree(bl, live, arena, a);
      assert Covers(Block(a, live[a]), a);
      assert Covers(bl[k], bl[k].a) && InFree(bl, bl[k].a);
      assert Covers(bl[k], Taken(bl, k, n).a) && InFree(bl, Taken(bl, k, n).a);
    }
  }

  // ----- memory from sbrk, live until it is freed into the list -----

  lemma GrantAccounts(bl: seq<Block>, live: map<int, int>, arena: set<int>, a: int, n: nat)
    requires Accounted(bl, live, arena) && n >= 1 && forall x | a <= x < a + n :: x !in arena
    ensures Accounted(bl, live[a := n], arena + Region(a, n))
  {
    hide InFree, InLive;
    NewLive(bl, live, arena, Block(a, n));
  }

  lemma GrantLive(bl: seq<Block>, live: map<int, int>, arena: set<int>, size: map<int, int>, size': map<int, int>,
                  a: int, n: nat)
    requires LiveOk(size, live) && n >= 1 && size' == size[a := n]
    requires Accounted(bl, live, arena) && forall x | a <= x < a + n :: x !in arena
    ensures a !in live && LiveOk(size', live[a := n])
  {
    if a in live {
      LiveIsNotFree(bl, live, arena, a);
      assert Covers(Block(a, live[a]), a);
    }
  }

  lemma GrantList(base: int, freep: int, ptr: map<int, int>, size: map<int, int>, size': map<int, int>,
                  bl: seq<Block>, live: map<int, int>, arena: set<int>, a: int, n: nat)
    requires ListOk(base, freep, ptr, size, bl) && size' == size[a := n] && a > base && n >= 1
    requires Accounted(bl, live, arena) && forall x | a <= x < a + n :: x !in arena
    ensures ListOk(base, freep, ptr, size', bl)
  {
    forall k | 0 <= k < |bl|
      ensures bl[k].a != a
    {
      if k > 0 { assert Covers(bl[k], bl[k].a); assert InFree(bl, bl[k].a); }
    }
  }

  lemma BetweenApart(bl: seq<Block>, i: nat, b: Block, ptr: map<int, int>, size: map<int, int>)
    requires Sorted(bl) && Between(bl, i, b) && Linked(ptr, size, bl)
    ensures i < |bl| && bl[i].a < b.a && (i + 1 < |bl| ==> b.a < bl[i + 1].a) && bl[i].a in ptr && bl[i].a in size && bl[i].a >= bl[0].a
    ensures forall k | 0 <= k < |bl| :: bl[k].a != b.a
  {
    forall k | 0 <= k < |bl|
      ensures bl[k].a != b.a
    {
      if k < i { assert bl[k].a < bl[i].a; }
      if k > i { assert bl[i + 1].a <= bl[k].a; }
    }
  }

  lemma LinkedStill(ptr: map<int, int>, ptr': map<int, int>, size: map<int, int>, bl: seq<Block>, bp: int)
    requires Linked(ptr, size, bl) && (forall k | 0 <= k < |bl| :: bl[k].a != bp) && ptr' == ptr[bp := 0]
    ensures Linked(ptr', size, bl)
  {
  }

  // free writes no header of another live block.
  lemma FreedLive(bl: seq<Block>, live: map<int, int>, arena: set<int>, i: nat, b: Block,
                  ptr: map<int, int>, size: map<int, int>, ptr': map<int, int>, size': map<int, int>)
    requires Sorted(bl) && Between(bl, i, b) && Relinked(ptr, size, ptr', size', bl, i, b)
    requires LiveOk(size, live) && Accounted(bl, live, arena) && forall x | x in arena :: x > bl[0].a
    ensures LiveOk(size', live - {b.a})
  {
    forall a | a in live - {b.a}
      ensures a != bl[i].a
    {
      LiveIsNotFree(bl, live, arena, a);
      assert Covers(Block(a, live[a]), a);
      assert i > 0 ==> Covers(bl[i], bl[i].a) && InFree(bl, bl[i].a);
    }
  }

  lemma MergedHolds(bl: seq<Block>, i: nat, b: Block)
    requires Sorted(bl) && Between(bl, i, b)
    ensures var r := Insert(bl, i, b); exists g :: 1 <= g < |r| && r[g].n >= b.n
  {
    InsertElements(bl, i, b);
    var g := if MergedDown(bl, i, b) then i else i + 1;
    assert Insert(bl, i, b)[g].n >= b.n;
  }

  lemma SortedHead(bl: seq<Block>)
    requires Sorted(bl)
    ensures |bl| > 0
  {
  }
}
