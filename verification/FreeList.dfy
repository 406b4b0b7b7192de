/** The circular free list of user/umalloc.c as a sorted list of blocks. Addresses count
    headers (eight bytes each). */
module FreeList {
  // A block of n units from address a on; its header is its first unit.
  datatype Block = Block(a: int, n: int)

  predicate Covers(b: Block, x: int) { b.a <= x < b.a + b.n }

  // The list in address order. Block 0 is `base`, which holds nothing; no block reaches the
  // next one, not even to touch it.
  ghost predicate Sorted(bl: seq<Block>) {
    && |bl| > 0 && bl[0].n == 0
    && (forall k | 1 <= k < |bl| :: bl[k].n >= 1)
    && (forall i, j | 0 <= i < j < |bl| :: bl[i].a + bl[i].n < bl[j].a)
  }

  ghost predicate InFree(bl: seq<Block>, x: int) { exists k :: 0 <= k < |bl| && Covers(bl[k], x) }

  // ----- cyclic positions -----

  function Next(k: nat, n: nat): nat { if k + 1 >= n then 0 else k + 1 }

  // Steps from position i round to position j.
  function Dist(i: nat, j: nat, n: nat): nat
    requires i < n && j < n
  {
    if i <= j then j - i else n - i + j
  }

  // ----- inserting -----

  // b belongs between blocks i and i + 1.
  ghost predicate Between(bl: seq<Block>, i: nat, b: Block) {
    && i < |bl| && b.n >= 1
    && bl[i].a + bl[i].n <= b.a && bl[i].a < b.a
    && (i + 1 < |bl| ==> b.a + b.n <= bl[i + 1].a)
  }

  function MergedUp(bl: seq<Block>, i: nat, b: Block): bool
    requires i < |bl|
  {
    i + 1 < |bl| && b.a + b.n == bl[i + 1].a
  }

  function MergedDown(bl: seq<Block>, i: nat, b: Block): bool
    requires i < |bl|
  {
    i > 0 && bl[i].a + bl[i].n == b.a
  }

  // b joined with the neighbours it touches.
  function Merged(bl: seq<Block>, i: nat, b: Block): Block
    requires i < |bl|
  {
    var n := if MergedUp(bl, i, b) then b.n + bl[i + 1].n else b.n;
    if MergedDown(bl, i, b) then Block(bl[i].a, bl[i].n + n) else Block(b.a, n)
  }

  // The blocks below and above the joined one.
  function Below(bl: seq<Block>, i: nat, b: Block): seq<Block>
    requires i < |bl|
  {
    if MergedDown(bl, i, b) then bl[..i] else bl[..i + 1]
  }

  function Above(bl: seq<Block>, i: nat, b: Block): seq<Block>
    requires i < |bl|
  {
    if MergedUp(bl, i, b) then bl[i + 2..] else bl[i + 1..]
  }

  function Insert(bl: seq<Block>, i: nat, b: Block): seq<Block>
    requires i < |bl|
  {
    Below(bl, i, b) + [Merged(bl, i, b)] + Above(bl, i, b)
  }

  lemma InsertSorted(bl: seq<Block>, i: nat, b: Block)
    requires Sorted(bl) && Between(bl, i, b)
    ensures Sorted(Insert(bl, i, b))
  {
    BelowOk(bl, i, b);
    AboveOk(bl, i, b);
    hide Sorted, Below, Above, Merged, Between;
    Assemble(Below(bl, i, b), Merged(bl, i, b), Above(bl, i, b));
  }

  lemma BelowOk(bl: seq<Block>, i: nat, b: Block)
    requires Sorted(bl) && Between(bl, i, b)
    ensures var lo, mid := Below(bl, i, b), Merged(bl, i, b);
      Sorted(lo) && mid.n >= 1 && forall k | 0 <= k < |lo| :: lo[k].a + lo[k].n < mid.a
  {
    var lo := Below(bl, i, b);
    forall k | 0 <= k < |lo|
      ensures lo[k] == bl[k]
      ensures k < i ==> bl[k].a + bl[k].n < bl[i].a
    {
    }
  }

  lemma AboveOk(bl: seq<Block>, i: nat, b: Block)
    requires Sorted(bl) && Between(bl, i, b)
    ensures var hi, mid := Above(bl, i, b), Merged(bl, i, b);
      && (forall k | 0 <= k < |hi| :: mid.a + mid.n < hi[k].a && hi[k].n >= 1)
      && forall j, k | 0 <= j < k < |hi| :: hi[j].a + hi[j].n < hi[k].a
  {
    var hi, o := Above(bl, i, b), if MergedUp(bl, i, b) then i + 2 else i + 1;
    forall k | 0 <= k < |hi|
      ensures hi[k] == bl[o + k] && bl[o + k].n >= 1
      ensures i + 1 < o + k ==> bl[i + 1].a + bl[i + 1].n < bl[o + k].a
    {
    }
  }

  // Where the old blocks are in the new list, and the joined one.
  lemma InsertElements(bl: seq<Block>, i: nat, b: Block)
    requires i < |bl|
    ensures var r := Insert(bl, i, b);
      var up, down := if MergedUp(bl, i, b) then 1 else 0, if MergedDown(bl, i, b) then 1 else 0;
      && |r| == |bl| + 1 - up - down
      && (forall k | 0 <= k < i + 1 - down :: r[k] == bl[k])
      && r[i + 1 - down] == Merged(bl, i, b)
      && (forall k | i + 1 - down < k < |r| :: r[k] == bl[k - 1 + up + down])
  {
  }

  lemma Assemble(lo: seq<Block>, mid: Block, hi: seq<Block>)
    requires Sorted(lo) && mid.n >= 1
    requires forall i | 0 <= i < |lo| :: lo[i].a + lo[i].n < mid.a
    requires forall j | 0 <= j < |hi| :: mid.a + mid.n < hi[j].a && hi[j].n >= 1
    requires forall i, j | 0 <= i < j < |hi| :: hi[i].a + hi[i].n < hi[j].a
    ensures Sorted(lo + [mid] + hi)
  {
    var r := lo + [mid] + hi;
    forall i, j | 0 <= i < j < |r|
      ensures r[i].a + r[i].n < r[j].a
    {
      var m := |lo|;
      if i < m && j > m { assert lo[i].a + lo[i].n < mid.a && mid.a + mid.n < hi[j - m - 1].a; }
      if i > m { assert r[i] == hi[i - m - 1] && r[j] == hi[j - m - 1]; }
    }
  }

  lemma InFreeParts(lo: seq<Block>, mid: Block, hi: seq<Block>, x: int)
    ensures InFree(lo + [mid] + hi, x) <==> InFree(lo, x) || Covers(mid, x) || InFree(hi, x)
  {
    var r, m := lo + [mid] + hi, |lo|;
    if InFree(lo, x) {
      var k :| 0 <= k < |lo| && Covers(lo[k], x);
      assert Covers(r[k], x);
    }
    if Covers(mid, x) { assert Covers(r[m], x); }
    if InFree(hi, x) {
      var k :| 0 <= k < |hi| && Covers(hi[k], x);
      assert Covers(r[m + 1 + k], x);
    }
  }

  lemma InsertCovers(bl: seq<Block>, i: nat, b: Block, x: int)
    requires Sorted(bl) && Between(bl, i, b)
    ensures InFree(Insert(bl, i, b), x) <==> InFree(bl, x) || Covers(b, x)
  {
    hide InFree;
    InFreeParts(Below(bl, i, b), Merged(bl, i, b), Above(bl, i, b), x);
    InFreeParts(bl[..i], bl[i], bl[i + 1..], x);
    assert bl[..i] + [bl[i]] + bl[i + 1..] == bl;
    if MergedUp(bl, i, b) {
      InFreeParts([], bl[i + 1], bl[i + 2..], x);
      assert [] + [bl[i + 1]] + bl[i + 2..] == bl[i + 1..];
    }
    if !MergedDown(bl, i, b) {
      InFreeParts(bl[..i], bl[i], [], x);
      assert bl[..i] + [bl[i]] + [] == bl[..i + 1];
    }
    NoneFree(x);
  }

  lemma NoneFree(x: int)
    ensures !InFree([], x)
  {
  }

  // ----- taking units out -----

  // Removing n units from block k: the whole block, or its tail.
  function Take(bl: seq<Block>, k: nat, n: int): seq<Block>
    requires k < |bl|
  {
    if bl[k].n == n then bl[..k] + bl[k + 1..] else bl[k := Block(bl[k].a, bl[k].n - n)]
  }

  function Taken(bl: seq<Block>, k: nat, n: int): Block
    requires k < |bl|
  {
    Block(bl[k].a + bl[k].n - n, n)
  }

  lemma TakeSorted(bl: seq<Block>, k: nat, n: int)
    requires Sorted(bl) && 1 <= k < |bl| && 1 <= n <= bl[k].n
    ensures Sorted(Take(bl, k, n))
  {
  }

  lemma TakeCovers(bl: seq<Block>, k: nat, n: int, x: int)
    requires Sorted(bl) && 1 <= k < |bl| && 1 <= n <= bl[k].n
    ensures InFree(Take(bl, k, n), x) <==> InFree(bl, x) && !Covers(Taken(bl, k, n), x)
    ensures Covers(Taken(bl, k, n), x) ==> InFree(bl, x)
  {
    hide Sorted;
    var r, whole := Take(bl, k, n), bl[k].n == n;
    if InFree(bl, x) && !Covers(Taken(bl, k, n), x) {
      var m :| 0 <= m < |bl| && Covers(bl[m], x);
      if whole && m > k { assert r[m - 1] == bl[m]; } else { assert Covers(r[m], x); }
    }
    if InFree(r, x) {
      var m :| 0 <= m < |r| && Covers(r[m], x);
      var o := if whole && m >= k then m + 1 else m;
      assert Covers(bl[o], x);
      CoveredOnce(bl, k, o, x);
    }
    if Covers(Taken(bl, k, n), x) { assert Covers(bl[k], x); }
  }

  lemma CoveredOnce(bl: seq<Block>, i: nat, j: nat, x: int)
    requires Sorted(bl) && i < |bl| && j < |bl| && Covers(bl[j], x)
    ensures Covers(bl[i], x) ==> i == j
  {
    assert i < j ==> bl[i].a + bl[i].n < bl[j].a;
    assert j < i ==> bl[j].a + bl[j].n < bl[i].a;
  }

  // The free units determine the list: it is their one division into maximal runs.
  lemma {:induction false} ListIsCanonical(bl: seq<Block>, bl': seq<Block>, k: nat)
    requires Sorted(bl) && Sorted(bl') && bl[0] == bl'[0]
    requires forall x :: InFree(bl, x) <==> InFree(bl', x)
    ensures k < |bl| ==> k < |bl'| && bl[k] == bl'[k]
  {
    if 0 < k < |bl| {
      ListIsCanonical(bl, bl', k - 1);
      StartsAgree(bl, bl', k);
      StartsAgree(bl', bl, k);
      EndsAgree(bl, bl', k);
      EndsAgree(bl', bl, k);
    }
  }

  lemma StartsAgree(bl: seq<Block>, bl': seq<Block>, k: nat)
    requires Sorted(bl) && Sorted(bl') && 0 < k < |bl| && k <= |bl'| && bl[k - 1] == bl'[k - 1]
    requires forall x :: InFree(bl, x) <==> InFree(bl', x)
    ensures k < |bl'| && bl'[k].a <= bl[k].a
  {
    var x := bl[k].a;
    assert Covers(bl[k], x);
    assert InFree(bl', x);
    var m :| 0 <= m < |bl'| && Covers(bl'[m], x);
    assert m >= k;
  }

  lemma EndsAgree(bl: seq<Block>, bl': seq<Block>, k: nat)
    requires Sorted(bl) && Sorted(bl') && 0 < k < |bl| && k < |bl'| && bl[k].a == bl'[k].a
    requires forall x :: InFree(bl, x) <==> InFree(bl', x)
    ensures bl[k].n <= bl'[k].n
  {
    var b, x := bl[k], bl'[k].a + bl'[k].n;
    JustPast(bl', k);
    assert bl'[k].n < b.n ==> Covers(b, x);
  }

  // Consecutive free units lie in one block.
  lemma {:induction false} OneRun(bl: seq<Block>, a: int, n: nat) returns (k: nat)
    requires (bl == [] || Sorted(bl)) && n >= 1 && forall x | a <= x < a + n :: InFree(bl, x)
    ensures k < |bl| && bl[k].a <= a && a + n <= bl[k].a + bl[k].n
    decreases n
  {
    if n == 1 {
      assert InFree(bl, a);
      k :| 0 <= k < |bl| && Covers(bl[k], a);
    } else {
      k := OneRun(bl, a, n - 1);
      if bl[k].a + bl[k].n == a + n - 1 { JustPast(bl, k); }
    }
  }

  // When no block had n units and a run of new ones came in, a block that has n holds the run.
  lemma NewFit(bl0: seq<Block>, bl: seq<Block>, a: int, len: nat, k: nat, n: nat)
    requires (bl0 == [] || Sorted(bl0)) && Sorted(bl) && len >= 1
    requires forall x :: InFree(bl, x) <==> InFree(bl0, x) || a <= x < a + len
    requires (forall m | 0 <= m < |bl0| :: bl0[m].n < n) && k < |bl| && bl[k].n >= n >= 1
    ensures var e := bl[k].a + bl[k].n; a + len <= e && !InFree(bl0, e) && forall x | a <= x < e :: InFree(bl, x)
  {
    hide InFree, Sorted;
    var m := OneRun(bl, a, len);
    if m != k {
      forall x | bl[k].a <= x < bl[k].a + bl[k].n
        ensures InFree(bl0, x)
      {
        Found(bl, k, x);
        if a <= x < a + len { CoveredOnce(bl, m, k, x); }
      }
      var o := OneRun(bl0, bl[k].a, bl[k].n);
      assert false;
    }
    JustPast(bl, k);
    forall x | a <= x < bl[k].a + bl[k].n
      ensures InFree(bl, x)
    {
      Found(bl, k, x);
    }
  }

  lemma Found(bl: seq<Block>, k: nat, x: int)
    requires k < |bl| && Covers(bl[k], x)
    ensures InFree(bl, x)
  {
  }

  lemma JustPast(bl: seq<Block>, k: nat)
    requires Sorted(bl) && k < |bl|
    ensures !InFree(bl, bl[k].a + bl[k].n)
  {
  }
}
