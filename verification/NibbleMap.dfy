/** The allocation map of p3a/mem2.c, four bits for every 16 bytes of the region: 0 is free,
    6, A and E begin blocks of 1, 5 and 16 units, 2 continues a block. */
module NibbleMap {
  // A nibble as the code looks at it: moved to the high half of a byte.
  function Nib(b: bv8, j: nat): bv8 { if j == 0 then b & 0xF0 else (b << 4) & 0xF0 }

  // Nibble j or-ed with v, and cleared.
  function OrNib(b: bv8, j: nat, v: bv8): bv8 { if j == 0 then b | (v << 4) else b | v }

  function AndNib(b: bv8, j: nat): bv8 { if j == 0 then b & 0x0F else b & 0xF0 }

  function Nibbles(m: seq<bv8>): (s: seq<bv8>)
    ensures |s| == 2 * |m|
  {
    seq(2 * |m|, k requires 0 <= k < 2 * |m| => Nib(m[k / 2], k % 2))
  }

  // Units of the block that a nibble begins; 0 when it begins none.
  function Units(h: bv8): nat { if h == 0x60 then 1 else if h == 0xA0 then 5 else if h == 0xE0 then 16 else 0 }

  function HeadOf(n: nat): bv8 { if n == 1 then 0x60 else if n == 5 then 0xA0 else 0xE0 }

  predicate LegalUnits(n: nat) { n == 1 || n == 5 || n == 16 }

  // ----- the map as a whole -----

  ghost predicate BlockAt(s: seq<bv8>, a: nat, n: nat) {
    a < |s| && a + n <= |s| && n >= 1 && Units(s[a]) == n && forall k | a < k < a + n :: s[k] == 0x20
  }

  // blocks maps the first unit of each block to its length: they are apart, and cover exactly
  // the units in use.
  ghost predicate MapOk(s: seq<bv8>, blocks: map<nat, nat>) {
    && (forall a | a in blocks :: BlockAt(s, a, blocks[a]))
    && (forall a, b | a in blocks && b in blocks && a < b :: a + blocks[a] <= b)
    && (forall k | 0 <= k < |s| && s[k] != 0 :: InUse(blocks, k))
  }

  ghost predicate InUse(blocks: map<nat, nat>, k: nat) { exists a :: a in blocks && a <= k < a + blocks[a] }

  ghost predicate AllFree(s: seq<bv8>, a: nat, n: nat) { a + n <= |s| && forall k | a <= k < a + n :: s[k] == 0 }

  // The lowest run of n free units.
  ghost predicate FirstFit(s: seq<bv8>, a: nat, n: nat) {
    AllFree(s, a, n) && forall b: nat | b < a :: !AllFree(s, b, n)
  }

  function FreeUnits(s: seq<bv8>): nat {
    if s == [] then 0 else (if s[0] == 0 then 1 else 0) + FreeUnits(s[1..])
  }

  // s with units [a, a + n) taken as one block, and given back.
  function Taken(s: seq<bv8>, a: nat, n: nat): seq<bv8> {
    seq(|s|, k requires 0 <= k < |s| => if k == a then HeadOf(n) else if a < k < a + n then 0x20 else s[k])
  }

  function Given(s: seq<bv8>, a: nat, n: nat): seq<bv8> {
    seq(|s|, k requires 0 <= k < |s| => if a <= k < a + n then 0 else s[k])
  }

  // A nibble begins a block exactly when a block is recorded there.
  lemma HeadIsBlock(s: seq<bv8>, blocks: map<nat, nat>, k: nat)
    requires MapOk(s, blocks) && k < |s|
    ensures Units(s[k]) > 0 <==> k in blocks
    ensures k in blocks ==> Units(s[k]) == blocks[k] && LegalUnits(blocks[k])
    ensures s[k] == 0x60 <==> k in blocks && blocks[k] == 1
    ensures s[k] == 0xA0 <==> k in blocks && blocks[k] == 5
    ensures s[k] == 0xE0 <==> k in blocks && blocks[k] == 16
  {
    if Units(s[k]) > 0 {
      assert InUse(blocks, k);
      var a :| a in blocks && a <= k < a + blocks[a];
      assert BlockAt(s, a, blocks[a]);
    }
    if k in blocks { assert BlockAt(s, k, blocks[k]); }
  }

  lemma FreeIsUnused(s: seq<bv8>, blocks: map<nat, nat>, k: nat)
    requires MapOk(s, blocks) && k < |s|
    ensures s[k] == 0 <==> !InUse(blocks, k)
  {
    if a :| a in blocks && a <= k < a + blocks[a] { UnitsOver(s, a, blocks[a], k); }
  }

  // Free units meet no block.
  lemma FreeIsApart(s: seq<bv8>, blocks: map<nat, nat>, a: nat, n: nat, b: nat)
    requires MapOk(s, blocks) && AllFree(s, a, n) && n >= 1 && b in blocks
    ensures (b + blocks[b] <= a || a + n <= b) && b + blocks[b] <= |s|
  {
    assert BlockAt(s, b, blocks[b]);
    if b < a + n && a < b + blocks[b] {
      var k := if a < b then b else a;
      assert InUse(blocks, k);
      FreeIsUnused(s, blocks, k);
    }
  }

  lemma TakeKeeps(s: seq<bv8>, blocks: map<nat, nat>, a: nat, n: nat)
    requires MapOk(s, blocks) && AllFree(s, a, n) && LegalUnits(n)
    ensures MapOk(Taken(s, a, n), blocks[a := n]) && a !in blocks
  {
    hide AllFree, Taken, BlockAt, Units, HeadOf;
    var s', blocks' := Taken(s, a, n), blocks[a := n];
    TakenIsBlock(s, a, n);
    forall b | b in blocks
      ensures b + blocks[b] <= a || a + n <= b
      ensures b != a && BlockAt(s', b, blocks[b])
    {
      FreeIsApart(s, blocks, a, n, b);
      BlockElsewhere(s, s', b, blocks[b]);
    }
    forall k | 0 <= k < |s'| && s'[k] != 0
      ensures InUse(blocks', k)
    {
      if a <= k < a + n {
        assert a in blocks' && a <= k < a + blocks'[a];
      } else {
        var b :| b in blocks && b <= k < b + blocks[b];
        assert b in blocks' && b <= k < b + blocks'[b];
      }
    }
  }

  lemma BlockElsewhere(s: seq<bv8>, s': seq<bv8>, b: nat, n: nat)
    requires BlockAt(s, b, n) && |s'| == |s| && forall k | b <= k < b + n :: s'[k] == s[k]
    ensures BlockAt(s', b, n) && n >= 1
  {
  }

  lemma TakenIsBlock(s: seq<bv8>, a: nat, n: nat)
    requires AllFree(s, a, n) && LegalUnits(n)
    ensures BlockAt(Taken(s, a, n), a, n) && |Taken(s, a, n)| == |s|
    ensures forall k | 0 <= k < |s| && !(a <= k < a + n) :: Taken(s, a, n)[k] == s[k]
  {
  }

  lemma GiveKeeps(s: seq<bv8>, blocks: map<nat, nat>, a: nat)
    requires MapOk(s, blocks) && a in blocks
    ensures MapOk(Given(s, a, blocks[a]), blocks - {a})
  {
    hide Given, BlockAt, Units;
    var n := blocks[a];
    GivenAt(s, blocks, a);
    var s', blocks' := Given(s, a, n), blocks - {a};
    forall b | b in blocks'
      ensures BlockAt(s', b, blocks'[b])
    {
      BlockElsewhere(s, s', b, blocks[b]);
    }
    forall k | 0 <= k < |s'| && s'[k] != 0
      ensures InUse(blocks', k)
    {
      var b :| b in blocks && b <= k < b + blocks[b];
      assert b in blocks' && b <= k < b + blocks'[b];
    }
  }

  // Giving back block a clears its units and touches no other block.
  lemma GivenAt(s: seq<bv8>, blocks: map<nat, nat>, a: nat)
    requires MapOk(s, blocks) && a in blocks
    ensures |Given(s, a, blocks[a])| == |s|
    ensures forall k | 0 <= k < |s| :: Given(s, a, blocks[a])[k] == if a <= k < a + blocks[a] then 0 else s[k]
    ensures forall b | b in blocks :: BlockAt(s, b, blocks[b]) && b + blocks[b] <= |s|
    ensures forall b | b in blocks && b != a :: b + blocks[b] <= a || a + blocks[a] <= b
  {
    forall b | b in blocks
      ensures BlockAt(s, b, blocks[b]) && b + blocks[b] <= |s|
    {
    }
  }

  lemma {:induction false} FreeUnitsSplit(s: seq<bv8>, t: seq<bv8>)
    ensures FreeUnits(s + t) == FreeUnits(s) + FreeUnits(t)
  {
    if s == [] {
      assert s + t == t;
    } else {
      FreeUnitsSplit(s[1..], t);
      assert (s + t)[1..] == s[1..] + t;
    }
  }

  lemma {:induction false} FreeUnitsAll(s: seq<bv8>, free: bool)
    requires forall k | 0 <= k < |s| :: s[k] == 0 <==> free
    ensures FreeUnits(s) == if free then |s| else 0
  {
    if s != [] { FreeUnitsAll(s[1..], free); }
  }

  // Taking or giving n units changes the count by n.
  lemma FreeUnitsOfPart(s: seq<bv8>, t: seq<bv8>, a: nat, n: nat)
    requires |s| == |t| && a + n <= |s|
    requires forall k | a <= k < a + n :: s[k] == 0 && t[k] != 0
    requires forall k | 0 <= k < |s| && !(a <= k < a + n) :: s[k] == t[k]
    ensures FreeUnits(s) == FreeUnits(t) + n
  {
    hide FreeUnits;
    FreeUnitsParts(s, a, n);
    FreeUnitsParts(t, a, n);
    SameEnds(s, t, a, n);
    FreeUnitsAll(s[a..a + n], true);
    FreeUnitsAll(t[a..a + n], false);
  }

  lemma SameEnds(s: seq<bv8>, t: seq<bv8>, a: nat, n: nat)
    requires |s| == |t| && a + n <= |s|
    requires forall k | 0 <= k < |s| && !(a <= k < a + n) :: s[k] == t[k]
    ensures t[..a] == s[..a] && t[a + n..] == s[a + n..]
  {
  }

  lemma FreeUnitsParts(s: seq<bv8>, a: nat, n: nat)
    requires a + n <= |s|
    ensures FreeUnits(s) == FreeUnits(s[..a]) + FreeUnits(s[a..a + n]) + FreeUnits(s[a + n..])
  {
    assert s == (s[..a] + s[a..a + n]) + s[a + n..];
    FreeUnitsSplit(s[..a] + s[a..a + n], s[a + n..]);
    FreeUnitsSplit(s[..a], s[a..a + n]);
  }

  // ----- the scan -----

  ghost predicate Inside(blocks: map<nat, nat>, p: nat) { exists a :: a in blocks && a < p < a + blocks[a] }

  // Unit q is where the running address stands when the scan is at p outside a free run: p
  // itself, or the end of the block that p is inside of.
  ghost predicate EdgeOk(blocks: map<nat, nat>, p: nat, q: nat) {
    if Inside(blocks, p) then exists a :: a in blocks && a < p < a + blocks[a] && q == a + blocks[a] else q == p
  }

  ghost predicate NoFit(s: seq<bv8>, p: nat, n: nat) { forall b: nat | b + n <= p :: !AllFree(s, b, n) }

  // Before position p: the last count units are a maximal free run, nothing fits, and q is the
  // unit of the running address.
  ghost predicate Scanning(s: seq<bv8>, blocks: map<nat, nat>, p: nat, count: nat, q: nat, n: nat) {
    && p <= |s| && count <= p && count < n
    && (forall k | p - count <= k < p :: s[k] == 0)
    && (p - count > 0 ==> s[p - count - 1] != 0)
    && NoFit(s, p, n)
    && (if count > 0 then q == p - count else EdgeOk(blocks, p, q))
  }

  lemma ScanStart(s: seq<bv8>, blocks: map<nat, nat>, n: nat)
    requires n >= 1
    ensures Scanning(s, blocks, 0, 0, 0, n)
  {
    assert NoFit(s, 0, n);
  }

  // One free unit more: the run starts where the address stands.
  lemma ScanFree(s: seq<bv8>, blocks: map<nat, nat>, p: nat, count: nat, q: nat, n: nat)
    requires MapOk(s, blocks) && Scanning(s, blocks, p, count, q, n) && p < |s| && s[p] == 0
    ensures q == p - count
    ensures count + 1 < n ==> Scanning(s, blocks, p + 1, count + 1, q, n)
    ensures count + 1 == n ==> FirstFit(s, q, n)
  {
    hide MapOk, AllFree, NoFit, Units;
    if Inside(blocks, p) {
      InsideIsUsed(blocks, p);
      FreeIsUnused(s, blocks, p);
    }
    NoFitLonger(s, p, count, n);
  }

  lemma InsideIsUsed(blocks: map<nat, nat>, p: nat)
    requires Inside(blocks, p)
    ensures InUse(blocks, p)
  {
  }

  lemma NoFitLonger(s: seq<bv8>, p: nat, count: nat, n: nat)
    requires p < |s| && count <= p && count < n && NoFit(s, p, n) && s[p] == 0
    requires (forall k | p - count <= k < p :: s[k] == 0) && (p - count > 0 ==> s[p - count - 1] != 0)
    ensures count + 1 < n ==> NoFit(s, p + 1, n)
    ensures count + 1 == n ==> FirstFit(s, p - count, n)
  {
    forall b: nat | b + n <= p + 1 && (count + 1 < n || b < p - count)
      ensures !AllFree(s, b, n)
    {
      if b + n == p + 1 { assert b <= p - count - 1 < b + n; }
    }
  }

  // A unit in use: the address moves past its block when the block begins here.
  lemma ScanUsed(s: seq<bv8>, blocks: map<nat, nat>, p: nat, count: nat, q: nat, n: nat)
    requires MapOk(s, blocks) && Scanning(s, blocks, p, count, q, n) && p < |s| && s[p] != 0
    ensures Scanning(s, blocks, p + 1, 0, q + count + Units(s[p]), n)
  {
    hide NoFit, AllFree, Inside, EdgeOk, MapOk;
    NoFitThere(s, p, n);
    HeadIsBlock(s, blocks, p);
    var a := BlockOver(s, blocks, p);
    EdgeAfter(s, blocks, a, p);
    if count == 0 { EdgeBefore(s, blocks, a, p, q); }
  }

  // The block in use at p. A free unit cannot precede one inside it.
  lemma BlockOver(s: seq<bv8>, blocks: map<nat, nat>, p: nat) returns (a: nat)
    requires MapOk(s, blocks) && p < |s| && s[p] != 0
    ensures a in blocks && a <= p < a + blocks[a] && (a < p ==> s[p - 1] != 0)
    ensures Units(s[p]) == if a == p then blocks[p] else 0
  {
    assert InUse(blocks, p);
    a :| a in blocks && a <= p < a + blocks[a];
    UnitsOver(s, a, blocks[a], p);
  }

  lemma UnitsOver(s: seq<bv8>, a: nat, n: nat, p: nat)
    requires BlockAt(s, a, n) && a <= p < a + n
    ensures p < |s| && s[p] != 0 && (a < p ==> s[p - 1] != 0)
    ensures Units(s[p]) == if a == p then n else 0
  {
    assert a < p && p - 1 != a ==> s[p - 1] == 0x20;
    assert a < p ==> s[p] == 0x20;
  }

  lemma EdgeAfter(s: seq<bv8>, blocks: map<nat, nat>, a: nat, p: nat)
    requires MapOk(s, blocks) && a in blocks && a <= p < a + blocks[a]
    ensures EdgeOk(blocks, p + 1, a + blocks[a])
  {
    if p + 1 == a + blocks[a] { NotInside(blocks, s, a, p + 1); } else { OneInside(blocks, s, a, p + 1); }
  }

  lemma OneBlock(s: seq<bv8>, blocks: map<nat, nat>, a: nat, c: nat, p: nat)
    requires MapOk(s, blocks) && a in blocks && c in blocks && a <= p < a + blocks[a] && c <= p < c + blocks[c]
    ensures a == c
  {
    hide BlockAt, InUse;
  }

  lemma EdgeBefore(s: seq<bv8>, blocks: map<nat, nat>, a: nat, p: nat, q: nat)
    requires MapOk(s, blocks) && a in blocks && a <= p < a + blocks[a] && EdgeOk(blocks, p, q)
    ensures q == if a == p then p else a + blocks[a]
  {
    hide MapOk;
    if a == p {
      NotInside(blocks, s, p, p);
    } else {
      assert Inside(blocks, p);
      var c :| c in blocks && c < p < c + blocks[c] && q == c + blocks[c];
      OneBlock(s, blocks, a, c, p);
    }
  }

  lemma NoFitThere(s: seq<bv8>, p: nat, n: nat)
    requires p < |s| && NoFit(s, p, n) && s[p] != 0 && n >= 1
    ensures NoFit(s, p + 1, n)
  {
    forall b: nat | b + n <= p + 1
      ensures !AllFree(s, b, n)
    {
      if b + n == p + 1 { assert b <= p < b + n; }
    }
  }

  // The first unit of a block, and the unit behind it, are inside no block.
  lemma NotInside(blocks: map<nat, nat>, s: seq<bv8>, a: nat, p: nat)
    requires MapOk(s, blocks) && a in blocks && (p == a || p == a + blocks[a])
    ensures !Inside(blocks, p)
  {
    assert BlockAt(s, a, blocks[a]);
    forall b | b in blocks
      ensures !(b < p < b + blocks[b])
    {
      assert BlockAt(s, b, blocks[b]);
    }
  }

  lemma OneInside(blocks: map<nat, nat>, s: seq<bv8>, a: nat, p: nat)
    requires MapOk(s, blocks) && a in blocks && a < p < a + blocks[a]
    ensures Inside(blocks, p) && EdgeOk(blocks, p, a + blocks[a])
  {
  }

  // At the end of the map nothing fits anywhere.
  lemma ScanEnd(s: seq<bv8>, blocks: map<nat, nat>, p: nat, count: nat, q: nat, n: nat)
    requires Scanning(s, blocks, p, count, q, n) && p == |s|
    ensures forall b: nat :: !AllFree(s, b, n)
  {
  }

  // ----- writing nibbles -----

  // Or-ing a code into a free nibble stores it and leaves the other half of the byte.
  lemma OrStores(b: bv8, j: nat, v: bv8)
    requires j < 2 && Nib(b, j) == 0 && v & 0xF0 == 0
    ensures Nib(OrNib(b, j, v), j) == v << 4 && Nib(OrNib(b, j, v), 1 - j) == Nib(b, 1 - j)
  {
  }

  lemma AndClears(b: bv8, j: nat)
    requires j < 2
    ensures Nib(AndNib(b, j), j) == 0 && Nib(AndNib(b, j), 1 - j) == Nib(b, 1 - j)
  {
  }

  lemma NibblesUpdate(m: seq<bv8>, i: nat, j: nat, b: bv8)
    requires i < |m| && j < 2 && Nib(b, 1 - j) == Nib(m[i], 1 - j)
    ensures Nibbles(m[i := b]) == Nibbles(m)[2 * i + j := Nib(b, j)]
  {
  }
}
