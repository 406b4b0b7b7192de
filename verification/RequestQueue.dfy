/** The request buffer of p4a/server.c: a ring kept sorted by file size. */
module RequestQueue {
  datatype Request = Request(fd: int, filesize: int, isStatic: int, filename: string, cgiargs: string)

  // Slot k places behind use_index.
  function Slot(use: nat, k: nat, n: nat): nat { if use + k < n then use + k else use + k - n }

  // The requests in the queue, the next to be taken first.
  ghost function Window(b: seq<Request>, use: nat, count: nat, n: nat): (w: seq<Request>)
    requires use < n <= |b| && count <= n
    ensures |w| == count && forall k | 0 <= k < count :: w[k] == b[Slot(use, k, n)]
  {
    seq(count, k requires 0 <= k < count => b[Slot(use, k, n)])
  }

  ghost predicate Sorted(w: seq<Request>) { forall i, j | 0 <= i < j < |w| :: w[i].filesize <= w[j].filesize }

  // r goes behind every request that is not larger.
  function Inserted(w: seq<Request>, r: Request): seq<Request> {
    if w == [] || w[|w| - 1].filesize <= r.filesize then w + [r]
    else Inserted(w[..|w| - 1], r) + [w[|w| - 1]]
  }

  // ----- what insertion does -----

  lemma {:induction false} InsertedAt(w: seq<Request>, r: Request, o: nat)
    requires o <= |w| && (o > 0 ==> w[o - 1].filesize <= r.filesize)
    requires forall k | o <= k < |w| :: w[k].filesize > r.filesize
    ensures Inserted(w, r) == w[..o] + [r] + w[o..]
  {
    if o < |w| {
      var m := |w| - 1;
      InsertedAt(w[..m], r, o);
      assert w[..m][..o] == w[..o] && w[o..] == w[..m][o..] + [w[m]];
    } else {
      assert w[o..] == [] && w[..o] == w;
    }
  }

  lemma {:induction false} Place(w: seq<Request>, r: Request, m: nat) returns (o: nat)
    requires m <= |w| && forall k | m <= k < |w| :: w[k].filesize > r.filesize
    ensures o <= |w| && (o > 0 ==> w[o - 1].filesize <= r.filesize)
    ensures forall k | o <= k < |w| :: w[k].filesize > r.filesize
  {
    if m == 0 || w[m - 1].filesize <= r.filesize { o := m; } else { o := Place(w, r, m - 1); }
  }

  lemma InsertedSorted(w: seq<Request>, r: Request)
    requires Sorted(w)
    ensures Sorted(Inserted(w, r)) && |Inserted(w, r)| == |w| + 1
    ensures multiset(Inserted(w, r)) == multiset(w) + multiset{r}
  {
    var o := Place(w, r, |w|);
    InsertedAt(w, r, o);
    assert w == w[..o] + w[o..];
    SortedAround(w, r, o);
  }

  lemma SortedAround(w: seq<Request>, r: Request, o: nat)
    requires Sorted(w) && o <= |w| && (o > 0 ==> w[o - 1].filesize <= r.filesize)
    requires forall k | o <= k < |w| :: w[k].filesize > r.filesize
    ensures Sorted(w[..o] + [r] + w[o..])
  {
    var v := w[..o] + [r] + w[o..];
    forall i, j | 0 <= i < j < |v|
      ensures v[i].filesize <= v[j].filesize
    {
      assert i < o ==> v[i] == w[i] && w[i].filesize <= w[o - 1].filesize;
      assert i > o ==> v[i] == w[i - 1];
      assert j < o ==> v[j] == w[j];
      assert j > o ==> v[j] == w[j - 1];
    }
  }

  // The requests of one size, in order.
  function OfSize(w: seq<Request>, f: int): seq<Request> {
    if w == [] then [] else (if w[0].filesize == f then [w[0]] else []) + OfSize(w[1..], f)
  }

  lemma {:induction false} OfSizeConcat(v: seq<Request>, w: seq<Request>, f: int)
    ensures OfSize(v + w, f) == OfSize(v, f) + OfSize(w, f)
  {
    if v == [] {
      assert v + w == w;
    } else {
      OfSizeConcat(v[1..], w, f);
      var vw := v + w;
      assert vw[1..] == v[1..] + w && vw[0] == v[0];
    }
  }

  lemma {:induction false} NoneOfSize(w: seq<Request>, f: int)
    requires forall k | 0 <= k < |w| :: w[k].filesize != f
    ensures OfSize(w, f) == []
  {
    if w != [] { NoneOfSize(w[1..], f); }
  }

  // Ties stay in the order of arrival.
  lemma InsertedStable(w: seq<Request>, r: Request, f: int)
    requires Sorted(w)
    ensures OfSize(Inserted(w, r), f) == OfSize(w, f) + if r.filesize == f then [r] else []
  {
    hide OfSize, Inserted, Sorted;
    var o := Place(w, r, |w|);
    InsertedAt(w, r, o);
    Around(w[..o], r, w[o..], f);
    assert w == w[..o] + w[o..];
  }

  lemma Around(lo: seq<Request>, r: Request, hi: seq<Request>, f: int)
    requires forall k | 0 <= k < |hi| :: hi[k].filesize > r.filesize
    ensures OfSize(lo + [r] + hi, f) == OfSize(lo + hi, f) + if r.filesize == f then [r] else []
  {
    hide OfSize;
    OfSizeConcat(lo + [r], hi, f);
    OfSizeConcat(lo, [r], f);
    OfSizeConcat(lo, hi, f);
    OneOfSize(r, f);
    if r.filesize == f { NoneOfSize(hi, f); }
  }

  lemma OneOfSize(r: Request, f: int)
    ensures OfSize([r], f) == if r.filesize == f then [r] else []
  {
  }

  // ----- indices -----

  // The index after i.
  function Wrap(i: nat, n: nat): nat
    requires n > 0
  {
    (i + 1) % n
  }

  lemma NextSlot(use: nat, k: nat, n: nat)
    requires use < n && k < n
    ensures Wrap(Slot(use, k, n), n) == Slot(use, if k + 1 == n then 0 else k + 1, n)
  {
    var x := Slot(use, k, n) + 1;
    if x < n { SmallMod(x, n); } else { assert x == n && n % n == 0; }
  }

  lemma NextFill(use: nat, count: nat, n: nat)
    requires use < n && count < n
    ensures Wrap(Slot(use, count, n), n) == if count + 1 == n then use else Slot(use, count + 1, n)
  {
    NextSlot(use, count, n);
  }

  lemma SmallMod(x: nat, m: nat)
    requires x < m
    ensures x % m == x
  {
    var q := x / m;
    assert x == m * q + x % m;
    assert q >= 1 ==> m * q >= m;
  }

  lemma SlotsDiffer(use: nat, j: nat, k: nat, n: nat)
    requires use < n && j < n && k < n
    ensures Slot(use, j, n) == Slot(use, k, n) <==> j == k
    ensures Slot(use, k, n) < n
  {
  }

  class Queue {
    const buffer: array<Request>
    var fillIndex: nat
    var useIndex: nat
    var count: nat
    const realSize: nat

    ghost predicate Valid()
      reads this, buffer
    {
      && 1 <= realSize <= buffer.Length && useIndex < realSize && count <= realSize
      && fillIndex == (if count == realSize then useIndex else Slot(useIndex, count, realSize))
      && Sorted(Requests())
    }

    ghost function Requests(): (w: seq<Request>)
      reads this, buffer
      requires 1 <= realSize <= buffer.Length && useIndex < realSize && count <= realSize
      ensures |w| == count
    {
      Window(buffer[..], useIndex, count, realSize)
    }

    constructor (max: nat, size: nat)
      requires 1 <= size <= max
      ensures Valid() && realSize == size && buffer.Length == max && fresh(buffer) && count == 0
    {
      buffer := new Request[max](_ => Request(0, 0, 0, "", ""));
      fillIndex, useIndex, count, realSize := 0, 0, 0, size;
    }

    // f_index_back_wrap.
    method Back(i: nat) returns (b: nat)
      requires realSize >= 1
      ensures b == if i == 0 then realSize - 1 else i - 1
    {
      var k: int := i;
      k := k - 1;
      if k == -1 {
        k := realSize - 1;
      }
      b := k;
    }

    // The new request moves forward past the larger ones. Slots that hold no request of the
    // queue are not touched.
    method Put(r: Request)
      requires Valid() && count < realSize
      modifies this, buffer
      ensures Valid() && Requests() == Inserted(old(Requests()), r) && useIndex == old(useIndex)
      ensures count == old(count) + 1
      ensures forall x | 0 <= x < buffer.Length && !InWindow(useIndex, count, realSize, x) :: buffer[x] == old(buffer[x])
    {
      hide Sorted, Inserted, Moved, InWindow, Window, Slot, Wrap;
      ghost var w, old0 := Requests(), buffer[..];
      ghost var o := Settle(r, w, old0);
      InsertedAt(w, r, o);
      InsertedSorted(w, r);
      NextFill(useIndex, count, realSize);
      WindowIs(buffer[..], useIndex, count, realSize, w, r, o, old0);
      fillIndex := Wrap(fillIndex, realSize);
      count := count + 1;
    }

    // put up to its last two lines.
    method Settle(r: Request, ghost w: seq<Request>, ghost old0: seq<Request>) returns (ghost o: nat)
      requires 1 <= realSize <= buffer.Length && useIndex < realSize && count < realSize
      requires fillIndex == Slot(useIndex, count, realSize) && old0 == buffer[..]
      requires w == Window(old0, useIndex, count, realSize)
      modifies buffer
      ensures o <= count && Moved(old0, useIndex, count, realSize, r, w, o, buffer[..])
      ensures (o > 0 ==> w[o - 1].filesize <= r.filesize) && forall k | o <= k < count :: w[k].filesize > r.filesize
    {
      hide Moved, Window;
      SlotsDiffer(useIndex, 0, count, realSize);
      buffer[fillIndex] := r;
      o := count;
      Stored(old0, useIndex, count, realSize, r, buffer[..]);
      if count != 0 {
        o := Bubble(r, w, old0);
      }
    }

    // The loop of put. It stops at the place o of the new request.
    method Bubble(r: Request, ghost w: seq<Request>, ghost old0: seq<Request>) returns (ghost o: nat)
      requires 1 <= realSize <= buffer.Length && useIndex < realSize && count < realSize && |w| == count
      requires fillIndex == Slot(useIndex, count, realSize)
      requires Moved(old0, useIndex, count, realSize, r, w, count, buffer[..])
      modifies buffer
      ensures o <= count && Moved(old0, useIndex, count, realSize, r, w, o, buffer[..])
      ensures (o > 0 ==> w[o - 1].filesize <= r.filesize) && forall k | o <= k < count :: w[k].filesize > r.filesize
    {
      hide Moved;
      var i, j := fillIndex, 0;
      o := count;
      while j < count
        invariant 0 <= j <= count && o == count - j && i == Slot(useIndex, o, realSize)
        invariant Moved(old0, useIndex, count, realSize, r, w, o, buffer[..])
        invariant forall k | o <= k < count :: w[k].filesize > r.filesize
      {
        var b := Back(i);
        MovedReads(old0, useIndex, count, realSize, r, w, o, buffer[..]);
        if buffer[i].filesize >= buffer[b].filesize {
          break;
        }
        MovedNext(old0, useIndex, count, realSize, r, w, o, buffer[..]);
        var tmp := buffer[i];
        buffer[i] := buffer[b];
        buffer[b] := tmp;
        i, j, o := b, j + 1, o - 1;
      }
    }

    // The oldest of the smallest requests.
    method Get() returns (r: Request)
      requires Valid() && count > 0
      modifies this
      ensures Valid() && r == old(Requests())[0] && Requests() == old(Requests())[1..] && count == old(count) - 1
      ensures forall k | 0 <= k < |old(Requests())| :: r.filesize <= old(Requests())[k].filesize
    {
      hide Wrap;
      ghost var w := Requests();
      r := buffer[useIndex];
      NextSlot(useIndex, 0, realSize);
      WindowTail(buffer[..], useIndex, count, realSize);
      useIndex := Wrap(useIndex, realSize);
      count := count - 1;
    }
  }

  ghost predicate InWindow(use: nat, count: nat, n: nat, x: nat) { exists k: nat :: k < count && Slot(use, k, n) == x }

  // w with r put in at offset o.
  function Expected(w: seq<Request>, r: Request, o: nat, k: nat): Request
    requires o <= |w| && k <= |w|
  {
    if k < o then w[k] else if k == o then r else w[k - 1]
  }

  // b is the buffer with r at offset o and the larger requests moved one slot on.
  ghost predicate Moved(old0: seq<Request>, use: nat, count: nat, n: nat, r: Request, w: seq<Request>, o: nat,
                        b: seq<Request>)
  {
    && use < n <= |b| == |old0| && count < n && |w| == count && o <= count
    && (forall k: nat | k <= count :: b[Slot(use, k, n)] == Expected(w, r, o, k))
    && (forall x | 0 <= x < |b| && !InWindow(use, count + 1, n, x) :: b[x] == old0[x])
  }

  lemma Stored(old0: seq<Request>, use: nat, count: nat, n: nat, r: Request, b: seq<Request>)
    requires use < n <= |old0| && count < n && b == old0[Slot(use, count, n) := r]
    ensures Moved(old0, use, count, n, r, Window(old0, use, count, n), count, b)
  {
    forall k: nat | k < count
      ensures Slot(use, k, n) != Slot(use, count, n)
    {
      SlotsDiffer(use, k, count, n);
    }
    assert InWindow(use, count + 1, n, Slot(use, count, n));
  }

  lemma MovedReads(old0: seq<Request>, use: nat, count: nat, n: nat, r: Request, w: seq<Request>, o: nat,
                   b: seq<Request>)
    requires Moved(old0, use, count, n, r, w, o, b) && o > 0
    ensures Slot(use, o, n) < |b| && b[Slot(use, o, n)] == r
    ensures Slot(use, o - 1, n) == if Slot(use, o, n) == 0 then n - 1 else Slot(use, o, n) - 1
    ensures b[Slot(use, o - 1, n)] == w[o - 1]
  {
  }

  lemma MovedNext(old0: seq<Request>, use: nat, count: nat, n: nat, r: Request, w: seq<Request>, o: nat,
                  b: seq<Request>)
    requires Moved(old0, use, count, n, r, w, o, b) && o > 0
    ensures Slot(use, o, n) < |b| && Slot(use, o - 1, n) < |b|
    ensures var b' := b[Slot(use, o, n) := b[Slot(use, o - 1, n)]][Slot(use, o - 1, n) := b[Slot(use, o, n)]];
      Moved(old0, use, count, n, r, w, o - 1, b')
  {
    var i, p := Slot(use, o, n), Slot(use, o - 1, n);
    var b' := b[i := b[p]][p := b[i]];
    forall k: nat | k <= count
      ensures b'[Slot(use, k, n)] == Expected(w, r, o - 1, k)
    {
      SlotsDiffer(use, k, o, n);
      SlotsDiffer(use, k, o - 1, n);
    }
    assert InWindow(use, count + 1, n, i) && InWindow(use, count + 1, n, p);
  }

  lemma WindowIs(b: seq<Request>, use: nat, count: nat, n: nat, w: seq<Request>, r: Request, o: nat, old0: seq<Request>)
    requires Moved(old0, use, count, n, r, w, o, b)
    ensures Window(b, use, count + 1, n) == w[..o] + [r] + w[o..]
    ensures forall x | 0 <= x < |b| && !InWindow(use, count + 1, n, x) :: b[x] == old0[x]
  {
    var v := w[..o] + [r] + w[o..];
    forall k: nat | k <= count
      ensures Window(b, use, count + 1, n)[k] == v[k]
    {
      assert b[Slot(use, k, n)] == Expected(w, r, o, k);
    }
  }

  lemma WindowTail(b: seq<Request>, use: nat, count: nat, n: nat)
    requires use < n <= |b| && 0 < count <= n
    ensures Window(b, Slot(use, if 1 == n then 0 else 1, n), count - 1, n) == Window(b, use, count, n)[1..]
  {
  }
}
