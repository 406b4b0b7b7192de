/** The circular list of kernel/bio.c: prev and next pointers of numbered nodes around a head. */
module LruRing {
  // Going round from the head h: position 0 and the position after the last are h itself.
  function At(order: seq<nat>, h: nat, i: nat): nat {
    if 1 <= i <= |order| then order[i - 1] else h
  }

  ghost predicate Ring(order: seq<nat>, next: seq<nat>, prev: seq<nat>, h: nat) {
    && |next| == |prev| == h + 1
    && (forall i | 0 <= i < |order| :: order[i] < h)
    && (forall i, j | 0 <= i < j < |order| :: order[i] != order[j])
    && (forall i | 0 <= i <= |order| :: next[At(order, h, i)] == At(order, h, i + 1))
    && (forall i | 0 <= i <= |order| :: prev[At(order, h, i + 1)] == At(order, h, i))
  }

  // Node k of the list taken out.
  function Without(order: seq<nat>, k: nat): seq<nat>
    requires k < |order|
  {
    order[..k] + order[k + 1..]
  }

  lemma AtWithout(order: seq<nat>, h: nat, k: nat, i: nat)
    requires k < |order| && i <= |order|
    ensures At(Without(order, k), h, i) == At(order, h, if i <= k then i else i + 1)
  {
  }

  // The two writes that unlink a node leave a ring of the others.
  lemma Unlink(order: seq<nat>, next: seq<nat>, prev: seq<nat>, h: nat, k: nat)
    requires Ring(order, next, prev, h) && k < |order|
    ensures order[k] < h && next[order[k]] <= h && prev[order[k]] <= h
    ensures var b := order[k];
      Ring(Without(order, k), next[prev[b] := next[b]], prev[next[b] := prev[b]], h)
    ensures order[k] !in Without(order, k)
  {
    var b := order[k];
    assert At(order, h, k + 1) == b;
    assert next[b] == At(order, h, k + 2) && prev[b] == At(order, h, k);
    var order' := Without(order, k);
    var next', prev' := next[prev[b] := next[b]], prev[next[b] := prev[b]];
    hide At, Ring;
    forall i: nat | i <= |order'|
      ensures StepOk(order', next', prev', h, i)
    {
      UnlinkNext(order, next, prev, h, k, i);
      UnlinkPrev(order, next, prev, h, k, i);
    }
    RingMeans(order', next', prev', h);
  }

  lemma UnlinkNext(order: seq<nat>, next: seq<nat>, prev: seq<nat>, h: nat, k: nat, i: nat)
    requires Ring(order, next, prev, h) && k < |order| && i < |order|
    ensures next[order[k]] <= h && prev[order[k]] <= h && At(Without(order, k), h, i) <= h
    ensures next[prev[order[k]] := next[order[k]]][At(Without(order, k), h, i)] == At(Without(order, k), h, i + 1)
  {
    Neighbours(order, next, prev, h, k);
    AtWithout(order, h, k, i);
    AtWithout(order, h, k, i + 1);
    AtInjective(order, h, if i <= k then i else i + 1, k);
  }

  lemma UnlinkPrev(order: seq<nat>, next: seq<nat>, prev: seq<nat>, h: nat, k: nat, i: nat)
    requires Ring(order, next, prev, h) && k < |order| && i < |order|
    ensures next[order[k]] <= h && prev[order[k]] <= h && At(Without(order, k), h, i + 1) <= h
    ensures prev[next[order[k]] := prev[order[k]]][At(Without(order, k), h, i + 1)] == At(Without(order, k), h, i)
  {
    Neighbours(order, next, prev, h, k);
    AtWithout(order, h, k, i);
    AtWithout(order, h, k, i + 1);
    AtInjective(order, h, if i + 1 <= k then i + 1 else i + 2, k + 2);
  }

  lemma Neighbours(order: seq<nat>, next: seq<nat>, prev: seq<nat>, h: nat, k: nat)
    requires Ring(order, next, prev, h) && k < |order|
    ensures At(order, h, k + 1) == order[k] < h
    ensures next[order[k]] == At(order, h, k + 2) <= h && prev[order[k]] == At(order, h, k) <= h
  {
    assert At(order, h, k + 1) == order[k];
  }

  ghost predicate StepOk(order: seq<nat>, next: seq<nat>, prev: seq<nat>, h: nat, i: nat)
    requires |next| == |prev| == h + 1
  {
    && At(order, h, i) <= h && At(order, h, i + 1) <= h
    && next[At(order, h, i)] == At(order, h, i + 1) && prev[At(order, h, i + 1)] == At(order, h, i)
  }

  lemma RingMeans(order: seq<nat>, next: seq<nat>, prev: seq<nat>, h: nat)
    requires |next| == |prev| == h + 1
    requires forall i | 0 <= i < |order| :: order[i] < h
    requires forall i, j | 0 <= i < j < |order| :: order[i] != order[j]
    requires forall i: nat | i <= |order| :: StepOk(order, next, prev, h, i)
    ensures Ring(order, next, prev, h)
  {
    forall i | 0 <= i <= |order|
      ensures next[At(order, h, i)] == At(order, h, i + 1) && prev[At(order, h, i + 1)] == At(order, h, i)
    {
      assert StepOk(order, next, prev, h, i);
    }
  }

  lemma AtInjective(order: seq<nat>, h: nat, i: nat, j: nat)
    requires forall x | 0 <= x < |order| :: order[x] < h
    requires forall x, y | 0 <= x < y < |order| :: order[x] != order[y]
    requires i <= |order| + 1 && j <= |order| + 1
    ensures At(order, h, i) == At(order, h, j) <==>
              i == j || (i % (|order| + 1) == 0 && j % (|order| + 1) == 0)
  {
  }

  // The four writes that put a node behind the head.
  lemma Push(order: seq<nat>, next: seq<nat>, prev: seq<nat>, h: nat, b: nat)
    requires Ring(order, next, prev, h) && b < h && b !in order
    ensures next[h] <= h
    ensures var next1, prev1 := next[b := next[h]], prev[b := h];
      Ring([b] + order, next1[h := b], prev1[next1[h] := b], h)
  {
    var order' := [b] + order;
    assert At(order, h, 0) == h && next[h] == At(order, h, 1);
    var next', prev' := next[b := next[h]][h := b], prev[b := h][next[h] := b];
    forall i | 0 <= i <= |order'|
      ensures next'[At(order', h, i)] == At(order', h, i + 1)
      ensures prev'[At(order', h, i + 1)] == At(order', h, i)
    {
      assert i > 0 ==> At(order', h, i + 1) == At(order, h, i);
      if i > 1 {
        assert At(order', h, i) == At(order, h, i - 1);
        AtInjective(order, h, i, 1);
      }
    }
  }

  // The node a step further on, and that every node is on the list once.
  lemma Step(order: seq<nat>, next: seq<nat>, prev: seq<nat>, h: nat, i: nat)
    requires Ring(order, next, prev, h) && i <= |order|
    ensures At(order, h, i) <= h && At(order, h, i + 1) <= h
    ensures next[At(order, h, i)] == At(order, h, i + 1)
    ensures prev[At(order, h, i + 1)] == At(order, h, i)
    ensures At(order, h, i) == h <==> i == 0
    ensures At(order, h, i + 1) == h <==> i == |order|
  {
  }
}
