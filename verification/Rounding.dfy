/** Remainders of multiples, for sizes rounded up to whole pages. */
module Rounding {
  lemma {:induction false} Multiple(q: nat, m: nat)
    requires m > 0
    ensures q * m % m == 0
  {
    if q > 0 {
      Multiple(q - 1, m);
      Shift((q - 1) * m, m);
      assert q * m == (q - 1) * m + m;
    }
  }

  lemma Shift(x: nat, m: nat)
    requires m > 0
    ensures (x + m) % m == x % m
  {
    var q := x / m;
    assert x + m == (q + 1) * m + x % m;
    Remainder(x + m, m, q + 1, x % m);
  }

  lemma Remainder(x: nat, m: nat, q: nat, r: nat)
    requires m > 0 && r < m && x == q * m + r
    ensures x % m == r
  {
    var d := x / m - q;
    assert d * m == x / m * m - q * m;
    assert d * m < m && d * m + m > 0;
  }
}
