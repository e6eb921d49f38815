/** Powers of two and exact division, used where words are taken apart. */
module Arithmetic {

  function Pow2(k: nat): (r: nat)
    ensures r >= 1
  {
    if k == 0 then 1 else 2 * Pow2(k - 1)
  }

  lemma {:induction false} Pow2Monotonic(a: nat, b: nat)
    requires a <= b
    ensures Pow2(a) <= Pow2(b)
    decreases b
  {
    if a < b {
      Pow2Monotonic(a, b - 1);
    }
  }

  lemma Apart(p: nat, k: nat, q: nat)
    requires k < q
    ensures p * q >= p * k + p
  {
    var d := q - k - 1;
    assert p * q == p * (k + 1 + d) == p * k + p + p * d;
    assert p * d >= 0;
  }

  lemma SameQuotient(p: nat, k: nat, m: nat, q: nat, r: nat)
    requires p * k + m == p * q + r && m < p && r < p
    ensures k == q && m == r
  {
    if k < q {
      Apart(p, k, q);
    } else if k > q {
      Apart(p, q, k);
    }
  }

  /** Quotient and remainder are unique. */
  lemma Euclid(i: nat, p: nat, q: nat, r: nat)
    requires p > 0 && i == p * q + r && r < p
    ensures i / p == q && i % p == r
  {
    SameQuotient(p, i / p, i % p, q, r);
  }
}
