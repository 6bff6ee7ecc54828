/** The few division facts the models need that the solver does not find by itself. */
module Div {
  lemma MulAtLeast(k: int, p: int)
    requires p > 0 && k >= 1
    ensures k * p >= p
  {
  }

  /** Quotient and remainder are unique. */
  lemma DivUnique(d: int, p: int, q: int, r: int)
    requires p > 0 && 0 <= r < p && d == q * p + r
    ensures d / p == q && d % p == r
  {
    var k := d / p - q;
    assert d == (d / p) * p + d % p;
    assert k * p == (d / p) * p - q * p;
    if k >= 1 {
      MulAtLeast(k, p);
    } else if k <= -1 {
      MulAtLeast(-k, p);
    }
  }

  lemma DivStep(d: int, p: int)
    requires p > 0
    ensures (d - p) / p == d / p - 1 && (d - p) % p == d % p
  {
    assert (d / p - 1) * p == (d / p) * p - p;
    DivUnique(d - p, p, d / p - 1, d % p);
  }
}
