/** Division with remainder, for the two places where a divisor is a variable. */
module Arith {
  /** Quotient and remainder are unique. */
  lemma RemainderUnique(x: nat, q: nat, r: nat, n: nat)
    requires r < n && x == q * n + r
    ensures x / n == q && x % n == r
  {
    var q', r' := x / n, x % n;
    assert x == q' * n + r';
    if q' < q {
      Multiple(q', q, n);
    } else if q < q' {
      Multiple(q, q', n);
    }
  }

  lemma Multiple(p: nat, q: nat, n: nat)
    requires p < q
    ensures q * n >= p * n + n
  {
    assert q * n == p * n + (q - p) * n;
    assert (q - p) * n == n + (q - p - 1) * n;
  }
}
