/** Small facts about products, quotients and remainders. */
module Arithmetic {

  lemma MulMonotone(a: nat, b: nat, m: nat)
    requires a <= b
    ensures a * m <= b * m
  {
  }

  lemma OneMore(p: nat, m: nat)
    ensures (m + 1) * p == p + m * p
    ensures m > 0 ==> m * p == p + (m - 1) * p
  {
  }

  /** Division by m is the only way to split x into q * m + r with r below m. */
  lemma RemainderIs(x: nat, m: nat, q: nat, r: nat)
    requires r < m && x == q * m + r
    ensures x / m == q && x % m == r
  {
    var d := x / m;
    assert x == d * m + x % m;
    if d < q {
      MulMonotone(d + 1, q, m);
    } else if q < d {
      MulMonotone(q + 1, d, m);
    }
  }

  lemma QuotientIs(a: nat, p: nat, n: nat)
    requires p >= 1 && n * p <= a < n * p + p
    ensures a / p == n
  {
    RemainderIs(a, p, n, a - n * p);
  }

  lemma DivMod(x: nat, m: nat) returns (q: nat, r: nat)
    requires m > 0
    ensures q == x / m && r == x % m && r < m && x == q * m + r
  {
    q, r := x / m, x % m;
  }
}
