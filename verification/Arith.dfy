/** Facts about products and quotients that the other modules share. */
module Arith {

  lemma MulMonotone(d: nat, m: nat, n: nat)
    ensures m <= n ==> d * m <= d * n
  {
  }

  lemma QuotientBelow(n: nat, d: nat, m: nat)
    requires d > 0 && n < d * m
    ensures n / d < m
  {
  }

  lemma QuotientBelowIff(n: nat, d: nat, m: nat)
    requires d > 0
    ensures n / d < m <==> n < d * m
  {
    if n < d * m {
      QuotientBelow(n, d, m);
    } else {
      var q := n / d;
      assert n == d * q + n % d;
      MulMonotone(d, q + 1, m);
      assert d * (q + 1) == d * q + d;
    }
  }

  lemma QuotientUnique(n: nat, d: nat, q: nat, m: nat)
    requires d > 0 && m < d && n == d * q + m
    ensures n / d == q && n % d == m
  {
    assert n == d * (n / d) + n % d;
    MulMonotone(d, q + 1, n / d);
    MulMonotone(d, n / d + 1, q);
    assert d * (q + 1) == d * q + d;
    assert d * (n / d + 1) == d * (n / d) + d;
  }
}
