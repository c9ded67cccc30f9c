/** The few facts about products, quotients and remainders that the models share. */
module Arithmetic {

  lemma MulGap(d: nat, x: int)
    ensures x >= 1 ==> d * x >= d
    ensures x <= -1 ==> d * x <= 0 - d
  {
    if x >= 1 {
      assert d * x == d + d * (x - 1);
    } else if x <= -1 {
      assert d * x == 0 - d - d * (-x - 1);
    }
  }

  lemma MulMonotone(d: nat, x: int, y: int)
    requires x <= y
    ensures d * x <= d * y
  {
  }

  /** Quotient and remainder are the only numbers that recompose the dividend. */
  lemma DivUnique(n: int, d: nat, q: int, r: nat)
    requires 0 < d && n == d * q + r && r < d
    ensures n / d == q && n % d == r
  {
    var q', r' := n / d, n % d;
    assert n == d * q' + r';
    assert d * (q - q') == r' - r;
    MulGap(d, q - q');
  }

  lemma DivStep(n: int, d: nat)
    requires 0 < d
    ensures (n - d) / d == n / d - 1 && (n - d) % d == n % d
  {
    assert n - d == d * (n / d - 1) + n % d;
    DivUnique(n - d, d, n / d - 1, n % d);
  }
}
