/** Facts about products and quotients of natural numbers. */
module Arithmetic {
  lemma MulMonotone(a: int, b: int, d: nat)
    requires a <= b
    ensures a * d <= b * d
  {
  }

  lemma MulStrict(a: int, b: int, d: nat)
    requires a < b
    ensures a * d + d <= b * d
  {
    MulMonotone(a + 1, b, d);
    assert (a + 1) * d == a * d + d;
  }

  lemma Quotient(x: nat, d: nat)
    requires d > 0
    ensures x / d * d <= x < x / d * d + d
  {
    assert x == d * (x / d) + x % d;
  }

  /** `n` is below the quotient exactly when `n` divisors fit. */
  lemma QuotientAtLeast(n: nat, x: nat, d: nat)
    requires d > 0
    ensures n <= x / d <==> n * d <= x
  {
    var q := x / d;
    Quotient(x, d);
    if n <= q {
      MulMonotone(n, q, d);
    } else {
      MulStrict(q, n, d);
    }
  }

  lemma QuotientUnique(n: nat, x: nat, d: nat)
    requires d > 0 && n * d <= x < n * d + d
    ensures x / d == n
  {
    QuotientAtLeast(n, x, d);
    QuotientAtLeast(n + 1, x, d);
    assert (n + 1) * d == n * d + d;
  }

  lemma QuotientMonotone(a: nat, b: nat, d: nat)
    requires d > 0 && a <= b
    ensures a / d <= b / d
  {
    Quotient(a, d);
    QuotientAtLeast(a / d, b, d);
  }

  lemma Distribute(a: int, b: int, d: int)
    ensures (a + b) * d == a * d + b * d
  {
  }
}
