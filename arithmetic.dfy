/** Facts about integer multiplication and division by a positive divisor
    that the solver does not find on its own. */
module Arithmetic {

  lemma MulMonotone(a: nat, b: nat, c: nat)
    requires a <= b
    ensures a * c <= b * c
  {
  }

  /** Quotient and remainder are unique: if n == q * d + r with 0 <= r < d,
      then n / d == q and n % d == r. */
  lemma DivModUnique(n: int, d: nat, q: int, r: int)
    requires 0 <= r < d && n == q * d + r
    ensures n / d == q && n % d == r
  {
    var q', r' := n / d, n % d;
    assert n == q' * d + r';
    if q' < q {
      assert (q - q') * d == r' - r;
      MulMonotone(1, q - q', d);
      assert false;
    } else if q < q' {
      assert (q' - q) * d == r - r';
      MulMonotone(1, q' - q, d);
      assert false;
    }
  }
}
