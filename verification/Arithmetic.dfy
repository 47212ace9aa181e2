/** Division facts that the solver should be handed rather than asked for. */
module Arithmetic {

  lemma AtLeastFactor(m: nat, d: int)
    requires d >= 1
    ensures m * d >= m
  {
    assert m * d == m + m * (d - 1);
    assert m * (d - 1) >= 0;
  }

  /** Quotient and remainder are unique. */
  lemma Divide(x: int, m: int, q: int, r: int)
    requires 0 <= r < m && x == m * q + r
    ensures x / m == q && x % m == r
  {
    var d := q - x / m;
    assert m * q == m * (x / m) + m * d;
    if d >= 1 {
      AtLeastFactor(m, d);
    } else if d <= -1 {
      AtLeastFactor(m, -d);
    }
  }
}
