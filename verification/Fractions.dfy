/** Division of real numbers. */
module Fractions {

  lemma Divided(x: real, y: real, n: real)
    requires n > 0.0
    ensures x / n + y / n == (x + y) / n
  {
    assert (x / n) * n == x && (y / n) * n == y;
    assert (x / n + y / n) * n == x + y;
  }
}
