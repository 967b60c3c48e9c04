/** Powers of two, and division by them. */
module TwoPowers {

  function Quotient(x: nat, d: nat): nat
    requires d > 0
  {
    x / d
  }

  function Pow2(e: nat): (r: nat)
    ensures r > 0
  {
    if e == 0 then 1 else 2 * Pow2(e - 1)
  }

  lemma {:induction false} Pow2Sum(a: nat, b: nat)
    ensures Pow2(a) * Pow2(b) == Pow2(a + b)
  {
    if a == 0 {
    } else {
      Pow2Sum(a - 1, b);
      assert Pow2(a) * Pow2(b) == 2 * (Pow2(a - 1) * Pow2(b));
    }
  }

  lemma {:induction false} Pow2Monotone(a: nat, b: nat)
    requires a <= b
    ensures Pow2(a) <= Pow2(b)
  {
    if a < b {
      Pow2Monotone(a, b - 1);
    }
  }

  /** The integer part of the logarithm to base 2. */
  function Log2(n: nat): (h: nat)
    ensures n == 0 ==> h == 0
    ensures n > 0 ==> Pow2(h) <= n < Pow2(h + 1)
  {
    if n < 2 then 0 else 1 + Log2(n / 2)
  }

  lemma {:induction false} QuotientBelow(h: nat, d: nat, n: nat)
    requires d > 0 && h < d * n
    ensures h / d < n
  {
    assert d * (h / d) <= h;
    FactorBelow(d, h / d, n);
  }

  lemma QuotientIs(h: nat, m: nat, q: nat)
    requires m > 0 && m * q <= h < m * (q + 1)
    ensures h / m == q
  {
    assert m * (h / m) <= h < m * (h / m + 1);
    FactorBelow(m, q, h / m + 1);
    FactorBelow(m, h / m, q + 1);
  }

  lemma HalfProduct(d: nat, q: nat)
    ensures 2 * d * (q / 2) <= d * q && d * (q + 1) <= 2 * d * (q / 2 + 1)
  {
    var p, bit := q / 2, q % 2;
    assert d * q == 2 * d * p + d * bit;
    assert d * (q + 1) == 2 * d * p + d * (bit + 1);
  }

  /** Dropping one bit more halves the quotient. */
  lemma HalfQuotient(h: nat, e: nat)
    ensures Quotient(h, Pow2(e + 1)) == Quotient(h, Pow2(e)) / 2
  {
    var d, q := Pow2(e), Quotient(h, Pow2(e));
    assert d * q <= h < d * (q + 1);
    HalfProduct(d, q);
    QuotientIs(h, 2 * d, q / 2);
  }

  lemma FactorBelow(d: nat, a: nat, b: nat)
    requires d * a < d * b
    ensures a < b
  {
  }
}
