/** Decimal notation. */
module Decimal {

  function Pow10(k: nat): (r: nat)
    ensures r > 0
  {
    if k == 0 then 1 else 10 * Pow10(k - 1)
  }

  function Digit(d: nat): (c: char)
    requires d < 10
    ensures IsDigit(c) && DigitValue(c) == d
  {
    '0' + d as char
  }

  predicate IsDigit(c: char) {
    '0' <= c <= '9'
  }

  function DigitValue(c: char): nat
    requires IsDigit(c)
  {
    (c - '0') as nat
  }

  predicate AllDigits(s: string) {
    forall i :: 0 <= i < |s| ==> IsDigit(s[i])
  }

  /** The canonical decimal digits of n. */
  function Digits(n: nat): (s: string)
    ensures s != []
  {
    if n < 10 then [Digit(n)] else Digits(n / 10) + [Digit(n % 10)]
  }

  /** The last k decimal digits of n, with leading zeros. */
  function Padded(n: nat, k: nat): (s: string)
    ensures |s| == k
  {
    if k == 0 then [] else Padded(n / 10, k - 1) + [Digit(n % 10)]
  }

  /** The text of an integer. */
  function Text(i: int): string {
    if i < 0 then "-" + Digits(-i) else Digits(i)
  }

  /** The number that a string of digits denotes. */
  function Value(s: string): nat
    requires AllDigits(s)
  {
    if s == [] then 0 else 10 * Value(s[..|s| - 1]) + DigitValue(s[|s| - 1])
  }

  /** Digits is canonical: digits only, no leading zero, and it denotes n. */
  lemma {:induction false} DigitsAreCanonical(n: nat)
    ensures AllDigits(Digits(n)) && Value(Digits(n)) == n
    ensures Digits(n)[0] == '0' ==> n == 0
  {
    if n >= 10 {
      DigitsAreCanonical(n / 10);
      assert Digits(n)[..|Digits(n)| - 1] == Digits(n / 10);
    }
  }

  /** No other string without leading zeros denotes n. */
  lemma {:induction false} CanonicalIsUnique(s: string)
    requires s != [] && AllDigits(s) && (s[0] == '0' ==> |s| == 1)
    ensures Digits(Value(s)) == s
  {
    var front, last := s[..|s| - 1], DigitValue(s[|s| - 1]);
    assert s == front + [Digit(last)];
    if |s| > 1 {
      CanonicalIsUnique(front);
      ValuePositive(front);
    }
  }

  lemma {:induction false} ValuePositive(s: string)
    requires s != [] && AllDigits(s) && s[0] != '0'
    ensures Value(s) > 0
  {
    if |s| > 1 {
      ValuePositive(s[..|s| - 1]);
    }
  }

  // ---------------------------------------------------------------------------------------------
  // Upper and lower digits
  // ---------------------------------------------------------------------------------------------

  /** n without its last k digits. */
  function High(n: nat, k: nat): nat {
    if k == 0 then n else High(n / 10, k - 1)
  }

  /** The number made of the last k digits of n. */
  function Low(n: nat, k: nat): nat {
    if k == 0 then 0 else 10 * Low(n / 10, k - 1) + n % 10
  }

  lemma {:induction false} PaddedSplit(n: nat, j: nat, k: nat)
    ensures Padded(n, j + k) == Padded(High(n, k), j) + Padded(n, k)
  {
    if k > 0 {
      PaddedSplit(n / 10, j, k - 1);
    }
  }

  lemma {:induction false} DigitsSplit(n: nat, k: nat)
    requires High(n, k) > 0
    ensures Digits(n) == Digits(High(n, k)) + Padded(n, k)
  {
    if k > 0 {
      HighOfSmall(n / 10, k - 1);
      DigitsSplit(n / 10, k - 1);
    }
  }

  lemma {:induction false} HighOfSmall(n: nat, k: nat)
    ensures High(n, k) <= n
  {
    if k > 0 {
      HighOfSmall(n / 10, k - 1);
    }
  }

  /** With exactly as many digits as needed, padding adds nothing. */
  lemma {:induction false} PaddedIsDigits(n: nat, k: nat)
    requires k > 0 && n < Pow10(k) && (k > 1 ==> n >= Pow10(k - 1))
    ensures Padded(n, k) == Digits(n)
  {
    if k > 1 {
      PaddedIsDigits(n / 10, k - 1);
    }
  }

  lemma {:induction false} LowKeepsDigits(n: nat, k: nat)
    ensures Padded(Low(n, k), k) == Padded(n, k)
  {
    if k > 0 {
      LowKeepsDigits(n / 10, k - 1);
    }
  }

  lemma {:induction false} HighOfLow(n: nat, k: nat, m: nat)
    requires m <= k
    ensures High(Low(n, k), m) == Low(High(n, m), k - m)
    ensures Low(Low(n, k), m) == Low(n, m)
  {
    if m > 0 {
      HighOfLow(n / 10, k - 1, m - 1);
    }
  }

  lemma {:induction false} HighOfHigh(n: nat, j: nat, k: nat)
    ensures High(High(n, k), j) == High(n, j + k)
  {
    if k > 0 {
      HighOfHigh(n / 10, j, k - 1);
    }
  }

  /** n followed by k zeros. */
  function Times10(n: nat, k: nat): nat {
    if k == 0 then n else 10 * Times10(n, k - 1)
  }

  lemma {:induction false} Times10Sum(a: nat, b: nat, k: nat)
    ensures Times10(a + b, k) == Times10(a, k) + Times10(b, k)
  {
    if k > 0 {
      Times10Sum(a, b, k - 1);
    }
  }

  lemma {:induction false} Times10Monotone(a: nat, b: nat, k: nat)
    requires a < b
    ensures Times10(a, k) + Pow10(k) <= Times10(b, k)
  {
    if k > 0 {
      Times10Monotone(a, b, k - 1);
    }
  }

  /** Dividing by a power of ten: the only way to write r as a multiple of 10^k plus a smaller rest. */
  lemma {:induction false} HighLowIs(r: nat, k: nat, q: nat, rest: nat)
    requires r == Times10(q, k) + rest && rest < Pow10(k)
    ensures High(r, k) == q && Low(r, k) == rest
  {
    if k > 0 {
      assert r == 10 * Times10(q, k - 1) + rest;
      assert r / 10 == Times10(q, k - 1) + rest / 10 && r % 10 == rest % 10;
      HighLowIs(r / 10, k - 1, q, rest / 10);
    }
  }

  lemma HighLow8(n: nat)
    ensures High(n, 8) == n / 100000000 && Low(n, 8) == n % 100000000
  {
    var q, rest := n / 100000000, n % 100000000;
    Powers();
    Times10ByEight(q);
    HighLowIs(n, 8, q, rest);
  }

  lemma Times10ByEight(q: nat)
    ensures Times10(q, 1) == 10 * q && Times10(q, 2) == 100 * q && Times10(q, 3) == 1000 * q
    ensures Times10(q, 4) == 10000 * q && Times10(q, 5) == 100000 * q && Times10(q, 6) == 1000000 * q
    ensures Times10(q, 7) == 10000000 * q && Times10(q, 8) == 100000000 * q
  {
    assert Times10(q, 1) == 10 * Times10(q, 0);
    assert Times10(q, 2) == 10 * Times10(q, 1);
    assert Times10(q, 4) == 100 * Times10(q, 2);
    assert Times10(q, 6) == 100 * Times10(q, 4);
  }

  lemma Powers()
    ensures Pow10(1) == 10 && Pow10(2) == 100 && Pow10(3) == 1000 && Pow10(4) == 10000 && Pow10(5) == 100000
    ensures Pow10(6) == 1000000 && Pow10(7) == 10000000 && Pow10(8) == 100000000 && Pow10(9) == 1000000000
    ensures Pow10(10) == 10000000000
  {
    assert Pow10(3) == 1000;
    assert Pow10(6) == 1000 * Pow10(3);
    assert Pow10(9) == 1000 * Pow10(6);
  }
}

/** The digit generation of server/jeaiii_to_text.h: one multiplication, then digits from the fraction. */
module FixedPoint {
  import opened Decimal
  import opened TwoPowers

  const TWO32: nat := 0x1_0000_0000
  const TWO64: nat := 0x1_0000_0000_0000_0000

  /** How far the product of macro JEAIII_A is shifted right. */
  function Shift(n: nat): nat {
    n / 5 * n * 53 / 16
  }

  /** The multiplier of macro JEAIII_A. */
  function Magic(n: nat): int {
    Pow2(32 + Shift(n)) / Pow10(n) + 1 + n / 6 - n / 8
  }

  /** The arguments the macro is used with: n + 2 digits or 32 bits; for n == 5 at least 7 digits. */
  predicate InScope(n: nat, u: nat) {
    && 1 <= n <= 8 && u < TWO32 && u < 100 * Pow10(n)
    && (n == 5 ==> u >= 1000000)
  }

  /** The value that macro JEAIII_A leaves in t. */
  function Scaled(n: nat, u: nat): int {
    Magic(n) * u / Pow2(Shift(n)) + n / 6 * 4
  }

  /** t / 2^32 stands for r / 10^n, rounded up by less than one unit of 10^-n. */
  predicate Approximates(t: nat, r: nat, n: nat) {
    r * TWO32 <= Times10(t, n) < (r + 1) * TWO32
  }

  lemma PowersOfTwo()
    ensures Pow2(0) == 1 && Pow2(16) == 65536 && Pow2(19) == 524288 && Pow2(23) == 8388608 && Pow2(26) == 67108864
    ensures Pow2(32) == TWO32 && Pow2(48) == 0x1_0000_0000_0000 && Pow2(51) == 0x8_0000_0000_0000
    ensures Pow2(55) == 0x80_0000_0000_0000 && Pow2(58) == 0x400_0000_0000_0000
  {
    assert Pow2(8) == 256;
    assert Pow2(16) == 256 * Pow2(8);
    assert Pow2(19) == 8 * Pow2(16);
    assert Pow2(26) == 128 * Pow2(19);
    assert Pow2(32) == 64 * Pow2(26);
    assert Pow2(40) == 256 * Pow2(32);
    assert Pow2(48) == 256 * Pow2(40);
    assert Pow2(55) == 128 * Pow2(48);
  }

  lemma MagicNumbers()
    ensures Shift(1) == Shift(2) == Shift(3) == Shift(4) == 0
    ensures Shift(5) == 16 && Shift(6) == 19 && Shift(7) == 23 && Shift(8) == 26
    ensures Magic(1) == 429496730 && Magic(2) == 42949673 && Magic(3) == 4294968 && Magic(4) == 429497
    ensures Magic(5) == 2814749768 && Magic(6) == 2251799815 && Magic(7) == 3602879703 && Magic(8) == 2882303762
  {
    Powers();
    PowersOfTwo();
  }

  // the bounds behind the multipliers, one lemma a digit count; products by constants only

  lemma Scale1(u: nat)
    requires u < 1000
    ensures 429496730 * u < TWO64 && u * TWO32 <= (429496730 * u) * 10 < (u + 1) * TWO32
  {
  }

  lemma Scale2(u: nat)
    requires u < 10000
    ensures 42949673 * u < TWO64 && u * TWO32 <= (42949673 * u) * 100 < (u + 1) * TWO32
  {
  }

  lemma Scale3(u: nat)
    requires u < 100000
    ensures 4294968 * u < TWO64 && u * TWO32 <= (4294968 * u) * 1000 < (u + 1) * TWO32
  {
  }

  lemma Scale4(u: nat)
    requires u < 1000000
    ensures 429497 * u < TWO64 && u * TWO32 <= (429497 * u) * 10000 < (u + 1) * TWO32
  {
  }

  lemma Scale5(u: nat)
    requires 1000000 <= u < 10000000
    ensures 2814749768 * u < TWO64 && u * TWO32 <= (2814749768 * u / 65536) * 100000 < (u + 1) * TWO32
  {
  }

  lemma Scale6(u: nat)
    requires u < 100000000
    ensures 2251799815 * u < TWO64 && u * TWO32 <= (2251799815 * u / 524288 + 4) * 1000000 < (u + 1) * TWO32
  {
  }

  lemma Scale7(u: nat)
    requires u < 1000000000
    ensures 3602879703 * u < TWO64 && u * TWO32 <= (3602879703 * u / 8388608 + 4) * 10000000 < (u + 1) * TWO32
  {
  }

  lemma Scale8(u: nat)
    requires u < TWO32
    ensures 2882303762 * u < TWO64 && u * TWO32 <= (2882303762 * u / 67108864 + 4) * 100000000 < (u + 1) * TWO32
  {
  }

  /** One multiplication gives every digit of u, without leaving 64 bits. */
  lemma ScaledApproximates(n: nat, u: nat)
    requires InScope(n, u)
    ensures 0 <= Magic(n) * u < TWO64 && 0 <= Scaled(n, u) < TWO64
    ensures Approximates(Scaled(n, u), u, n)
  {
    if n <= 4 {
      PlainApproximates(n, u);
    } else {
      ShiftedApproximates(n, u);
    }
  }

  /** Up to four digits behind the first two the product is not shifted. */
  lemma PlainApproximates(n: nat, u: nat)
    requires InScope(n, u) && n <= 4
    ensures 0 <= Magic(n) * u < TWO64 && 0 <= Scaled(n, u) < TWO64
    ensures Approximates(Scaled(n, u), u, n)
  {
    PlainValues(n, u);
    Powers();
    Times10ByEight(Scaled(n, u));
    match n {
      case 1 => Scale1(u);
      case 2 => Scale2(u);
      case 3 => Scale3(u);
      case 4 => Scale4(u);
    }
  }

  lemma ShiftedApproximates(n: nat, u: nat)
    requires InScope(n, u) && n >= 5
    ensures 0 <= Magic(n) * u < TWO64 && 0 <= Scaled(n, u) < TWO64
    ensures Approximates(Scaled(n, u), u, n)
  {
    ShiftedValues(n, u);
    Powers();
    Times10ByEight(Scaled(n, u));
    match n {
      case 5 => Scale5(u);
      case 6 => Scale6(u);
      case 7 => Scale7(u);
      case 8 => Scale8(u);
    }
  }

  /**
    With N = 5 the bound is met exactly if the bits that the shift drops weigh at most 89344 u / 100000,
    in particular by every u from 73352 on; the macro is used with N = 5 for seven digits only.
   */
  lemma FiveIsForSevenDigits(u: nat, t: nat)
    requires u < 10000000 && t == Scaled(5, u)
    ensures Approximates(t, u, 5) <==> 100000 * (2814749768 * u % 65536) <= 89344 * u
    ensures u >= 73352 ==> Approximates(t, u, 5)
  {
    ShiftedValues(5, u);
    Times10ByEight(t);
    FiveDrops(u, t, 2814749768 * u % 65536);
  }

  lemma FiveDrops(u: nat, t: nat, dropped: nat)
    requires u < 10000000 && dropped < 65536 && 65536 * t + dropped == 2814749768 * u
    ensures u * TWO32 <= 100000 * t < (u + 1) * TWO32 <==> 100000 * dropped <= 89344 * u
  {
  }

  lemma PlainValues(n: nat, u: nat)
    requires 1 <= n <= 4
    ensures n == 1 ==> Magic(n) * u == 429496730 * u && Scaled(n, u) == 429496730 * u
    ensures n == 2 ==> Magic(n) * u == 42949673 * u && Scaled(n, u) == 42949673 * u
    ensures n == 3 ==> Magic(n) * u == 4294968 * u && Scaled(n, u) == 4294968 * u
    ensures n == 4 ==> Magic(n) * u == 429497 * u && Scaled(n, u) == 429497 * u
  {
    MagicNumbers();
    PowersOfTwo();
  }

  lemma ShiftedValues(n: nat, u: nat)
    requires 5 <= n <= 8
    ensures n == 5 ==> Magic(n) * u == 2814749768 * u && Scaled(n, u) == 2814749768 * u / 65536
    ensures n == 6 ==> Magic(n) * u == 2251799815 * u && Scaled(n, u) == 2251799815 * u / 524288 + 4
    ensures n == 7 ==> Magic(n) * u == 3602879703 * u && Scaled(n, u) == 3602879703 * u / 8388608 + 4
    ensures n == 8 ==> Magic(n) * u == 2882303762 * u && Scaled(n, u) == 2882303762 * u / 67108864 + 4
  {
    MagicNumbers();
    PowersOfTwo();
  }

  // ---------------------------------------------------------------------------------------------
  // Digits from the fraction
  // ---------------------------------------------------------------------------------------------

  /** The whole part of t is the upper part of r, and the fraction stands for the rest. */
  lemma WholePart(t: nat, r: nat, n: nat)
    requires Approximates(t, r, n)
    ensures t / TWO32 == High(r, n) && Approximates(t % TWO32, Low(r, n), n)
  {
    var q, f := t / TWO32, t % TWO32;
    Times10Sum(q * TWO32, f, n);
    Times10Scale(q, TWO32, n);
    Times10Monotone(f, TWO32, n);
    Times10Scale(1, TWO32, n);
    Times10One(n);
    var rest := r - Times10(q, n);
    assert 0 <= rest < Pow10(n);
    HighLowIs(r, n, q, rest);
  }

  lemma {:induction false} Times10Scale(q: nat, c: nat, n: nat)
    ensures Times10(q * c, n) == Times10(q, n) * c
  {
    if n > 0 {
      Times10Scale(q, c, n - 1);
    }
  }

  lemma {:induction false} Times10One(n: nat)
    ensures Times10(1, n) == Pow10(n)
  {
    if n > 0 {
      Times10One(n - 1);
    }
  }

  /** Multiplying the fraction by ten or a hundred brings the next digits in front of the point. */
  lemma {:induction false} NextDigits(f: nat, r: nat, n: nat, j: nat)
    requires j <= n && Approximates(f, r, n)
    ensures Approximates(Times10(f, j), r, n - j)
  {
    Times10Twice(f, j, n - j);
  }

  lemma {:induction false} Times10Twice(f: nat, j: nat, k: nat)
    ensures Times10(Times10(f, j), k) == Times10(f, j + k)
  {
    if k > 0 {
      Times10Twice(f, j, k - 1);
    }
  }

  /**
    Emission in progress: the digits of u without its last k stand in text, and the fraction of t
    stands for those last k digits.
   */
  predicate Emitting(text: string, t: nat, u: nat, k: nat) {
    && t < TWO64
    && text == Padded(High(u, k), |text|)
    && Approximates(t % TWO32, Low(u, k), k)
  }

  lemma StartEmitting(n: nat, u: nat)
    requires InScope(n, u)
    ensures var t := Scaled(n, u);
            0 <= t < TWO64 && t / TWO32 < 100
            && Emitting(Padded(t / TWO32, 2), t, u, n)
  {
    ScaledApproximates(n, u);
    WholePart(Scaled(n, u), u, n);
    HighBelow(u, n);
  }

  lemma {:induction false} HighBelow(u: nat, k: nat)
    requires u < 100 * Pow10(k)
    ensures High(u, k) < 100
  {
    if k > 0 {
      HighBelow(u / 10, k - 1);
    }
  }

  /** Emitting one or two more digits. */
  lemma EmitMore(text: string, t: nat, u: nat, k: nat, j: nat)
    requires Emitting(text, t, u, k) && 1 <= j <= 2 && j <= k
    ensures var t' := Times10(t % TWO32, j);
            t' < TWO64 && t' / TWO32 < (if j == 1 then 10 else 100)
            && Emitting(text + Padded(t' / TWO32, j), t', u, k - j)
  {
    var f, r := t % TWO32, Low(u, k);
    var t' := Times10(f, j);
    Times10ByEight(f);
    NextDigits(f, r, k, j);
    WholePart(t', r, k - j);
    HighOfLow(u, k, k - j);
    LowKeepsDigits(High(u, k - j), j);
    PaddedSplit(High(u, k - j), |text|, j);
    HighOfHigh(u, j, k - j);
  }

  /** Macro JEAIII_D: two more digits. */
  lemma EmitTwo(text: string, t: nat, u: nat, k: nat)
    requires Emitting(text, t, u, k) && 2 <= k
    ensures var t' := 100 * (t % TWO32);
            t' < TWO64 && t' / TWO32 < 100 && Emitting(text + Padded(t' / TWO32, 2), t', u, k - 2)
  {
    EmitMore(text, t, u, k, 2);
    Times10ByEight(t % TWO32);
  }

  /** Macro JEAIII_S: the last digit. */
  lemma EmitLast(text: string, t: nat, u: nat)
    requires Emitting(text, t, u, 1)
    ensures var d := 10 * (t % TWO32) / TWO32;
            d < 10 && text + [Digit(d)] == Padded(u, |text| + 1)
  {
    EmitMore(text, t, u, 1, 1);
    Times10ByEight(t % TWO32);
    var d := 10 * (t % TWO32) / TWO32;
    assert Padded(d, 1) == Padded(d / 10, 0) + [Digit(d % 10)];
  }
}
