/** Integers to text (server/jeaiii_to_text.h). */
module ToText {
  import opened Decimal
  import opened FixedPoint
  import opened TwoPowers

  /** The table of all two-digit texts, ten to a row. */
  const PAIRS: seq<string> := [
    "00010203040506070809", "10111213141516171819", "20212223242526272829", "30313233343536373839",
    "40414243444546474849", "50515253545556575859", "60616263646566676869", "70717273747576777879",
    "80818283848586878889", "90919293949596979899"]

  function Row(c: char): string {
    [c, '0', c, '1', c, '2', c, '3', c, '4', c, '5', c, '6', c, '7', c, '8', c, '9']
  }

  lemma RowAt(c: char, d: nat)
    requires d < 10
    ensures |Row(c)| == 20 && Row(c)[2 * d] == c && Row(c)[2 * d + 1] == Digit(d)
  {
  }

  lemma PairRows(r: nat)
    requires r < 10
    ensures PAIRS[r] == Row(Digit(r))
  {
    assert PAIRS[0] == Row('0');
    assert PAIRS[1] == Row('1');
    assert PAIRS[2] == Row('2');
    assert PAIRS[3] == Row('3');
    assert PAIRS[4] == Row('4');
    assert PAIRS[5] == Row('5');
    assert PAIRS[6] == Row('6');
    assert PAIRS[7] == Row('7');
    assert PAIRS[8] == Row('8');
    assert PAIRS[9] == Row('9');
  }

  lemma PairAt(u: nat)
    requires u < 100
    ensures |PAIRS[u / 10]| == 20
    ensures [PAIRS[u / 10][2 * (u % 10)], PAIRS[u / 10][2 * (u % 10) + 1]] == Padded(u, 2)
  {
    PairRows(u / 10);
    RowAt(Digit(u / 10), u % 10);
    assert Padded(u / 10, 1) == [Digit(u / 10)];
  }

  // ---------------------------------------------------------------------------------------------
  // The macros
  // ---------------------------------------------------------------------------------------------

  /** JEAIII_W: two digits from the table. */
  method W(b: array<char>, i: nat, u: nat)
    requires i + 2 <= b.Length && u < 100
    modifies b
    ensures b[i..i + 2] == Padded(u, 2)
    ensures forall j :: 0 <= j < b.Length && !(i <= j < i + 2) ==> b[j] == old(b[j])
  {
    PairAt(u);
    b[i], b[i + 1] := PAIRS[u / 10][2 * (u % 10)], PAIRS[u / 10][2 * (u % 10) + 1];
  }

  /** The arithmetic of JEAIII_A in 64-bit words; nothing wraps around. */
  method Multiply(n: nat, u: nat) returns (t: nat)
    requires InScope(n, u)
    ensures t == Scaled(n, u) < TWO64
  {
    ScaledApproximates(n, u);
    WordIs(Magic(n) * u);
    t := Word(Magic(n) * u);
    QuotientIsNat(t, Pow2(Shift(n)));
    t := t / Pow2(Shift(n));
    WordIs(t + n / 6 * 4);
    t := Word(t + n / 6 * 4);
  }

  lemma QuotientIsNat(a: nat, d: nat)
    requires d > 0
    ensures a / d >= 0
  {
  }

  /** Arithmetic in 64-bit words. */
  function Word(x: int): nat {
    x % TWO64
  }

  lemma WordIs(x: int)
    requires 0 <= x < TWO64
    ensures Word(x) == x
  {
  }

  /** JEAIII_A: the one multiplication, and the first two digits. */
  method A(b: array<char>, i: nat, n: nat, u: nat) returns (t: nat)
    requires i + 2 <= b.Length && InScope(n, u)
    modifies b
    ensures Emitting(b[i..i + 2], t, u, n)
    ensures forall j :: 0 <= j < b.Length && !(i <= j < i + 2) ==> b[j] == old(b[j])
  {
    StartEmitting(n, u);
    t := Multiply(n, u);
    W(b, i, t / TWO32);
  }

  /** JEAIII_D: the next two digits. */
  method D(b: array<char>, i: nat, t: nat, ghost start: nat, ghost u: nat, ghost k: nat) returns (t': nat)
    requires start <= i && i + 2 <= b.Length && 2 <= k && Emitting(b[start..i], t, u, k)
    modifies b
    ensures Emitting(b[start..i + 2], t', u, k - 2)
    ensures forall j :: 0 <= j < b.Length && !(i <= j < i + 2) ==> b[j] == old(b[j])
  {
    ghost var text := b[start..i];
    EmitTwo(text, t, u, k);
    t' := (100 * (t % TWO32)) % TWO64;
    W(b, i, t' / TWO32);
    assert b[start..i + 2] == text + b[i..i + 2];
  }

  /** JEAIII_S: the last digit. */
  method S(b: array<char>, i: nat, t: nat, ghost start: nat, ghost u: nat)
    requires start <= i && i + 1 <= b.Length && Emitting(b[start..i], t, u, 1)
    modifies b
    ensures b[start..i + 1] == Padded(u, i + 1 - start)
    ensures forall j :: 0 <= j < b.Length && j != i ==> b[j] == old(b[j])
  {
    ghost var text := b[start..i];
    EmitLast(text, t, u);
    var d := 10 * (t % TWO32) / TWO32;
    b[i] := d as char + '0';
    assert b[start..i + 1] == text + [Digit(d)];
  }

  method C0(b: array<char>, i: nat, u: nat)
    requires i + 1 <= b.Length && u < 10
    modifies b
    ensures b[i..i + 1] == Padded(u, 1)
    ensures forall j :: 0 <= j < b.Length && j != i ==> b[j] == old(b[j])
  {
    b[i] := u as char + '0';
    assert Padded(u, 1) == Padded(u / 10, 0) + [Digit(u % 10)];
  }

  method C1(b: array<char>, i: nat, u: nat)
    requires i + 2 <= b.Length && u < 100
    modifies b
    ensures b[i..i + 2] == Padded(u, 2)
    ensures forall j :: 0 <= j < b.Length && !(i <= j < i + 2) ==> b[j] == old(b[j])
  {
    W(b, i, u);
  }

  method C2(b: array<char>, i: nat, u: nat)
    requires i + 3 <= b.Length && u < 1000
    modifies b
    ensures b[i..i + 3] == Padded(u, 3)
    ensures forall j :: 0 <= j < b.Length && !(i <= j < i + 3) ==> b[j] == old(b[j])
  {
    Powers();
    var t := A(b, i, 1, u);
    S(b, i + 2, t, i, u);
  }

  method C3(b: array<char>, i: nat, u: nat)
    requires i + 4 <= b.Length && u < 10000
    modifies b
    ensures b[i..i + 4] == Padded(u, 4)
    ensures forall j :: 0 <= j < b.Length && !(i <= j < i + 4) ==> b[j] == old(b[j])
  {
    Powers();
    var t := A(b, i, 2, u);
    t := D(b, i + 2, t, i, u, 2);
  }

  method C4(b: array<char>, i: nat, u: nat)
    requires i + 5 <= b.Length && u < 100000
    modifies b
    ensures b[i..i + 5] == Padded(u, 5)
    ensures forall j :: 0 <= j < b.Length && !(i <= j < i + 5) ==> b[j] == old(b[j])
  {
    Powers();
    var t := A(b, i, 3, u);
    t := D(b, i + 2, t, i, u, 3);
    S(b, i + 4, t, i, u);
  }

  method C5(b: array<char>, i: nat, u: nat)
    requires i + 6 <= b.Length && u < 1000000
    modifies b
    ensures b[i..i + 6] == Padded(u, 6)
    ensures forall j :: 0 <= j < b.Length && !(i <= j < i + 6) ==> b[j] == old(b[j])
  {
    Powers();
    var t := A(b, i, 4, u);
    t := D(b, i + 2, t, i, u, 4);
    t := D(b, i + 4, t, i, u, 2);
  }

  method C6(b: array<char>, i: nat, u: nat)
    requires i + 7 <= b.Length && 1000000 <= u < 10000000
    modifies b
    ensures b[i..i + 7] == Padded(u, 7)
    ensures forall j :: 0 <= j < b.Length && !(i <= j < i + 7) ==> b[j] == old(b[j])
  {
    Powers();
    var t := A(b, i, 5, u);
    t := D(b, i + 2, t, i, u, 5);
    t := D(b, i + 4, t, i, u, 3);
    S(b, i + 6, t, i, u);
  }

  method C7(b: array<char>, i: nat, u: nat)
    requires i + 8 <= b.Length && u < 100000000
    modifies b
    ensures b[i..i + 8] == Padded(u, 8)
    ensures forall j :: 0 <= j < b.Length && !(i <= j < i + 8) ==> b[j] == old(b[j])
  {
    Powers();
    var t := A(b, i, 6, u);
    t := D(b, i + 2, t, i, u, 6);
    t := D(b, i + 4, t, i, u, 4);
    t := D(b, i + 6, t, i, u, 2);
  }

  method C8(b: array<char>, i: nat, u: nat)
    requires i + 9 <= b.Length && u < 1000000000
    modifies b
    ensures b[i..i + 9] == Padded(u, 9)
    ensures forall j :: 0 <= j < b.Length && !(i <= j < i + 9) ==> b[j] == old(b[j])
  {
    Powers();
    var t := A(b, i, 7, u);
    t := D(b, i + 2, t, i, u, 7);
    t := D(b, i + 4, t, i, u, 5);
    t := D(b, i + 6, t, i, u, 3);
    S(b, i + 8, t, i, u);
  }

  method C9(b: array<char>, i: nat, u: nat)
    requires i + 10 <= b.Length && u < TWO32
    modifies b
    ensures b[i..i + 10] == Padded(u, 10)
    ensures forall j :: 0 <= j < b.Length && !(i <= j < i + 10) ==> b[j] == old(b[j])
  {
    Powers();
    var t := A(b, i, 8, u);
    t := D(b, i + 2, t, i, u, 8);
    t := D(b, i + 4, t, i, u, 6);
    t := D(b, i + 6, t, i, u, 4);
    t := D(b, i + 8, t, i, u, 2);
  }

  // ---------------------------------------------------------------------------------------------
  // Whole integers
  // ---------------------------------------------------------------------------------------------

  /** Number of digits that JEAIII_L09 chooses for u. */
  function DigitCount(u: nat): (n: nat)
    requires u < TWO32
    ensures 1 <= n <= 10 && u < Pow10(n) && (n > 1 ==> u >= Pow10(n - 1))
  {
    Powers();
    if u < 100 then
      if u < 10 then 1 else 2
    else if u < 1000000 then
      if u < 10000 then (if u < 1000 then 3 else 4)
      else (if u < 100000 then 5 else 6)
    else if u < 100000000 then
      (if u < 10000000 then 7 else 8)
    else
      (if u < 1000000000 then 9 else 10)
  }

  /** JEAIII_L09 with JEAIII_C0 .. C9: u without leading zeros. */
  method Leading(b: array<char>, p: nat, u: nat) returns (end: nat)
    requires u < TWO32 && p + |Digits(u)| <= b.Length
    modifies b
    ensures end == p + |Digits(u)| && b[p..end] == Digits(u)
    ensures forall j :: 0 <= j < b.Length && !(p <= j < end) ==> b[j] == old(b[j])
  {
    PaddedIsDigits(u, DigitCount(u));
    if u < 100 {
      if u < 10 { C0(b, p, u); end := p + 1; } else { C1(b, p, u); end := p + 2; }
    } else if u < 1000000 {
      if u < 10000 {
        if u < 1000 { C2(b, p, u); end := p + 3; } else { C3(b, p, u); end := p + 4; }
      } else {
        if u < 100000 { C4(b, p, u); end := p + 5; } else { C5(b, p, u); end := p + 6; }
      }
    } else if u < 100000000 {
      if u < 10000000 { C6(b, p, u); end := p + 7; } else { C7(b, p, u); end := p + 8; }
    } else {
      if u < 1000000000 { C8(b, p, u); end := p + 9; } else { C9(b, p, u); end := p + 10; }
    }
  }

  /** JEAIII_L03 with JEAIII_C0 .. C3. */
  method LeadingFour(b: array<char>, p: nat, u: nat) returns (end: nat)
    requires u < 10000 && p + |Digits(u)| <= b.Length
    modifies b
    ensures end == p + |Digits(u)| && b[p..end] == Digits(u)
    ensures forall j :: 0 <= j < b.Length && !(p <= j < end) ==> b[j] == old(b[j])
  {
    PaddedIsDigits(u, DigitCount(u));
    if u < 100 {
      if u < 10 { C0(b, p, u); end := p + 1; } else { C1(b, p, u); end := p + 2; }
    } else {
      if u < 1000 { C2(b, p, u); end := p + 3; } else { C3(b, p, u); end := p + 4; }
    }
  }

  /** The integer types the function is instantiated with. */
  datatype IntType = IntType(bits: nat, signed: bool) {

    predicate Known() {
      bits == 8 || bits == 16 || bits == 32 || bits == 64
    }

    function Modulus(): nat {
      if bits == 8 then 0x100 else if bits == 16 then 0x1_0000 else if bits == 32 then TWO32 else TWO64
    }

    predicate Holds(i: int) {
      if signed then -(Modulus() as int) <= 2 * i < Modulus() else 0 <= i < Modulus()
    }
  }

  /** Cuts the 64-bit magnitude to the unsigned type of the argument's width, at most 32 bits. */
  function Truncated(ty: IntType, t: nat): nat {
    if ty.bits == 8 then t % 0x100 else if ty.bits == 16 then t % 0x1_0000 else t % TWO32
  }

  function Magnitude(i: int): nat {
    if i < 0 then -i else i
  }

  /** Negation in 64-bit words gives the magnitude, also of the least value; 32 bits or fewer keep it. */
  lemma MagnitudeInWords(i: int, ty: IntType)
    requires ty.Known() && ty.Holds(i)
    ensures (if i < 0 then (0 - i % TWO64) % TWO64 else i % TWO64) == Magnitude(i) < TWO64
    ensures ty.bits <= 32 ==> Truncated(ty, Magnitude(i)) == Magnitude(i) < TWO32
  {
    if i < 0 {
      assert i % TWO64 == i + TWO64;
    }
  }

  /** Writes the canonical decimal text of any integer and returns the position after it. */
  method ToTextFromInteger(b: array<char>, p: nat, i: int, ty: IntType) returns (end: nat)
    requires ty.Known() && ty.Holds(i) && p + |Text(i)| <= b.Length
    modifies b
    ensures end == p + |Text(i)| && b[p..end] == Text(i)
    ensures forall j :: 0 <= j < b.Length && !(p <= j < end) ==> b[j] == old(b[j])
  {
    MagnitudeInWords(i, ty);
    var t: int := i % TWO64;
    if i < 0 {
      t := (0 - t) % TWO64;
      b[p] := '-';
      end := Unsigned(b, p + 1, t, ty);
      assert b[p..end] == ['-'] + b[p + 1..end];
    } else {
      end := Unsigned(b, p, t, ty);
    }
  }

  /** The magnitude: in 32 bits when its type or its value fits. */
  method Unsigned(b: array<char>, p: nat, t: nat, ty: IntType) returns (end: nat)
    requires t < TWO64 && p + |Digits(t)| <= b.Length && (ty.bits <= 32 ==> Truncated(ty, t) == t < TWO32)
    requires ty.Known()
    modifies b
    ensures end == p + |Digits(t)| && b[p..end] == Digits(t)
    ensures forall j :: 0 <= j < b.Length && !(p <= j < end) ==> b[j] == old(b[j])
  {
    var u := Truncated(ty, t);
    if ty.bits <= 32 || u == t {
      end := Leading(b, p, u);
    } else {
      end := Wide(b, p, t);
    }
  }

  /** Magnitudes beyond 32 bits: the leading digits and one or two groups of eight. */
  method Wide(b: array<char>, p: nat, t: nat) returns (end: nat)
    requires TWO32 <= t < TWO64 && p + |Digits(t)| <= b.Length
    modifies b
    ensures end == p + |Digits(t)| && b[p..end] == Digits(t)
    ensures forall j :: 0 <= j < b.Length && !(p <= j < end) ==> b[j] == old(b[j])
  {
    GroupOfEight(t);
    var x := t % 100000000;
    var t' := t / 100000000;
    var u := t' % TWO32;
    UpperPart(t, t');
    if u == t' {
      end := Leading(b, p, u);
    } else {
      end := TwoGroups(b, p, t');
    }
    end := AppendGroup(b, p, end, x);
  }

  lemma UpperPart(t: nat, t': nat)
    requires t < TWO64 && t' == t / 100000000
    ensures t' <= TWO64 / 100000000 && (t' % TWO32 != t' ==> t' >= TWO32)
  {
  }

  lemma LastPart(t: nat)
    requires t <= TWO64 / 100000000
    ensures t / 100000000 % TWO32 == t / 100000000 < 10000
  {
    var q := t / 100000000;
    assert q < 10000;
  }

  /** JEAIII_C7 behind what has been written. */
  method AppendGroup(b: array<char>, p: nat, mid: nat, x: nat) returns (end: nat)
    requires p <= mid && mid + 8 <= b.Length && x < 100000000
    modifies b
    ensures end == mid + 8 && b[p..end] == old(b[p..mid]) + Padded(x, 8)
    ensures forall j :: 0 <= j < b.Length && !(mid <= j < end) ==> b[j] == old(b[j])
  {
    C7(b, mid, x);
    end := mid + 8;
    assert b[p..end] == b[p..mid] + b[mid..end];
  }

  /** JEAIII_KYX without its last group. */
  method TwoGroups(b: array<char>, p: nat, t: nat) returns (end: nat)
    requires TWO32 <= t <= TWO64 / 100000000 && p + |Digits(t)| <= b.Length
    modifies b
    ensures end == p + |Digits(t)| && b[p..end] == Digits(t)
    ensures forall j :: 0 <= j < b.Length && !(p <= j < end) ==> b[j] == old(b[j])
  {
    GroupOfEight(t);
    var y := t % 100000000;
    LastPart(t);
    var u := t / 100000000 % TWO32;
    end := LeadingFour(b, p, u);
    end := AppendGroup(b, p, end, y);
  }

  /** The last eight digits can be split off. */
  lemma GroupOfEight(t: nat)
    requires t >= TWO32
    ensures Digits(t) == Digits(t / 100000000) + Padded(t % 100000000, 8)
  {
    HighLow8(t);
    DigitsSplit(t, 8);
    LowKeepsDigits(t, 8);
  }
}
