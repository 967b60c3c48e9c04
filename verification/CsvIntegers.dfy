/** What the integer columns of csv.h denote. */
module IntegerColumns {
  import opened Decimal
  import opened CsvText

  /** The digits of a column; every other character is passed over. */
  function OnlyDigits(s: string): (r: string)
    ensures AllDigits(r)
  {
    if s == [] then []
    else
      var front, last := OnlyDigits(s[..|s| - 1]), s[|s| - 1];
      if IsDigit(last) then front + [last] else front
  }

  function Natural(s: string): (n: int)
    ensures n >= 0
  {
    Value(OnlyDigits(s))
  }

  /** The integer a column denotes; only a minus sign in front counts. */
  function Denotes(s: string): int {
    if s != [] && s[0] == '-' then -Natural(s) else Natural(s)
  }

  /** Range of the target type; an unsigned type does not look for a sign. */
  datatype Range = Range(min: int, max: int) {

    predicate Known() {
      max >= 10 && (min == 0 || min == -max - 1)
    }

    predicate Has(i: int) {
      min <= i <= max
    }

    function Meaning(s: string): int {
      if min < 0 then Denotes(s) else Natural(s)
    }
  }

  lemma {:induction false} NaturalSkips(s: string, t: string)
    requires forall i :: 0 <= i < |t| ==> !IsDigit(t[i])
    ensures Natural(s + t) == Natural(s)
  {
    if t == [] {
      assert s + t == s;
    } else {
      assert (s + t)[..|s + t| - 1] == s + t[..|t| - 1];
      NaturalSkips(s, t[..|t| - 1]);
    }
  }

  lemma {:induction false} OnlyDigitsOfDigits(s: string)
    requires AllDigits(s)
    ensures OnlyDigits(s) == s
  {
    if s != [] {
      OnlyDigitsOfDigits(s[..|s| - 1]);
      assert s == s[..|s| - 1] + [s[|s| - 1]];
    }
  }

  /** Reading more of a column never makes the number smaller. */
  lemma {:induction false} NaturalGrows(s: string, k: nat)
    requires k <= |s|
    ensures Natural(s[..k]) <= Natural(s)
  {
    if k < |s| {
      NaturalGrows(s[..|s| - 1], k);
      assert s[..|s| - 1][..k] == s[..k];
      NaturalStep(s[..|s| - 1], s[|s| - 1]);
      assert s == s[..|s| - 1] + [s[|s| - 1]];
    } else {
      assert s[..k] == s;
    }
  }

  lemma NaturalStep(s: string, c: char)
    ensures Natural(s + [c]) == if IsDigit(c) then 10 * Natural(s) + DigitValue(c) else Natural(s)
  {
    assert (s + [c])[..|s|] == s;
    var d := OnlyDigits(s);
    if IsDigit(c) {
      assert OnlyDigits(s + [c]) == d + [c];
      assert (d + [c])[..|d|] == d;
    }
  }

  lemma {:induction false} NaturalWithSign(s: string, c: char)
    requires !IsDigit(c)
    ensures Natural([c] + s) == Natural(s)
  {
    if s == [] {
      NaturalStep([], c);
      assert [] + [c] == [c] + s;
    } else {
      NaturalWithSign(s[..|s| - 1], c);
      assert [c] + s == ([c] + s[..|s| - 1]) + [s[|s| - 1]];
      assert s == s[..|s| - 1] + [s[|s| - 1]];
      NaturalStep([c] + s[..|s| - 1], s[|s| - 1]);
      NaturalStep(s[..|s| - 1], s[|s| - 1]);
    }
  }

  /** The decimal text of an integer denotes it, also with separators behind it. */
  lemma TextDenotes(i: int, tail: string)
    requires forall j :: 0 <= j < |tail| ==> !IsDigit(tail[j])
    ensures Denotes(Text(i) + tail) == i && (i >= 0 ==> Natural(Text(i) + tail) == i)
  {
    var digits := Digits(if i < 0 then -i else i);
    DigitsAreCanonical(if i < 0 then -i else i);
    OnlyDigitsOfDigits(digits);
    NaturalSkips(Text(i), tail);
    if i < 0 {
      NaturalWithSign(digits, '-');
    } else {
      assert IsDigit((digits + tail)[0]);
    }
  }

  /** The number that the longest beginning of a column within the range denotes. */
  function Kept(range: Range, s: string): int {
    if s == [] then 0
    else if range.Has(range.Meaning(s)) then range.Meaning(s)
    else
      Kept(range, s[..|s| - 1])
  }

  lemma OutStaysOut(range: Range, s: string, j: nat)
    requires range.Known() && j <= |s| && !range.Has(range.Meaning(s[..j]))
    ensures !range.Has(range.Meaning(s))
  {
    NaturalGrows(s, j);
    assert j > 0 && s[..j][0] == s[0];
  }

  lemma {:induction false} KeptIs(range: Range, s: string, k: nat)
    requires range.Known() && k < |s|
    requires range.Has(range.Meaning(s[..k])) && !range.Has(range.Meaning(s[..k + 1]))
    ensures Kept(range, s) == range.Meaning(s[..k])
  {
    if |s| == k + 1 {
      assert s[..k + 1] == s;
    } else {
      var front := s[..|s| - 1];
      OutStaysOut(range, s, k + 1);
      assert front[..k] == s[..k] && front[..k + 1] == s[..k + 1];
      KeptIs(range, front, k);
    }
  }

  // ---------------------------------------------------------------------------------------------
  // Overflow policies
  // ---------------------------------------------------------------------------------------------

  datatype Policy = Throw | Ignore | SetToLimit

  /** What a column stands for under a policy; None is the exception. */
  function Element(policy: Policy, range: Range, s: string): Option<int> {
    var i := range.Meaning(s);
    if range.Has(i) then Some(i)
    else
      match policy
      case Throw => None
      case Ignore => Some(Kept(range, s))
      case SetToLimit => Some(if i > range.max then range.max else range.min)
  }

  function Elements(policy: Policy, range: Range, chunks: seq<string>): (r: seq<Option<int>>)
    ensures |r| == |chunks|
  {
    seq(|chunks|, i requires 0 <= i < |chunks| => Element(policy, range, chunks[i]))
  }

  // ---------------------------------------------------------------------------------------------
  // Vectors
  // ---------------------------------------------------------------------------------------------

  predicate Blank(c: char, sep: char) {
    c == ' ' || c == '\t' || c == sep || c == '\r' || c == '\n'
  }

  /** Length of the element in front, without what separates it from the next. */
  function ElementLength(s: string, sep: char): (n: nat)
    ensures n <= |s|
    ensures forall i :: 0 <= i < n ==> s[i] != sep
    ensures n < |s| ==> s[n] == sep
  {
    if s == [] || s[0] == sep then 0 else 1 + ElementLength(s[1..], sep)
  }

  function BlankLength(s: string, sep: char): (n: nat)
    ensures n <= |s|
    ensures forall i :: 0 <= i < n ==> Blank(s[i], sep)
    ensures n < |s| ==> !Blank(s[n], sep)
  {
    if s == [] || !Blank(s[0], sep) then 0 else 1 + BlankLength(s[1..], sep)
  }

  /** Length of the element in front together with the separators behind it. */
  function ChunkLength(s: string, sep: char): (n: nat)
    ensures n <= |s| && (s != [] ==> n > 0)
  {
    var n := ElementLength(s, sep);
    n + BlankLength(s[n..], sep)
  }

  /** The pieces that are parsed one by one. */
  function Chunks(s: string, sep: char): seq<string>
    decreases |s|
  {
    if s == [] then []
    else
      var n := ChunkLength(s, sep);
      [s[..n]] + Chunks(s[n..], sep)
  }

  function Meanings(range: Range, chunks: seq<string>): (r: seq<int>)
    ensures |r| == |chunks|
  {
    seq(|chunks|, i requires 0 <= i < |chunks| => range.Meaning(chunks[i]))
  }

  /** Any run of separators, blanks, tabs and line ends. */
  predicate IsGap(gap: string, sep: char) {
    forall i :: 0 <= i < |gap| ==>
      gap[i] == sep || gap[i] == ' ' || gap[i] == '\t' || gap[i] == '\r' || gap[i] == '\n'
  }

  /** One gap behind each of n elements, with a separator in it unless the element is the last. */
  predicate AreGaps(gaps: seq<string>, n: nat, sep: char) {
    && |gaps| == n
    && (forall i :: 0 <= i < n ==> IsGap(gaps[i], sep))
    && (forall i :: 0 <= i < n - 1 ==> sep in gaps[i])
  }

  /** The texts of the elements, each followed by its gap. */
  function JoinedText(v: seq<int>, gaps: seq<string>): string
    requires |gaps| == |v|
  {
    if v == [] then [] else Text(v[0]) + gaps[0] + JoinedText(v[1..], gaps[1..])
  }

  function TextChunks(v: seq<int>, gaps: seq<string>): (r: seq<string>)
    requires |gaps| == |v|
    ensures |r| == |v|
  {
    seq(|v|, i requires 0 <= i < |v| => Text(v[i]) + gaps[i])
  }

  lemma {:induction false} ElementLengthIs(s: string, sep: char, n: nat)
    requires n <= |s| && (forall i :: 0 <= i < n ==> s[i] != sep) && (n < |s| ==> s[n] == sep)
    ensures ElementLength(s, sep) == n
  {
    if n > 0 {
      ElementLengthIs(s[1..], sep, n - 1);
    }
  }

  lemma {:induction false} BlankLengthIs(s: string, sep: char, n: nat)
    requires n <= |s| && (forall i :: 0 <= i < n ==> Blank(s[i], sep)) && (n < |s| ==> !Blank(s[n], sep))
    ensures BlankLength(s, sep) == n
  {
    if n > 0 {
      BlankLengthIs(s[1..], sep, n - 1);
    }
  }

  lemma TextIsSolid(i: int, sep: char)
    requires !IsDigit(sep) && sep != '-'
    ensures Text(i) != [] && forall j :: 0 <= j < |Text(i)| ==> Text(i)[j] != sep && !Blank(Text(i)[j], sep)
  {
    DigitsAreCanonical(if i < 0 then -i else i);
  }

  /** Where a separator stands first. */
  lemma {:induction false} FirstSeparator(gap: string, sep: char) returns (k: nat)
    ensures k <= |gap| && (forall i :: 0 <= i < k ==> gap[i] != sep) && (k < |gap| ==> gap[k] == sep)
    ensures sep in gap ==> k < |gap|
  {
    k := 0;
    while k < |gap| && gap[k] != sep
      invariant k <= |gap| && forall i :: 0 <= i < k ==> gap[i] != sep
    {
      k := k + 1;
    }
  }

  /** A text and the gap behind it are the chunk in front. */
  lemma ChunkInFront(text: string, gap: string, sep: char, rest: string)
    requires sep !in text && IsGap(gap, sep)
    requires rest == [] || (sep in gap && !Blank(rest[0], sep))
    ensures ChunkLength(text + gap + rest, sep) == |text| + |gap|
  {
    var s := text + gap + rest;
    var k := FirstSeparator(gap, sep);
    var n := |text| + k;
    assert forall i :: |text| <= i < |text| + |gap| ==> s[i] == gap[i - |text|];
    ElementLengthIs(s, sep, n);
    assert s[n..] == gap[k..] + rest;
    BlankLengthIs(gap[k..] + rest, sep, |gap| - k);
  }

  lemma OneChunk(text: string, gap: string, sep: char, rest: string)
    requires text != [] && sep !in text && IsGap(gap, sep)
    requires rest == [] || (sep in gap && !Blank(rest[0], sep))
    ensures Chunks(text + gap + rest, sep) == [text + gap] + Chunks(rest, sep)
  {
    ChunkInFront(text, gap, sep, rest);
    var s, n := text + gap + rest, |text| + |gap|;
    assert s[..n] == text + gap && s[n..] == rest;
  }

  lemma JoinedStarts(v: seq<int>, gaps: seq<string>, sep: char)
    requires v != [] && |gaps| == |v| && !IsDigit(sep) && sep != '-'
    ensures JoinedText(v, gaps) != [] && !Blank(JoinedText(v, gaps)[0], sep)
  {
    TextIsSolid(v[0], sep);
  }

  /** The joined text falls into its elements, whatever stands between them. */
  lemma {:induction false} JoinedTextFalls(v: seq<int>, gaps: seq<string>, sep: char)
    requires !IsDigit(sep) && sep != '-' && AreGaps(gaps, |v|, sep)
    ensures Chunks(JoinedText(v, gaps), sep) == TextChunks(v, gaps)
  {
    if v != [] {
      var rest := JoinedText(v[1..], gaps[1..]);
      JoinedTextFalls(v[1..], gaps[1..], sep);
      TextIsSolid(v[0], sep);
      if |v| > 1 {
        JoinedStarts(v[1..], gaps[1..], sep);
      }
      OneChunk(Text(v[0]), gaps[0], sep, rest);
      assert TextChunks(v, gaps) == [Text(v[0]) + gaps[0]] + TextChunks(v[1..], gaps[1..]);
    }
  }

  lemma GapHasNoDigit(gap: string, sep: char)
    requires !IsDigit(sep) && IsGap(gap, sep)
    ensures forall j :: 0 <= j < |gap| ==> !IsDigit(gap[j])
  {
  }

  /** The joined text of a vector of integers denotes the vector. */
  lemma JoinedTextDenotes(range: Range, v: seq<int>, gaps: seq<string>, sep: char)
    requires !IsDigit(sep) && sep != '-' && AreGaps(gaps, |v|, sep)
    requires forall i :: 0 <= i < |v| ==> v[i] >= 0 || range.min < 0
    ensures Meanings(range, Chunks(JoinedText(v, gaps), sep)) == v
  {
    JoinedTextFalls(v, gaps, sep);
    forall i | 0 <= i < |v|
      ensures range.Meaning(Text(v[i]) + gaps[i]) == v[i]
    {
      GapHasNoDigit(gaps[i], sep);
      TextDenotes(v[i], gaps[i]);
    }
  }

  // ---------------------------------------------------------------------------------------------
  // Integers out of range
  // ---------------------------------------------------------------------------------------------

  /** An integer without its last digit. */
  function WithoutLast(i: int): int {
    if i < 0 then -((-i) / 10) else i / 10
  }

  /** Digits are taken off behind until the number fits. */
  function FirstFit(range: Range, i: int): (r: int)
    requires range.Known()
    ensures range.Has(r)
    decreases if i < 0 then -i else i
  {
    if range.Has(i) then i else FirstFit(range, WithoutLast(i))
  }

  /** What the type makes of an integer in a column: an unsigned one passes over the sign. */
  function Taken(range: Range, i: int): int {
    if i < 0 && range.min >= 0 then -i else i
  }

  /** What a policy makes of an integer. */
  function Fitted(policy: Policy, range: Range, i: int): Option<int>
    requires range.Known()
  {
    if range.Has(i) then Some(i)
    else
      match policy
      case Throw => None
      case Ignore => Some(FirstFit(range, i))
      case SetToLimit => Some(if i > range.max then range.max else range.min)
  }

  lemma {:induction false} KeptSkips(range: Range, s: string, tail: string)
    requires s != [] && forall j :: 0 <= j < |tail| ==> !IsDigit(tail[j])
    ensures Kept(range, s + tail) == Kept(range, s)
  {
    if tail == [] {
      assert s + tail == s;
    } else {
      var front := tail[..|tail| - 1];
      assert (s + tail)[..|s + tail| - 1] == s + front;
      KeptSkips(range, s, front);
      NaturalSkips(s, tail);
      NaturalSkips(s, front);
      assert (s + tail)[0] == s[0] && (s + front)[0] == s[0];
    }
  }

  /** The sign, if any, and digits in front of the last. */
  lemma TextWithoutLast(i: int)
    requires i <= -10 || i >= 10
    ensures var s := Text(i); s[..|s| - 1] == Text(WithoutLast(i))
  {
    var n := if i < 0 then -i else i;
    assert Digits(n) == Digits(n / 10) + [Digit(n % 10)];
  }

  lemma NaturalOfText(i: int)
    ensures Text(i) != [] && Natural(Text(i)) == (if i < 0 then -i else i) && (Text(i)[0] == '-' <==> i < 0)
  {
    var digits := Digits(if i < 0 then -i else i);
    DigitsAreCanonical(if i < 0 then -i else i);
    OnlyDigitsOfDigits(digits);
    if i < 0 {
      NaturalWithSign(digits, '-');
    } else {
      assert IsDigit(digits[0]);
    }
  }

  lemma MeaningOfText(range: Range, i: int)
    ensures Text(i) != [] && range.Meaning(Text(i)) == Taken(range, i)
  {
    NaturalOfText(i);
  }

  lemma {:induction false} KeptOfText(range: Range, i: int)
    requires range.Known()
    ensures Kept(range, Text(i)) == FirstFit(range, Taken(range, i))
    decreases if i < 0 then -i else i
  {
    MeaningOfText(range, i);
    if !range.Has(Taken(range, i)) {
      TextWithoutLast(i);
      KeptOfText(range, WithoutLast(i));
      TakenWithoutLast(range, i);
    }
  }

  lemma TakenWithoutLast(range: Range, i: int)
    ensures WithoutLast(Taken(range, i)) == Taken(range, WithoutLast(i))
  {
  }

  /** An element that is the text of an integer, of any size, with anything but digits behind it. */
  lemma ElementOfText(policy: Policy, range: Range, i: int, tail: string)
    requires range.Known() && forall j :: 0 <= j < |tail| ==> !IsDigit(tail[j])
    ensures Element(policy, range, Text(i) + tail) == Fitted(policy, range, Taken(range, i))
  {
    MeaningOfText(range, i);
    NaturalSkips(Text(i), tail);
    KeptSkips(range, Text(i), tail);
    KeptOfText(range, i);
    assert (Text(i) + tail)[0] == Text(i)[0];
  }
}

/** The bounded integer parsers of csv.h. */
module CsvIntegers {
  import opened Decimal
  import opened CsvText
  import opened CsvFields
  import opened IntegerColumns

  /** What is left in the variable, and whether the overflow policy was called. */
  datatype Result = Fits(value: int) | Overflows(value: int) | Underflows(value: int)

  /** Division of the source language: towards zero. */
  function TruncDiv(a: int, b: nat): int
    requires b > 0
  {
    if a >= 0 then a / b else -((-a) / b)
  }

  function Signed(negative: bool, n: int): int {
    if negative then -n else n
  }

  /** x is the number of the first k characters, and one character more would leave the range. */
  predicate LeavesAt(s: string, x: int, range: Range, negative: bool, k: nat) {
    && k < |s| && range.Has(x) && x == Signed(negative, Natural(s[..k]))
    && !range.Has(Signed(negative, Natural(s[..k + 1])))
  }

  /** x is the part of a number read before it left the range. */
  ghost predicate StoppedAt(s: string, x: int, range: Range, negative: bool) {
    exists k: nat :: LeavesAt(s, x, range, negative, k)
  }

  /** A reading that stopped has kept the longest beginning of the column that fits. */
  lemma StoppedKeeps(range: Range, s: string, from: nat, x: int)
    requires range.Known() && from <= 1 && from <= |s|
    requires from == 1 ==> range.min < 0 && (s[0] == '+' || s[0] == '-')
    requires from == 0 && s != [] ==> range.min == 0 || s[0] != '-'
    requires StoppedAt(s[from..], x, range, from == 1 && s[0] == '-')
    ensures Kept(range, s) == x
  {
    var negative := from == 1 && s[0] == '-';
    var k: nat :| LeavesAt(s[from..], x, range, negative, k);
    MeaningFrom(range, s, from, k);
    MeaningFrom(range, s, from, k + 1);
    KeptIs(range, s, from + k);
  }

  lemma MeaningFrom(range: Range, s: string, from: nat, k: nat)
    requires from <= 1 && from + k <= |s|
    requires from == 1 ==> range.min < 0 && (s[0] == '+' || s[0] == '-')
    requires from == 0 && s != [] ==> range.min >= 0 || s[0] != '-'
    ensures range.Meaning(s[..from + k]) == Signed(from == 1 && s[0] == '-', Natural(s[from..][..k]))
  {
    FromSign(s, from, k);
    if from + k > 0 {
      assert s[..from + k][0] == s[0];
    }
  }

  lemma FromSign(s: string, from: nat, k: nat)
    requires from <= 1 && from + k <= |s| && (from == 1 ==> !IsDigit(s[0]))
    ensures Natural(s[..from + k]) == Natural(s[from..][..k])
  {
    if from == 1 {
      assert s[..1 + k] == [s[0]] + s[1..][..k];
      NaturalWithSign(s[1..][..k], s[0]);
    } else {
      assert s[..k] == s[0..][..k];
    }
  }

  /** parse_unsigned_integer, also used for the positive half of signed types. */
  method ParseUnsigned(buf: array<char>, col: nat, range: Range, ghost s: string) returns (r: Result)
    requires Shows(buf, col, s) && NUL !in s && range.Known()
    ensures r.Fits? <==> Natural(s) <= range.max
    ensures r.Fits? ==> r.value == Natural(s)
    ensures !r.Fits? ==> r.Overflows? && 0 <= r.value <= range.max && StoppedAt(s, r.value, range, false)
  {
    var x, c := 0, col;
    assert s[..0] == [];
    while buf[c] != NUL
      invariant col <= c <= col + |s| && x == Natural(s[..c - col]) <= range.max
      decreases col + |s| - c
    {
      ghost var k := c - col;
      assert s[..k + 1] == s[..k] + [s[k]];
      NaturalStep(s[..k], s[k]);
      NaturalGrows(s, k + 1);
      if '0' <= buf[c] <= '9' {
        var y := (buf[c] - '0') as int;
        OverflowTest(x, y, range.max);
        if x > (range.max - y) / 10 {
          assert LeavesAt(s, x, range, false, k);
          return Overflows(x);
        }
        x := 10 * x + y;
      }
      c := c + 1;
    }
    assert s[..|s|] == s;
    return Fits(x);
  }

  /** The test before a step finds out whether the step would leave the range. */
  lemma OverflowTest(x: nat, y: nat, max: int)
    requires y <= 9 && max >= 10
    ensures x > (max - y) / 10 <==> 10 * x + y > max
  {
  }

  lemma UnderflowTest(x: int, y: nat, min: int)
    requires x <= 0 && y <= 9 && min <= -10
    ensures x < TruncDiv(min + y, 10) <==> 10 * x - y < min
  {
  }

  /** The negative half of parse_signed_integer. */
  method ParseNegative(buf: array<char>, col: nat, range: Range, ghost s: string) returns (r: Result)
    requires Shows(buf, col, s) && NUL !in s && range.Known() && range.min < 0
    ensures r.Fits? <==> -Natural(s) >= range.min
    ensures r.Fits? ==> r.value == -Natural(s)
    ensures !r.Fits? ==> r.Underflows? && range.min <= r.value <= 0 && StoppedAt(s, r.value, range, true)
  {
    var x: int, c := 0, col;
    assert s[..0] == [];
    while buf[c] != NUL
      invariant col <= c <= col + |s| && x == -Natural(s[..c - col]) && x >= range.min
      decreases col + |s| - c
    {
      ghost var k := c - col;
      assert s[..k + 1] == s[..k] + [s[k]];
      NaturalStep(s[..k], s[k]);
      NaturalGrows(s, k + 1);
      if '0' <= buf[c] <= '9' {
        var y := (buf[c] - '0') as int;
        UnderflowTest(x, y, range.min);
        if x < TruncDiv(range.min + y, 10) {
          assert LeavesAt(s, x, range, true, k);
          return Underflows(x);
        }
        x := 10 * x - y;
      }
      c := c + 1;
    }
    assert s[..|s|] == s;
    return Fits(x);
  }

  /** parse_signed_integer: the policy is called exactly when the number denoted is out of range. */
  method ParseSigned(buf: array<char>, col: nat, range: Range, ghost s: string) returns (r: Result)
    requires Shows(buf, col, s) && NUL !in s && range.Known() && range.min < 0
    ensures r.Fits? <==> range.min <= Denotes(s) <= range.max
    ensures r.Fits? ==> r.value == Denotes(s)
    ensures r.Overflows? <==> Denotes(s) > range.max
    ensures r.Underflows? <==> Denotes(s) < range.min
    ensures range.min <= r.value <= range.max && r.value == Kept(range, s)
  {
    if buf[col] == '-' {
      assert s == ['-'] + s[1..];
      NaturalWithSign(s[1..], '-');
      r := ParseNegative(buf, col + 1, range, s[1..]);
      if !r.Fits? {
        StoppedKeeps(range, s, 1, r.value);
      }
    } else if buf[col] == '+' {
      assert s == ['+'] + s[1..];
      NaturalWithSign(s[1..], '+');
      r := ParseUnsigned(buf, col + 1, range, s[1..]);
      if !r.Fits? {
        StoppedKeeps(range, s, 1, r.value);
      }
    } else {
      r := ParseUnsigned(buf, col, range, s);
      if !r.Fits? {
        assert s[0..] == s;
        StoppedKeeps(range, s, 0, r.value);
      }
    }
  }

  /** parse for one of the signed or unsigned integer types. */
  method ParseInteger(buf: array<char>, col: nat, range: Range, ghost s: string) returns (r: Result)
    requires Shows(buf, col, s) && NUL !in s && range.Known()
    ensures r.Fits? <==> range.Has(range.Meaning(s))
    ensures r.Overflows? <==> range.Meaning(s) > range.max
    ensures r.Underflows? <==> range.Meaning(s) < range.min
    ensures range.Has(r.value) && r.value == Kept(range, s)
  {
    if range.min < 0 {
      r := ParseSigned(buf, col, range, s);
    } else {
      r := ParseUnsigned(buf, col, range, s);
      if !r.Fits? {
        assert s[0..] == s;
        StoppedKeeps(range, s, 0, r.value);
      }
    }
  }

  /** What the overflow policy makes of the outcome; None is the exception. */
  function Settled(policy: Policy, range: Range, r: Result): Option<int> {
    match r
    case Fits(x) => Some(x)
    case Overflows(x) => (match policy case Throw => None case Ignore => Some(x) case SetToLimit => Some(range.max))
    case Underflows(x) => (match policy case Throw => None case Ignore => Some(x) case SetToLimit => Some(range.min))
  }

  /** From the start of an element to the start of the next. */
  method FindChunkEnd(buf: array<char>, col: nat, sep: char, ghost s: string) returns (next: nat)
    requires Shows(buf, col, s) && NUL !in s && sep != NUL
    ensures next == col + ChunkLength(s, sep)
  {
    next := col;
    while buf[next] != sep && buf[next] != NUL
      invariant col <= next <= col + |s| && forall i :: col <= i < next ==> buf[i] != sep
      decreases col + |s| - next
    {
      next := next + 1;
    }
    ghost var n := next - col;
    assert forall i :: 0 <= i < n ==> s[i] == buf[col + i];
    ElementLengthIs(s, sep, n);
    while Blank(buf[next], sep)
      invariant col + n <= next <= col + |s| && forall i :: n <= i < next - col ==> Blank(s[i], sep)
      decreases col + |s| - next
    {
      next := next + 1;
    }
    BlankLengthIs(s[n..], sep, next - col - n);
  }

  /** One element: cut off, parsed and, unless the policy throws, put back. */
  method ParseChunk(buf: array<char>, col: nat, next: nat, range: Range, policy: Policy, ghost s: string)
    returns (y: Option<int>)
    requires Shows(buf, col, s) && NUL !in s && range.Known() && col <= next <= col + |s|
    modifies buf
    ensures y == Element(policy, range, s[..next - col])
    ensures y != None ==> forall i :: 0 <= i < buf.Length ==> buf[i] == old(buf[i])
  {
    var end := buf[next];
    buf[next] := NUL;
    var r := ParseInteger(buf, col, range, s[..next - col]);
    y := Settled(policy, range, r);
    if y != None {
      buf[next] := end;
    }
  }

  method ParseElement(buf: array<char>, col: nat, sep: char, range: Range, policy: Policy, ghost s: string)
    returns (next: nat, y: Option<int>)
    requires Shows(buf, col, s) && NUL !in s && sep != NUL && range.Known() && s != []
    modifies buf
    ensures next == col + ChunkLength(s, sep)
    ensures y == Element(policy, range, s[..ChunkLength(s, sep)])
    ensures y != None ==> forall i :: 0 <= i < buf.Length ==> buf[i] == old(buf[i])
    ensures y != None ==> Shows(buf, next, s[ChunkLength(s, sep)..]) && NUL !in s[ChunkLength(s, sep)..]
  {
    next := FindChunkEnd(buf, col, sep, s);
    y := ParseChunk(buf, col, next, range, policy, s);
    if y != None {
      ShowsTail(buf, col, s, ChunkLength(s, sep));
    }
  }

  lemma ShowsTail(buf: array<char>, p: nat, s: string, n: nat)
    requires Shows(buf, p, s) && n <= |s|
    ensures Shows(buf, p + n, s[n..])
  {
  }

  /**
    parse_vector: the text is cut at the separators in place, one element after the other, and put
    together again.  It fails exactly when the policy throws at an element; otherwise the vector is
    what the policy makes of the elements.
   */
  method ParseVector(buf: array<char>, col0: nat, sep: char, range: Range, policy: Policy, ghost s: string)
    returns (v: seq<int>, ok: bool)
    requires Shows(buf, col0, s) && NUL !in s && sep != NUL && range.Known()
    modifies buf
    ensures var all := Elements(policy, range, Chunks(s, sep));
            && (ok <==> None !in all)
            && (ok ==> |v| == |all| && forall i :: 0 <= i < |v| ==> all[i] == Some(v[i]))
    ensures ok ==> forall i :: 0 <= i < buf.Length ==> buf[i] == old(buf[i])
  {
    v, ok := [], true;
    var col := col0;
    ghost var all := Elements(policy, range, Chunks(s, sep));
    ghost var rest := s;
    while buf[col] != NUL
      invariant NUL !in rest && Shows(buf, col, rest) && Reading(range, policy, sep, v, all, rest)
      invariant forall i :: 0 <= i < buf.Length ==> buf[i] == old(buf[i])
      decreases |rest|
    {
      ghost var n := ChunkLength(rest, sep);
      ReadingStep(range, policy, sep, v, all, rest);
      var next, y := ParseElement(buf, col, sep, range, policy, rest);
      if y == None {
        return v, false;
      }
      v, rest, col := v + [y.value], rest[n..], next;
    }
  }

  /** v has been read, and what is still to be read stands for the rest of all. */
  ghost predicate Reading(
      range: Range, policy: Policy, sep: char, v: seq<int>, all: seq<Option<int>>, rest: string) {
    && |v| <= |all| && (forall i :: 0 <= i < |v| ==> all[i] == Some(v[i]))
    && all[|v|..] == Elements(policy, range, Chunks(rest, sep))
  }

  lemma ReadingStep(range: Range, policy: Policy, sep: char, v: seq<int>, all: seq<Option<int>>, rest: string)
    requires Reading(range, policy, sep, v, all, rest) && rest != []
    ensures var y := Element(policy, range, rest[..ChunkLength(rest, sep)]);
            && |v| < |all| && all[|v|] == y
            && (y.Some? ==> Reading(range, policy, sep, v + [y.value], all, rest[ChunkLength(rest, sep)..]))
  {
    assert all[|v| + 1..] == all[|v|..][1..];
  }

  /** The vector written as text and parsed again, for every list of integers and all gaps between them. */
  method ReadJoinedVector(
      buf: array<char>, col: nat, sep: char, range: Range, policy: Policy, v: seq<int>, gaps: seq<string>)
    returns (w: seq<int>, ok: bool)
    requires !IsDigit(sep) && sep != '-' && sep != NUL && range.Known() && AreGaps(gaps, |v|, sep)
    requires Shows(buf, col, JoinedText(v, gaps))
    modifies buf
    ensures ok <==> forall i :: 0 <= i < |v| ==> Fitted(policy, range, Taken(range, v[i])).Some?
    ensures ok ==> |w| == |v| && forall i :: 0 <= i < |v| ==> Some(w[i]) == Fitted(policy, range, Taken(range, v[i]))
    ensures (forall i :: 0 <= i < |v| ==> range.Has(v[i])) ==> ok && w == v
  {
    JoinedTextFalls(v, gaps, sep);
    JoinedHasNoNul(v, gaps, sep);
    ElementsOfTexts(policy, range, v, gaps, sep);
    w, ok := ParseVector(buf, col, sep, range, policy, JoinedText(v, gaps));
  }

  lemma ElementsOfTexts(policy: Policy, range: Range, v: seq<int>, gaps: seq<string>, sep: char)
    requires !IsDigit(sep) && range.Known() && AreGaps(gaps, |v|, sep)
    ensures forall i :: 0 <= i < |v| ==>
              Elements(policy, range, TextChunks(v, gaps))[i] == Fitted(policy, range, Taken(range, v[i]))
  {
    forall i | 0 <= i < |v|
      ensures Elements(policy, range, TextChunks(v, gaps))[i] == Fitted(policy, range, Taken(range, v[i]))
    {
      GapHasNoDigit(gaps[i], sep);
      ElementOfText(policy, range, v[i], gaps[i]);
    }
  }

  lemma {:induction false} JoinedHasNoNul(v: seq<int>, gaps: seq<string>, sep: char)
    requires sep != NUL && AreGaps(gaps, |v|, sep)
    ensures NUL !in JoinedText(v, gaps)
  {
    if v != [] {
      DigitsAreCanonical(if v[0] < 0 then -v[0] else v[0]);
      JoinedHasNoNul(v[1..], gaps[1..], sep);
    }
  }
}
