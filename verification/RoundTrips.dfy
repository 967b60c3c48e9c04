/** What the integer writer (server/jeaiii_to_text.h) writes, the column parser (csv.h) reads back. */
module RoundTrips {
  import opened Decimal
  import opened CsvText
  import opened CsvFields
  import opened IntegerColumns
  import opened CsvIntegers
  import opened ToText

  /** The range that the parser checks for a column of the type. */
  function RangeOf(ty: IntType): (range: Range)
    requires ty.Known()
    ensures range.Known() && forall i :: range.Has(i) <==> ty.Holds(i)
  {
    if ty.signed then Range(-(ty.Modulus() / 2), ty.Modulus() / 2 - 1) else Range(0, ty.Modulus() - 1)
  }

  lemma TextHasNoNul(i: int)
    ensures NUL !in Text(i)
  {
    DigitsAreCanonical(if i < 0 then -i else i);
  }

  /** Writes the integer as a column that ends in NUL. */
  method WriteColumn(buf: array<char>, p: nat, i: int, ty: IntType)
    requires ty.Known() && ty.Holds(i) && p + |Text(i)| < buf.Length
    modifies buf
    ensures Shows(buf, p, Text(i))
  {
    var end := ToTextFromInteger(buf, p, i, ty);
    ghost var s := Text(i);
    forall j | p <= j < end
      ensures buf[j] == s[j - p]
    {
      assert buf[p..end][j - p] == buf[j];
    }
    buf[end] := NUL;
  }

  lemma TextMeans(i: int, range: Range)
    requires range.Has(i)
    ensures range.Meaning(Text(i)) == i && NUL !in Text(i)
  {
    TextHasNoNul(i);
    TextDenotes(i, "");
    assert Text(i) + "" == Text(i);
  }

  /** Every integer of every width and signedness survives being written as a column and parsed again. */
  method WriteAndParse(buf: array<char>, p: nat, i: int, ty: IntType) returns (r: Result)
    requires ty.Known() && ty.Holds(i) && p + |Text(i)| < buf.Length
    modifies buf
    ensures r == Fits(i)
  {
    var range := RangeOf(ty);
    WriteColumn(buf, p, i, ty);
    TextMeans(i, range);
    r := ParseInteger(buf, p, range, Text(i));
  }
}
