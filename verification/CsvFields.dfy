/**
  What the fields of a line of comma-separated values are (csv.h): the line is cut at separators that
  stand outside quotes, fields are trimmed, and quoted fields lose their quotes.
 */
module CsvText {

  datatype Option<T> = None | Some(value: T)

  const NUL := '\0'

  datatype Dialect = Dialect(sep: char, quote: char, trim: set<char>) {

    /** What the policies' template arguments must satisfy to be of use. */
    predicate Proper() {
      sep != quote && sep != NUL && quote != NUL && quote !in trim
    }
  }

  /** An odd number of quotes stands before position i. */
  predicate Open(d: Dialect, s: string, i: nat)
    requires i <= |s|
  {
    if i == 0 then false
    else if s[i - 1] == d.quote then !Open(d, s, i - 1)
    else
      Open(d, s, i - 1)
  }

  /** No separator before position e stands outside quotes. */
  ghost predicate NoSeparatorBefore(d: Dialect, s: string, e: nat)
    requires e <= |s|
  {
    forall i :: 0 <= i < e && s[i] == d.sep ==> Open(d, s, i)
  }

  /** The first field ends at e. */
  ghost predicate IsColumnEnd(d: Dialect, s: string, e: nat) {
    e <= |s| && !Open(d, s, e) && (e == |s| || s[e] == d.sep) && NoSeparatorBefore(d, s, e)
  }

  /** A whole text is one field: it is closed and hides its separators. */
  ghost predicate IsColumn(d: Dialect, s: string) {
    IsColumnEnd(d, s, |s|)
  }

  /** The first field opens a quote and never closes it. */
  ghost predicate IsUnclosed(d: Dialect, s: string) {
    Open(d, s, |s|) && NoSeparatorBefore(d, s, |s|)
  }

  /** Where the first field ends, looking from position i on. */
  function ColumnEndFrom(d: Dialect, s: string, i: nat): Option<nat>
    requires i <= |s|
    decreases |s| - i
  {
    if i == |s| then (if Open(d, s, i) then None else Some(i))
    else if s[i] == d.sep && !Open(d, s, i) then Some(i)
    else
      ColumnEndFrom(d, s, i + 1)
  }

  function ColumnEnd(d: Dialect, s: string): Option<nat> {
    ColumnEndFrom(d, s, 0)
  }

  lemma {:induction false} ColumnEndIs(d: Dialect, s: string, i: nat, e: nat)
    requires i <= e && IsColumnEnd(d, s, e)
    ensures ColumnEndFrom(d, s, i) == Some(e)
    decreases e - i
  {
    if i < e {
      ColumnEndIs(d, s, i + 1, e);
    }
  }

  lemma {:induction false} ColumnEndIsNone(d: Dialect, s: string, i: nat)
    requires i <= |s| && IsUnclosed(d, s)
    ensures ColumnEndFrom(d, s, i) == None
    decreases |s| - i
  {
    if i < |s| {
      ColumnEndIsNone(d, s, i + 1);
    }
  }

  lemma {:induction false} ColumnEndMeans(d: Dialect, s: string, i: nat)
    requires i <= |s| && NoSeparatorBefore(d, s, i)
    ensures match ColumnEndFrom(d, s, i)
            case Some(e) => IsColumnEnd(d, s, e)
            case None => IsUnclosed(d, s)
    decreases |s| - i
  {
    if i < |s| && !(s[i] == d.sep && !Open(d, s, i)) {
      ColumnEndMeans(d, s, i + 1);
    }
  }

  // ---------------------------------------------------------------------------------------------
  // One field
  // ---------------------------------------------------------------------------------------------

  function TrimFront(d: Dialect, s: string): string {
    if s != [] && s[0] in d.trim then TrimFront(d, s[1..]) else s
  }

  function TrimBack(d: Dialect, s: string): string {
    if s != [] && s[|s| - 1] in d.trim then TrimBack(d, s[..|s| - 1]) else s
  }

  function Trimmed(d: Dialect, s: string): string {
    TrimBack(d, TrimFront(d, s))
  }

  /** Every doubled quote becomes one. */
  function Collapsed(d: Dialect, s: string): (r: string)
    ensures |r| <= |s|
  {
    if s == [] then []
    else if |s| >= 2 && s[0] == d.quote && s[1] == d.quote then [d.quote] + Collapsed(d, s[2..])
    else
      [s[0]] + Collapsed(d, s[1..])
  }

  function Unescaped(d: Dialect, s: string): string {
    if |s| >= 2 && s[0] == d.quote && s[|s| - 1] == d.quote then Collapsed(d, s[1..|s| - 1]) else s
  }

  function FieldText(d: Dialect, column: string): string {
    Unescaped(d, Trimmed(d, column))
  }

  // ---------------------------------------------------------------------------------------------
  // A line
  // ---------------------------------------------------------------------------------------------

  datatype Outcome<T> = Parsed(value: T) | TooFewColumns | TooManyColumns | QuoteNotClosed

  /** The first n columns of a line, which must be all of them; None stands for a used-up line. */
  function Columns(d: Dialect, line: Option<string>, n: nat): Outcome<seq<string>>
    decreases n
  {
    if n == 0 then
      if line.None? then Parsed([]) else TooManyColumns
    else if line.None? then TooFewColumns
    else
      match ColumnEnd(d, line.value)
      case None => QuoteNotClosed
      case Some(e) =>
        ColumnEndMeans(d, line.value, 0);
        match Columns(d, RestOfLine(line.value, e), n - 1)
        case Parsed(rest) => Parsed([line.value[..e]] + rest)
        case other => other
  }

  function RestOfLine(s: string, e: nat): Option<string>
    requires e <= |s|
  {
    if e == |s| then None else Some(s[e + 1..])
  }

  // ---------------------------------------------------------------------------------------------
  // Writing
  // ---------------------------------------------------------------------------------------------

  function Doubled(d: Dialect, f: string): string {
    if f == [] then []
    else if f[0] == d.quote then [d.quote, d.quote] + Doubled(d, f[1..])
    else
      [f[0]] + Doubled(d, f[1..])
  }

  function Quoted(d: Dialect, f: string): string {
    [d.quote] + Doubled(d, f) + [d.quote]
  }

  /** A field that may be written without quotes. */
  predicate Plain(d: Dialect, f: string) {
    && d.quote !in f && d.sep !in f
    && (f != [] ==> f[0] !in d.trim && f[|f| - 1] !in d.trim)
  }

  /** A text with blanks around it, written with or without quotes. */
  datatype Field = Bare(before: string, text: string, after: string)
                 | InQuotes(before: string, text: string, after: string)

  predicate AllTrim(d: Dialect, s: string) {
    forall i :: 0 <= i < |s| ==> s[i] in d.trim
  }

  predicate Blanks(d: Dialect, s: string) {
    AllTrim(d, s) && d.sep !in s
  }

  predicate Writable(d: Dialect, f: Field) {
    Blanks(d, f.before) && Blanks(d, f.after) && (f.Bare? ==> Plain(d, f.text))
  }

  function Core(d: Dialect, f: Field): string {
    match f
    case Bare(_, text, _) => text
    case InQuotes(_, text, _) => Quoted(d, text)
  }

  function Written(d: Dialect, f: Field): string {
    f.before + Core(d, f) + f.after
  }

  /** Columns with separators in between. */
  function Line(d: Dialect, columns: seq<string>): string
    requires columns != []
  {
    if |columns| == 1 then columns[0] else columns[0] + [d.sep] + Line(d, columns[1..])
  }

  function Joined(d: Dialect, fields: seq<Field>): string
    requires fields != []
  {
    Line(d, AllWritten(d, fields))
  }

  function AllWritten(d: Dialect, fields: seq<Field>): (r: seq<string>)
    ensures |r| == |fields|
  {
    seq(|fields|, i requires 0 <= i < |fields| => Written(d, fields[i]))
  }

  lemma {:induction false} CollapsedDoubled(d: Dialect, f: string)
    ensures Collapsed(d, Doubled(d, f)) == f
  {
    if f != [] {
      CollapsedDoubled(d, f[1..]);
      var rest := Doubled(d, f[1..]);
      if f[0] == d.quote {
        assert ([d.quote, d.quote] + rest)[2..] == rest;
      } else {
        assert ([f[0]] + rest)[1..] == rest;
      }
    }
  }

  function Quotes(d: Dialect, k: nat): string {
    if k == 0 then [] else [d.quote] + Quotes(d, k - 1)
  }

  /** Of a run of quotes one half is kept, rounded up; other characters stay. */
  lemma {:induction false} RunsAreHalved(d: Dialect, half: nat, k: nat, rest: string)
    requires (k == 2 * half || k + 1 == 2 * half) && (rest == [] || rest[0] != d.quote)
    ensures Collapsed(d, Quotes(d, k) + rest) == Quotes(d, half) + Collapsed(d, rest)
  {
    if k <= 1 {
      ShortRun(d, k, rest);
    } else {
      RunsAreHalved(d, half - 1, k - 2, rest);
      MoreRun(d, Quotes(d, k - 2), rest, Quotes(d, half - 1));
      TwoMore(d, k);
      assert Quotes(d, half) == [d.quote] + Quotes(d, half - 1);
    }
  }

  lemma MoreRun(d: Dialect, run: string, rest: string, kept: string)
    requires Collapsed(d, run + rest) == kept + Collapsed(d, rest)
    ensures Collapsed(d, [d.quote, d.quote] + run + rest) == [d.quote] + kept + Collapsed(d, rest)
  {
    var s := [d.quote, d.quote] + run + rest;
    assert s[2..] == run + rest;
  }

  lemma TwoMore(d: Dialect, k: nat)
    requires k >= 2
    ensures Quotes(d, k) == [d.quote, d.quote] + Quotes(d, k - 2)
  {
    assert Quotes(d, k) == [d.quote] + Quotes(d, k - 1);
  }

  lemma OthersStay(d: Dialect, rest: string)
    requires rest != [] && rest[0] != d.quote
    ensures Collapsed(d, rest) == [rest[0]] + Collapsed(d, rest[1..])
  {
  }

  lemma ShortRun(d: Dialect, k: nat, rest: string)
    requires k <= 1 && (rest == [] || rest[0] != d.quote)
    ensures Collapsed(d, Quotes(d, k) + rest) == Quotes(d, k) + Collapsed(d, rest)
  {
    if k == 0 {
      assert Quotes(d, 0) + rest == rest;
    } else {
      assert Quotes(d, 1) + rest == [d.quote] + rest;
      assert ([d.quote] + rest)[1..] == rest;
    }
  }

  /** Only a text with a quote at either end is unescaped. */
  lemma UnescapedMeans(d: Dialect, s: string)
    ensures forall inner :: s == [d.quote] + inner + [d.quote] ==> Unescaped(d, s) == Collapsed(d, inner)
    ensures (forall inner :: s != [d.quote] + inner + [d.quote]) ==> Unescaped(d, s) == s
  {
    forall inner | s == [d.quote] + inner + [d.quote]
      ensures Unescaped(d, s) == Collapsed(d, inner)
    {
      assert s[1..|s| - 1] == inner;
    }
    if |s| >= 2 && s[0] == d.quote && s[|s| - 1] == d.quote {
      assert s == [d.quote] + s[1..|s| - 1] + [d.quote];
    }
  }

  lemma {:induction false} FrontIsTrimmed(d: Dialect, a: string, s: string)
    requires AllTrim(d, a)
    ensures TrimFront(d, a + s) == TrimFront(d, s)
  {
    if a == [] {
      assert a + s == s;
    } else {
      assert (a + s)[1..] == a[1..] + s;
      FrontIsTrimmed(d, a[1..], s);
    }
  }

  lemma {:induction false} BackIsTrimmed(d: Dialect, s: string, b: string)
    requires AllTrim(d, b)
    ensures TrimBack(d, s + b) == TrimBack(d, s)
  {
    if b == [] {
      assert s + b == s;
    } else {
      assert (s + b)[..|s + b| - 1] == s + b[..|b| - 1];
      BackIsTrimmed(d, s, b[..|b| - 1]);
    }
  }

  /** Nothing is left to be trimmed. */
  predicate IsTrim(d: Dialect, t: string) {
    t != [] ==> t[0] !in d.trim && t[|t| - 1] !in d.trim
  }

  /** Trimming finds the text between the trim characters. */
  lemma TrimmedIs(d: Dialect, a: string, t: string, b: string)
    requires AllTrim(d, a) && AllTrim(d, b) && IsTrim(d, t)
    ensures Trimmed(d, a + t + b) == t
  {
    assert a + t + b == a + (t + b);
    FrontIsTrimmed(d, a, t + b);
    if t == [] {
      assert t + b == b + [];
      FrontIsTrimmed(d, b, []);
    } else {
      BackIsTrimmed(d, t, b);
    }
  }

  /** t stands in s between trim characters. */
  predicate Between(d: Dialect, s: string, a: string, t: string, b: string) {
    AllTrim(d, a) && AllTrim(d, b) && s == a + t + b
  }

  /** Trimming takes away all trim characters at both ends, and nothing else. */
  lemma TrimmedMeans(d: Dialect, s: string, t: string)
    ensures Trimmed(d, s) == t <==> IsTrim(d, t) && exists a, b :: Between(d, s, a, t, b)
  {
    var a, rest := CutFront(d, s);
    var b := CutBack(d, rest);
    assert a + (Trimmed(d, s) + b) == a + Trimmed(d, s) + b;
    assert Between(d, s, a, Trimmed(d, s), b);
    forall a, b | Between(d, s, a, t, b) && IsTrim(d, t)
      ensures Trimmed(d, s) == t
    {
      TrimmedIs(d, a, t, b);
    }
  }

  lemma {:induction false} CutFront(d: Dialect, s: string) returns (a: string, t: string)
    ensures t == TrimFront(d, s) && s == a + t && AllTrim(d, a) && (t != [] ==> t[0] !in d.trim)
  {
    if s != [] && s[0] in d.trim {
      a, t := CutFront(d, s[1..]);
      a := [s[0]] + a;
    } else {
      a, t := [], s;
    }
  }

  lemma {:induction false} CutBack(d: Dialect, s: string) returns (b: string)
    requires s != [] ==> s[0] !in d.trim
    ensures s == TrimBack(d, s) + b && AllTrim(d, b) && IsTrim(d, TrimBack(d, s))
  {
    if s != [] && s[|s| - 1] in d.trim {
      b := CutBack(d, s[..|s| - 1]);
      b := b + [s[|s| - 1]];
    } else {
      b := [];
    }
  }

  /** Reading one written field gives its text back, without the blanks. */
  lemma FieldReadsBack(d: Dialect, f: Field)
    requires d.Proper() && Writable(d, f)
    ensures FieldText(d, Written(d, f)) == f.text
  {
    var s := Core(d, f);
    TrimmedIs(d, f.before, s, f.after);
    if f.InQuotes? {
      CollapsedDoubled(d, f.text);
      assert s[1..|s| - 1] == Doubled(d, f.text);
    }
  }

  lemma {:induction false} OpenAppend(d: Dialect, a: string, b: string, i: nat)
    requires i <= |b|
    ensures Open(d, a + b, |a| + i) == (Open(d, a, |a|) != Open(d, b, i))
  {
    if i > 0 {
      OpenAppend(d, a, b, i - 1);
    } else {
      OpenPrefix(d, a, a + b, |a|);
    }
  }

  lemma {:induction false} OpenPrefix(d: Dialect, a: string, b: string, i: nat)
    requires i <= |a| && a <= b
    ensures Open(d, a, i) == Open(d, b, i)
  {
    if i > 0 {
      OpenPrefix(d, a, b, i - 1);
    }
  }

  /** Doubled text has closed quotes at its end, and at every separator in it. */
  lemma {:induction false} DoubledIsBalanced(d: Dialect, f: string)
    requires d.Proper()
    ensures !Open(d, Doubled(d, f), |Doubled(d, f)|)
    ensures forall i :: 0 <= i < |Doubled(d, f)| && Doubled(d, f)[i] == d.sep ==> !Open(d, Doubled(d, f), i)
  {
    if f != [] {
      DoubledIsBalanced(d, f[1..]);
      var head, rest := if f[0] == d.quote then [d.quote, d.quote] else [f[0]], Doubled(d, f[1..]);
      assert f[0] == d.quote ==> Open(d, head, 1);
      assert !Open(d, head, |head|);
      OpenAppend(d, head, rest, |rest|);
      forall i | 0 <= i < |head + rest| && (head + rest)[i] == d.sep
        ensures !Open(d, head + rest, i)
      {
        if i >= |head| {
          OpenAppend(d, head, rest, i - |head|);
        }
      }
    }
  }

  /** A field written without its blanks is balanced and hides its separators. */
  lemma CoreIsOneColumn(d: Dialect, f: Field)
    requires d.Proper() && Writable(d, f)
    ensures IsColumn(d, Core(d, f))
  {
    var s := Core(d, f);
    if f.Bare? {
      BareIsClosed(d, s, |s|);
    } else {
      var inner := Doubled(d, f.text);
      DoubledIsBalanced(d, f.text);
      assert s == [d.quote] + (inner + [d.quote]);
      OpenAppend(d, [d.quote], inner + [d.quote], |inner| + 1);
      OpenAppend(d, inner, [d.quote], 1);
      forall i | 0 <= i < |s| && s[i] == d.sep
        ensures Open(d, s, i)
      {
        OpenAppend(d, [d.quote], inner + [d.quote], i - 1);
        OpenPrefix(d, inner, inner + [d.quote], i - 1);
      }
    }
  }

  lemma ColumnsAppend(d: Dialect, a: string, b: string)
    requires IsColumn(d, a) && IsColumn(d, b)
    ensures IsColumn(d, a + b)
  {
    OpenAppend(d, a, b, |b|);
    forall i | 0 <= i < |a + b| && (a + b)[i] == d.sep
      ensures Open(d, a + b, i)
    {
      if i < |a| {
        OpenPrefix(d, a, a + b, i);
      } else {
        OpenAppend(d, a, b, i - |a|);
      }
    }
  }

  lemma WrittenIsOneColumn(d: Dialect, f: Field)
    requires d.Proper() && Writable(d, f)
    ensures IsColumn(d, Written(d, f))
  {
    CoreIsOneColumn(d, f);
    BareIsClosed(d, f.before, |f.before|);
    BareIsClosed(d, f.after, |f.after|);
    ColumnsAppend(d, f.before, Core(d, f));
    ColumnsAppend(d, f.before + Core(d, f), f.after);
  }

  lemma {:induction false} BareIsClosed(d: Dialect, s: string, i: nat)
    requires i <= |s| && d.quote !in s
    ensures !Open(d, s, i)
  {
    if i > 0 {
      BareIsClosed(d, s, i - 1);
    }
  }

  /** Before a separator or the end of the line a column ends where it ends on its own. */
  lemma ColumnThenRest(d: Dialect, column: string, rest: string)
    requires IsColumn(d, column) && (rest == [] || rest[0] == d.sep)
    ensures ColumnEnd(d, column + rest) == Some(|column|)
  {
    var s := column + rest;
    forall i | 0 <= i <= |column|
      ensures Open(d, s, i) == Open(d, column, i)
    {
      OpenPrefix(d, column, s, i);
    }
    ColumnEndIs(d, s, 0, |column|);
  }

  // ---------------------------------------------------------------------------------------------
  // What cutting a line comes to
  // ---------------------------------------------------------------------------------------------

  /** s is columns with separators in between, each closed and hiding its separators. */
  ghost predicate AreColumns(d: Dialect, s: string, columns: seq<string>) {
    && columns != [] && Line(d, columns) == s
    && forall i :: 0 <= i < |columns| ==> IsColumn(d, columns[i])
  }

  /** The same, but the quote opened in the last column is never closed. */
  ghost predicate EndsOpen(d: Dialect, s: string, columns: seq<string>) {
    && columns != [] && Line(d, columns) == s && IsUnclosed(d, columns[|columns| - 1])
    && forall i :: 0 <= i < |columns| - 1 ==> IsColumn(d, columns[i])
  }

  ghost predicate FallsInto(d: Dialect, s: string, columns: seq<string>) {
    AreColumns(d, s, columns) || EndsOpen(d, s, columns)
  }

  lemma CutFirst(d: Dialect, first: string, rest: string, n: nat)
    requires IsColumn(d, first)
    ensures Columns(d, Some(first + [d.sep] + rest), n + 1)
         == match Columns(d, Some(rest), n)
            case Parsed(more) => Parsed([first] + more)
            case other => other
  {
    var s := first + ([d.sep] + rest);
    ColumnThenRest(d, first, [d.sep] + rest);
    assert first + [d.sep] + rest == s;
    assert s[|first| + 1..] == rest && s[..|first|] == first;
  }

  lemma CutLast(d: Dialect, last: string, n: nat)
    requires IsColumn(d, last)
    ensures Columns(d, Some(last), n + 1) == if n == 0 then Parsed([last]) else TooFewColumns
  {
    ColumnThenRest(d, last, []);
    assert last + [] == last && last[..|last|] == last;
    assert Columns(d, RestOfLine(last, |last|), n) == if n == 0 then Parsed([]) else TooFewColumns;
    assert [last] + [] == [last];
  }

  /** The columns of a line and the number of columns wanted decide what comes of it. */
  lemma {:induction false} ColumnsDecide(d: Dialect, s: string, columns: seq<string>, n: nat)
    requires FallsInto(d, s, columns)
    ensures Columns(d, Some(s), n)
         == if n < |columns| then TooManyColumns
            else if EndsOpen(d, s, columns) then QuoteNotClosed
            else if n == |columns| then Parsed(columns)
            else TooFewColumns
    decreases n
  {
    if n > 0 {
      if |columns| == 1 {
        LastDecides(d, s, columns, n);
      } else {
        var rest := Line(d, columns[1..]);
        assert EndsOpen(d, s, columns) <==> EndsOpen(d, rest, columns[1..]);
        ColumnsDecide(d, rest, columns[1..], n - 1);
        CutFirst(d, columns[0], rest, n - 1);
        assert [columns[0]] + columns[1..] == columns;
      }
    }
  }

  lemma LastDecides(d: Dialect, s: string, columns: seq<string>, n: nat)
    requires n > 0 && |columns| == 1 && FallsInto(d, s, columns)
    ensures Columns(d, Some(s), n)
         == if EndsOpen(d, s, columns) then QuoteNotClosed
            else if n == 1 then Parsed(columns)
            else TooFewColumns
  {
    if IsUnclosed(d, s) {
      ColumnEndIsNone(d, s, 0);
    } else {
      CutLast(d, s, n - 1);
      assert columns == [s];
    }
  }

  /** Every line falls into columns. */
  lemma {:induction false} LineFalls(d: Dialect, s: string) returns (columns: seq<string>)
    ensures FallsInto(d, s, columns)
    decreases |s|
  {
    ColumnEndMeans(d, s, 0);
    var e := ColumnEnd(d, s);
    if e == None || e.value == |s| {
      columns := [s];
    } else {
      var rest := LineFalls(d, s[e.value + 1..]);
      columns := [s[..e.value]] + rest;
      FirstIsColumn(d, s, e.value);
      assert columns[1..] == rest;
      assert s == s[..e.value] + [d.sep] + s[e.value + 1..];
    }
  }

  lemma FirstIsColumn(d: Dialect, s: string, e: nat)
    requires IsColumnEnd(d, s, e)
    ensures IsColumn(d, s[..e])
  {
    forall i | 0 <= i <= e
      ensures Open(d, s[..e], i) == Open(d, s, i)
    {
      OpenPrefix(d, s[..e], s, i);
    }
  }

  /** Each outcome says exactly what the line falls into. */
  lemma ColumnsMean(d: Dialect, s: string, n: nat)
    ensures forall columns :: Columns(d, Some(s), n) == Parsed(columns) <==> |columns| == n && AreColumns(d, s, columns)
    ensures Columns(d, Some(s), n) == TooFewColumns <==> exists columns :: AreColumns(d, s, columns) && |columns| < n
    ensures Columns(d, Some(s), n) == TooManyColumns <==> exists columns :: FallsInto(d, s, columns) && n < |columns|
    ensures Columns(d, Some(s), n) == QuoteNotClosed <==> exists columns :: EndsOpen(d, s, columns) && |columns| <= n
  {
    var found := LineFalls(d, s);
    ColumnsDecide(d, s, found, n);
    forall columns | FallsInto(d, s, columns)
      ensures Columns(d, Some(s), n)
           == if n < |columns| then TooManyColumns
              else if EndsOpen(d, s, columns) then QuoteNotClosed
              else if n == |columns| then Parsed(columns)
              else TooFewColumns
    {
      ColumnsDecide(d, s, columns, n);
    }
    ClosedOrOpen(d, s);
  }

  lemma ClosedOrOpen(d: Dialect, s: string)
    ensures forall columns :: !(AreColumns(d, s, columns) && EndsOpen(d, s, columns))
  {
  }

  /** A written line falls into its written columns. */
  lemma ColumnsReadBack(d: Dialect, fields: seq<Field>)
    requires d.Proper() && fields != [] && forall i :: 0 <= i < |fields| ==> Writable(d, fields[i])
    ensures Columns(d, Some(Joined(d, fields)), |fields|) == Parsed(AllWritten(d, fields))
  {
    forall i | 0 <= i < |fields|
      ensures IsColumn(d, AllWritten(d, fields)[i])
    {
      WrittenIsOneColumn(d, fields[i]);
    }
    ColumnsMean(d, Joined(d, fields), |fields|);
  }

  /** RFC 4180, section 2, items 5 to 7: what is written field by field is read field by field. */
  lemma LineReadsBack(d: Dialect, fields: seq<Field>)
    requires d.Proper() && fields != [] && forall i :: 0 <= i < |fields| ==> Writable(d, fields[i])
    ensures Columns(d, Some(Joined(d, fields)), |fields|) == Parsed(AllWritten(d, fields))
    ensures forall i :: 0 <= i < |fields| ==> FieldText(d, AllWritten(d, fields)[i]) == fields[i].text
  {
    ColumnsReadBack(d, fields);
    forall i | 0 <= i < |fields|
      ensures FieldText(d, AllWritten(d, fields)[i]) == fields[i].text
    {
      FieldReadsBack(d, fields[i]);
    }
  }
}

/** The in-place field cutter of csv.h. */
module CsvFields {
  import opened CsvText

  /** The text s stands at p, with its terminator. */
  ghost predicate Shows(buf: array<char>, p: nat, s: string)
    reads buf
  {
    && p + |s| < buf.Length && buf[p + |s|] == NUL
    && forall i :: p <= i < p + |s| ==> buf[i] == s[i - p]
  }

  /** double_quote_escape::find_next_column_end */
  method FindNextColumnEnd(d: Dialect, buf: array<char>, begin: nat, ghost s: string) returns (r: Option<nat>)
    requires d.Proper() && Shows(buf, begin, s) && NUL !in s
    ensures r == match ColumnEnd(d, s)
                 case Some(e) => Some(begin + e)
                 case None => None
  {
    var c := begin;
    while buf[c] != d.sep && buf[c] != NUL
      invariant begin <= c <= begin + |s|
      invariant !Open(d, s, c - begin) && NoSeparatorBefore(d, s, c - begin)
      decreases begin + |s| - c
    {
      if buf[c] != d.quote {
        c := c + 1;
      } else {
        var again := true;
        ghost var first := c;
        while again
          invariant again || c > first
          invariant first <= c <= begin + |s| && (again ==> c < begin + |s| && buf[c] == d.quote)
          invariant !Open(d, s, c - begin) && NoSeparatorBefore(d, s, c - begin)
          decreases begin + |s| - c, again
        {
          ghost var quoteAt := c;
          c := c + 1;
          while buf[c] != d.quote
            invariant quoteAt < c <= begin + |s|
            invariant Open(d, s, c - begin) && NoSeparatorBefore(d, s, c - begin)
            decreases begin + |s| - c
          {
            if buf[c] == NUL {
              ColumnEndIsNone(d, s, 0);
              return None;
            }
            c := c + 1;
          }
          c := c + 1;
          again := buf[c] == d.quote;
        }
      }
    }
    ColumnEndIs(d, s, 0, c - begin);
    return Some(c);
  }

  /** chop_next_column: ends the column in place; -1 stands for the null pointer. */
  method ChopNextColumn(d: Dialect, buf: array<char>, line: nat, ghost s: string)
    returns (ok: bool, rest: int, colBegin: nat, colEnd: nat)
    requires d.Proper() && Shows(buf, line, s) && NUL !in s
    modifies buf
    ensures colBegin == line && (ok ==> line <= colEnd <= line + |s|)
    ensures ColumnEnd(d, s) == if ok then Some(colEnd - line) else None
    ensures !ok ==> forall i :: 0 <= i < buf.Length ==> buf[i] == old(buf[i])
    ensures ok ==> Shows(buf, line, s[..colEnd - line])
    ensures ok ==> forall i :: 0 <= i < buf.Length && i != colEnd ==> buf[i] == old(buf[i])
    ensures ok ==> match RestOfLine(s, colEnd - line)
                   case None => rest == -1
                   case Some(s') => rest == colEnd + 1 && Shows(buf, colEnd + 1, s')
  {
    colBegin, rest, colEnd := line, -1, 0;
    ColumnEndMeans(d, s, 0);
    var end := FindNextColumnEnd(d, buf, line, s);
    if end == None {
      return false, -1, line, 0;
    }
    ok, colEnd := true, end.value;
    if buf[colEnd] == NUL {
      rest := -1;
    } else {
      buf[colEnd] := NUL;
      rest := colEnd + 1;
    }
  }

  /** trim_chars::trim: narrows the column and ends it anew. */
  method Trim(d: Dialect, buf: array<char>, colBegin: nat, colEnd: nat, ghost s: string) returns (b: nat, e: nat)
    requires colBegin + |s| == colEnd && Shows(buf, colBegin, s)
    modifies buf
    ensures colBegin <= b <= e <= colEnd && e == b + |Trimmed(d, s)| && Shows(buf, b, Trimmed(d, s))
    ensures forall i :: 0 <= i < buf.Length && !(colBegin <= i <= colEnd) ==> buf[i] == old(buf[i])
  {
    b, e := colBegin, colEnd;
    ghost var rest := s;
    while b != e && buf[b] in d.trim
      invariant colBegin <= b <= e && b + |rest| == e && Shows(buf, b, rest)
      invariant TrimFront(d, rest) == TrimFront(d, s)
    {
      b, rest := b + 1, rest[1..];
    }
    while b != e && buf[e - 1] in d.trim
      invariant b <= e <= colEnd && b + |rest| == e
      invariant forall i :: b <= i < e ==> buf[i] == rest[i - b]
      invariant TrimBack(d, rest) == Trimmed(d, s)
    {
      e, rest := e - 1, rest[..|rest| - 1];
    }
    buf[e] := NUL;
  }

  /** double_quote_escape::unescape: removes the quotes and collapses doubled ones in place. */
  method Unescape(d: Dialect, buf: array<char>, colBegin: nat, colEnd: nat, ghost s: string) returns (b: nat, e: nat)
    requires colBegin + |s| == colEnd && Shows(buf, colBegin, s)
    modifies buf
    ensures colBegin <= b <= e <= colEnd && e == b + |Unescaped(d, s)| && Shows(buf, b, Unescaped(d, s))
    ensures forall i :: 0 <= i < buf.Length && !(colBegin <= i <= colEnd) ==> buf[i] == old(buf[i])
  {
    b, e := colBegin, colEnd;
    if e - b >= 2 {
      if buf[b] == d.quote && buf[e - 1] == d.quote {
        b, e := b + 1, e - 1;
        e := Collapse(d, buf, b, e, s[1..|s| - 1]);
        buf[e] := NUL;
      }
    }
  }

  lemma CollapsedStep(d: Dialect, done: string, rest: string, next: nat)
    requires rest != []
    requires next == if |rest| >= 2 && rest[0] == d.quote && rest[1] == d.quote then 2 else 1
    ensures done + Collapsed(d, rest) == (done + [rest[next - 1]]) + Collapsed(d, rest[next..])
  {
  }

  /** The copying loop: the writing position never overtakes the reading position. */
  method Collapse(d: Dialect, buf: array<char>, b: nat, e: nat, ghost s: string) returns (out: nat)
    requires b + |s| == e <= buf.Length && forall i :: b <= i < e ==> buf[i] == s[i - b]
    modifies buf
    ensures out == b + |Collapsed(d, s)| <= e
    ensures forall i :: b <= i < out ==> buf[i] == Collapsed(d, s)[i - b]
    ensures forall i :: 0 <= i < buf.Length && !(b <= i < e) ==> buf[i] == old(buf[i])
  {
    out := b;
    var from := b;
    ghost var done, rest := "", s;
    while from != e
      invariant b <= out <= from && from + |rest| == e && out == b + |done|
      invariant Collapsed(d, s) == done + Collapsed(d, rest)
      invariant forall i :: b <= i < out ==> buf[i] == done[i - b]
      invariant forall i :: from <= i < e ==> buf[i] == rest[i - from]
      invariant forall i :: 0 <= i < buf.Length && !(b <= i < e) ==> buf[i] == old(buf[i])
      decreases e - from
    {
      ghost var next := if |rest| >= 2 && rest[0] == d.quote && rest[1] == d.quote then 2 else 1;
      if buf[from] == d.quote && from + 1 != e && buf[from + 1] == d.quote {
        from := from + 1;
      }
      CollapsedStep(d, done, rest, next);
      done, rest := done + [buf[from]], rest[next..];
      buf[out] := buf[from];
      out, from := out + 1, from + 1;
    }
  }

  // ---------------------------------------------------------------------------------------------
  // parse_line
  // ---------------------------------------------------------------------------------------------

  /** What the row holds after the columns have been stored in the given order. */
  function Stored(size: nat, order: seq<int>, texts: seq<string>): (r: seq<Option<string>>)
    requires |texts| == |order| && forall j :: 0 <= j < |order| ==> -1 <= order[j] < size
    ensures |r| == size
    decreases |order|
  {
    if order == [] then seq(size, _ => None)
    else
      var n := |order| - 1;
      var r := Stored(size, order[..n], texts[..n]);
      if order[n] == -1 then r else r[order[n] := Some(texts[n])]
  }

  function FieldTexts(d: Dialect, columns: seq<string>): (r: seq<string>)
    ensures |r| == |columns|
  {
    seq(|columns|, i requires 0 <= i < |columns| => FieldText(d, columns[i]))
  }

  /** Column i of the row, where set, is pointed to below `limit`. */
  ghost predicate RowShows(buf: array<char>, ptrs: seq<int>, row: seq<Option<string>>, limit: nat)
    reads buf
  {
    && |ptrs| == |row|
    && forall i :: 0 <= i < |row| && row[i].Some? ==> PointsTo(buf, ptrs[i], row[i].value, limit)
  }

  ghost predicate PointsTo(buf: array<char>, ptr: int, text: string, limit: nat)
    reads buf
  {
    ptr >= 0 && ptr + |text| < limit && Shows(buf, ptr, text)
  }

  /** The line that is left: nothing for the null pointer, or the text s at `line`. */
  ghost predicate LineAt(buf: array<char>, line: int, rest: Option<string>, end: nat)
    reads buf
  {
    match rest
    case None => line == -1
    case Some(s) => line >= 0 && line + |s| == end && NUL !in s && Shows(buf, line, s)
  }

  /** Where the cells not yet cut begin. */
  function Limit(line: int, end: nat): nat {
    if line >= 0 then line else end + 1
  }

  /** One round of parse_line for a column that is there: cut it, clean it, store where it begins. */
  method StoreColumn(
      d: Dialect, buf: array<char>, line: nat, sortedCol: array<int>, i: int, ghost s: string, ghost end: nat,
      ghost row: seq<Option<string>>)
    returns (ok: bool, rest: int, ghost e: nat)
    requires d.Proper() && LineAt(buf, line, Some(s), end) && -1 <= i < sortedCol.Length
    requires RowShows(buf, sortedCol[..], row, line)
    modifies buf, sortedCol
    ensures ColumnEnd(d, s) == if ok then Some(e) else None
    ensures ok ==> rest == -1 || line <= rest
    ensures ok ==>
              && e <= |s| && LineAt(buf, rest, RestOfLine(s, e), end)
              && RowShows(buf, sortedCol[..], if i == -1 then row else row[i := Some(FieldText(d, s[..e]))], Limit(rest, end))
    ensures forall k :: 0 <= k < buf.Length && !(line <= k <= end) ==> buf[k] == old(buf[k])
    ensures forall k :: 0 <= k < sortedCol.Length && k != i ==> sortedCol[k] == old(sortedCol[k])
  {
    var colBegin, colEnd;
    ok, rest, colBegin, colEnd := ChopNextColumn(d, buf, line, s);
    e := if ok then colEnd - line else 0;
    if ok && i != -1 {
      CleanAndStore(d, buf, colBegin, colEnd, sortedCol, i, s[..e], row);
    }
  }

  method CleanAndStore(
      d: Dialect, buf: array<char>, colBegin: nat, colEnd: nat, sortedCol: array<int>, i: nat, ghost column: string,
      ghost row: seq<Option<string>>)
    requires colBegin + |column| == colEnd && Shows(buf, colBegin, column) && i < sortedCol.Length
    requires RowShows(buf, sortedCol[..], row, colBegin)
    modifies buf, sortedCol
    ensures RowShows(buf, sortedCol[..], row[i := Some(FieldText(d, column))], colEnd + 1)
    ensures forall k :: 0 <= k < buf.Length && !(colBegin <= k <= colEnd) ==> buf[k] == old(buf[k])
    ensures forall k :: 0 <= k < sortedCol.Length && k != i ==> sortedCol[k] == old(sortedCol[k])
  {
    var b := CleanColumn(d, buf, colBegin, colEnd, column);
    sortedCol[i] := b;
  }

  method CleanColumn(d: Dialect, buf: array<char>, colBegin: nat, colEnd: nat, ghost column: string) returns (b: nat)
    requires colBegin + |column| == colEnd && Shows(buf, colBegin, column)
    modifies buf
    ensures colBegin <= b && PointsTo(buf, b, FieldText(d, column), colEnd + 1)
    ensures forall i :: 0 <= i < buf.Length && !(colBegin <= i <= colEnd) ==> buf[i] == old(buf[i])
  {
    var e;
    b, e := Trim(d, buf, colBegin, colEnd, column);
    b, e := Unescape(d, buf, b, e, Trimmed(d, column));
  }

  /** What has been parsed, put before what is still to be parsed. */
  function Prepended(columns: seq<string>, rest: Outcome<seq<string>>): Outcome<seq<string>> {
    match rest
    case Parsed(more) => Parsed(columns + more)
    case other => other
  }

  /** The columns cut so far are stored, and the rest of the line decides what becomes of it. */
  ghost predicate Parsing(
      d: Dialect, s: string, buf: array<char>, ptrs: seq<int>, order: seq<int>, columns: seq<string>, line: int,
      rest: Option<string>, end: nat)
    requires forall j :: 0 <= j < |order| ==> -1 <= order[j] < |ptrs|
    reads buf
  {
    && |columns| <= |order| && LineAt(buf, line, rest, end)
    && Columns(d, Some(s), |order|) == Prepended(columns, Columns(d, rest, |order| - |columns|))
    && RowShows(buf, ptrs, Stored(|ptrs|, order[..|columns|], FieldTexts(d, columns)), Limit(line, end))
  }

  /** The round for column j of a line that is not used up. */
  method ParseColumn(
      d: Dialect, buf: array<char>, line: nat, sortedCol: array<int>, order: seq<int>, j: nat, ghost s: string,
      ghost columns: seq<string>, ghost text: string, ghost end: nat)
    returns (ok: bool, next: int, ghost column: string, ghost rest: Option<string>)
    requires d.Proper() && j == |columns| < |order| && forall k :: 0 <= k < |order| ==> -1 <= order[k] < sortedCol.Length
    requires Parsing(d, s, buf, sortedCol[..], order, columns, line, Some(text), end)
    modifies buf, sortedCol
    ensures ok ==> Parsing(d, s, buf, sortedCol[..], order, columns + [column], next, rest, end)
    ensures !ok ==> Columns(d, Some(s), |order|) == QuoteNotClosed
    ensures next != -1 && ok ==> line <= next
    ensures forall k :: 0 <= k < buf.Length && !(line <= k <= end) ==> buf[k] == old(buf[k])
    ensures forall k :: 0 <= k < sortedCol.Length && k != order[j] ==> sortedCol[k] == old(sortedCol[k])
  {
    ghost var row := Stored(sortedCol.Length, order[..j], FieldTexts(d, columns));
    ghost var e;
    column, rest := "", None;
    var i := order[j];
    ok, next, e := StoreColumn(d, buf, line, sortedCol, i, text, end, row);
    OneMoreColumn(d, s, |order|, columns, text, if ok then Some(e) else None);
    if ok {
      column, rest := text[..e], RestOfLine(text, e);
      StoredOneMore(d, sortedCol.Length, order, columns, column);
    }
  }

  /**
    parse_line: the row ends up pointing to the texts of the columns, in place; each kind of error is
    reported exactly when the columns of the line call for it.
   */
  method ParseLine(
      d: Dialect, buf: array<char>, line: nat, sortedCol: array<int>, order: seq<int>, ghost s: string)
    returns (r: Outcome<()>)
    requires d.Proper() && Shows(buf, line, s) && NUL !in s
    requires forall j :: 0 <= j < |order| ==> -1 <= order[j] < sortedCol.Length
    modifies buf, sortedCol
    ensures match Columns(d, Some(s), |order|)
            case Parsed(columns) =>
              r == Parsed(()) && |columns| == |order|
              && RowShows(buf, sortedCol[..], Stored(sortedCol.Length, order, FieldTexts(d, columns)), line + |s| + 1)
            case TooFewColumns => r == TooFewColumns
            case TooManyColumns => r == TooManyColumns
            case QuoteNotClosed => r == QuoteNotClosed
    ensures forall k :: 0 <= k < buf.Length && !(line <= k <= line + |s|) ==> buf[k] == old(buf[k])
    ensures forall k :: 0 <= k < sortedCol.Length && k !in order ==> sortedCol[k] == old(sortedCol[k])
  {
    var cursor: int := line;
    ghost var end, rest, columns := line + |s|, Some(s), [];
    PrependedNone(Columns(d, rest, |order|));
    for j := 0 to |order|
      invariant |columns| == j && Parsing(d, s, buf, sortedCol[..], order, columns, cursor, rest, end)
      invariant cursor == -1 || line <= cursor
      invariant forall k :: 0 <= k < buf.Length && !(line <= k <= end) ==> buf[k] == old(buf[k])
      invariant forall k :: 0 <= k < sortedCol.Length && k !in order ==> sortedCol[k] == old(sortedCol[k])
    {
      if cursor == -1 {
        return TooFewColumns;
      }
      var ok;
      ghost var column;
      ok, cursor, column, rest := ParseColumn(d, buf, cursor, sortedCol, order, j, s, columns, rest.value, end);
      if !ok {
        return QuoteNotClosed;
      }
      columns := columns + [column];
    }
    assert order[..|order|] == order;
    assert columns + [] == columns;
    if cursor != -1 {
      return TooManyColumns;
    }
    return Parsed(());
  }

  lemma OneMoreColumn(d: Dialect, s: string, n: nat, columns: seq<string>, text: string, e: Option<nat>)
    requires |columns| < n && ColumnEnd(d, text) == e && (e.Some? ==> e.value <= |text|)
    requires Columns(d, Some(s), n) == Prepended(columns, Columns(d, Some(text), n - |columns|))
    ensures e.None? ==> Columns(d, Some(s), n) == QuoteNotClosed
    ensures e.Some? ==>
              var rest := Columns(d, RestOfLine(text, e.value), n - |columns| - 1);
              Columns(d, Some(s), n) == Prepended(columns + [text[..e.value]], rest)
  {
    if e.Some? {
      PrependedOneMore(columns, text[..e.value], Columns(d, RestOfLine(text, e.value), n - |columns| - 1));
    }
  }

  lemma StoredOneMore(d: Dialect, size: nat, order: seq<int>, columns: seq<string>, column: string)
    requires |columns| < |order| && forall j :: 0 <= j < |order| ==> -1 <= order[j] < size
    ensures Stored(size, order[..|columns| + 1], FieldTexts(d, columns + [column]))
         == var row, i := Stored(size, order[..|columns|], FieldTexts(d, columns)), order[|columns|];
            if i == -1 then row else row[i := Some(FieldText(d, column))]
  {
    var j := |columns|;
    assert order[..j + 1][..j] == order[..j];
    assert FieldTexts(d, columns + [column])[..j] == FieldTexts(d, columns);
  }

  lemma PrependedNone(rest: Outcome<seq<string>>)
    ensures Prepended([], rest) == rest
  {
    if rest.Parsed? {
      assert [] + rest.value == rest.value;
    }
  }

  lemma PrependedOneMore(columns: seq<string>, column: string, rest: Outcome<seq<string>>)
    ensures Prepended(columns, Prepended([column], rest)) == Prepended(columns + [column], rest)
  {
    if rest.Parsed? {
      assert columns + ([column] + rest.value) == columns + [column] + rest.value;
    }
  }

  lemma IdentityOrder(size: nat, texts: seq<string>)
    requires |texts| <= size
    ensures var order := seq(|texts|, i => i);
            forall i :: 0 <= i < size ==>
              Stored(size, order, texts)[i] == if i < |texts| then Some(texts[i]) else None
    decreases |texts|
  {
    if texts != [] {
      var n := |texts| - 1;
      IdentityOrder(size, texts[..n]);
      assert seq(|texts|, i => i)[..n] == seq(n, i => i);
    }
  }

  /**
    The round trip: fields written bare or quoted, joined into a line and parsed in place with the
    default column order, are found again behind the row's pointers.
   */
  method ReadWrittenLine(d: Dialect, fields: seq<Field>, buf: array<char>, sortedCol: array<int>) returns (r: Outcome<()>)
    requires d.Proper() && fields != [] && sortedCol.Length == |fields|
    requires forall i :: 0 <= i < |fields| ==> Writable(d, fields[i])
    requires Shows(buf, 0, Joined(d, fields)) && NUL !in Joined(d, fields)
    modifies buf, sortedCol
    ensures r == Parsed(())
    ensures forall i :: 0 <= i < |fields| ==>
              0 <= sortedCol[i] && Shows(buf, sortedCol[i], fields[i].text)
  {
    ghost var n := |fields|;
    var order := seq(|fields|, i => i);
    LineReadsBack(d, fields);
    ghost var columns := AllWritten(d, fields);
    ghost var texts := FieldTexts(d, columns);
    r := ParseLine(d, buf, 0, sortedCol, order, Joined(d, fields));
    IdentityOrder(n, texts);
    forall i | 0 <= i < n
      ensures 0 <= sortedCol[i] && Shows(buf, sortedCol[i], fields[i].text)
    {
      FieldReadsBack(d, fields[i]);
      assert Stored(n, order, texts)[i] == Some(fields[i].text);
      assert sortedCol[..][i] == sortedCol[i];
    }
  }
}
