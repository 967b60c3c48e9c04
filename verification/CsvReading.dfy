/**
  Reading a whole table (csv.h, CSVReader): lines come from the block buffer, comments are skipped, and each other
  line is parsed in place, inside the buffer that still holds the lines to come.
 */
module CsvTables {
  import Lines
  import opened CsvText
  import opened CsvFields

  /** What a call of read_row ends with. */
  datatype RowResult = NoMoreRows | LineTooLong | Read(row: Outcome<seq<Option<string>>>)

  predicate InRange(order: seq<int>, size: nat) {
    forall j :: 0 <= j < |order| ==> -1 <= order[j] < size
  }

  lemma {:induction false} ColumnsCount(d: Dialect, line: Option<string>, n: nat)
    ensures Columns(d, line, n).Parsed? ==> |Columns(d, line, n).value| == n
    decreases n
  {
    if n > 0 && line.Some? {
      ColumnEndMeans(d, line.value, 0);
      if ColumnEnd(d, line.value).Some? {
        ColumnsCount(d, RestOfLine(line.value, ColumnEnd(d, line.value).value), n - 1);
      }
    }
  }

  /** The row as its reader sees it: NUL-terminated texts, and nothing for columns that are not in the order. */
  function Seen(row: seq<Option<string>>): (r: seq<Option<string>>)
    ensures |r| == |row|
  {
    seq(|row|, i requires 0 <= i < |row| => if row[i].None? then None else Some(Lines.UpToNul(row[i].value)))
  }

  /** What a line holds. */
  function RowOf(d: Dialect, order: seq<int>, size: nat, line: string): Outcome<seq<Option<string>>>
    requires InRange(order, size)
  {
    ColumnsCount(d, Some(line), |order|);
    match Columns(d, Some(line), |order|)
    case Parsed(columns) => Parsed(Seen(Stored(size, order, FieldTexts(d, columns))))
    case TooFewColumns => TooFewColumns
    case TooManyColumns => TooManyColumns
    case QuoteNotClosed => QuoteNotClosed
  }

  /** The first row of a stream, and the stream behind it. */
  function NextRow(d: Dialect, order: seq<int>, size: nat, isComment: string -> bool, blockLen: nat, s: string):
      (r: (RowResult, string))
    requires InRange(order, size)
    ensures |r.1| <= |s| && (r.0.Read? ==> |r.1| < |s|)
    decreases |s|
  {
    if s == [] then (NoMoreRows, [])
    else if !Lines.Fits(s, blockLen) then (LineTooLong, s)
    else
      var line := Lines.UpToNul(Lines.FirstLine(s));
      if isComment(line) then NextRow(d, order, size, isComment, blockLen, Lines.AfterLine(s))
      else (Read(RowOf(d, order, size, line)), Lines.AfterLine(s))
  }

  /** The rows of a stream up to its end or the first error, and how it ends. */
  function Table(d: Dialect, order: seq<int>, size: nat, isComment: string -> bool, blockLen: nat, s: string):
      (r: (seq<seq<Option<string>>>, RowResult))
    requires InRange(order, size)
    decreases |s|
  {
    var (row, rest) := NextRow(d, order, size, isComment, blockLen, s);
    if row.Read? && row.row.Parsed? then
      var (rows, last) := Table(d, order, size, isComment, blockLen, rest);
      ([row.row.value] + rows, last)
    else
      ([], row)
  }

  /** A column is set exactly if the order names it. */
  lemma {:induction false} StoredColumns(size: nat, order: seq<int>, texts: seq<string>, i: nat)
    requires |texts| == |order| && InRange(order, size) && i < size
    ensures Stored(size, order, texts)[i].Some? <==> i in order
  {
    if order != [] {
      var n := |order| - 1;
      StoredColumns(size, order[..n], texts[..n], i);
      assert order == order[..n] + [order[n]];
    }
  }

  /** Of the columns stored at the same place, the last one stays. */
  lemma {:induction false} StoredLast(size: nat, order: seq<int>, texts: seq<string>, j: nat)
    requires |texts| == |order| && InRange(order, size) && j < |order| && order[j] != -1
    requires forall k :: j < k < |order| ==> order[k] != order[j]
    ensures Stored(size, order, texts)[order[j]] == Some(texts[j])
  {
    var n := |order| - 1;
    if j < n {
      StoredLast(size, order[..n], texts[..n], j);
    }
  }

  // ---------------------------------------------------------------------------------------------
  // Tables that are written
  // ---------------------------------------------------------------------------------------------

  /** A table in a stream: rows, with comments among them. */
  datatype Entry = Comment(line: string) | Row(fields: seq<Field>)

  function LineOf(d: Dialect, entry: Entry): string {
    if entry.Comment? then entry.line
    else if entry.fields == [] then []
    else
      Joined(d, entry.fields)
  }

  /** The lines of a table, one for each entry. */
  function LinesOf(d: Dialect, table: seq<Entry>): (lines: seq<string>)
    ensures |lines| == |table|
  {
    seq(|table|, i requires 0 <= i < |table| => LineOf(d, table[i]))
  }

  /** The texts of a row, each set. */
  function TextsOf(fields: seq<Field>): (r: seq<Option<string>>)
    ensures |r| == |fields|
  {
    seq(|fields|, i requires 0 <= i < |fields| => Some(fields[i].text))
  }

  /** The texts of all rows. */
  function AllTexts(table: seq<Entry>): seq<seq<Option<string>>> {
    if table == [] then []
    else
      (if table[0].Row? then [TextsOf(table[0].fields)] else []) + AllTexts(table[1..])
  }

  function InOrder(n: nat): (order: seq<int>)
    ensures |order| == n && InRange(order, n)
  {
    seq(n, i => i)
  }

  /** Characters that cannot stand in a text, nor serve as separator or quote. */
  predicate Reserved(c: char) {
    c == Lines.NEWLINE || c == Lines.RETURN || c == NUL
  }

  predicate Unreserved(s: string) {
    forall i :: 0 <= i < |s| ==> !Reserved(s[i])
  }

  predicate FreeOfReserved(f: Field) {
    Unreserved(f.before) && Unreserved(f.text) && Unreserved(f.after)
  }

  /** A row that can be written: n fields, all texts free of reserved characters. */
  predicate WritableRow(d: Dialect, fields: seq<Field>, n: nat) {
    && fields != [] && |fields| == n
    && forall i :: 0 <= i < n ==> Writable(d, fields[i]) && FreeOfReserved(fields[i])
  }

  /** An entry that can be written so that its line, with its ending, fits a block and is a comment only if meant to be. */
  ghost predicate EntryFits(
      d: Dialect, entry: Entry, n: nat, ending: string, isComment: string -> bool, blockLen: nat)
  {
    && Lines.IsEnding(ending) && |LineOf(d, entry)| + |ending| <= blockLen
    && (isComment(LineOf(d, entry)) <==> entry.Comment?)
    && (if entry.Row? then WritableRow(d, entry.fields, n) else Unreserved(entry.line))
  }

  /** A table all of whose entries can be written so. */
  ghost predicate WritableTable(
      d: Dialect, table: seq<Entry>, n: nat, ending: string, isComment: string -> bool, blockLen: nat)
  {
    forall i :: 0 <= i < |table| ==> EntryFits(d, table[i], n, ending, isComment, blockLen)
  }

  lemma {:induction false} DoubledUnreserved(d: Dialect, s: string)
    requires Unreserved(s) && !Reserved(d.quote)
    ensures Unreserved(Doubled(d, s))
  {
    if s != [] {
      DoubledUnreserved(d, s[1..]);
    }
  }

  lemma {:induction false} LineUnreserved(d: Dialect, columns: seq<string>)
    requires columns != [] && !Reserved(d.sep) && forall i :: 0 <= i < |columns| ==> Unreserved(columns[i])
    ensures Unreserved(Line(d, columns))
  {
    if |columns| > 1 {
      LineUnreserved(d, columns[1..]);
    }
  }

  lemma JoinedUnreserved(d: Dialect, fields: seq<Field>)
    requires fields != [] && !Reserved(d.sep) && !Reserved(d.quote)
    requires forall i :: 0 <= i < |fields| ==> FreeOfReserved(fields[i])
    ensures Unreserved(Joined(d, fields))
  {
    forall i | 0 <= i < |fields|
      ensures Unreserved(Written(d, fields[i]))
    {
      DoubledUnreserved(d, fields[i].text);
    }
    LineUnreserved(d, AllWritten(d, fields));
  }

  /** A written line is read as the texts of its fields. */
  lemma RowReadsBack(d: Dialect, fields: seq<Field>, n: nat)
    requires d.Proper() && WritableRow(d, fields, n)
    ensures RowOf(d, InOrder(n), n, Joined(d, fields)) == Parsed(TextsOf(fields))
  {
    LineReadsBack(d, fields);
    var texts := FieldTexts(d, AllWritten(d, fields));
    IdentityOrder(n, texts);
    var stored := Stored(n, InOrder(n), texts);
    forall i | 0 <= i < n
      ensures Seen(stored)[i] == TextsOf(fields)[i]
    {
      FieldReadsBack(d, fields[i]);
      assert fields[i].text[..|fields[i].text|] == fields[i].text;
      Lines.UpToNulIs(fields[i].text, |fields[i].text|);
    }
    assert Seen(stored) == TextsOf(fields);
  }

  /** The first entry of a written table: a row is read, a comment is passed over. */
  lemma FirstEntryReadsBack(
      d: Dialect, entry: Entry, n: nat, ending: string, rest: string, isComment: string -> bool, blockLen: nat)
    requires d.Proper() && !Reserved(d.sep) && !Reserved(d.quote)
    requires EntryFits(d, entry, n, ending, isComment, blockLen)
    ensures NextRow(d, InOrder(n), n, isComment, blockLen, LineOf(d, entry) + ending + rest)
         == if entry.Row? then (Read(Parsed(TextsOf(entry.fields))), rest)
            else NextRow(d, InOrder(n), n, isComment, blockLen, rest)
  {
    var line := LineOf(d, entry);
    if entry.Row? {
      JoinedUnreserved(d, entry.fields);
      RowReadsBack(d, entry.fields, n);
    }
    Lines.OneLineReadsBack(line, ending, rest);
    assert line[..|line|] == line;
    Lines.UpToNulIs(line, |line|);
  }

  /** Reading the first row of a table and then the others. */
  lemma TableGoesOn(
      d: Dialect, order: seq<int>, size: nat, isComment: string -> bool, blockLen: nat, s: string,
      row: seq<Option<string>>, rest: string)
    requires InRange(order, size) && |rest| < |s|
    requires NextRow(d, order, size, isComment, blockLen, s) == (Read(Parsed(row)), rest)
    ensures var (rows, last) := Table(d, order, size, isComment, blockLen, rest);
            Table(d, order, size, isComment, blockLen, s) == ([row] + rows, last)
  {
  }

  /** Reading ends at the first row that is no row of the table, and says why. */
  lemma TableStops(
      d: Dialect, order: seq<int>, size: nat, isComment: string -> bool, blockLen: nat, s: string, r: RowResult,
      rest: string)
    requires InRange(order, size) && NextRow(d, order, size, isComment, blockLen, s) == (r, rest)
    requires r.Read? ==> !r.row.Parsed?
    ensures Table(d, order, size, isComment, blockLen, s) == ([], r)
  {
  }

  lemma SameNextRow(
      d: Dialect, order: seq<int>, size: nat, isComment: string -> bool, blockLen: nat, s: string, rest: string)
    requires InRange(order, size)
    requires NextRow(d, order, size, isComment, blockLen, s) == NextRow(d, order, size, isComment, blockLen, rest)
    ensures Table(d, order, size, isComment, blockLen, s) == Table(d, order, size, isComment, blockLen, rest)
  {
  }

  /** The rows of the entries, and then what has been read behind them. */
  function FollowedBy(table: seq<Entry>, read: (seq<seq<Option<string>>>, RowResult)):
      (seq<seq<Option<string>>>, RowResult)
  {
    (AllTexts(table) + read.0, read.1)
  }

  lemma FollowedByMore(table: seq<Entry>, read: (seq<seq<Option<string>>>, RowResult))
    requires table != []
    ensures FollowedBy([table[0]], FollowedBy(table[1..], read)) == FollowedBy(table, read)
  {
    var rest := AllTexts(table[1..]);
    var first := if table[0].Row? then [TextsOf(table[0].fields)] else [];
    assert [table[0]][1..] == [];
    assert AllTexts([table[0]]) == first;
    assert first + (rest + read.0) == (first + rest) + read.0;
  }

  /** An entry in front of whatever the stream goes on with. */
  lemma EntryInFront(
      d: Dialect, first: Entry, n: nat, ending: string, rest: string, isComment: string -> bool, blockLen: nat)
    requires d.Proper() && !Reserved(d.sep) && !Reserved(d.quote)
    requires EntryFits(d, first, n, ending, isComment, blockLen)
    ensures Table(d, InOrder(n), n, isComment, blockLen, LineOf(d, first) + ending + rest)
         == FollowedBy([first], Table(d, InOrder(n), n, isComment, blockLen, rest))
  {
    var s := LineOf(d, first) + ending + rest;
    FirstEntryReadsBack(d, first, n, ending, rest, isComment, blockLen);
    FollowedByOne(first, Table(d, InOrder(n), n, isComment, blockLen, rest));
    if first.Row? {
      TableGoesOn(d, InOrder(n), n, isComment, blockLen, s, TextsOf(first.fields), rest);
    } else {
      SameNextRow(d, InOrder(n), n, isComment, blockLen, s, rest);
    }
  }

  lemma FollowedByOne(first: Entry, read: (seq<seq<Option<string>>>, RowResult))
    ensures FollowedBy([first], read) == if first.Row? then ([TextsOf(first.fields)] + read.0, read.1) else read
  {
    assert [first][1..] == [];
    assert AllTexts([first]) == if first.Row? then [TextsOf(first.fields)] else [];
    assert [] + read.0 == read.0;
  }

  /**
    A table of texts, written row by row with quotes where needed, is read back unchanged, whatever the block length
    and whatever follows it, as long as each line fits a block.
   */
  lemma {:induction false} TableReadsBack(
      d: Dialect, table: seq<Entry>, n: nat, ending: string, isComment: string -> bool, blockLen: nat, tail: string)
    requires d.Proper() && !Reserved(d.sep) && !Reserved(d.quote)
    requires WritableTable(d, table, n, ending, isComment, blockLen)
    ensures Table(d, InOrder(n), n, isComment, blockLen, Lines.Written(LinesOf(d, table), ending) + tail)
         == FollowedBy(table, Table(d, InOrder(n), n, isComment, blockLen, tail))
  {
    var read := Table(d, InOrder(n), n, isComment, blockLen, tail);
    if table == [] {
      assert [] + tail == tail && [] + read.0 == read.0;
    } else {
      var rest := Lines.Written(LinesOf(d, table[1..]), ending) + tail;
      TableReadsBack(d, table[1..], n, ending, isComment, blockLen, tail);
      EntryInFront(d, table[0], n, ending, rest, isComment, blockLen);
      WrittenTable(d, table, ending, tail);
      FollowedByMore(table, read);
    }
  }

  lemma WrittenTable(d: Dialect, table: seq<Entry>, ending: string, tail: string)
    requires table != []
    ensures Lines.Written(LinesOf(d, table), ending) + tail
         == LineOf(d, table[0]) + ending + (Lines.Written(LinesOf(d, table[1..]), ending) + tail)
  {
    assert LinesOf(d, table)[1..] == LinesOf(d, table[1..]);
  }

  // ---------------------------------------------------------------------------------------------
  // Reading on
  // ---------------------------------------------------------------------------------------------

  /** Between the streams s and rest there are only comments. */
  ghost predicate SameRows(isComment: string -> bool, blockLen: nat, s: string, rest: string)
    decreases |s|
  {
    s == rest
    || (s != [] && Lines.Fits(s, blockLen) && isComment(Lines.UpToNul(Lines.FirstLine(s)))
        && SameRows(isComment, blockLen, Lines.AfterLine(s), rest))
  }

  lemma {:induction false} RowsAreSame(
      d: Dialect, order: seq<int>, size: nat, isComment: string -> bool, blockLen: nat, s: string, rest: string)
    requires InRange(order, size) && SameRows(isComment, blockLen, s, rest)
    ensures NextRow(d, order, size, isComment, blockLen, s) == NextRow(d, order, size, isComment, blockLen, rest)
    decreases |s|
  {
    if s != rest {
      RowsAreSame(d, order, size, isComment, blockLen, Lines.AfterLine(s), rest);
    }
  }

  /** What a call of read_row comes to at a line that is no comment, or at the end. */
  ghost predicate RowAt(
      d: Dialect, order: seq<int>, size: nat, isComment: string -> bool, blockLen: nat, rest: string,
      r: RowResult, left: string)
    requires InRange(order, size)
  {
    match r
    case NoMoreRows => rest == [] && left == []
    case LineTooLong => rest != [] && !Lines.Fits(rest, blockLen) && left == rest
    case Read(row) =>
      var line := Lines.UpToNul(Lines.FirstLine(rest));
      && rest != [] && Lines.Fits(rest, blockLen) && !isComment(line)
      && row == RowOf(d, order, size, line) && left == Lines.AfterLine(rest)
  }

  /** The next row is the one behind the comments in front; there is none, or the line is too long, exactly as stated. */
  lemma {:induction false} NextRowMeans(
      d: Dialect, order: seq<int>, size: nat, isComment: string -> bool, blockLen: nat, s: string)
    requires InRange(order, size)
    ensures var (r, left) := NextRow(d, order, size, isComment, blockLen, s);
            exists rest ::
              SameRows(isComment, blockLen, s, rest) && RowAt(d, order, size, isComment, blockLen, rest, r, left)
    decreases |s|
  {
    var (r, left) := NextRow(d, order, size, isComment, blockLen, s);
    if s != [] && Lines.Fits(s, blockLen) && isComment(Lines.UpToNul(Lines.FirstLine(s))) {
      NextRowMeans(d, order, size, isComment, blockLen, Lines.AfterLine(s));
      var rest :| SameRows(isComment, blockLen, Lines.AfterLine(s), rest)
        && RowAt(d, order, size, isComment, blockLen, rest, r, left);
      assert SameRows(isComment, blockLen, s, rest);
    } else {
      assert SameRows(isComment, blockLen, s, s) && RowAt(d, order, size, isComment, blockLen, s, r, left);
    }
  }

  lemma {:induction false} OneMoreComment(isComment: string -> bool, blockLen: nat, s: string, rest: string)
    requires SameRows(isComment, blockLen, s, rest) && rest != [] && Lines.Fits(rest, blockLen)
    requires isComment(Lines.UpToNul(Lines.FirstLine(rest)))
    ensures SameRows(isComment, blockLen, s, Lines.AfterLine(rest))
    decreases |s|
  {
    if s != rest {
      OneMoreComment(isComment, blockLen, Lines.AfterLine(s), rest);
    } else {
      assert SameRows(isComment, blockLen, Lines.AfterLine(s), Lines.AfterLine(rest));
    }
  }

  /** all is what has been read followed by what is still to be read from s. */
  ghost predicate Continues(
      d: Dialect, order: seq<int>, size: nat, isComment: string -> bool, blockLen: nat, s: string,
      all: (seq<seq<Option<string>>>, RowResult), read: seq<seq<Option<string>>>)
    requires InRange(order, size)
  {
    var (rows, last) := Table(d, order, size, isComment, blockLen, s);
    all == (read + rows, last)
  }

  lemma ContinueReading(
      d: Dialect, order: seq<int>, size: nat, isComment: string -> bool, blockLen: nat, s: string,
      all: (seq<seq<Option<string>>>, RowResult), read: seq<seq<Option<string>>>, r: RowResult, rest: string)
    requires InRange(order, size) && Continues(d, order, size, isComment, blockLen, s, all, read)
    requires NextRow(d, order, size, isComment, blockLen, s) == (r, rest)
    ensures if r.Read? && r.row.Parsed?
            then Continues(d, order, size, isComment, blockLen, rest, all, read + [r.row.value])
            else all == (read, r)
  {
    if r.Read? && r.row.Parsed? {
      var (rows, last) := Table(d, order, size, isComment, blockLen, rest);
      assert read + ([r.row.value] + rows) == (read + [r.row.value]) + rows;
    } else {
      assert read + [] == read;
    }
  }
}

/** CSVReader::read_row on the block buffer. */
module CsvReading {
  import Lines
  import opened CsvText
  import opened CsvFields
  import opened CsvTables
  import opened LineReading

  /** Columns that are not in the order have no pointer. */
  predicate NullsElsewhere(ptrs: seq<int>, order: seq<int>) {
    forall i :: 0 <= i < |ptrs| && i !in order ==> ptrs[i] == -1
  }

  /** Parses the line just returned; what is still unread in the buffer is not touched. */
  method ParseHere(reader: LineReader, start: nat, d: Dialect, row: array<int>, order: seq<int>, ghost line: string)
    returns (r: Outcome<()>)
    requires reader.Valid() && reader.Shows(start, line) && start + |line| < reader.dataBegin
    requires d.Proper() && InRange(order, row.Length)
    modifies reader.buffer, row
    ensures reader.Valid()
    ensures forall i :: 0 <= i < row.Length && i !in order ==> row[i] == old(row[i])
    ensures match Columns(d, Some(Lines.UpToNul(line)), |order|)
            case Parsed(columns) =>
              r == Parsed(()) && |columns| == |order|
              && exists limit :: RowShows(reader.buffer, row[..], Stored(row.Length, order, FieldTexts(d, columns)), limit)
            case TooFewColumns => r == TooFewColumns
            case TooManyColumns => r == TooManyColumns
            case QuoteNotClosed => r == QuoteNotClosed
  {
    ghost var s := Lines.UpToNul(line);
    assert Shows(reader.buffer, start, s);
    r := ParseLine(d, reader.buffer, start, row, order, s);
  }

  /** The texts that the row points to. */
  method Collect(reader: LineReader, row: array<int>, ghost stored: seq<Option<string>>, ghost limit: nat)
    returns (texts: seq<Option<string>>)
    requires RowShows(reader.buffer, row[..], stored, limit)
    requires forall i :: 0 <= i < |stored| && stored[i].None? ==> row[i] == -1
    ensures texts == Seen(stored)
  {
    texts := [];
    for i := 0 to row.Length
      invariant texts == Seen(stored)[..i]
    {
      if row[i] == -1 {
        texts := texts + [None];
      } else {
        assert PointsTo(reader.buffer, row[..][i], stored[i].value, limit);
        var text := reader.CString(row[i], stored[i].value);
        texts := texts + [Some(text)];
      }
    }
    assert Seen(stored)[..row.Length] == Seen(stored);
  }

  /** What is left of a row that has been parsed, as its reader sees it. */
  method Finish(reader: LineReader, d: Dialect, row: array<int>, order: seq<int>, parsed: Outcome<()>, ghost line: string)
    returns (r: RowResult)
    requires InRange(order, row.Length) && NullsElsewhere(row[..], order)
    requires match Columns(d, Some(line), |order|)
             case Parsed(columns) =>
               parsed == Parsed(()) && |columns| == |order|
               && exists limit :: RowShows(reader.buffer, row[..], Stored(row.Length, order, FieldTexts(d, columns)), limit)
             case TooFewColumns => parsed == TooFewColumns
             case TooManyColumns => parsed == TooManyColumns
             case QuoteNotClosed => parsed == QuoteNotClosed
    ensures r == Read(RowOf(d, order, row.Length, line))
  {
    match parsed
    case Parsed(_) =>
      ghost var texts := FieldTexts(d, Columns(d, Some(line), |order|).value);
      ghost var stored := Stored(row.Length, order, texts);
      ghost var limit :| RowShows(reader.buffer, row[..], stored, limit);
      forall i | 0 <= i < |stored| && stored[i].None?
        ensures row[i] == -1
      {
        StoredColumns(row.Length, order, texts, i);
        assert row[..][i] == row[i];
      }
      var seen := Collect(reader, row, stored, limit);
      r := Read(Parsed(seen));
    case TooFewColumns => r := Read(TooFewColumns);
    case TooManyColumns => r := Read(TooManyColumns);
    case QuoteNotClosed => r := Read(QuoteNotClosed);
  }

  /** The next line, and whether it is a comment. */
  method TakeLine(reader: LineReader, isComment: string -> bool) returns (line: LineResult, skip: bool)
    requires reader.Valid()
    modifies reader, reader.reader, reader.buffer
    ensures reader.Valid()
    ensures match line
            case EndOfInput => old(reader.unread) == [] && reader.unread == [] && !skip
            case TooLong(_) =>
              old(reader.unread) != [] && reader.unread == old(reader.unread)
              && !Lines.Fits(reader.unread, reader.blockLen) && !skip
            case Line(start) =>
              var text := Lines.FirstLine(old(reader.unread));
              old(reader.unread) != [] && Lines.Fits(old(reader.unread), reader.blockLen)
              && reader.unread == Lines.AfterLine(old(reader.unread))
              && reader.Shows(start, text) && start + |text| < reader.dataBegin
              && skip == isComment(Lines.UpToNul(text))
  {
    ghost var text := Lines.FirstLine(reader.unread);
    skip := false;
    line := reader.NextLine();
    if line.Line? {
      var seen := reader.CString(line.start, text);
      skip := isComment(seen);
    }
  }

  /** The loop over comments: the first line that is not one, or why there is none, and the stream it is taken from. */
  method SkipComments(reader: LineReader, isComment: string -> bool) returns (line: LineResult, ghost rest: string)
    requires reader.Valid()
    modifies reader, reader.reader, reader.buffer
    ensures reader.Valid() && SameRows(isComment, reader.blockLen, old(reader.unread), rest)
    ensures match line
            case EndOfInput => rest == [] && reader.unread == []
            case TooLong(_) => rest != [] && reader.unread == rest && !Lines.Fits(rest, reader.blockLen)
            case Line(start) =>
              var text := Lines.FirstLine(rest);
              rest != [] && Lines.Fits(rest, reader.blockLen) && reader.unread == Lines.AfterLine(rest)
              && reader.Shows(start, text) && start + |text| < reader.dataBegin
              && !isComment(Lines.UpToNul(text))
  {
    ghost var s := reader.unread;
    while true
      invariant reader.Valid() && SameRows(isComment, reader.blockLen, s, reader.unread)
      decreases |reader.unread|
    {
      var skip;
      rest := reader.unread;
      line, skip := TakeLine(reader, isComment);
      if !skip {
        return;
      }
      OneMoreComment(isComment, reader.blockLen, s, rest);
    }
  }

  /** One row: the next line that is not a comment, parsed in place. */
  method ReadRow(reader: LineReader, d: Dialect, row: array<int>, order: seq<int>, isComment: string -> bool)
    returns (r: RowResult)
    requires reader.Valid() && d.Proper() && InRange(order, row.Length) && NullsElsewhere(row[..], order)
    modifies reader, reader.reader, reader.buffer, row
    ensures reader.Valid() && NullsElsewhere(row[..], order)
    ensures (r, reader.unread) == NextRow(d, order, row.Length, isComment, reader.blockLen, old(reader.unread))
  {
    ghost var s := reader.unread;
    var line;
    ghost var rest;
    line, rest := SkipComments(reader, isComment);
    RowsAreSame(d, order, row.Length, isComment, reader.blockLen, s, rest);
    match line
    case EndOfInput => r := NoMoreRows;
    case TooLong(_) => r := LineTooLong;
    case Line(start) =>
      ghost var text := Lines.FirstLine(rest);
      var parsed := ParseHere(reader, start, d, row, order, text);
      r := Finish(reader, d, row, order, parsed, Lines.UpToNul(text));
  }

  /** Reads a whole stream row by row, with the columns in the given order. */
  method ReadTable(bytes: string, blockLen: nat, d: Dialect, size: nat, order: seq<int>, isComment: string -> bool)
    returns (rows: seq<seq<Option<string>>>, last: RowResult)
    requires blockLen >= 2 && d.Proper() && InRange(order, size)
    ensures (rows, last) == Table(d, order, size, isComment, blockLen, Lines.WithoutBom(bytes))
  {
    var reader := new LineReader(bytes, blockLen);
    var row := new int[size](_ => -1);
    ghost var all := Table(d, order, size, isComment, blockLen, Lines.WithoutBom(bytes));
    rows := [];
    assert [] + all.0 == all.0;
    while true
      invariant reader.Valid() && fresh(reader) && fresh(reader.reader) && fresh(reader.buffer)
      invariant reader.blockLen == blockLen && NullsElsewhere(row[..], order)
      invariant Continues(d, order, size, isComment, blockLen, reader.unread, all, rows)
      decreases |reader.unread|
    {
      ghost var s := reader.unread;
      last := ReadRow(reader, d, row, order, isComment);
      ContinueReading(d, order, size, isComment, blockLen, s, all, rows, last, reader.unread);
      if !(last.Read? && last.row.Parsed?) {
        return;
      }
      rows := rows + [last.row.value];
    }
  }

  /**
    A table of texts, written row by row with comments among the rows, is read back whatever the block length, as long
    as its lines fit; a byte order mark in front makes no difference.
   */
  method ReadWrittenTable(
      d: Dialect, table: seq<Entry>, n: nat, ending: string, isComment: string -> bool, blockLen: nat, marked: bool)
    returns (rows: seq<seq<Option<string>>>, last: RowResult)
    requires blockLen >= 2 && d.Proper() && !Reserved(d.sep) && !Reserved(d.quote)
    requires WritableTable(d, table, n, ending, isComment, blockLen)
    requires !marked ==> !(Lines.BOM <= Lines.Written(LinesOf(d, table), ending))
    ensures rows == AllTexts(table) && last == NoMoreRows
  {
    var text := Lines.Written(LinesOf(d, table), ending);
    var bytes := if marked then Lines.BOM + text else text;
    Lines.MarkIsSkipped(text);
    assert text + [] == text && AllTexts(table) + [] == AllTexts(table);
    TableReadsBack(d, table, n, ending, isComment, blockLen, []);
    TableStops(d, InOrder(n), n, isComment, blockLen, [], NoMoreRows, []);
    rows, last := ReadTable(bytes, blockLen, d, n, InOrder(n), isComment);
  }
}
