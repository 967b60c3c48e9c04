/**
  What the lines of a byte stream are, independently of any buffer (csv.h, LineReader).
 */
module Lines {

  const NEWLINE := '\n'
  const RETURN := '\r'
  const NUL := '\0'

  const BOM: string := [0xEF as char, 0xBB as char, 0xBF as char]

  /** Length of the first line, without its newline. */
  function LineLength(s: string): (n: nat)
    ensures n <= |s|
    ensures forall i :: 0 <= i < n ==> s[i] != NEWLINE
    ensures n < |s| ==> s[n] == NEWLINE
  {
    if s == [] || s[0] == NEWLINE then 0 else 1 + LineLength(s[1..])
  }

  /** What follows the first line and its newline. */
  function AfterLine(s: string): string {
    if LineLength(s) < |s| then s[LineLength(s) + 1..] else []
  }

  /** A line without one trailing carriage return. */
  function Chomp(line: string): string {
    if line != [] && line[|line| - 1] == RETURN then line[..|line| - 1] else line
  }

  function FirstLine(s: string): string {
    Chomp(s[..LineLength(s)])
  }

  /** All lines; a missing final newline makes no difference. */
  function AllLines(s: string): seq<string>
    decreases |s|
  {
    if s == [] then [] else [FirstLine(s)] + AllLines(AfterLine(s))
  }

  /** What a reader of a NUL-terminated string sees. */
  function UpToNul(s: string): (r: string)
    ensures r <= s && NUL !in r
    ensures |r| < |s| ==> s[|r|] == NUL
  {
    if s == [] || s[0] == NUL then [] else [s[0]] + UpToNul(s[1..])
  }

  lemma {:induction false} UpToNulIs(s: string, n: nat)
    requires n <= |s| && NUL !in s[..n] && (n < |s| ==> s[n] == NUL)
    ensures UpToNul(s) == s[..n]
  {
    if n > 0 {
      assert s[..n][0] == s[0];
      assert s[1..][..n - 1] == s[..n][1..];
      UpToNulIs(s[1..], n - 1);
    }
  }

  function AsCStrings(lines: seq<string>): (r: seq<string>)
    ensures |r| == |lines|
  {
    seq(|lines|, i requires 0 <= i < |lines| => UpToNul(lines[i]))
  }

  lemma CStringsOfLines(s: string)
    requires s != []
    ensures AsCStrings(AllLines(s)) == [UpToNul(FirstLine(s))] + AsCStrings(AllLines(AfterLine(s)))
  {
  }

  /** The line terminator fits into a block. */
  predicate Fits(s: string, blockLen: nat) {
    LineLength(s) + 1 <= blockLen
  }

  /** Every line, with a terminator, fits into a block. */
  predicate AllFit(s: string, blockLen: nat)
    decreases |s|
  {
    s != [] ==> Fits(s, blockLen) && AllFit(AfterLine(s), blockLen)
  }

  function WithoutBom(s: string): string {
    if BOM <= s then s[3..] else s
  }

  /** A byte order mark, the bytes EF BB BF, is skipped once, and nothing else is. */
  lemma MarkIsSkipped(s: string)
    ensures WithoutBom([0xEF as char, 0xBB as char, 0xBF as char] + s) == s
    ensures |s| < 3 || s[0] != 0xEF as char || s[1] != 0xBB as char || s[2] != 0xBF as char ==> WithoutBom(s) == s
  {
    assert BOM <= BOM + s;
  }

  lemma LineLengthIs(s: string, n: nat)
    requires n <= |s| && (forall i :: 0 <= i < n ==> s[i] != NEWLINE) && (n < |s| ==> s[n] == NEWLINE)
    ensures LineLength(s) == n
  {
  }

  /** With k bytes of s at hand, the line of length n among them: what is at hand after the line, and what is behind. */
  lemma AfterLineAtHand(s: string, n: nat, k: nat, behind: string)
    requires n == LineLength(s) && n <= k <= |s| && behind == s[k..] && (n == k ==> behind == [])
    ensures var left := if n < k then k - (n + 1) else 0;
            && |AfterLine(s)| == left + |behind| && AfterLine(s)[left..] == behind
            && forall i :: 0 <= i < left ==> AfterLine(s)[i] == s[n + 1 + i]
  {
  }

  lemma LineLengthAtLeast(s: string, n: nat)
    requires n <= |s| && forall i :: 0 <= i < n ==> s[i] != NEWLINE
    ensures LineLength(s) >= n
  {
  }

  // ---------------------------------------------------------------------------------------------
  // Writing lines
  // ---------------------------------------------------------------------------------------------

  function Written(lines: seq<string>, ending: string): string {
    if lines == [] then [] else lines[0] + ending + Written(lines[1..], ending)
  }

  predicate IsEnding(ending: string) {
    ending == [NEWLINE] || ending == [RETURN, NEWLINE]
  }

  /** A line has no newline in it; if a newline alone ends it, it does not itself end with a carriage return. */
  predicate PlainLine(line: string, ending: string) {
    NEWLINE !in line && (ending == [NEWLINE] && line != [] ==> line[|line| - 1] != RETURN)
  }

  lemma OneLineReadsBack(line: string, ending: string, rest: string)
    requires IsEnding(ending) && PlainLine(line, ending)
    ensures var s := line + ending + rest;
            s != [] && FirstLine(s) == line && AfterLine(s) == rest
  {
    var text, s := line + ending[..|ending| - 1], line + ending + rest;
    assert ending == ending[..|ending| - 1] + [NEWLINE];
    assert s == line + (ending[..|ending| - 1] + [NEWLINE]) + rest;
    assert s == text + [NEWLINE] + rest;
    assert forall i :: 0 <= i < |text| ==> s[i] == text[i] && text[i] != NEWLINE;
    LineLengthIs(s, |text|);
    assert s[..|text|] == text;
    assert s[|text| + 1..] == rest;
    assert Chomp(text) == line;
  }

  /** Lines written with either kind of line ending are read back unchanged. */
  lemma {:induction false} LinesReadBack(lines: seq<string>, ending: string)
    requires IsEnding(ending) && forall i :: 0 <= i < |lines| ==> PlainLine(lines[i], ending)
    ensures AllLines(Written(lines, ending)) == lines
  {
    if lines != [] {
      LinesReadBack(lines[1..], ending);
      OneLineReadsBack(lines[0], ending, Written(lines[1..], ending));
    }
  }

  /** The newline after the last line may be missing, unless that line is empty. */
  lemma {:induction false} FinalNewlineIsOptional(s: string)
    requires s != [] && s[|s| - 1] != NEWLINE
    ensures AllLines(s + [NEWLINE]) == AllLines(s)
    decreases |s|
  {
    var t, n := s + [NEWLINE], LineLength(s);
    LineLengthIs(t, n);
    assert t[..n] == s[..n];
    if n < |s| {
      assert t[n + 1..] == s[n + 1..] + [NEWLINE];
      FinalNewlineIsOptional(s[n + 1..]);
    } else {
      assert t[n + 1..] == [];
    }
  }
}

/**
  The prefetching reader (csv.h, AsynchronousReader): a worker thread fills a block of the buffer that
  the consumer must not touch until it has awaited the read.
 */
module AsynchronousReading {

  class AsynchronousReader {
    const buffer: array<char>
    const block: nat
    const blockLen: nat

    /** The byte source has been handed over and the worker has been started. */
    var isValid: bool
    /** What the byte source still holds. */
    var source: string
    var desired: int
    var readCount: int
    var workerAlive: bool

    /** The bytes not yet handed to the consumer. */
    ghost var stream: string

    ghost predicate Outstanding()
      reads this
    {
      desired == blockLen && readCount == -1 && source == stream && (!workerAlive ==> stream == [])
    }

    ghost predicate Delivered()
      reads this, buffer
    {
      && block + blockLen <= buffer.Length
      && desired == -1
      && readCount == (if blockLen <= |stream| then blockLen else |stream|)
      && (forall i :: block <= i < block + readCount ==> buffer[i] == stream[i - block])
      && source == stream[readCount..]
      && (workerAlive <==> readCount != 0)
    }

    /** The last read has been awaited and the next one is not requested yet. */
    ghost predicate Collected()
      reads this
    {
      && desired == -1 && readCount != -1 && source == stream
      && (workerAlive <==> readCount != 0) && (!workerAlive ==> stream == [])
    }

    ghost predicate Valid()
      reads this, buffer
    {
      && block + blockLen <= buffer.Length && blockLen > 0
      && (isValid ==> Outstanding() || Delivered())
      && (!isValid ==> stream == [])
    }

    /** Awaiting the read ends: its result is there, or the worker is there to produce it. */
    ghost predicate Awaitable()
      reads this
    {
      readCount != -1 || (workerAlive && desired != -1)
    }

    constructor (buffer: array<char>, block: nat, blockLen: nat)
      requires block + blockLen <= buffer.Length && blockLen > 0
      ensures Valid() && !isValid
      ensures this.buffer == buffer && this.block == block && this.blockLen == blockLen
    {
      this.buffer := buffer;
      this.block := block;
      this.blockLen := blockLen;
      isValid, source, desired, readCount, workerAlive, stream := false, [], -1, -1, false, [];
    }

    /** Takes over the byte source, starts the worker and requests the first block. */
    method InitAndStart(bytes: string)
      requires Valid() && !isValid
      modifies this
      ensures Valid() && isValid && stream == bytes && Awaitable()
    {
      source, stream := bytes, bytes;
      isValid, workerAlive := true, true;
      desired, readCount := blockLen, -1;
    }

    method StartRead()
      requires isValid && Collected() && block + blockLen <= buffer.Length && blockLen > 0
      modifies this
      ensures Valid() && isValid && stream == old(stream)
      ensures Awaitable() <==> old(workerAlive)
    {
      desired, readCount := blockLen, -1;
    }

    /** One round of the worker's loop; a read of no bytes ends the worker. */
    method WorkerStep()
      requires Valid() && isValid && workerAlive && desired != -1
      modifies this, buffer
      ensures Valid() && isValid && Delivered() && stream == old(stream)
      ensures forall i :: 0 <= i < block ==> buffer[i] == old(buffer[i])
    {
      var count := if desired <= |source| then desired else |source|;
      for i := 0 to count
        invariant forall j :: 0 <= j < block ==> buffer[j] == old(buffer[j])
        invariant forall j :: block <= j < block + i ==> buffer[j] == source[j - block]
        modifies buffer
      {
        buffer[block + i] := source[i];
      }
      source := source[count..];
      readCount := count;
      desired := -1;
      if readCount == 0 {
        workerAlive := false;
      }
    }

    /** A moment at which the worker may or may not run. */
    method Schedule()
      requires Valid()
      modifies this, buffer
      ensures Valid() && isValid == old(isValid) && stream == old(stream)
      ensures old(Awaitable()) ==> Awaitable()
      ensures forall i :: 0 <= i < block ==> buffer[i] == old(buffer[i])
    {
      if isValid && workerAlive && desired != -1 {
        if * {
          WorkerStep();
        }
      }
    }

    /** Waits for the outstanding read; the wait is over after at most one step of the worker. */
    method FinishRead() returns (count: nat)
      requires Valid() && isValid && Awaitable()
      modifies this, buffer
      ensures isValid && Collected() && readCount == count
      ensures count == (if blockLen <= |old(stream)| then blockLen else |old(stream)|)
      ensures forall i :: 0 <= i < block ==> buffer[i] == old(buffer[i])
      ensures forall i :: block <= i < block + count ==> buffer[i] == old(stream)[i - block]
      ensures stream == old(stream)[count..]
    {
      while readCount == -1
        invariant Valid() && isValid && Awaitable() && stream == old(stream)
        invariant forall i :: 0 <= i < block ==> buffer[i] == old(buffer[i])
        decreases readCount == -1
      {
        WorkerStep();
      }
      count := readCount;
      stream := stream[count..];
    }
  }
}

/** The line reader of csv.h over a buffer of three blocks. */
module LineReading {
  import opened Lines
  import opened AsynchronousReading

  datatype LineResult =
    | EndOfInput
    | TooLong(fileLine: nat)
    | Line(start: nat)

  class LineReader {
    const blockLen: nat
    const buffer: array<char>
    const reader: AsynchronousReader
    var dataBegin: nat
    var dataEnd: nat
    var fileLine: nat

    /** The bytes not yet returned as lines: first those at hand, then those of the reader. */
    ghost var unread: string

    ghost predicate Shape()
      reads this
    {
      && blockLen >= 2 && buffer.Length == 3 * blockLen
      && reader.buffer == buffer && reader.block == 2 * blockLen && reader.blockLen == blockLen
    }

    /** The data at hand and the reader's stream make up the unread bytes. */
    ghost predicate DataAtHand()
      reads this, reader, buffer
    {
      && dataBegin <= dataEnd <= buffer.Length && |unread| == dataEnd - dataBegin + |reader.stream|
      && (forall i :: dataBegin <= i < dataEnd ==> buffer[i] == unread[i - dataBegin])
      && reader.stream == unread[dataEnd - dataBegin..]
    }

    ghost predicate Valid()
      reads this, reader, buffer
    {
      && Shape() && reader.Valid() && DataAtHand() && dataEnd <= 2 * blockLen
      // while the source holds more, the first two blocks are full and not used up
      && (reader.stream != [] ==> dataEnd == 2 * blockLen && dataBegin < 2 * blockLen)
      // a read that nobody will serve is never awaited: what is left lies inside the first block
      && (reader.isValid && !reader.Awaitable() ==>
            reader.stream == [] && (dataEnd <= blockLen || dataBegin == dataEnd))
    }

    constructor (bytes: string, blockLen: nat)
      requires blockLen >= 2
      ensures Valid() && fresh(buffer) && fresh(reader)
      ensures unread == WithoutBom(bytes) && this.blockLen == blockLen && fileLine == 0
      ensures reader.isValid <==> |bytes| >= 2 * blockLen
      ensures reader.isValid ==> reader.Awaitable()
    {
      this.blockLen := blockLen;
      fileLine := 0;
      var b := new char[3 * blockLen](_ => NUL);
      var count := ReadBytes(bytes, b, 2 * blockLen);
      buffer := b;
      reader := new AsynchronousReader(b, 2 * blockLen, blockLen);
      dataEnd := count;
      var skip := SkipBom(bytes, b, count);
      dataBegin := skip;
      unread := bytes[skip..];
      assert bytes[skip..][count - skip..] == bytes[count..];
      new;
      Begin(bytes[count..]);
    }

    /** Hands the rest of the bytes to the worker, if the first two blocks are full. */
    method Begin(rest: string)
      requires Shape() && reader.Valid() && !reader.isValid && dataBegin <= dataEnd <= 2 * blockLen && dataBegin <= 3
      requires |unread| == dataEnd - dataBegin + |rest| && unread[dataEnd - dataBegin..] == rest
      requires forall i :: dataBegin <= i < dataEnd ==> buffer[i] == unread[i - dataBegin]
      requires dataEnd < 2 * blockLen ==> rest == []
      modifies reader
      ensures Valid()
      ensures reader.isValid <==> dataEnd == 2 * blockLen
      ensures reader.isValid ==> reader.Awaitable()
    {
      if dataEnd == 2 * blockLen {
        reader.InitAndStart(rest);
      }
    }

    /** Length of the byte order mark in front of the buffer. */
    static method SkipBom(bytes: string, b: array<char>, count: nat) returns (skip: nat)
      requires count <= b.Length && count <= |bytes| && (count < 3 ==> count == |bytes|)
      requires forall i :: 0 <= i < count ==> b[i] == bytes[i]
      ensures skip <= count && WithoutBom(bytes) == bytes[skip..]
    {
      skip := if count >= 3 && b[0] == BOM[0] && b[1] == BOM[1] && b[2] == BOM[2] then 3 else 0;
      assert |bytes| >= 3 ==> count >= 3 && bytes[..3] == [b[0], b[1], b[2]];
      assert skip == if BOM <= bytes then 3 else 0;
    }

    /** A synchronous read of the byte source into the start of a buffer. */
    static method ReadBytes(bytes: string, b: array<char>, desired: nat) returns (count: nat)
      requires desired <= b.Length
      modifies b
      ensures count == if desired <= |bytes| then desired else |bytes|
      ensures forall i :: 0 <= i < count ==> b[i] == bytes[i]
    {
      count := if desired <= |bytes| then desired else |bytes|;
      for i := 0 to count
        invariant forall j :: 0 <= j < i ==> b[j] == bytes[j]
      {
        b[i] := bytes[i];
      }
    }

    /** Drops the first block and moves in the prefetched one. */
    method ShiftBlocks()
      requires Valid() && blockLen <= dataBegin < dataEnd
      modifies this`dataBegin, this`dataEnd, reader, buffer
      ensures Valid() && dataBegin == old(dataBegin) - blockLen && dataBegin < dataEnd
    {
      DropBlock();
      reader.Schedule();
      assert DataAtHand();
      if reader.isValid {
        Refill();
      }
    }

    /** Moves in the prefetched block and asks for the next one. */
    method Refill()
      requires Shape() && reader.Valid() && DataAtHand() && reader.isValid && reader.Awaitable()
      requires dataBegin < dataEnd <= blockLen && (reader.stream != [] ==> dataEnd == blockLen)
      modifies this`dataEnd, reader, buffer
      ensures Valid() && dataBegin < dataEnd
    {
      MoveIn();
      reader.StartRead();
      assert DataAtHand();
      reader.Schedule();
      assert DataAtHand();
    }

    /** Moves the second block to the front. */
    method DropBlock()
      requires Valid() && blockLen <= dataBegin < dataEnd
      modifies this`dataBegin, this`dataEnd, buffer
      ensures dataBegin == old(dataBegin) - blockLen && dataEnd == old(dataEnd) - blockLen
      ensures DataAtHand() && reader.Valid()
    {
      CopyBlock(0, blockLen);
      dataBegin := dataBegin - blockLen;
      dataEnd := dataEnd - blockLen;
    }

    /** Awaits the third block and appends it to the data. */
    method MoveIn()
      requires Shape() && reader.Valid() && DataAtHand() && reader.isValid && reader.Awaitable()
      requires dataBegin < dataEnd <= blockLen && (reader.stream != [] ==> dataEnd == blockLen)
      modifies this`dataEnd, reader, buffer
      ensures reader.isValid && reader.Collected() && DataAtHand() && dataBegin < dataEnd <= 2 * blockLen
      ensures reader.stream != [] ==> dataEnd == 2 * blockLen
      ensures !reader.workerAlive ==> dataEnd <= blockLen
    {
      ghost var n, stream := dataEnd - dataBegin, reader.stream;
      var count := reader.FinishRead();
      DropTwice(unread, n, count);
      CopyBlock(blockLen, 2 * blockLen);
      forall i | dataEnd <= i < dataEnd + count
        ensures buffer[i] == unread[i - dataBegin]
      {
        assert buffer[i] == stream[i - dataEnd] == unread[n + (i - dataEnd)];
      }
      assert forall i :: dataBegin <= i < dataEnd ==> buffer[i] == unread[i - dataBegin];
      dataEnd := dataEnd + count;
      assert dataEnd - dataBegin == n + count;
    }

    lemma DropTwice(s: string, n: nat, count: nat)
      requires n + count <= |s|
      ensures s[n..][count..] == s[n + count..]
    {
    }

    /** memcpy of one block. */
    method CopyBlock(to: nat, from: nat)
      requires to + blockLen <= from && from + blockLen <= buffer.Length
      modifies buffer
      ensures forall i :: to <= i < to + blockLen ==> buffer[i] == old(buffer[from - to + i])
      ensures forall i :: 0 <= i < buffer.Length && !(to <= i < to + blockLen) ==> buffer[i] == old(buffer[i])
    {
      for i := 0 to blockLen
        invariant forall j :: to <= j < to + i ==> buffer[j] == old(buffer[from - to + j])
        invariant forall j :: 0 <= j < buffer.Length && !(to <= j < to + i) ==> buffer[j] == old(buffer[j])
      {
        buffer[to + i] := buffer[from + i];
      }
    }

    /** The scan for the end of the line in the data at hand. */
    method FindLineEnd() returns (lineEnd: nat)
      requires dataBegin <= dataEnd <= buffer.Length
      ensures dataBegin <= lineEnd <= dataEnd && (lineEnd < dataEnd ==> buffer[lineEnd] == NEWLINE)
      ensures forall i :: dataBegin <= i < lineEnd ==> buffer[i] != NEWLINE
    {
      lineEnd := dataBegin;
      while lineEnd != dataEnd && buffer[lineEnd] != NEWLINE
        invariant dataBegin <= lineEnd <= dataEnd
        invariant forall i :: dataBegin <= i < lineEnd ==> buffer[i] != NEWLINE
      {
        lineEnd := lineEnd + 1;
      }
    }

    /** The line and its terminator stand in the buffer. */
    ghost predicate Shows(start: nat, line: string)
      reads buffer
    {
      && start + |line| < buffer.Length && buffer[start + |line|] == NUL
      && forall i :: start <= i < start + |line| ==> buffer[i] == line[i - start]
    }

    /** Ends the line in place, dropping a carriage return, and moves past it. */
    method CutLine(lineEnd: nat, ghost line: string)
      requires dataBegin <= lineEnd <= dataEnd <= buffer.Length && lineEnd < buffer.Length
      requires lineEnd < dataEnd ==> buffer[lineEnd] == NEWLINE
      requires |line| == lineEnd - dataBegin && forall i :: dataBegin <= i < lineEnd ==> buffer[i] == line[i - dataBegin]
      modifies this`dataBegin, this`dataEnd, buffer
      ensures dataBegin == lineEnd + 1
      ensures dataEnd == if lineEnd < old(dataEnd) then old(dataEnd) else old(dataEnd) + 1
      ensures forall i :: lineEnd < i < buffer.Length ==> buffer[i] == old(buffer[i])
      ensures Shows(old(dataBegin), Chomp(line))
    {
      if lineEnd != dataEnd && buffer[lineEnd] == NEWLINE {
        buffer[lineEnd] := NUL;
      } else {
        dataEnd := dataEnd + 1;
        buffer[lineEnd] := NUL;
      }
      if lineEnd != dataBegin && buffer[lineEnd - 1] == RETURN {
        buffer[lineEnd - 1] := NUL;
      }
      dataBegin := lineEnd + 1;
    }

    /** Cuts off the line, which is all that is unread but for `after`, of which `left` bytes are at hand. */
    method CutOff(lineEnd: nat, ghost line: string, ghost after: string, ghost left: nat)
      requires Shape() && reader.Valid() && DataAtHand()
      requires dataBegin <= lineEnd <= dataEnd && lineEnd < 2 * blockLen
      requires lineEnd < dataEnd ==> buffer[lineEnd] == NEWLINE
      requires |line| == lineEnd - dataBegin && forall i :: dataBegin <= i < lineEnd ==> buffer[i] == line[i - dataBegin]
      requires left == (if lineEnd < dataEnd then dataEnd - (lineEnd + 1) else 0)
      requires |after| == left + |reader.stream| && after[left..] == reader.stream
      requires forall i :: 0 <= i < left ==> after[i] == buffer[lineEnd + 1 + i]
      modifies this`dataBegin, this`dataEnd, this`unread, buffer
      ensures reader.Valid() && DataAtHand()
      ensures unread == after && Shows(old(dataBegin), Chomp(line))
      ensures dataBegin == lineEnd + 1
      ensures dataEnd == if lineEnd < old(dataEnd) then old(dataEnd) else old(dataEnd) + 1
    {
      CutLine(lineEnd, line);
      unread := after;
      ghost var begin := lineEnd + 1;
      forall i | begin <= i < dataEnd
        ensures buffer[i] == unread[i - begin]
      {
        var j := i - begin;
        assert after[j] == old(buffer[lineEnd + 1 + j]);
      }
    }

    /** Cuts the line off and accounts for it. */
    method Consume(lineEnd: nat)
      requires Shape() && reader.Valid() && DataAtHand()
      requires dataBegin <= lineEnd <= dataEnd && lineEnd < 2 * blockLen
      requires lineEnd < dataEnd ==> buffer[lineEnd] == NEWLINE
      requires LineLength(unread) == lineEnd - dataBegin && (lineEnd == dataEnd ==> reader.stream == [])
      modifies this`dataBegin, this`dataEnd, this`unread, buffer
      ensures reader.Valid() && DataAtHand()
      ensures unread == AfterLine(old(unread)) && Shows(old(dataBegin), FirstLine(old(unread)))
      ensures old(dataBegin) + |FirstLine(old(unread))| < dataBegin
      ensures dataBegin == lineEnd + 1
      ensures dataEnd == if lineEnd < old(dataEnd) then old(dataEnd) else old(dataEnd) + 1
    {
      ghost var n, left := lineEnd - dataBegin, if lineEnd < dataEnd then dataEnd - (lineEnd + 1) else 0;
      AfterLineAtHand(unread, n, dataEnd - dataBegin, reader.stream);
      CutOff(lineEnd, unread[..n], AfterLine(unread), left);
    }

    /** The NUL-terminated string at `start`. */
    method CString(start: nat, ghost line: string) returns (text: string)
      requires Shows(start, line)
      ensures text == UpToNul(line)
    {
      var end := start;
      while buffer[end] != NUL
        invariant start <= end <= start + |line|
        invariant forall i :: start <= i < end ==> buffer[i] != NUL
        decreases start + |line| - end
      {
        end := end + 1;
      }
      text := buffer[start..end];
      assert text == line[..end - start];
      assert end < start + |line| ==> line[end - start] == buffer[end];
      UpToNulIs(line, end - start);
    }

    method NextLine() returns (r: LineResult)
      requires Valid()
      modifies this, reader, buffer
      ensures Valid()
      ensures r.EndOfInput? <==> old(unread) == []
      ensures r.EndOfInput? ==> unread == [] && fileLine == old(fileLine)
      ensures !r.EndOfInput? ==> fileLine == old(fileLine) + 1
      ensures r.TooLong? <==> old(unread) != [] && !Fits(old(unread), blockLen)
      ensures r.TooLong? ==> unread == old(unread) && r.fileLine == fileLine
      ensures r.Line? ==> unread == AfterLine(old(unread)) && Shows(r.start, FirstLine(old(unread)))
      ensures r.Line? ==> r.start + |FirstLine(old(unread))| < dataBegin
    {
      if dataBegin == dataEnd {
        return EndOfInput;
      }
      fileLine := fileLine + 1;
      reader.Schedule();
      if dataBegin >= blockLen {
        ShiftBlocks();
      }
      r := TakeLine();
    }

    /** The part of next_line after the blocks have been shifted: the scan starts in the first block. */
    method TakeLine() returns (r: LineResult)
      requires Valid() && dataBegin < dataEnd && dataBegin < blockLen
      modifies this`dataBegin, this`dataEnd, this`unread, buffer
      ensures Valid()
      ensures r == TooLong(fileLine) || r.Line?
      ensures r.TooLong? <==> !Fits(old(unread), blockLen)
      ensures r.TooLong? ==> unread == old(unread)
      ensures r.Line? ==> unread == AfterLine(old(unread)) && Shows(r.start, FirstLine(old(unread)))
      ensures r.Line? ==> r.start + |FirstLine(old(unread))| < dataBegin
    {
      var lineEnd := FindLineEnd();
      Scanned(lineEnd);
      if lineEnd - dataBegin + 1 > blockLen {
        return TooLong(fileLine);
      }
      r := Line(dataBegin);
      Consume(lineEnd);
    }

    /** What the scan has found out about the line. */
    lemma Scanned(lineEnd: nat)
      requires Shape() && DataAtHand() && dataBegin < dataEnd && dataBegin < blockLen
      requires reader.stream != [] ==> dataEnd == 2 * blockLen
      requires dataBegin <= lineEnd <= dataEnd && (lineEnd < dataEnd ==> buffer[lineEnd] == NEWLINE)
      requires forall i :: dataBegin <= i < lineEnd ==> buffer[i] != NEWLINE
      ensures LineLength(unread) >= lineEnd - dataBegin
      ensures lineEnd - dataBegin + 1 <= blockLen ==> LineLength(unread) == lineEnd - dataBegin
      ensures lineEnd - dataBegin + 1 <= blockLen && lineEnd == dataEnd ==> reader.stream == []
    {
      var n := lineEnd - dataBegin;
      assert forall i :: 0 <= i < n ==> unread[i] == buffer[dataBegin + i];
      LineLengthAtLeast(unread, n);
      if n + 1 <= blockLen {
        LineLengthIs(unread, n);
      }
    }
  }

  /** One line as the caller sees it. */
  method NextText(reader: LineReader) returns (r: LineResult, text: string)
    requires reader.Valid()
    modifies reader, reader.reader, reader.buffer
    ensures reader.Valid()
    ensures r.EndOfInput? <==> old(reader.unread) == []
    ensures r.TooLong? <==> old(reader.unread) != [] && !Fits(old(reader.unread), reader.blockLen)
    ensures r.Line? ==> reader.unread == AfterLine(old(reader.unread))
    ensures r.Line? ==> text == UpToNul(FirstLine(old(reader.unread)))
  {
    ghost var rest := reader.unread;
    text := "";
    r := reader.NextLine();
    if r.Line? {
      text := reader.CString(r.start, FirstLine(rest));
    }
  }

  /**
    Reads a whole stream.  The lines returned are exactly the lines of the stream, wherever they lie
    relative to the blocks; reading stops with an error exactly when some line does not fit a block.
   */
  method ReadAll(bytes: string, blockLen: nat) returns (lines: seq<string>, failed: bool)
    requires blockLen >= 2
    ensures failed <==> !AllFit(WithoutBom(bytes), blockLen)
    ensures !failed ==> lines == AsCStrings(AllLines(WithoutBom(bytes)))
    ensures failed ==> lines < AsCStrings(AllLines(WithoutBom(bytes)))
  {
    var reader := new LineReader(bytes, blockLen);
    ghost var all := WithoutBom(bytes);
    lines := [];
    while true
      invariant reader.Valid() && fresh(reader) && fresh(reader.reader) && fresh(reader.buffer)
      invariant reader.blockLen == blockLen
      invariant ReadUpTo(all, lines, reader.unread, blockLen)
      decreases |reader.unread|
    {
      ghost var rest := reader.unread;
      var r, text := NextText(reader);
      if !r.Line? {
        NothingMore(all, lines, rest, blockLen);
        return lines, r.TooLong?;
      }
      OneMoreLine(all, lines, rest, blockLen);
      lines := lines + [text];
    }
  }

  /** The lines have been read; rest is what is left of all. */
  ghost predicate ReadUpTo(all: string, lines: seq<string>, rest: string, blockLen: nat) {
    && AsCStrings(AllLines(all)) == lines + AsCStrings(AllLines(rest))
    && (AllFit(all, blockLen) <==> AllFit(rest, blockLen))
  }

  lemma OneMoreLine(all: string, lines: seq<string>, rest: string, blockLen: nat)
    requires ReadUpTo(all, lines, rest, blockLen) && rest != [] && Fits(rest, blockLen)
    ensures ReadUpTo(all, lines + [UpToNul(FirstLine(rest))], AfterLine(rest), blockLen)
  {
    CStringsOfLines(rest);
    var more := AsCStrings(AllLines(AfterLine(rest)));
    assert lines + ([UpToNul(FirstLine(rest))] + more) == (lines + [UpToNul(FirstLine(rest))]) + more;
  }

  lemma NothingMore(all: string, lines: seq<string>, rest: string, blockLen: nat)
    requires ReadUpTo(all, lines, rest, blockLen) && (rest == [] || !Fits(rest, blockLen))
    ensures rest == [] ==> AllFit(all, blockLen) && lines == AsCStrings(AllLines(all))
    ensures rest != [] ==> !AllFit(all, blockLen) && lines < AsCStrings(AllLines(all))
  {
    if rest != [] {
      CStringsOfLines(rest);
    }
  }
}
