# Verified models of AQuery's execution engine

AQuery compiles queries to C++ against a runtime. This project models the parts of that runtime in which a simple
result is reached in an indirect way, and proves for each that the result is the simple one:

- **GROUP BY.** The robin-hood hash table behind it (a dense vector of entries and a ring of buckets with distance
  and fingerprint), its growth, its removal by backward shift and swap-with-last, and the counting sort that turns
  group numbers into row lists.
- **Reading CSV.** The line reader over three blocks with its prefetching worker, the splitting of a line into
  columns with quotes inside the block buffer, whole tables, and the integer and vector parsers.
- **Integers to text.** Digits from one fixed-point multiplication per case.
- **The incremental decision tree.** The Gini searches over sorted columns and over tables of distinct values, the
  one-pass merge that brings a sorted column up to date, building the tree on linked nodes, incremental rounds that
  forget rows and add recent ones, classification.
- **The thread pool and the interval trigger.** The dispatch protocol as an interleaving of single accesses to
  shared state, what it keeps and what it gets done, and the countdown arithmetic.
- **Window aggregates** (`minw`, `maxw`, `sumw`, `avgw`, `vars`) and **the scratch allocator**.

Objects that the source updates in place are classes whose methods are proved against a specification on values;
the pure modules beside them (`RobinHood`, `TagWidth`, `DenseVector`, `GroupNumbers`, `Lines`, `CsvText`, `Decimal`,
`FixedPoint`, `GiniIndex`, `MixedPairs`, `Trees`, `IncrementalTrees`, ...) state and prove what those specifications
promise.

## Assumptions

- The hash of a table is an arbitrary function to 64-bit values; keys are compared by equality. Where tags are
  concerned it must spread the keys over the buckets that the table has (`UnorderedDense.SpreadAt`), which it always
  does with fewer than 2^24 - 1 keys.
- `JEAIII_A` with N = 5 is used for seven digits only, so that its argument is at least 1000000.
- A byte source returns fewer bytes than asked for only at the end of input; the block length is a parameter, at
  least 2, and the end-of-line scan is bounded by it.
- The comment policy is an arbitrary predicate on the NUL-terminated line.
- Real numbers stand for doubles in the decision tree and in `sumw`, `avgw` and `vars`; there is no NaN.
- In a round of incremental training a forgotten row is marked where it is stored, and every node that holds the row
  sees the mark; rows are values here, so the marks are handed down with them. The columns tried are all different.
- `std::sort` is any method that returns some ascending order; its implementation here is a stand-in.
- Calls of `enqueue_task` do not overlap. Each access to a flag, a slot, the queue, the mutex or `ticking` is one step.
- `log2` of a number of rows is its exact integer part.
- `minw` and `maxw` are used on fewer than 2^31 elements, where the `int` loop index does not overflow. `sumw` and
  `avgw` with w = 0 on a non-empty column read before the array and are excluded.
- Group views and the row array are one allocation in the source; the model keeps them as two halves of one array.
- The two arrays of row data and row classes, and those of sorted values and their classes, run in parallel in the
  source; here they are sequences of pairs.
- The system allocator never fails; blocks are numbered in the order in which it returns them.

## Where the code and its intended use differ

- A new interval trigger whose first tick is exactly one interval long fires once for two due times.
  `IntervalTrigger.FirstTickOfAWholeInterval` gives the input; `IntervalTrigger.FiringsOfARun` and
  `IntervalTrigger.ShortTicks` say exactly when the number of firings is floor(D / T) + 1.
- Tags have 32 bits. When 2^24 keys share one hash, a tag wraps around and a later erasure loses a key
  (`CrowdedTable.ErasureLosesAKey`). `TableRuns.PerformAll` holds for every hash function below 2^24 - 1 entries, and
  for any number of entries as long as nowhere among the buckets that the table has r + 1 slots in a row are home to
  r + 2^24 - 1 keys (`UnorderedDense.SpreadAt`). That is exactly when every tag has room for one more increment, which
  is what probing past a bucket or moving it takes (`TagCondition.TagsFitIfSpread`).
- The ticker clears `ticking` without the lock. A task queued between its last look at the queue and that moment waits
  until `enqueue_task` queues another one (`ThreadPoolProgress.TaskIsForgotten`); `ThreadPoolProgress.CanFinish` says
  exactly when every submitted task can still be run.
- A column of an unsigned type may begin with a minus sign, which is passed over: `-5` is read as 5
  (`IntegerColumns.ElementOfText`).
- `minw` and `maxw` with w = 0 never expire a candidate and so give the running minimum and maximum.
- `giniSparseIncremental` does not set `left`; no result here speaks of it.
- A round of incremental training does not always give the tree that training from scratch builds. It searches rows of
  one class alone, which training closes, and splits them (`IrregularRounds.OneClassIsSplit`); and where no column has
  a boundary any more it counts the recent rows only (`IrregularRounds.RecentRowsDecide`).
  `IncrementalTrees.RoundIsTrainingFromScratch` says exactly when the trees are equal, and
  `IncrementalTrees.RoundClassifiesAlike` exactly when they classify everything alike.

## Model

| member | source | states |
|---|---|---|
| `RobinHood.HomeInRange` | server/unordered_dense.h:485-487 | the home slot consists of the leading 64 - shifts bits of the hash, and so lies inside an array of 2^(64 - shifts) buckets |
| `RobinHood.RichRun` | server/unordered_dense.h:497-517 | in an ordered ring, between a key's home and any bucket farther from its own home than the probe, no bucket is poorer than the probe: a probe cannot stop early |
| `RobinHood.NoGapBeforeBucket` | server/unordered_dense.h:497-508 | between the home of a stored key and its bucket there is no empty and no poorer bucket, also when the way wraps round the end of the array |
| `RobinHood.StopMeansAbsent` | server/unordered_dense.h:725-735 | stopping at the first bucket with a smaller tag proves that the key is nowhere in the table |
| `RobinHood.EmptyStopsProbe` | server/unordered_dense.h:503-506 | no probe sequence passes an empty bucket, so every probe loop ends within one round |
| `RobinHood.HasEmptyBucket` | server/unordered_dense.h:543-545 | fewer entries than buckets leave an empty bucket |
| `TagWidth.HomesAlongRun` | server/unordered_dense.h:497-517 | along a run of used buckets the homes of the keys come in the order of the ring |
| `TagWidth.TagsFitIn32Bits` | server/unordered_dense.h:324-325 | if nowhere r + 1 slots in a row are home to r + 2^24 - 1 keys, every tag of a complete index fits 32 bits, even when its bucket is moved one slot up |
| `TagCondition.TagsFitIfSpread` | server/unordered_dense.h:324-325 | that condition is exact: it is met exactly if every tag of the index has room for one more increment |
| `RobinHood.InsertKeepsOrder` | server/unordered_dense.h:510-517 | displacing a run by one slot keeps neighbouring tags ordered all round the ring |
| `RobinHood.InsertKeepsIndex` | server/unordered_dense.h:510-517 | after an insertion every entry, old or new, has exactly one bucket, at the right distance and with the right fingerprint |
| `RobinHood.EraseKeepsOrder` | server/unordered_dense.h:597-606 | the backward shift keeps neighbouring tags ordered all round the ring |
| `RobinHood.EraseKeepsIndex` | server/unordered_dense.h:597-606 | the backward shift takes exactly the erased entry out of the index and leaves every other entry its bucket |
| `RobinHood.RunEndsBefore` | server/unordered_dense.h:601-606 | the backward shift stops before the ring closes |
| `RobinHood.RepointCompletes` | server/unordered_dense.h:608-626 | after swap-with-last and re-pointing the moved entry's bucket the index is complete for the shortened vector |
| `DenseVector.FindIndex` | server/unordered_dense.h:697-736 | the dense position of a key, the first entry that carries it, or the end |
| `DenseVector.ProbeHits` | server/unordered_dense.h:708-728 | a probe that meets its tag and its key has found the key's dense position |
| `DenseVector.ProbeMisses` | server/unordered_dense.h:729-730 | a probe that meets a poorer bucket proves that the lookup must return the end |
| `DenseVector.ProbeGoesOn` | server/unordered_dense.h:731-733 | a probe that goes on keeps its state, gets closer to an empty bucket, and its 32-bit tag does not wrap |
| `DenseVector.ProbesAreShort` | server/unordered_dense.h:497-508 | a probe in a spread table passes fewer than 2^24 - 1 buckets |
| `DenseVector.InsertedRefinesMap` | server/unordered_dense.h:1090-1115 | inserting keeps keys distinct and is map insertion in which an old entry wins |
| `DenseVector.ErasedRefinesMap` | server/unordered_dense.h:628-646 | swap-with-last removal of a key is removal of that key from the map, and of no other |
| `DenseVector.RangeErasedRefinesMap` | server/unordered_dense.h:1273-1295 | range erasure removes exactly the keys of the range, although entries move while it runs |
| `DenseVector.RefilledIsRangeErased` | server/unordered_dense.h:1279-1294 | erasing from the left while entries follow the range, then cutting off the rest, leaves what range erasure promises |
| `UnorderedDense.BucketCounts` | server/unordered_dense.h:519-531 | bucket counts are powers of two and the 0.8F load limit lies strictly between 0 and the count |
| `UnorderedDense.LoadIsFourFifths` | server/unordered_dense.h:523-529 | below 2^24 buckets the load limit is four fifths of the buckets, rounded down; above, the rounding of 0.8F shows, by no more than a unit for each 83886080 buckets |
| `UnorderedDense.RoomMeans` | server/unordered_dense.h:1446-1471 | rehashing leaves the smallest bucket array that admits the entries, reserving at least that one, and neither changes anything else; only a table without buckets may stay so when it is rehashed |
| `UnorderedDense.FewEntriesAreSpread` | server/unordered_dense.h:321-326 | fewer than 2^24 - 1 entries meet the condition on tags at every bucket count and for every hash function, however bad |
| `UnorderedDense.DoublingSpreads` | server/unordered_dense.h:587-595 | entries that meet the condition on tags still meet it when the bucket count is doubled |
| `UnorderedDense.Table.constructor` | server/unordered_dense.h:756-770 | an empty valid table with the buckets reserved for the requested number of entries |
| `UnorderedDense.Table.StoredTagsFit` | server/unordered_dense.h:321-326 | no tag stored in a valid table exceeds 32 bits |
| `UnorderedDense.Table.NextWhileLess` | server/unordered_dense.h:497-508 | stops at the first slot on the key's way whose tag does not exceed the probing tag; terminates |
| `UnorderedDense.Table.PlaceAndShiftUp` | server/unordered_dense.h:510-517 | the array afterwards is the old one with the bucket put in place and the run found there moved one slot up; the 32-bit increments of the tags are exact |
| `UnorderedDense.Table.IndexEntry` | server/unordered_dense.h:576-584 | displacing a run for one more entry leaves an index of all entries |
| `UnorderedDense.Table.CalcShiftsForSize` | server/unordered_dense.h:523-529 | the smallest bucket count whose load limit admits the size |
| `UnorderedDense.Table.ClearAndFillBucketsFromValues` | server/unordered_dense.h:575-585 | rebuilds a valid index from the vector, whatever the buckets held |
| `UnorderedDense.Table.IncreaseSize` | server/unordered_dense.h:587-595 | one doubling makes room for an entry; the vector does not change |
| `UnorderedDense.Table.Reserve` | server/unordered_dense.h:1458-1471 | afterwards the table is valid, holds the same vector and admits the requested count; the bucket count never shrinks |
| `UnorderedDense.Table.Rehash` | server/unordered_dense.h:1446-1456 | growing or shrinking keeps validity and every entry's position |
| `UnorderedDense.Table.Clear` | server/unordered_dense.h:932-935 | an empty valid table that keeps its buckets |
| `UnorderedDense.Table.HashtablePush` | server/unordered_dense.h:1122-1147 | returns the key's dense position, old or new; the vector afterwards is insertion into the old one; the invariant is kept across growth |
| `UnorderedDense.Table.Emplace` | server/unordered_dense.h:1177-1205 | the append-then-take-back form has the same effect as insertion and reports position and novelty |
| `UnorderedDense.Table.TryEmplace` | server/unordered_dense.h:673-695 | the same for the loop of try_emplace, which compares tags in the other order |
| `UnorderedDense.Table.Find` | server/unordered_dense.h:697-736 | returns the key's position exactly when it is in the vector, else the end, through the unrolled probes and the loop |
| `UnorderedDense.Table.ShiftDown` | server/unordered_dense.h:600-606 | the array afterwards is the old one with the slot vacated and the run behind it moved one slot down; the 32-bit decrements are exact |
| `UnorderedDense.Table.SlotOf` | server/unordered_dense.h:614-622 | the search for a bucket by vector index ends at that bucket; an empty bucket holds index 0, which is never looked for while slots are vacant |
| `UnorderedDense.Table.DoErase` | server/unordered_dense.h:597-626 | erases the entry of the given bucket: the vector loses it by swap-with-last, the invariant is kept |
| `UnorderedDense.Table.EraseKey` | server/unordered_dense.h:628-646 | erases the key if present and returns 1, else returns 0 and changes nothing |
| `UnorderedDense.Table.EraseAt` | server/unordered_dense.h:1256-1267 | erases the entry at a position and returns the position of the entry that took its place |
| `UnorderedDense.Table.EraseRange` | server/unordered_dense.h:1273-1295 | erases exactly the entries of the range |
| `TableRuns.StepRefinesMap` | server/unordered_dense.h:674-1304 | each call on the vector is the corresponding call on the abstract map |
| `TableRuns.RunRefinesMap` | server/unordered_dense.h:674-1304 | every run of calls on the vector refines the run on the abstract map |
| `TableRuns.FewEntriesStaySpread` | server/unordered_dense.h:674-1304 | a run of any length that stays below 2^24 - 1 entries meets the condition on tags after every call, for every hash function and from every bucket count |
| `TableRuns.PerformAll` | server/unordered_dense.h:674-1304 | a table driven by any run whose entries stay spread over the buckets it has is valid, stands for the map of that run, and find answers from that map, with tags of 32 bits |
| `CrowdedTable.PushedInLine` | server/unordered_dense.h:1122-1147 | pushing 2^24 keys of one hash one after the other into a table whose buckets have been reserved puts key number v into bucket v, the last one with a wrapped tag |
| `CrowdedTable.ErasureLosesAKey` | server/unordered_dense.h:597-626 | the condition is needed: after these pushes and one erasure, the probe for a key that is still in the vector ends at an empty bucket |
| `GroupNumbers.PushedKeys` | server/hasher.h:167-175 | the numbers returned by the pushes point to the row's own key, and every number is in use |
| `GroupNumbers.SameGroupSameKey` | server/unordered_dense.h:1122-1147 | two rows get the same number exactly when their keys are equal |
| `GroupNumbers.NumbersAreStable` | server/unordered_dense.h:1122-1147 | numbers and keys of groups do not change when more rows arrive, whatever rehashing happens |
| `GroupNumbers.FirstAppearance` | server/unordered_dense.h:1131-1146 | a row joins an old group or opens the next number |
| `GroupNumbers.RowsOfAreTheGroup` | server/hasher.h:193-196 | the row list of a group has exactly its rows, each once, in decreasing order |
| `GroupNumbers.GroupsFillLayout` | server/hasher.h:186-191 | the slices of the groups fill the row array completely |
| `GroupBy.AQHashTable.constructor` | server/hasher.h:151-158 | an empty table with room for sz rows and zeroed counts |
| `GroupBy.AQHashTable.HashtablePush` | server/hasher.h:176-179 | numbers one more row and counts it |
| `GroupBy.AQHashTable.HashtablePushAll` | server/hasher.h:168-175 | numbers all rows and leaves the size of each group in ht_base |
| `GroupBy.AQHashTable.MakeViews` | server/hasher.h:185-191 | views start at the running sums of the group sizes, and ht_base then holds the ends |
| `GroupBy.AQHashTable.PlaceRows` | server/hasher.h:193-196 | placing rows from the ends downwards fills every slice with its own rows and never writes into another |
| `GroupBy.AQHashTable.HtPostproc` | server/hasher.h:181-198 | view g holds exactly the rows of group g in decreasing order, slices are consecutive, and ht_base[g] is left as the start of slice g |
| `Grouping.GroupsArePartition` | server/hasher.h:181-198 | two rows are in one list exactly when their keys are equal; each row is in one list |
| `Grouping.FirstRowsInOrder` | server/hasher.h:168-198 | groups are ordered by their first rows |
| `GroupBy.FewGroupsAreSpread` | server/hasher.h:347-355 | fewer than 2^24 - 1 groups meet the condition on tags for every hash function, whatever the number of rows |
| `GroupBy.Get` | server/hasher.h:347-355 | the whole regular path of GROUP BY, if the groups are spread over the buckets reserved for the rows: the lists are the rows by key, each once, in order of first appearance |
| `Lines.LinesReadBack` | csv.h:469-497 | lines written with either kind of line ending are read back unchanged, carriage returns inside them included |
| `Lines.FinalNewlineIsOptional` | csv.h:483-488 | a missing final newline makes no difference |
| `Lines.MarkIsSkipped` | csv.h:358-360 | a stream that begins with the bytes EF BB BF reads as the stream behind them, and any other stream as it is |
| `AsynchronousReading.AsynchronousReader.WorkerStep` | csv.h:219-234 | one round of the worker delivers the next bytes, or ends the worker on a read of no bytes |
| `AsynchronousReading.AsynchronousReader.StartRead` | csv.h:247-253 | the request can be awaited exactly if the worker has not left its loop |
| `AsynchronousReading.AsynchronousReader.FinishRead` | csv.h:255-267 | an awaitable request is answered after at most one worker step, with the next bytes of the stream |
| `LineReading.LineReader.constructor` | csv.h:351-366 | all bytes but a leading byte order mark are unread; the worker runs exactly if two blocks were filled, and then its first block can be awaited |
| `LineReading.LineReader.ShiftBlocks` | csv.h:457-467 | shifting and prefetching keep the invariant: no read is awaited that nobody will serve |
| `LineReading.LineReader.MoveIn` | csv.h:463-464 | the awaited block continues the data at hand |
| `LineReading.LineReader.NextLine` | csv.h:448-497 | returns the first unread line, ended in place and without its carriage return, or the end of input, or the length error exactly when the line does not fit a block |
| `LineReading.ReadAll` | csv.h:448-497 | for every stream and block length of at least 2: the lines are exactly the newline split of the stream, and reading fails exactly if some line does not fit a block |
| `CsvText.ColumnEndMeans` | csv.h:775-791 | the column ends at the first separator outside quotes or at the end; it is an error exactly if a quote stays open |
| `CsvText.ColumnsMean` | csv.h:868-889 | columns are found exactly if they are n pieces that the separator joins to the line, each closed and hiding its separators; too few, too many and an open quote are reported exactly if the line falls into fewer such pieces, more, or ends in an open one among the first n |
| `CsvText.TrimmedMeans` | csv.h:705-711 | the trimmed text is the one text between trim characters that neither begins nor ends with one, or is empty |
| `CsvText.UnescapedMeans` | csv.h:793-811 | exactly a text with a quote at either end is unescaped |
| `CsvText.RunsAreHalved` | csv.h:798-807 | inside the quotes a run of quotes loses every second one, and nothing else is lost |
| `CsvText.FieldReadsBack` | csv.h:705-811 | trimming and unescaping a written field gives its text back, whatever trim characters stand around it |
| `CsvText.LineReadsBack` | csv.h:868-889 | writing fields bare or quoted with inner quotes doubled, with blanks around them, joined by the separator, and cutting the line gives the written columns, whose texts are the fields (items 5 to 7 of section 2 of RFC 4180, without line breaks) |
| `CsvFields.FindNextColumnEnd` | csv.h:775-791 | the pointer walk finds the column end of the text, or reports the unclosed quote |
| `CsvFields.ChopNextColumn` | csv.h:850-866 | cuts the column in place and leaves the rest of the line, or the null pointer after the last column |
| `CsvFields.Trim` | csv.h:705-711 | the narrowed column is the trimmed text, ended anew |
| `CsvFields.Unescape` | csv.h:793-811 | the column becomes its unescaped text, in place |
| `CsvFields.Collapse` | csv.h:798-807 | the in-place copying loop computes the collapsed text; writing never overtakes reading |
| `CsvFields.ParseLine` | csv.h:868-889 | the row points to the texts of the columns in the requested order, and too few columns, too many columns and an open quote are reported exactly when the line has them |
| `CsvFields.ReadWrittenLine` | csv.h:868-889 | parsing a written line gives the original fields, for all texts free of NUL |
| `CsvTables.StoredColumns` | csv.h:868-889 | a column of the row gets a text exactly if the order of columns names it |
| `CsvTables.StoredLast` | csv.h:868-889 | it gets the text of the last column that the order sends there |
| `CsvTables.NextRowMeans` | csv.h:1274-1303 | behind the comments in front stands the row that is read, the line that is too long, or the end of the input, and the answer says which |
| `CsvTables.TableStops` | csv.h:1274-1303 | reading a table ends at the first error or at the end of the input, and with that answer |
| `CsvTables.RowReadsBack` | csv.h:1289-1290 | a line written from a row of texts is read as that row |
| `CsvTables.RowsAreSame` | csv.h:1283-1287 | skipping comments does not change which row is read next |
| `CsvTables.TableReadsBack` | csv.h:1274-1303 | a table written row by row with comments among the rows, quoted where needed and with either line ending, has exactly its texts as rows, followed by whatever is read behind it, for every block length, as long as each line fits a block |
| `CsvReading.ParseHere` | csv.h:1289-1290 | parsing a line inside the block buffer does not touch the data still unread behind it, so the line reader goes on as if nothing had been written |
| `CsvReading.SkipComments` | csv.h:1282-1287 | stops at the first line that is no comment, at the end of the input or at a line that is too long |
| `CsvReading.ReadRow` | csv.h:1274-1303 | a call returns what the next line that is no comment holds, or its error, and leaves the stream behind that line |
| `CsvReading.ReadTable` | csv.h:1274-1303 | reading until the end or the first error gives the rows of the byte stream after its byte order mark, wherever lines lie relative to blocks |
| `CsvReading.ReadWrittenTable` | csv.h:1274-1303 | every written table is read back, with or without a byte order mark in front |
| `IntegerColumns.TextDenotes` | csv.h:967-1015 | the decimal text of an integer denotes it, also with separators behind it |
| `IntegerColumns.JoinedTextDenotes` | csv.h:1094-1112 | the text of a list of integers falls into chunks that denote the list, with any run of separators, blanks, tabs and line ends between the elements and behind the last |
| `IntegerColumns.ElementOfText` | csv.h:967-1015 | what each policy makes of the text of any integer: itself if in range, else nothing, the nearer limit, or the integer with its last digits taken off until it fits; an unsigned type passes over a minus sign |
| `IntegerColumns.KeptIs` | csv.h:967-1015 | where reading stops is the longest beginning of the column whose number is in range |
| `CsvIntegers.ParseUnsigned` | csv.h:967-981 | overflow is called exactly if the number denoted exceeds the maximum, otherwise x is that number; no intermediate value leaves the range |
| `CsvIntegers.ParseNegative` | csv.h:996-1011 | underflow is called exactly if the negative number is below the minimum, otherwise x is that number |
| `CsvIntegers.ParseSigned` | csv.h:994-1015 | overflow and underflow are called exactly if the number denoted is above or below the range; x is left at the number of the longest beginning that is in range |
| `CsvIntegers.ParseInteger` | csv.h:983-1026 | the same for any integer type, signed or unsigned |
| `CsvIntegers.FindChunkEnd` | csv.h:1097-1103 | skips one element and the separators behind it |
| `CsvIntegers.ParseVector` | csv.h:1094-1112 | terminates; fails exactly if the policy throws at an element; otherwise each element is the number denoted or, out of range, the one the policy makes of it: the limit, or the longest beginning in range; the text is restored |
| `CsvIntegers.ReadJoinedVector` | csv.h:1094-1112 | for every list of integers, every policy and all gaps between the elements: parsing fails exactly if the policy throws at an element, and otherwise gives what the policy makes of each; in-range lists come back unchanged |
| `Decimal.DigitsAreCanonical` | server/jeaiii_to_text.h:45-70 | Digits(n) has digits only, no leading zero, and denotes n |
| `Decimal.CanonicalIsUnique` | server/jeaiii_to_text.h:45-70 | no other string without leading zeros denotes n |
| `FixedPoint.ScaledApproximates` | server/jeaiii_to_text.h:18 | after JEAIII_A with N, u <= t * 10^N / 2^32 < u + 1 in exact arithmetic, and no product leaves 64 bits; for N = 5 from 10^6 on, which is where it is used |
| `FixedPoint.FiveIsForSevenDigits` | server/jeaiii_to_text.h:28 | with N = 5 the bound holds exactly if the bits dropped by the shift are few enough for u, as they are from 73352 on |
| `FixedPoint.NextDigits` | server/jeaiii_to_text.h:19-20 | multiplying the fraction by ten or a hundred brings exactly the next digits in front of the point |
| `FixedPoint.EmitTwo` | server/jeaiii_to_text.h:20 | JEAIII_D emits the next two digits of u |
| `FixedPoint.EmitLast` | server/jeaiii_to_text.h:19 | JEAIII_S emits the last digit of u |
| `ToText.W` | server/jeaiii_to_text.h:17 | writes the two digits of a number below 100 from the table |
| `ToText.Multiply` | server/jeaiii_to_text.h:18 | the arithmetic of JEAIII_A does not wrap around in 64-bit words |
| `ToText.A` | server/jeaiii_to_text.h:18 | writes the first two digits and leaves the fraction that holds the others |
| `ToText.Leading` | server/jeaiii_to_text.h:33-37 | JEAIII_L09: the digits of any 32-bit number without leading zeros, and the end pointer |
| `ToText.LeadingFour` | server/jeaiii_to_text.h:35 | JEAIII_L03: the same for numbers below 10^4 |
| `ToText.TwoGroups` | server/jeaiii_to_text.h:66-69 | numbers beyond 10^8 * 2^32: leading digits and a padded group of eight |
| `ToText.Wide` | server/jeaiii_to_text.h:59-69 | magnitudes beyond 32 bits: leading digits and one or two padded groups of eight |
| `ToText.MagnitudeInWords` | server/jeaiii_to_text.h:47-52 | 64-bit negation gives the magnitude, also of the least value of every width |
| `ToText.ToTextFromInteger` | server/jeaiii_to_text.h:45-70 | for every integer of every width and signedness: the canonical decimal text, the end pointer, and nothing else written |
| `RoundTrips.WriteAndParse` | csv.h:967-1026 | every integer of every type that to_text writes is parsed back by the column parser |
| `ThreadPool.SubmitterKeepsControl` | server/threading.cpp:118-138 | steps of enqueue_task keep the mutex discipline, the reservation of slots and the non-empty queue where the ticker relies on it |
| `ThreadPool.TickerKeepsControl` | server/threading.cpp:31-72 | steps of tick keep the same |
| `ThreadPool.WorkerKeepsControl` | server/threading.cpp:17-29 | steps of a daemon keep the same |
| `ThreadPool.TickerConserves` | server/threading.cpp:41-66 | no task is lost or doubled by the ticker, also while its flag is set and it is still in front of the queue |
| `ThreadPool.SubmitterConserves` | server/threading.cpp:118-138 | no task is lost or doubled by enqueue_task |
| `ThreadPool.WorkerConserves` | server/threading.cpp:21-28 | running a slot moves its task from pending to done |
| `ThreadPool.StepKeepsInvariant` | server/threading.cpp:17-138 | every step of every actor keeps the whole invariant |
| `ThreadPool.RunKeepsInvariant` | server/threading.cpp:17-138 | the invariant holds after every interleaving, for every number of threads |
| `ThreadPool.NoSlotIsOverwritten` | server/threading.cpp:41-66 | in every interleaving no slot changes while its payload flag is set, and front() is never called on an empty queue |
| `ThreadPool.TasksAreConserved` | server/threading.cpp:17-138 | in every interleaving each submitted task is in exactly one of hand, queue, slots and done; none runs twice |
| `ThreadPool.QueuedTasksAreFifo` | server/threading.cpp:43-66 | in every interleaving tasks leave the queue in the order in which they entered it |
| `ThreadPoolProgress.TickerAdvances` | server/threading.cpp:31-66 | with free slots and a queue that is attended to, every step of the ticker takes a task off the queue or brings it closer to doing so |
| `ThreadPoolProgress.TriesUpToFirstFree` | server/threading.cpp:124-134 | enqueue_task left to itself hands the task to the first free slot, and to the queue exactly if there is none |
| `ThreadPoolProgress.ScansUpToFirstFree` | server/threading.cpp:44-46 | the ticker left to itself goes on to the first free slot, and starts over exactly if there is none |
| `ThreadPoolProgress.ScansLockedUpToFirstFree` | server/threading.cpp:57-60 | so it does while it holds the lock |
| `ThreadPoolProgress.CanFinish` | server/threading.cpp:17-138 | after any run that leaves no call of enqueue_task open, the ticker and the daemons can run every submitted task exactly if the queue is empty, or `ticking` is set and the ticker is not about to clear it |
| `ThreadPoolProgress.AnyTasksCanRun` | server/threading.cpp:17-138 | a pool with a thread can run any number of tasks |
| `ThreadPoolProgress.TaskIsForgotten` | server/threading.cpp:41-69 | three tasks for one thread, after which the third is never run unless a fourth is submitted |
| `IntervalTrigger.LaterTick` | server/threading.cpp:211-221 | the two-step subtraction is subtraction modulo the interval, and borrows exactly when a multiple is reached |
| `IntervalTrigger.TickKeepsAlignment` | server/threading.cpp:211-221 | a tick keeps an aligned countdown aligned and aligns a new one; the comparison with the whole time slept finds out whether a multiple is reached |
| `IntervalTrigger.IntervalBasedTrigger.Tick` | server/threading.cpp:211-221 | keeps the countdown aligned with the multiples of the interval in 32-bit arithmetic; a new trigger fires, a running one fires exactly when a multiple is reached |
| `IntervalTrigger.IntervalBasedTrigger.Reset` | server/threading.cpp:207-209 | restarts the alignment |
| `IntervalTrigger.IntervalBasedTrigger.TickOn` | server/threading.cpp:211-221 | no run of ticks makes an aligned clock drift; it fires at exactly the ticks that reach a multiple |
| `IntervalTrigger.IntervalBasedTrigger.TickAll` | server/threading.cpp:211-221 | after any non-empty run with total D, 1 <= remaining <= T and D + remaining is a multiple of T; the first tick fires, later ones at the multiples |
| `IntervalTrigger.FiringsPerMultiple` | server/threading.cpp:211-221 | an aligned clock fires as often as multiples are passed exactly if no tick passes two |
| `IntervalTrigger.FiringsOfARun` | server/threading.cpp:211-221 | the number of firings is floor(D / T) + 1 exactly if the first tick is shorter than T and no later tick passes two multiples, and never more |
| `IntervalTrigger.ShortTicks` | server/threading.cpp:211-221 | with all ticks at most T the number is floor(D / T) + 1 exactly if the first tick is shorter than T |
| `IntervalTrigger.FirstTickOfAWholeInterval` | server/threading.cpp:211-221 | a first tick of exactly T = 10 passes two due times and fires once |
| `SlidingExtremes.DropFront` | server/aggregations.h:133 | dropping the front candidate when it expires is enough for the deque to serve the next window |
| `SlidingExtremes.DropBack` | server/aggregations.h:135 | what a beaten candidate stood for, the new element stands for |
| `SlidingExtremes.Expires` | server/aggregations.h:133 | comparing the front index with i - w in uint32_t finds the one candidate that expires |
| `SlidingExtremes.Advance` | server/aggregations.h:133-136 | after each step the deque is increasing in index, monotone in value and covers the window |
| `SlidingExtremes.ExtremeIsUnique` | server/aggregations.h:127-160 | the extreme of a window is determined |
| `SlidingExtremes.MinW` | server/aggregations.h:127-139 | ret[i] is one of the last min(w, i + 1) elements and exceeds none of them; for w = 0 the same of all so far |
| `SlidingExtremes.MaxW` | server/aggregations.h:148-160 | ret[i] is one of the last min(w, i + 1) elements and is exceeded by none of them; for w = 0 the same of all so far |
| `RunningSums.SumW` | server/aggregations.h:238-249 | ret[i] is the sum of the last min(w, i + 1) elements, also when w exceeds the length |
| `RunningSums.WindowMeans` | server/aggregations.h:238-272 | the window sum is the total of the last min(w, i + 1) elements, and the window mean times their number is that total |
| `RunningSums.AvgW` | server/aggregations.h:258-272 | ret[i] is the mean of the last min(w, i + 1) elements |
| `RunningVariance.Recentred` | server/aggregations.h:364-370 | how the squared deviations change when the centre moves |
| `RunningVariance.VarianceFromSquares` | server/aggregations.h:350-373 | n * n times the variance is n times the sum of the squares less the square of the sum |
| `RunningVariance.DeviationsGrow` | server/aggregations.h:366-367 | the update by (x - old mean) * (x - new mean) gives the squared deviations from the new mean |
| `RunningVariance.Vars` | server/aggregations.h:350-373 | ret[i] is the two-pass population variance of the first i + 1 elements |
| `ScratchSpace.Space.Init` | server/libaquery.cpp:455-462 | one empty block of the initial capacity |
| `ScratchSpace.Space.Alloc` | server/libaquery.cpp:464-476 | the region lies inside its block and apart from all regions since the last release, also when the block is outgrown; the outgrown block is kept |
| `ScratchSpace.Space.Release` | server/libaquery.cpp:482-494 | hands each outgrown block to the collector once, in order; the current block and its capacity stay |
| `ScratchSpace.Space.Reset` | server/libaquery.cpp:496-503 | back to the initial capacity, with the same accounting |
| `ScratchSpace.Space.Cleanup` | server/libaquery.cpp:505-517 | each block ever allocated has then been handed over or freed, exactly once |
| `ScratchSpace.MovedRegions` | server/libaquery.cpp:467-474 | a region at the start of a new block is apart from all others |
| `ScratchSpace.OutgrownIsAccounted` | server/libaquery.cpp:470-472 | retiring a block keeps every block in exactly one place |
| `ScratchSpace.HandedIsAccounted` | server/libaquery.cpp:482-494 | handing over keeps every block in exactly one place |
| `ScratchSpace.Serve` | server/libaquery.cpp:455-503 | after any session the regions in use are exactly the requests since the last release or reset, pairwise apart and inside their blocks |
| `GiniIndex.WeightedGiniAtMostOne` | sdk/Evaluation.cpp:32-42 | the weighted impurity never reaches the DBL_MAX sentinel |
| `GiniIndex.BestIsUnique` | sdk/Evaluation.cpp:17-187 | threshold and score of the first best split are determined by the samples alone, in any order |
| `GiniIndex.BestPermuted` | sdk/Evaluation.cpp:17-187 | being the best split does not depend on the order of the samples |
| `GiniIndex.FirstMinimumIsBest` | sdk/Evaluation.cpp:43-47 | a running strict minimum over all boundaries in ascending order is the first best split |
| `MixedPairs.ImpurityCountsPairs` | sdk/Evaluation.cpp:32-42 | the Gini impurity is the share of the ordered pairs of samples that are of different class |
| `MixedPairs.ScoreCountsPairs` | sdk/Evaluation.cpp:40-47 | the score of a boundary, times the number of samples, is the number of such pairs per sample on the one side plus that on the other |
| `MixedPairs.BestMeans` | sdk/Evaluation.cpp:17-187 | the best split has the fewest such pairs per sample on its two sides, and is the smallest threshold that has |
| `SplitSearch.Evaluate` | sdk/Evaluation.cpp:32-42 | the loop over the classes computes the weighted Gini of the two sides |
| `SplitSearch.CutCounts` | sdk/Evaluation.cpp:26-42 | at a boundary of the sorted order the running counts are those of all rows up to the threshold |
| `SplitSearch.NextBoundary` | sdk/Evaluation.cpp:27-31 | skipping equal values visits each boundary between distinct values once |
| `SplitSearch.GiniSparse` | sdk/Evaluation.cpp:17-51 | the first best split over all boundaries of the column, and the number of rows up to its threshold |
| `SplitSearch.GiniSparseIncremental` | sdk/Evaluation.cpp:89-120 | the first best split over all boundaries of a sorted column |
| `SplitSearch.NextRow` | sdk/Evaluation.cpp:160-167 | adding the row before turns exact counts into counts up to the value |
| `SplitSearch.GiniDense` | sdk/Evaluation.cpp:155-187 | the first best split from a table of distinct values, and the number of rows up to its threshold; the table is left summed up |
| `Orders.SortPositions` | sdk/incrementalDecisionTree.cpp:421 | some order that makes the values ascending, ties open |
| `ColumnSearch.FindMinGiniSparse` | sdk/incrementalDecisionTree.cpp:417-440 | the first best split of a column of rows, and a sorted copy of the column |
| `ColumnSearch.Tabulate` | sdk/incrementalDecisionTree.cpp:448-468 | the distinct values of the column with their class counts |
| `ColumnSearch.TableSorted` | sdk/incrementalDecisionTree.cpp:469-479 | the sorted table is ascending and row by row exact |
| `ColumnSearch.FindMinGiniDense` | sdk/incrementalDecisionTree.cpp:442-498 | the first best split of the same column through the table |
| `ColumnSearch.SparseAndDenseAgree` | sdk/incrementalDecisionTree.cpp:417-498 | sorting and tabulating give the same score, threshold and left count |
| `SortedMerge.NotMetIsKept` | sdk/incrementalDecisionTree.cpp:241-248 | an old value that is not the next forgotten one of its class is not to be forgotten |
| `SortedMerge.Enough` | sdk/incrementalDecisionTree.cpp:238-283 | what is left to forget never exceeds what is left of the old column, and equals it only if all of it is to be forgotten |
| `SortedMerge.Merge` | sdk/incrementalDecisionTree.cpp:238-283 | one pass: the result is sorted, its multiset is old minus forgotten plus new, T holds its class counts, and every index stays in range |
| `SortedMerge.MergedTheSame` | sdk/incrementalDecisionTree.cpp:223-288 | merging gives the same multiset as collecting the samples again |
| `SortedMerge.IncrementalMinGiniSparse` | sdk/incrementalDecisionTree.cpp:223-297 | the merged column is a sorted copy of the rows' column and its split the one a search from scratch finds, if the rows are the old ones without the forgotten and with the new |
| `IncrementalColumn.Collect` | sdk/incrementalDecisionTree.cpp:668-684 | the forgotten values by class, each class ascending |
| `IncrementalColumn.RoundIsMerge` | sdk/incrementalDecisionTree.cpp:657-684 | the bookkeeping of kept, forgotten and recent rows meets what the merge needs |
| `IncrementalColumn.Advance` | sdk/incrementalDecisionTree.cpp:223-288 | one column of a node in a round: the kept column is again a sorted copy for the new set of rows, and the split is the one a search from scratch finds |
| `Trees.SidesPartition` | sdk/incrementalDecisionTree.cpp:1029-1043 | the two sides of a split hold each row once |
| `Trees.FittedIsUnique` | sdk/incrementalDecisionTree.cpp:923-1046 | there is one tree for given rows: neither the order of ties nor the way columns are searched matters |
| `Trees.RowsReachTheirLeaf` | sdk/incrementalDecisionTree.cpp:1048-1052 | the leaf that data reaches holds exactly the training rows that take the same way |
| `Trees.LeavesPartition` | sdk/incrementalDecisionTree.cpp:1033-1045 | the leaves hold each training row once |
| `Trees.BoundarySides` | sdk/incrementalDecisionTree.cpp:1029-1043 | a boundary leaves rows on both sides |
| `PurestSplits.RateOfSides` | sdk/incrementalDecisionTree.cpp:1029-1043 | the sides that the search scores are the rows that go to the two children |
| `PurestSplits.ChosenSplitIsPurest` | sdk/incrementalDecisionTree.cpp:923-1046 | the split of a node leaves its children the fewest pairs of rows of different class, per row, of all thresholds of all features tried; among equals it is the first feature, and the smallest threshold |
| `Trees.FittedShape` | sdk/incrementalDecisionTree.cpp:923-1046 | every split has rows on both sides, no branch exceeds maxHeight - height, only given columns are asked for |
| `Trees.PredictionIsMostFrequent` | sdk/incrementalDecisionTree.cpp:1048-1052 | every prediction is the lowest-numbered most frequent class of the rows in the leaf reached |
| `DecisionTree.Node.CreateNode` | sdk/incrementalDecisionTree.cpp:75-100 | a created node over two nodes that are not created yet, one level lower |
| `DecisionTree.CountClasses` | sdk/incrementalDecisionTree.cpp:946-953 | the class counts of the rows |
| `DecisionTree.MaxElement` | sdk/incrementalDecisionTree.cpp:943 | the first greatest count |
| `DecisionTree.OnlyIsMostFrequent` | sdk/incrementalDecisionTree.cpp:954-959 | a class that all rows have, the first such, is the lowest-numbered most frequent one |
| `DecisionTree.NextFeature` | sdk/incrementalDecisionTree.cpp:993-1006 | the strict comparison keeps the first of the best splits over the features looked at |
| `DecisionTree.Divide` | sdk/incrementalDecisionTree.cpp:1029-1043 | the rows on either side, in order |
| `DecisionTree.DecisionTree.ChooseSplit` | sdk/incrementalDecisionTree.cpp:967-1007 | the first best split over all chosen columns, or that there is none; columns searched by sorting are kept sorted |
| `DecisionTree.DecisionTree.OnlyClass` | sdk/incrementalDecisionTree.cpp:954-959 | the first class that all rows have |
| `DecisionTree.DecisionTree.Update` | sdk/incrementalDecisionTree.cpp:923-1046 | the nodes below form exactly the fitted tree of the rows, whatever they held before; terminates on maxHeight - height |
| `DecisionTree.DecisionTree.Test` | sdk/incrementalDecisionTree.cpp:1048-1052 | walking the nodes gives the prediction of the tree they form |
| `DecisionTree.DecisionTree.Fit` | sdk/incrementalDecisionTree.cpp:500-506 | the first fit builds the fitted tree of height max(1, h), where 2^h is the greatest power of two up to the number of rows |
| `DecisionTree.DecisionTree.FitThenPredict` | sdk/incrementalDecisionTree.cpp:622-629 | each result is the prediction of the tree fitted to the training rows, for a tree fitted the first time |
| `IncrementalTrees.MarkedSide` | sdk/incrementalDecisionTree.cpp:691-711 | dropping rows and dividing them by a split may be done in either order |
| `IncrementalTrees.RoundIsTrainingFromScratch` | sdk/incrementalDecisionTree.cpp:630-921 | a round gives the tree that training from scratch on the rows that are left would build, exactly if it is regular: searches meet no rows of one class alone, and where no column has a boundary any more the recent rows have the winner of all rows; it always does where nothing is recent, nothing is left, or the former tree is a leaf |
| `IncrementalTrees.FaithfulClassifiesAlike` | sdk/incrementalDecisionTree.cpp:630-921 | if only rows of one class are split needlessly, everything is still classified as by training from scratch |
| `IncrementalTrees.OtherwiseARowDiffers` | sdk/incrementalDecisionTree.cpp:819-838 | in every other round one of the training rows itself is classified otherwise |
| `IncrementalTrees.RoundClassifiesAlike` | sdk/incrementalDecisionTree.cpp:630-921 | a round classifies everything as training from scratch would exactly if it is faithful |
| `IncrementalTrees.RenewedIsStocked` | sdk/incrementalDecisionTree.cpp:630-921 | after any round, regular or not, each node holds the rows that go its way, and sorted copies of its columns: the next round finds what it needs |
| `IncrementalTrees.RenewedShape` | sdk/incrementalDecisionTree.cpp:630-921 | after any round no branch exceeds maxHeight - height and only given columns are asked for, so that the tree can be asked |
| `IrregularRounds.FirstTreeIsFitted` | sdk/incrementalDecisionTree.cpp:923-1046 | the tree with which both irregular rounds begin is one that training builds |
| `IrregularRounds.RecentRowsDecide` | sdk/incrementalDecisionTree.cpp:819-838 | in a fit that leaves one old and one recent row of equal value, the recent row outvotes the class of lower number, because only the recent rows are counted |
| `IrregularRounds.OneClassIsSplit` | sdk/incrementalDecisionTree.cpp:769-797 | a fit that leaves rows of one class with different values splits them |
| `IncrementalFit.SearchAgain` | sdk/incrementalDecisionTree.cpp:790-811 | the first best split of the rows that are left, over all chosen columns, from merged columns, which are kept sorted |
| `IncrementalFit.CloseForRecent` | sdk/incrementalDecisionTree.cpp:819-838 | the node becomes a leaf with the most frequent class of the recent rows |
| `IncrementalFit.RenewBelow` | sdk/incrementalDecisionTree.cpp:843-880 | with the same split as last time the round goes on in both subtrees, each with its own recent rows and marks |
| `IncrementalFit.SplitAnew` | sdk/incrementalDecisionTree.cpp:882-912 | with another split both sides are built from scratch |
| `IncrementalFit.IncrementalUpdate` | sdk/incrementalDecisionTree.cpp:630-921 | the nodes below form what the round makes of the former tree, whichever way it goes; terminates on maxHeight - height |
| `IncrementalTrees.RootRenewal` | sdk/incrementalDecisionTree.cpp:634-672 | at the root the rows beyond the number to retain are forgotten from the end |
| `IncrementalFit.FitAgain` | sdk/incrementalDecisionTree.cpp:614-619 | a further fit renews the tree, and gives the one of training from scratch exactly if the round is regular; the tree is ready for the next fit |
| `IncrementalFit.FitThenPredict` | sdk/incrementalDecisionTree.cpp:622-629 | a tree fitted any number of times before is fitted again, and each result is the prediction of the tree that comes out |

## Left out

- TableRuns.PerformAll: nothing is promised for a table in which some tag has no room for one more increment, even if no later call makes that increment.
- UnorderedDense.Table.IncreaseSize: the table at its maximum bucket count, and the overflow error there, are not modelled; sizes stay below 2^30.
- UnorderedDense.Table.Reserve: requests above 2^30 entries are not modelled.
- ThreadPoolProgress.CanFinish: what the scheduler can do, not what a fair one must do. Thread counts are unbounded, while the source's 8-bit index holds for at most 255.
- ThreadPool.TasksAreConserved: the unlocked reads of the queue in the ticker are taken as single steps; a data race on them is not modelled, nor is the shutdown of the pool.
- LineReading.ReadAll: read errors raised by the byte source, and destruction of a reader with a read under way, are not modelled.
- CsvFields.ParseLine: the trimming and quoting policies used together; `no_quote_escape` is left out.
- CsvReading.ReadRow: rows are texts; the conversion of each column to its type, the header line and the line numbers in errors are left out.
- CsvIntegers.ParseInteger: characters and floating-point columns are left out.
- DecisionTree.DecisionTree.Update: the count tables that the source keeps in a node for tabulated columns are not stored, and freeing of old records is left out; columns are marked 0 or 1 and the measure is Gini.
- IncrementalFit.FitAgain: columns searched by sorting; the number of rows to retain is given, while the source chooses it by floating statistics.
- IncrementalFit.IncrementalUpdate: the Gini measure, no random shuffling of the rows to forget, and columns searched by sorting: a tabulated column keeps the table that its last search has summed up, so that a round would start from cumulative counts.
- IncrementalFit.SearchAgain: columns searched by sorting, for the same reason.
- RunningVariance.Vars: without the square root; rounding of doubles is not modelled.
- ScratchSpace.Space.Alloc: sizes are natural numbers; wrap-around of the 64-bit count and alignment are not modelled.
- Entropy and log-loss, categorical columns, random forests and drift tests.
- `PerfectHashTable`, the statistics of columns, `var`, `varw`, `max` and `maxs` on floats, `jeaiii_i128` and the parsing of timestamps.
- The collector itself, hash quality, copying and moving of tables, `replace`, custom containers.
- Databases, files, processes, dynamic loading, shared memory, the prompt, and the generation of SQL and C++ text.
