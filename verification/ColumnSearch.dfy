/**
  Finding the best split of a column from the rows (sdk/incrementalDecisionTree.cpp): by sorting the rows, or by
  tabulating the distinct values.
 */
module ColumnSearch {

  import opened Orders
  import opened Samples
  import opened GiniIndex
  import opened SplitSearch

  function Values(rows: seq<Row>, col: nat): (r: seq<real>)
    requires forall i :: 0 <= i < |rows| ==> col < |rows[i].data|
    ensures |r| == |rows|
  {
    seq(|rows|, i requires 0 <= i < |rows| => rows[i].data[col])
  }

  /** A sorted copy of the samples. */
  ghost predicate IsSortedCopy(sorted: seq<Sample>, s: seq<Sample>) {
    Sorted(sorted) && multiset(sorted) == multiset(s)
  }

  lemma ClassCountsPermuted(s: seq<Sample>, s': seq<Sample>, classes: nat)
    requires multiset(s) == multiset(s')
    ensures ClassCounts(s, classes) == ClassCounts(s', classes)
  {
    forall j: nat
      ensures Tally(s, Label(j)) == Tally(s', Label(j))
    {
      TallyPermuted(s, s', Label(j));
    }
  }

  lemma SortedByValue(rows: seq<Row>, col: nat, d: seq<nat>)
    requires forall i :: 0 <= i < |rows| ==> col < |rows[i].data|
    requires IsOrder(d, |rows|) && forall i :: 0 <= i < |d| ==> d[i] < |rows|
    requires Ascending(Arranged(Values(rows, col), d))
    ensures IsSortedCopy(Arranged(Column(rows, col), d), Column(rows, col))
  {
    ArrangedIsPermutation(Column(rows, col), d);
    var values, s := Arranged(Values(rows, col), d), Arranged(Column(rows, col), d);
    assert forall i :: 0 <= i < |d| ==> s[i].value == values[i];
  }

  /** Sorts the rows by the column and searches them; the sorted column is kept for the next round. */
  method FindMinGiniSparse(rows: seq<Row>, totalT: seq<int>, col: nat) returns (ret: MinEval, sorted: seq<Sample>)
    requires |rows| > 0 && Tabular(rows, col, |totalT|) && totalT == ClassCounts(Column(rows, col), |totalT|)
    ensures IsBest(Column(rows, col), |totalT|, ret)
    ensures ret.eval != DBL_MAX ==> ret.left == Tally(Column(rows, col), UpTo(ret.value))
    ensures IsSortedCopy(sorted, Column(rows, col))
  {
    var d := SortPositions(Values(rows, col));
    ghost var s, t := Column(rows, col), Arranged(Column(rows, col), d);
    SortedByValue(rows, col, d);
    ClassCountsPermuted(s, t, |totalT|);
    ret := GiniSparse(rows, d, col, totalT);
    BestPermuted(t, s, |totalT|, ret);
    TallyPermuted(t, s, UpTo(ret.value));
    sorted := [];
    var i := 0;
    while i < |rows|
      invariant 0 <= i <= |rows| && sorted == t[..i]
    {
      sorted := sorted + [Sample(rows[d[i]].data[col], rows[d[i]].result)];
      i := i + 1;
    }
    assert t[..i] == t;
  }

  // ---------------------------------------------------------------------------------------------
  // Tabulating
  // ---------------------------------------------------------------------------------------------

  predicate Distinct(vs: seq<real>) {
    forall i, j :: 0 <= i < j < |vs| ==> vs[i] != vs[j]
  }

  /** The distinct values of the samples, and a row of counts for each. */
  ghost predicate Tabulated(s: seq<Sample>, classes: nat, record: seq<real>, count: seq<seq<int>>) {
    && Distinct(record) && Records(s, record) && |count| == |record|
    && forall k :: 0 <= k < |record| ==> count[k] == ExactRow(s, record[k], classes)
  }

  /** Position of the value in the record, or its length. */
  method FindValue(record: seq<real>, value: real) returns (j: nat)
    ensures j <= |record| && (j < |record| ==> record[j] == value)
    ensures j == |record| ==> value !in record
  {
    j := 0;
    while j < |record|
      invariant 0 <= j <= |record| && forall k :: 0 <= k < j ==> record[k] != value
    {
      if record[j] == value {
        return;
      }
      j := j + 1;
    }
  }

  /** A row of counts with one more sample of class c. */
  function Bumped(row: seq<int>, c: nat): (r: seq<int>)
    requires c + 1 < |row|
    ensures |r| == |row|
  {
    row[c := row[c] + 1][|row| - 1 := row[|row| - 1] + 1]
  }

  lemma RowOneMore(s: seq<Sample>, x: Sample, v: real, classes: nat)
    requires x.result < classes
    ensures ExactRow(s + [x], v, classes)
         == if x.value == v then Bumped(ExactRow(s, v, classes), x.result) else ExactRow(s, v, classes)
  {
    assert (s + [x])[..|s|] == s;
  }

  lemma NewRow(s: seq<Sample>, v: real, classes: nat)
    requires forall k :: 0 <= k < |s| ==> s[k].value != v
    ensures ExactRow(s, v, classes) == seq(classes + 1, _ => 0)
  {
    TallyNone(s, Exactly(v));
    forall j: nat
      ensures Tally(s, LabelExactly(v, j)) == 0
    {
      TallyNone(s, LabelExactly(v, j));
    }
  }

  lemma HasValueLater(s: seq<Sample>, x: Sample, v: real)
    ensures HasValue(s + [x], v) <==> HasValue(s, v) || x.value == v
  {
    var t := s + [x];
    assert t[|s|] == x && forall i :: 0 <= i < |s| ==> t[i] == s[i];
  }

  /** One more sample with a recorded value. */
  lemma KnownValue(s: seq<Sample>, x: Sample, classes: nat, record: seq<real>, count: seq<seq<int>>, j: nat)
    requires Tabulated(s, classes, record, count) && x.result < classes && j < |record| && record[j] == x.value
    ensures Tabulated(s + [x], classes, record, count[j := Bumped(count[j], x.result)])
  {
    forall k | 0 <= k < |record|
      ensures HasValue(s + [x], record[k])
      ensures count[j := Bumped(count[j], x.result)][k] == ExactRow(s + [x], record[k], classes)
    {
      RowOneMore(s, x, record[k], classes);
      HasValueLater(s, x, record[k]);
      assert k != j ==> record[k] != record[j];
    }
  }

  /** One more sample with a new value. */
  lemma UnknownValue(s: seq<Sample>, x: Sample, classes: nat, record: seq<real>, count: seq<seq<int>>)
    requires Tabulated(s, classes, record, count) && x.result < classes && x.value !in record
    ensures Tabulated(s + [x], classes, record + [x.value], count + [Bumped(seq(classes + 1, _ => 0), x.result)])
  {
    var record', count' := record + [x.value], count + [Bumped(seq(classes + 1, _ => 0), x.result)];
    NewRow(s, x.value, classes);
    forall k | 0 <= k < |record'|
      ensures HasValue(s + [x], record'[k]) && count'[k] == ExactRow(s + [x], record'[k], classes)
    {
      RowOneMore(s, x, record'[k], classes);
      HasValueLater(s, x, record'[k]);
      if k < |record| {
        assert record'[k] in record;
      }
    }
    assert record'[|record|] == x.value;
  }

  /** Tabulates the column, in order of first appearance. */
  method Tabulate(rows: seq<Row>, col: nat, classes: nat) returns (record: seq<real>, count: seq<seq<int>>)
    requires Tabular(rows, col, classes)
    ensures Tabulated(Column(rows, col), classes, record, count)
  {
    record, count := [], [];
    ghost var s := Column(rows, col);
    var i := 0;
    while i < |rows|
      invariant 0 <= i <= |rows| && Tabulated(s[..i], classes, record, count)
    {
      var v, c := rows[i].data[col], rows[i].result;
      var j := FindValue(record, v);
      assert s[..i + 1] == s[..i] + [Sample(v, c)];
      if j < |record| {
        KnownValue(s[..i], Sample(v, c), classes, record, count, j);
        count := count[j := Bumped(count[j], c)];
      } else {
        UnknownValue(s[..i], Sample(v, c), classes, record, count);
        record, count := record + [v], count + [Bumped(seq(classes + 1, _ => 0), c)];
      }
      i := i + 1;
    }
    assert s[..i] == s;
  }

  /** Sorting the table by value. */
  lemma TableSorted(s: seq<Sample>, classes: nat, record: seq<real>, count: seq<seq<int>>, d: seq<nat>)
    requires Tabulated(s, classes, record, count) && IsOrder(d, |record|)
    requires (forall i :: 0 <= i < |d| ==> d[i] < |record|) && Ascending(Arranged(record, d))
    ensures var sorted := Arranged(record, d);
            Increasing(sorted) && Records(s, sorted)
            && forall i :: 0 <= i < |sorted| ==> Arranged(count, d)[i] == ExactRow(s, sorted[i], classes)
  {
    var sorted := Arranged(record, d);
    ArrangedIsPermutation(record, d);
    StillDistinct(record, sorted);
    forall k | 0 <= k < |s|
      ensures s[k].value in sorted
    {
      assert s[k].value in multiset(record);
    }
  }

  lemma Twice(vs: seq<real>, i: nat, j: nat)
    requires i < j < |vs| && vs[i] == vs[j]
    ensures multiset(vs)[vs[i]] >= 2
  {
    assert vs == vs[..i] + [vs[i]] + vs[i + 1..j] + [vs[j]] + vs[j + 1..];
  }

  lemma {:induction false} AtMostOnce(vs: seq<real>, v: real)
    requires Distinct(vs)
    ensures multiset(vs)[v] <= 1
  {
    if vs != [] {
      var n := |vs| - 1;
      AtMostOnce(vs[..n], v);
      assert vs == vs[..n] + [vs[n]];
      if vs[n] == v {
        assert v !in multiset(vs[..n]);
      }
    }
  }

  lemma StillDistinct(vs: seq<real>, vs': seq<real>)
    requires Distinct(vs) && multiset(vs) == multiset(vs')
    ensures Distinct(vs')
  {
    forall i, j | 0 <= i < j < |vs'|
      ensures vs'[i] != vs'[j]
    {
      AtMostOnce(vs, vs'[i]);
      if vs'[i] == vs'[j] {
        Twice(vs', i, j);
      }
    }
  }

  /** Tabulates the column, sorts the table and searches it. */
  method FindMinGiniDense(rows: seq<Row>, totalT: seq<int>, col: nat)
    returns (ret: MinEval, record: seq<real>, rem: array<seq<int>>)
    requires |rows| > 0 && Tabular(rows, col, |totalT|) && totalT == ClassCounts(Column(rows, col), |totalT|)
    ensures IsBest(Column(rows, col), |totalT|, ret)
    ensures ret.eval != DBL_MAX ==> ret.left == Tally(Column(rows, col), UpTo(ret.value))
    ensures fresh(rem) && rem.Length == |record| && Increasing(record) && Records(Column(rows, col), record)
    ensures forall i :: 0 <= i < |record| ==> rem[i] == UpToRow(Column(rows, col), record[i], |totalT|)
  {
    ghost var s := Column(rows, col);
    var unsorted, count := Tabulate(rows, col, |totalT|);
    var d := SortPositions(unsorted);
    TableSorted(s, |totalT|, unsorted, count, d);
    record := Arranged(unsorted, d);
    rem := new seq<int>[|record|](i requires 0 <= i < |record| => count[d[i]]);
    ret := GiniDense(rem, record, totalT, |rows|, s);
  }

  /** Whichever way a column is searched, the result is the same. */
  lemma SparseAndDenseAgree(s: seq<Sample>, sorted: seq<Sample>, classes: nat, dense: MinEval, sparse: MinEval)
    requires IsSortedCopy(sorted, s) && IsBest(s, classes, dense) && IsBest(sorted, classes, sparse)
    requires dense.eval != DBL_MAX ==> dense.left == Tally(s, UpTo(dense.value))
    requires sparse.eval != DBL_MAX ==> sparse.left == Tally(sorted, UpTo(sparse.value))
    ensures dense.eval == sparse.eval
    ensures dense.eval != DBL_MAX ==> dense == sparse
  {
    BestIsUnique(s, sorted, classes, dense, sparse);
    if dense.eval != DBL_MAX {
      TallyPermuted(s, sorted, UpTo(dense.value));
    }
  }
}
