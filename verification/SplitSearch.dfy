/** The three searches for the best split of a column (sdk/Evaluation.cpp, sdk/incrementalDecisionTree.cpp). */
module SplitSearch {

  import opened Samples
  import opened GiniIndex
  import opened Orders

  datatype Row = Row(data: seq<real>, result: nat)

  /** Every row has the column, and its class is one of `classes`. */
  ghost predicate Tabular(rows: seq<Row>, col: nat, classes: nat) {
    forall i :: 0 <= i < |rows| ==> col < |rows[i].data| && rows[i].result < classes
  }

  /** The column as samples, in the order of the rows. */
  function Column(rows: seq<Row>, col: nat): (s: seq<Sample>)
    requires forall i :: 0 <= i < |rows| ==> col < |rows[i].data|
    ensures |s| == |rows|
  {
    seq(|rows|, i requires 0 <= i < |rows| => Sample(rows[i].data[col], rows[i].result))
  }

  /** The inner loop over the classes: both impurities, then their weighted sum. */
  method Evaluate(left: seq<int>, all: seq<int>, total: nat, size: nat) returns (gini: real)
    requires |left| == |all| && total <= size && size > 0
    ensures gini == WeightedGini(left, all, total, size)
  {
    var gini1, gini2 := 1.0, 1.0;
    ghost var others := Others(all, left);
    var j := 0;
    while j < |all|
      invariant 0 <= j <= |all|
      invariant gini1 == Impurity(left[..j], total) && gini2 == Impurity(others[..j], size - total)
    {
      var r := all[j] - left[j];
      assert left[..j + 1][..j] == left[..j] && others[..j + 1][..j] == others[..j];
      gini1 := gini1 - Square(Share(left[j], total));
      gini2 := gini2 - Square(Share(r, size - total));
      j := j + 1;
    }
    assert left[..j] == left && others[..j] == others;
    gini := Portion(gini1, total, size) + Portion(gini2, size - total, size);
  }

  /** If a holds the samples up to v, its class counts are the counts up to v. */
  lemma CountsInFront(a: seq<Sample>, b: seq<Sample>, v: real, classes: nat)
    requires forall i :: 0 <= i < |a| ==> a[i].value <= v
    requires forall i :: 0 <= i < |b| ==> b[i].value > v
    ensures ClassCounts(a, classes) == CountsUpTo(a + b, v, classes)
    ensures Tally(a + b, UpTo(v)) == |a|
  {
    forall j: nat
      ensures Tally(a + b, LabelUpTo(v, j)) == Tally(a, Label(j))
    {
      TallyInFront(a, b, LabelUpTo(v, j), Label(j));
    }
    TallyInFront(a, b, UpTo(v), UpTo(v));
    TallyAll(a, UpTo(v));
  }

  /** After the samples up to i, which are the ones up to the value of sample i, the class counts are those of its value. */
  lemma CutCounts(s: seq<Sample>, i: nat, classes: nat)
    requires Sorted(s) && i + 1 < |s| && s[i].value < s[i + 1].value
    ensures ClassCounts(s[..i + 1], classes) == CountsUpTo(s, s[i].value, classes)
    ensures Tally(s, UpTo(s[i].value)) == i + 1
  {
    assert s == s[..i + 1] + s[i + 1..];
    CountsInFront(s[..i + 1], s[i + 1..], s[i].value, classes);
  }

  /** The weighted Gini of the counts behind sample i is the score of its value, and moves the running minimum. */
  lemma CutScores(s: seq<Sample>, i: nat, classes: nat, vs: seq<real>)
    requires Sorted(s) && i + 1 < |s| && s[i].value < s[i + 1].value
    ensures var r, v := FirstMinimum(s, classes, vs), s[i].value;
            var gini := WeightedGini(ClassCounts(s[..i + 1], classes), ClassCounts(s, classes), i + 1, |s|);
            FirstMinimum(s, classes, vs + [v]) == if r.eval > gini then MinEval(gini, v, i + 1) else r
  {
    CutCounts(s, i, classes);
    assert (vs + [s[i].value])[..|vs|] == vs;
  }

  lemma CountOneMore(s: seq<Sample>, i: nat, classes: nat)
    requires i < |s| && s[i].result < classes
    ensures ClassCounts(s[..i + 1], classes)
         == ClassCounts(s[..i], classes)[s[i].result := ClassCounts(s[..i], classes)[s[i].result] + 1]
  {
    assert s[..i + 1][..i] == s[..i];
  }

  lemma StartOfBoundaries(s: seq<Sample>)
    requires Sorted(s) && |s| > 0
    ensures ListsBoundaries(s, s[0].value, [])
  {
  }

  /** Moving on from sample i to the next one. */
  lemma NextBoundary(s: seq<Sample>, i: nat, vs: seq<real>)
    requires Sorted(s) && i + 1 < |s| && ListsBoundaries(s, s[i].value, vs)
    ensures s[i].value == s[i + 1].value ==> ListsBoundaries(s, s[i + 1].value, vs)
    ensures s[i].value != s[i + 1].value ==> ListsBoundaries(s, s[i + 1].value, vs + [s[i].value])
  {
    var v := s[i].value;
    if v != s[i + 1].value {
      assert HasValue(s, v) && s[i + 1].value > v && HasLarger(s, v);
      forall u
        ensures u in vs + [v] <==> IsBoundary(s, u) && u < s[i + 1].value
      {
        NoneBetween(s, i, u);
        assert u in vs + [v] <==> u in vs || u == v;
      }
      assert forall k :: 0 <= k < |vs| ==> vs[k] in vs;
    }
  }

  lemma NoneBetween(s: seq<Sample>, i: nat, u: real)
    requires Sorted(s) && i + 1 < |s|
    ensures HasValue(s, u) && u < s[i + 1].value ==> u <= s[i].value
  {
    if HasValue(s, u) && u < s[i + 1].value {
      var k :| 0 <= k < |s| && s[k].value == u;
    }
  }

  /**
    A step of both sparse searches at sample i, with value c and class result: count it, and score the boundary
    behind it if the next value is another one.
   */
  method Consider(
      c: real, next: real, result: nat, total: nat, size: nat, totalT: seq<int>, count: seq<int>, ret: MinEval,
      ghost s: seq<Sample>, ghost vs: seq<real>)
    returns (count': seq<int>, ret': MinEval, ghost vs': seq<real>)
    requires Sorted(s) && |s| == size && 1 <= total < size
    requires s[total - 1] == Sample(c, result) && s[total].value == next && result < |totalT|
    requires totalT == ClassCounts(s, |totalT|) && count == ClassCounts(s[..total - 1], |totalT|)
    requires ListsBoundaries(s, c, vs) && ret == FirstMinimum(s, |totalT|, vs)
    ensures count' == ClassCounts(s[..total], |totalT|)
    ensures ListsBoundaries(s, next, vs') && ret' == FirstMinimum(s, |totalT|, vs')
  {
    ret', vs' := ret, vs;
    CountOneMore(s, total - 1, |totalT|);
    count' := count[result := count[result] + 1];
    NextBoundary(s, total - 1, vs);
    if c == next {
      return;
    }
    vs' := vs + [c];
    CutScores(s, total - 1, |totalT|, vs);
    var gini := Evaluate(count', totalT, total, size);
    if ret.eval > gini {
      ret' := MinEval(gini, c, total);
    }
  }

  /** The search over rows in the sorted order d. */
  method GiniSparse(rows: seq<Row>, d: seq<nat>, col: nat, totalT: seq<int>) returns (ret: MinEval)
    requires Tabular(rows, col, |totalT|) && |d| > 0
    requires forall i :: 0 <= i < |d| ==> d[i] < |rows|
    requires Sorted(Arranged(Column(rows, col), d)) && totalT == ClassCounts(Arranged(Column(rows, col), d), |totalT|)
    ensures IsBest(Arranged(Column(rows, col), d), |totalT|, ret)
    ensures ret.eval != DBL_MAX ==> ret.left == Tally(Arranged(Column(rows, col), d), UpTo(ret.value))
  {
    ghost var s := Arranged(Column(rows, col), d);
    var size := |d|;
    var max := rows[d[size - 1]].data[col];
    ret := Unset();
    var count := seq(|totalT|, _ => 0);
    ghost var vs: seq<real> := [];
    StartOfBoundaries(s);
    assert count == ClassCounts(s[..0], |totalT|);
    var i := 0;
    while i < size - 1
      invariant 0 <= i < size
      invariant count == ClassCounts(s[..i], |totalT|)
      invariant ListsBoundaries(s, s[i].value, vs) && ret == FirstMinimum(s, |totalT|, vs)
    {
      var c := rows[d[i]].data[col];
      if c == max {
        break;
      }
      count, ret, vs := Consider(c, rows[d[i + 1]].data[col], rows[d[i]].result, i + 1, size, totalT, count, ret, s, vs);
      i := i + 1;
    }
    FirstMinimumIsBest(s, |totalT|, s[i].value, vs);
  }

  /** The search over a sorted column; the source leaves `left` unset. */
  method GiniSparseIncremental(data: seq<Sample>, totalT: seq<int>) returns (ret: MinEval)
    requires |data| > 0 && Sorted(data) && totalT == ClassCounts(data, |totalT|)
    requires forall i :: 0 <= i < |data| ==> data[i].result < |totalT|
    ensures IsBest(data, |totalT|, ret)
  {
    var size := |data|;
    var max := data[size - 1].value;
    ret := Unset();
    var count := seq(|totalT|, _ => 0);
    ghost var vs: seq<real> := [];
    StartOfBoundaries(data);
    assert count == ClassCounts(data[..0], |totalT|);
    var i := 0;
    while i < size
      invariant 0 <= i < size
      invariant count == ClassCounts(data[..i], |totalT|)
      invariant ListsBoundaries(data, data[i].value, vs) && ret == FirstMinimum(data, |totalT|, vs)
    {
      var c := data[i].value;
      if c == max {
        break;
      }
      count, ret, vs := Consider(c, data[i + 1].value, data[i].result, i + 1, size, totalT, count, ret, data, vs);
      i := i + 1;
    }
    FirstMinimumIsBest(data, |totalT|, data[i].value, vs);
  }

  // ---------------------------------------------------------------------------------------------
  // Tables of distinct values
  // ---------------------------------------------------------------------------------------------

  /** A row of a count table: the classes of the samples with value v, and how many they are. */
  function ExactRow(s: seq<Sample>, v: real, classes: nat): (r: seq<int>)
    ensures |r| == classes + 1
  {
    seq(classes, j requires 0 <= j < classes => Tally(s, LabelExactly(v, j))) + [Tally(s, Exactly(v))]
  }

  /** The same for the samples with value at most v. */
  function UpToRow(s: seq<Sample>, v: real, classes: nat): (r: seq<int>)
    ensures |r| == classes + 1
  {
    CountsUpTo(s, v, classes) + [Tally(s, UpTo(v))]
  }

  /** record holds the values that occur. */
  ghost predicate Records(s: seq<Sample>, record: seq<real>) {
    && (forall k :: 0 <= k < |s| ==> s[k].value in record)
    && (forall i :: 0 <= i < |record| ==> HasValue(s, record[i]))
  }

  lemma FirstRow(s: seq<Sample>, record: seq<real>, classes: nat)
    requires Increasing(record) && Records(s, record) && |record| > 0
    ensures ExactRow(s, record[0], classes) == UpToRow(s, record[0], classes)
  {
    forall k | 0 <= k < |s|
      ensures s[k].value <= record[0] <==> s[k].value == record[0]
    {
      var i :| 0 <= i < |record| && record[i] == s[k].value;
    }
    TallyAgrees(s, Exactly(record[0]), UpTo(record[0]));
    forall j: nat
      ensures Tally(s, LabelExactly(record[0], j)) == Tally(s, LabelUpTo(record[0], j))
    {
      TallyAgrees(s, LabelExactly(record[0], j), LabelUpTo(record[0], j));
    }
  }

  /** No sample lies between two neighbours of the record. */
  lemma Between(s: seq<Sample>, record: seq<real>, i: nat, k: nat)
    requires Increasing(record) && Records(s, record) && 1 <= i < |record| && k < |s|
    ensures s[k].value <= record[i] <==> s[k].value == record[i] || s[k].value <= record[i - 1]
  {
    var l :| 0 <= l < |record| && record[l] == s[k].value;
  }

  lemma NextRow(s: seq<Sample>, record: seq<real>, i: nat, classes: nat, j: nat)
    requires Increasing(record) && Records(s, record) && 1 <= i < |record| && j <= classes
    ensures UpToRow(s, record[i], classes)[j] == ExactRow(s, record[i], classes)[j] + UpToRow(s, record[i - 1], classes)[j]
  {
    forall k | 0 <= k < |s|
      ensures s[k].value <= record[i] <==> s[k].value == record[i] || s[k].value <= record[i - 1]
    {
      Between(s, record, i, k);
    }
    if j == classes {
      TallySplits(s, UpTo(record[i]), Exactly(record[i]), UpTo(record[i - 1]));
    } else {
      TallySplits(s, LabelUpTo(record[i], j), LabelExactly(record[i], j), LabelUpTo(record[i - 1], j));
    }
  }

  lemma RecordBoundaries(s: seq<Sample>, record: seq<real>, i: nat)
    requires Increasing(record) && Records(s, record) && i < |record|
    ensures ListsBoundaries(s, record[i], record[..i])
  {
    forall v
      ensures v in record[..i] <==> IsBoundary(s, v) && v < record[i]
    {
      if v in record[..i] {
        var l :| 0 <= l < i && record[l] == v;
        assert HasValue(s, record[i]);
        assert HasValue(s, record[l]);
      }
      if HasValue(s, v) && v < record[i] {
        var k :| 0 <= k < |s| && s[k].value == v;
        var l :| 0 <= l < |record| && record[l] == v;
        assert l < i && record[..i][l] == v;
      }
    }
  }

  /** The largest recorded value is where the whole table is on the left. */
  lemma WholeAtLast(s: seq<Sample>, record: seq<real>, i: nat)
    requires Increasing(record) && Records(s, record) && i < |record|
    ensures Tally(s, UpTo(record[i])) <= |s|
    ensures Tally(s, UpTo(record[i])) == |s| <==> i == |record| - 1
  {
    TallyAtMost(s, UpTo(record[i]));
    if i < |record| - 1 {
      assert HasValue(s, record[|record| - 1]);
      var k :| 0 <= k < |s| && s[k].value == record[|record| - 1];
      TallyMisses(s, UpTo(record[i]), k);
    } else {
      forall k | 0 <= k < |s|
        ensures s[k].value <= record[i]
      {
        var l :| 0 <= l < |record| && record[l] == s[k].value;
      }
      TallyAll(s, UpTo(record[i]));
    }
  }

  /** Adds the row before to row i of the table. */
  method Accumulate(rem: array<seq<int>>, i: nat)
    requires 1 <= i < rem.Length && |rem[i - 1]| == |rem[i]|
    modifies rem
    ensures |rem[i]| == |old(rem[i])|
    ensures forall j :: 0 <= j < |rem[i]| ==> rem[i][j] == old(rem[i])[j] + old(rem[i - 1])[j]
    ensures forall k :: 0 <= k < rem.Length && k != i ==> rem[k] == old(rem[k])
  {
    var j := 0;
    while j < |rem[i]|
      invariant 0 <= j <= |rem[i]| && |rem[i]| == |old(rem[i])|
      invariant forall l :: 0 <= l < |rem[i]| ==> rem[i][l] == old(rem[i])[l] + if l < j then old(rem[i - 1])[l] else 0
      invariant forall k :: 0 <= k < rem.Length && k != i ==> rem[k] == old(rem[k])
    {
      rem[i] := rem[i][j := rem[i][j] + rem[i - 1][j]];
      j := j + 1;
    }
  }

  /** The score of a cumulative row of the table, and the running minimum after it. */
  lemma RowScores(s: seq<Sample>, classes: nat, record: seq<real>, i: nat)
    requires i < |record| && Tally(s, UpTo(record[i])) < |s|
    ensures var r, total := FirstMinimum(s, classes, record[..i]), Tally(s, UpTo(record[i]));
            var gini := WeightedGini(UpToRow(s, record[i], classes)[..classes], ClassCounts(s, classes), total, |s|);
            FirstMinimum(s, classes, record[..i + 1]) == if r.eval > gini then MinEval(gini, record[i], total) else r
  {
    assert record[..i + 1][..i] == record[..i];
    assert UpToRow(s, record[i], classes)[..classes] == CountsUpTo(s, record[i], classes);
  }

  /** The search over a table of distinct values; it leaves the table summed up. */
  method GiniDense(rem: array<seq<int>>, record: seq<real>, totalT: seq<int>, size: nat, ghost s: seq<Sample>)
    returns (ret: MinEval)
    requires |s| == size > 0 && Increasing(record) && Records(s, record) && rem.Length == |record|
    requires totalT == ClassCounts(s, |totalT|)
    requires forall i :: 0 <= i < |record| ==> rem[i] == ExactRow(s, record[i], |totalT|)
    modifies rem
    ensures IsBest(s, |totalT|, ret)
    ensures ret.eval != DBL_MAX ==> ret.left == Tally(s, UpTo(ret.value))
    ensures forall i :: 0 <= i < |record| ==> rem[i] == UpToRow(s, record[i], |totalT|)
  {
    var max, classes := |record|, |totalT|;
    assert s[0].value in record;
    ret := Unset();
    var i := 0;
    while i < max
      invariant 0 <= i < max
      invariant ret == FirstMinimum(s, classes, record[..i])
      invariant forall k :: 0 <= k < i ==> rem[k] == UpToRow(s, record[k], classes)
      invariant forall k :: i <= k < max ==> rem[k] == ExactRow(s, record[k], classes)
    {
      SumRow(rem, record, i, classes, s);
      WholeAtLast(s, record, i);
      if rem[i][classes] >= size {
        break;
      }
      var gini := Evaluate(rem[i][..classes], totalT, rem[i][classes], size);
      RowScores(s, classes, record, i);
      if gini < ret.eval {
        ret := MinEval(gini, record[i], rem[i][classes]);
      }
      i := i + 1;
    }
    RecordBoundaries(s, record, i);
    AllAtMostLast(s, record);
    FirstMinimumIsBest(s, classes, record[i], record[..i]);
  }

  lemma AllAtMostLast(s: seq<Sample>, record: seq<real>)
    requires Increasing(record) && Records(s, record) && |record| > 0
    ensures forall k :: 0 <= k < |s| ==> s[k].value <= record[|record| - 1]
  {
    forall k | 0 <= k < |s|
      ensures s[k].value <= record[|record| - 1]
    {
      var l :| 0 <= l < |record| && record[l] == s[k].value;
    }
  }

  /** Makes row i of the table cumulative. */
  method SumRow(rem: array<seq<int>>, record: seq<real>, i: nat, classes: nat, ghost s: seq<Sample>)
    requires Increasing(record) && Records(s, record) && i < |record| == rem.Length
    requires rem[i] == ExactRow(s, record[i], classes)
    requires i > 0 ==> rem[i - 1] == UpToRow(s, record[i - 1], classes)
    modifies rem
    ensures rem[i] == UpToRow(s, record[i], classes)
    ensures forall k :: 0 <= k < rem.Length && k != i ==> rem[k] == old(rem[k])
  {
    if i > 0 {
      Accumulate(rem, i);
      forall j | 0 <= j < |rem[i]|
        ensures rem[i][j] == UpToRow(s, record[i], classes)[j]
      {
        NextRow(s, record, i, classes, j);
      }
    } else {
      FirstRow(s, record, classes);
    }
  }
}
