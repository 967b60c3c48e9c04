/**
  One column of a node in a round of incremental training (sdk/incrementalDecisionTree.cpp, IncrementalUpdate): some
  rows are forgotten and new ones come in front; the column kept from the last round is merged rather than sorted again.
 */
module IncrementalColumn {

  import opened Orders
  import opened Samples
  import opened GiniIndex
  import opened SplitSearch
  import opened ColumnSearch
  import opened SortedMerge

  /** The values of class j, in order. */
  function ValuesOf(s: seq<Sample>, j: nat): seq<real> {
    if s == [] then []
    else
      var last := s[|s| - 1];
      ValuesOf(s[..|s| - 1], j) + if last.result == j then [last.value] else []
  }

  lemma {:induction false} ValuesCount(s: seq<Sample>, x: Sample)
    ensures multiset(ValuesOf(s, x.result))[x.value] == multiset(s)[x]
  {
    if s != [] {
      var n := |s| - 1;
      ValuesCount(s[..n], x);
      assert s == s[..n] + [s[n]];
    }
  }

  lemma {:induction false} ValuesTally(s: seq<Sample>, j: nat)
    ensures |ValuesOf(s, j)| == Tally(s, Label(j))
  {
    if s != [] {
      ValuesTally(s[..|s| - 1], j);
    }
  }

  /** Number of samples with a class below k. */
  function Below(s: seq<Sample>, k: nat): nat {
    if s == [] then 0 else Below(s[..|s| - 1], k) + if s[|s| - 1].result < k then 1 else 0
  }

  lemma {:induction false} BelowGrows(s: seq<Sample>, k: nat)
    ensures Below(s, 0) == 0 && Below(s, k + 1) == Below(s, k) + Tally(s, Label(k))
  {
    if s != [] {
      BelowGrows(s[..|s| - 1], k);
    }
  }

  lemma {:induction false} AllBelow(s: seq<Sample>, k: nat)
    requires forall i :: 0 <= i < |s| ==> s[i].result < k
    ensures Below(s, k) == |s|
  {
    if s != [] {
      AllBelow(s[..|s| - 1], k);
    }
  }

  /** The values of the samples by class, in ascending order. */
  ghost predicate ByClass(forgotten: seq<seq<real>>, s: seq<Sample>) {
    && AllAscending(forgotten)
    && forall j :: 0 <= j < |forgotten| ==> multiset(forgotten[j]) == multiset(ValuesOf(s, j))
  }

  /** Values grouped by class are forgotten as often as they occur. */
  lemma PendingByClass(forgotten: seq<seq<real>>, s: seq<Sample>, x: Sample)
    requires ByClass(forgotten, s) && forall i :: 0 <= i < |s| ==> s[i].result < |forgotten|
    ensures Pending(forgotten, Start(forgotten), x) == multiset(s)[x]
  {
    ValuesCount(s, x);
    if x.result < |forgotten| {
      assert forgotten[x.result][0..] == forgotten[x.result];
    } else {
      assert x !in s && x !in multiset(s);
    }
  }

  lemma SizesAgree<T>(a: seq<T>, b: seq<T>)
    requires multiset(a) == multiset(b)
    ensures |a| == |b|
  {
    assert |multiset(a)| == |a| && |multiset(b)| == |b|;
  }

  lemma {:induction false} SizeByClass(forgotten: seq<seq<real>>, s: seq<Sample>, k: nat)
    requires ByClass(forgotten, s) && k <= |forgotten|
    ensures PendingSize(forgotten, Start(forgotten), k) == Below(s, k)
  {
    if k == 0 {
      BelowGrows(s, 0);
    } else {
      var j := k - 1;
      SizeByClass(forgotten, s, j);
      BelowGrows(s, j);
      ValuesTally(s, j);
      SizesAgree(forgotten[j], ValuesOf(s, j));
    }
  }

  /** Collects the values of the forgotten rows by class, and sorts each class. */
  method Collect(rows: seq<Row>, col: nat, classes: nat) returns (forgotten: seq<seq<real>>)
    requires Tabular(rows, col, classes)
    ensures |forgotten| == classes && ByClass(forgotten, Column(rows, col))
  {
    ghost var s := Column(rows, col);
    var values := seq(classes, _ => []);
    var i := 0;
    while i < |rows|
      invariant 0 <= i <= |rows| && |values| == classes
      invariant forall j :: 0 <= j < classes ==> values[j] == ValuesOf(s[..i], j)
    {
      assert s[..i + 1][..i] == s[..i];
      var c := rows[i].result;
      values := values[c := values[c] + [rows[i].data[col]]];
      i := i + 1;
    }
    assert s[..i] == s;
    forgotten := SortEach(values);
  }

  method SortEach(values: seq<seq<real>>) returns (sorted: seq<seq<real>>)
    ensures |sorted| == |values| && AllAscending(sorted)
    ensures forall j :: 0 <= j < |values| ==> multiset(sorted[j]) == multiset(values[j])
  {
    sorted := [];
    while |sorted| < |values|
      invariant |sorted| <= |values| && AllAscending(sorted)
      invariant forall j :: 0 <= j < |sorted| ==> multiset(sorted[j]) == multiset(values[j])
    {
      var column := values[|sorted|];
      var d := SortPositions(column);
      ArrangedIsPermutation(column, d);
      sorted := sorted + [Arranged(column, d)];
    }
  }

  lemma ColumnOfSum(a: seq<Row>, b: seq<Row>, col: nat)
    requires forall i :: 0 <= i < |a| ==> col < |a[i].data|
    requires forall i :: 0 <= i < |b| ==> col < |b[i].data|
    ensures Column(a + b, col) == Column(a, col) + Column(b, col)
  {
  }

  lemma ClassesOfColumn(rows: seq<Row>, col: nat, classes: nat)
    requires Tabular(rows, col, classes)
    ensures forall i :: 0 <= i < |rows| ==> Column(rows, col)[i].result < classes
  {
  }

  /** A sorted copy of kept and dropped rows, without the dropped ones and with the recent ones, is one of recent and kept. */
  lemma RoundIsMerge(
      prior: seq<Sample>, kept: seq<Row>, dropped: seq<Row>, recent: seq<Row>, col: nat, forgotten: seq<seq<real>>)
    requires Tabular(kept, col, |forgotten|) && Tabular(dropped, col, |forgotten|) && Tabular(recent, col, |forgotten|)
    requires multiset(prior) == multiset(Column(kept + dropped, col)) && ByClass(forgotten, Column(dropped, col))
    ensures IsMerge(Column(recent + kept, col), prior, forgotten, Column(recent, col))
    ensures Contained(prior, 0, forgotten, Start(forgotten))
    ensures PendingSize(forgotten, Start(forgotten), |forgotten|) == |dropped|
  {
    var k, d, r := Column(kept, col), Column(dropped, col), Column(recent, col);
    ColumnOfSum(kept, dropped, col);
    ColumnOfSum(recent, kept, col);
    ClassesOfColumn(dropped, col, |forgotten|);
    assert prior[0..] == prior;
    forall x
      ensures Pending(forgotten, Start(forgotten), x) == multiset(d)[x]
      ensures multiset(r + k)[x] == multiset(prior)[x] - multiset(d)[x] + multiset(r)[x]
      ensures multiset(d)[x] <= multiset(prior)[x]
    {
      PendingByClass(forgotten, d, x);
      assert multiset(k + d) == multiset(k) + multiset(d) && multiset(r + k) == multiset(r) + multiset(k);
    }
    SizeByClass(forgotten, d, |forgotten|);
    AllBelow(d, |forgotten|);
  }

  /**
    The round for one column of a node: some of its rows are kept, the others dropped, and recent ones come in front.
    What comes out is a sorted copy of the column for the rows after the round, ready for the next one, and the split
    that a search from scratch would find.
   */
  method Advance(
      kept: seq<Row>, dropped: seq<Row>, recent: seq<Row>, prior: seq<Sample>, col: nat, classes: nat)
    returns (ret: MinEval, sorted: seq<Sample>)
    requires Tabular(kept, col, classes) && Tabular(dropped, col, classes) && Tabular(recent, col, classes)
    requires IsSortedCopy(prior, Column(kept + dropped, col)) && |recent| + |kept| > 0
    ensures IsSortedCopy(sorted, Column(recent + kept, col)) && IsBest(Column(recent + kept, col), classes, ret)
  {
    var forgotten := Collect(dropped, col, classes);
    RoundIsMerge(prior, kept, dropped, recent, col, forgotten);
    SizesAgree(prior, Column(kept + dropped, col));
    ClassesAgree(prior, kept + dropped, col, classes);
    var rows := recent + kept;
    assert rows[..|recent|] == recent;
    ret, sorted := IncrementalMinGiniSparse(rows, |recent|, prior, col, forgotten);
  }

  lemma ClassesAgree(prior: seq<Sample>, rows: seq<Row>, col: nat, classes: nat)
    requires Tabular(rows, col, classes) && multiset(prior) == multiset(Column(rows, col))
    ensures forall i :: 0 <= i < |prior| ==> prior[i].result < classes
  {
    forall i | 0 <= i < |prior|
      ensures prior[i].result < classes
    {
      SameMembers(prior, Column(rows, col), prior[i]);
    }
  }
}
