/**
  The incremental form of the sorted search (sdk/incrementalDecisionTree.cpp, incrementalMinGiniSparse): one pass
  that merges the sorted old column with the sorted new values and leaves out the forgotten ones, which are given
  per class, in ascending order.
 */
module SortedMerge {

  import opened Orders
  import opened Samples
  import opened GiniIndex
  import opened SplitSearch
  import opened ColumnSearch

  /** f[j] of the forgotten values of class j have been met. */
  predicate Cursors(forgotten: seq<seq<real>>, f: seq<nat>) {
    |f| == |forgotten| && forall j :: 0 <= j < |f| ==> f[j] <= |forgotten[j]|
  }

  /** How often x is still to be forgotten. */
  function Pending(forgotten: seq<seq<real>>, f: seq<nat>, x: Sample): nat
    requires Cursors(forgotten, f)
  {
    if x.result < |forgotten| then multiset(forgotten[x.result][f[x.result]..])[x.value] else 0
  }

  /** Number of values of the first k classes still to be forgotten. */
  function PendingSize(forgotten: seq<seq<real>>, f: seq<nat>, k: nat): nat
    requires Cursors(forgotten, f) && k <= |f|
  {
    if k == 0 then 0 else PendingSize(forgotten, f, k - 1) + (|forgotten[k - 1]| - f[k - 1])
  }

  function Start(forgotten: seq<seq<real>>): (f: seq<nat>)
    ensures Cursors(forgotten, f)
  {
    seq(|forgotten|, _ => 0)
  }

  /** What is still to be forgotten is among the old samples from p2 on. */
  ghost predicate Contained(prior: seq<Sample>, p2: nat, forgotten: seq<seq<real>>, f: seq<nat>)
    requires Cursors(forgotten, f) && p2 <= |prior|
  {
    forall x :: Pending(forgotten, f, x) <= multiset(prior[p2..])[x]
  }

  ghost predicate AllAscending(forgotten: seq<seq<real>>) {
    forall j :: 0 <= j < |forgotten| ==> Ascending(forgotten[j])
  }

  /** The next forgotten value of its class is the one of the old sample x. */
  predicate Met(forgotten: seq<seq<real>>, f: seq<nat>, x: Sample)
    requires Cursors(forgotten, f)
  {
    && x.result < |forgotten| && f[x.result] < |forgotten[x.result]|
    && forgotten[x.result][f[x.result]] == x.value
  }

  function Meet(forgotten: seq<seq<real>>, f: seq<nat>, x: Sample): (f': seq<nat>)
    requires Cursors(forgotten, f) && Met(forgotten, f, x)
    ensures Cursors(forgotten, f')
  {
    f[x.result := f[x.result] + 1]
  }

  lemma {:induction false} PendingSizeUnchanged(forgotten: seq<seq<real>>, f: seq<nat>, f': seq<nat>, k: nat)
    requires Cursors(forgotten, f) && Cursors(forgotten, f') && k <= |f| && f[..k] == f'[..k]
    ensures PendingSize(forgotten, f, k) == PendingSize(forgotten, f', k)
  {
    if k > 0 {
      assert f[..k][..k - 1] == f[..k - 1] && f'[..k][..k - 1] == f'[..k - 1];
      assert f[..k][k - 1] == f'[..k][k - 1];
      PendingSizeUnchanged(forgotten, f, f', k - 1);
    }
  }

  lemma {:induction false} MeetSize(forgotten: seq<seq<real>>, f: seq<nat>, x: Sample, k: nat)
    requires Cursors(forgotten, f) && Met(forgotten, f, x) && x.result < k <= |f|
    ensures PendingSize(forgotten, f, k) == PendingSize(forgotten, Meet(forgotten, f, x), k) + 1
  {
    if x.result < k - 1 {
      MeetSize(forgotten, f, x, k - 1);
    } else {
      PendingSizeUnchanged(forgotten, f, Meet(forgotten, f, x), k - 1);
    }
  }

  lemma MeetPending(forgotten: seq<seq<real>>, f: seq<nat>, x: Sample, y: Sample)
    requires Cursors(forgotten, f) && Met(forgotten, f, x)
    ensures Pending(forgotten, f, y) == Pending(forgotten, Meet(forgotten, f, x), y) + if y == x then 1 else 0
  {
    if y.result == x.result {
      var s, n := forgotten[x.result], f[x.result];
      assert s[n..] == [s[n]] + s[n + 1..];
    }
  }

  lemma HeadAndTail(s: seq<Sample>, p: nat)
    requires p < |s|
    ensures s[p..] == [s[p]] + s[p + 1..]
    ensures multiset(s[p..]) == multiset(s[p + 1..]) + multiset{s[p]}
  {
    assert s[p..] == [s[p]] + s[p + 1..];
  }

  /** An old sample whose value is not the next forgotten one of its class is not to be forgotten at all. */
  lemma NotMetIsKept(prior: seq<Sample>, p2: nat, forgotten: seq<seq<real>>, f: seq<nat>)
    requires Cursors(forgotten, f) && p2 < |prior| && Sorted(prior) && AllAscending(forgotten)
    requires Contained(prior, p2, forgotten, f) && !Met(forgotten, f, prior[p2])
    ensures Pending(forgotten, f, prior[p2]) == 0
  {
    var x := prior[p2];
    var j := x.result;
    if j < |forgotten| && f[j] < |forgotten[j]| {
      var rest, h := forgotten[j][f[j]..], Sample(forgotten[j][f[j]], j);
      assert rest[0] in multiset(rest);
      assert Pending(forgotten, f, h) <= multiset(prior[p2..])[h];
      assert h in prior[p2..];
      assert x.value < h.value;
      forall k | 0 <= k < |rest|
        ensures rest[k] > x.value
      {
        assert rest[k] == forgotten[j][f[j] + k];
      }
      assert x.value !in rest;
    }
  }

  /** Passing an old sample, whether it is forgotten or kept. */
  lemma Passed(prior: seq<Sample>, p2: nat, forgotten: seq<seq<real>>, f: seq<nat>)
    requires Cursors(forgotten, f) && p2 < |prior| && Sorted(prior) && AllAscending(forgotten)
    requires Contained(prior, p2, forgotten, f)
    ensures Met(forgotten, f, prior[p2]) ==> Contained(prior, p2 + 1, forgotten, Meet(forgotten, f, prior[p2]))
    ensures !Met(forgotten, f, prior[p2]) ==> Contained(prior, p2 + 1, forgotten, f)
  {
    var x := prior[p2];
    HeadAndTail(prior, p2);
    if Met(forgotten, f, x) {
      forall y
        ensures Pending(forgotten, Meet(forgotten, f, x), y) <= multiset(prior[p2 + 1..])[y]
      {
        MeetPending(forgotten, f, x, y);
        assert Pending(forgotten, f, y) <= multiset(prior[p2..])[y];
      }
    } else {
      NotMetIsKept(prior, p2, forgotten, f);
      forall y
        ensures Pending(forgotten, f, y) <= multiset(prior[p2 + 1..])[y]
      {
        assert Pending(forgotten, f, y) <= multiset(prior[p2..])[y];
      }
    }
  }

  lemma {:induction false} NothingPending(forgotten: seq<seq<real>>, f: seq<nat>, k: nat)
    requires Cursors(forgotten, f) && k <= |f| && forall x :: Pending(forgotten, f, x) == 0
    ensures PendingSize(forgotten, f, k) == 0
  {
    if k > 0 {
      NothingPending(forgotten, f, k - 1);
      var rest := forgotten[k - 1][f[k - 1]..];
      forall v
        ensures multiset(rest)[v] == 0
      {
        assert Pending(forgotten, f, Sample(v, k - 1)) == 0;
      }
      assert multiset(rest) == multiset{} && |multiset(rest)| == |rest|;
    }
  }

  /** Never more is to be forgotten than is left; and when as much, then everything that is left. */
  lemma {:induction false} Enough(prior: seq<Sample>, p2: nat, forgotten: seq<seq<real>>, f: seq<nat>)
    requires Cursors(forgotten, f) && p2 <= |prior| && Sorted(prior) && AllAscending(forgotten)
    requires Contained(prior, p2, forgotten, f)
    ensures PendingSize(forgotten, f, |f|) <= |prior| - p2
    ensures PendingSize(forgotten, f, |f|) == |prior| - p2 ==>
              forall x :: Pending(forgotten, f, x) == multiset(prior[p2..])[x]
    decreases |prior| - p2
  {
    if p2 == |prior| {
      assert prior[p2..] == [];
      NothingPending(forgotten, f, |f|);
    } else {
      var x := prior[p2];
      HeadAndTail(prior, p2);
      Passed(prior, p2, forgotten, f);
      if Met(forgotten, f, x) {
        var f' := Meet(forgotten, f, x);
        MeetSize(forgotten, f, x, |f|);
        Enough(prior, p2 + 1, forgotten, f');
        forall y
          ensures Pending(forgotten, f, y) == Pending(forgotten, f', y) + if y == x then 1 else 0
        {
          MeetPending(forgotten, f, x, y);
        }
      } else {
        Enough(prior, p2 + 1, forgotten, f);
      }
    }
  }

  // ---------------------------------------------------------------------------------------------
  // The merge
  // ---------------------------------------------------------------------------------------------

  /** out holds the old samples without the forgotten ones, and the added ones. */
  ghost predicate IsMerge(out: seq<Sample>, prior: seq<Sample>, forgotten: seq<seq<real>>, added: seq<Sample>) {
    forall x :: multiset(out)[x] == multiset(prior)[x] - Pending(forgotten, Start(forgotten), x) + multiset(added)[x]
  }

  /** How often x is still to be written. */
  function Due(
      prior: seq<Sample>, p2: nat, forgotten: seq<seq<real>>, f: seq<nat>, added: seq<Sample>, p1: nat, x: Sample): int
    requires Cursors(forgotten, f) && p2 <= |prior| && p1 <= |added|
  {
    multiset(prior[p2..])[x] - Pending(forgotten, f, x) + multiset(added[p1..])[x]
  }

  /** What has been written and what is due make up the merge. */
  ghost predicate Balanced(
      out: seq<Sample>, prior: seq<Sample>, p2: nat, forgotten: seq<seq<real>>, f: seq<nat>, added: seq<Sample>, p1: nat)
  {
    && Cursors(forgotten, f) && p2 <= |prior| && p1 <= |added|
    && (forall x :: multiset(out)[x] + Due(prior, p2, forgotten, f, added, p1, x)
                    == Due(prior, 0, forgotten, Start(forgotten), added, 0, x))
    && |out| + (|prior| - p2 - PendingSize(forgotten, f, |f|)) + (|added| - p1)
       == |prior| - PendingSize(forgotten, Start(forgotten), |forgotten|) + |added|
  }

  /** Everything written so far comes before what is left. */
  ghost predicate Behind(out: seq<Sample>, s: seq<Sample>, p: nat) {
    forall i, k :: 0 <= i < |out| && p <= k < |s| ==> out[i].value <= s[k].value
  }

  lemma BalancedForget(
      out: seq<Sample>, prior: seq<Sample>, p2: nat, forgotten: seq<seq<real>>, f: seq<nat>, added: seq<Sample>, p1: nat)
    requires Balanced(out, prior, p2, forgotten, f, added, p1) && p2 < |prior| && Met(forgotten, f, prior[p2])
    ensures Balanced(out, prior, p2 + 1, forgotten, Meet(forgotten, f, prior[p2]), added, p1)
  {
    var x := prior[p2];
    HeadAndTail(prior, p2);
    MeetSize(forgotten, f, x, |f|);
    forall y
      ensures multiset(out)[y] + Due(prior, p2 + 1, forgotten, Meet(forgotten, f, x), added, p1, y)
           == Due(prior, 0, forgotten, Start(forgotten), added, 0, y)
    {
      MeetPending(forgotten, f, x, y);
      assert multiset(out)[y] + Due(prior, p2, forgotten, f, added, p1, y)
          == Due(prior, 0, forgotten, Start(forgotten), added, 0, y);
    }
  }

  lemma BalancedKeep(
      out: seq<Sample>, prior: seq<Sample>, p2: nat, forgotten: seq<seq<real>>, f: seq<nat>, added: seq<Sample>, p1: nat)
    requires Balanced(out, prior, p2, forgotten, f, added, p1) && p2 < |prior|
    ensures Balanced(out + [prior[p2]], prior, p2 + 1, forgotten, f, added, p1)
  {
    var x := prior[p2];
    HeadAndTail(prior, p2);
    assert multiset(out + [x]) == multiset(out) + multiset{x};
    forall y
      ensures multiset(out + [x])[y] + Due(prior, p2 + 1, forgotten, f, added, p1, y)
           == Due(prior, 0, forgotten, Start(forgotten), added, 0, y)
    {
      assert multiset(out)[y] + Due(prior, p2, forgotten, f, added, p1, y)
          == Due(prior, 0, forgotten, Start(forgotten), added, 0, y);
    }
  }

  lemma BalancedAdd(
      out: seq<Sample>, prior: seq<Sample>, p2: nat, forgotten: seq<seq<real>>, f: seq<nat>, added: seq<Sample>, p1: nat)
    requires Balanced(out, prior, p2, forgotten, f, added, p1) && p1 < |added|
    ensures Balanced(out + [added[p1]], prior, p2, forgotten, f, added, p1 + 1)
  {
    var x := added[p1];
    HeadAndTail(added, p1);
    assert multiset(out + [x]) == multiset(out) + multiset{x};
    forall y
      ensures multiset(out + [x])[y] + Due(prior, p2, forgotten, f, added, p1 + 1, y)
           == Due(prior, 0, forgotten, Start(forgotten), added, 0, y)
    {
      assert multiset(out)[y] + Due(prior, p2, forgotten, f, added, p1, y)
          == Due(prior, 0, forgotten, Start(forgotten), added, 0, y);
    }
  }

  /** The inputs of the merge. */
  ghost predicate Mergeable(prior: seq<Sample>, added: seq<Sample>, forgotten: seq<seq<real>>, sizeTotal: nat) {
    && Sorted(prior) && Sorted(added) && AllAscending(forgotten)
    && (forall i :: 0 <= i < |prior| ==> prior[i].result < |forgotten|)
    && (forall i :: 0 <= i < |added| ==> added[i].result < |forgotten|)
    && Contained(prior, 0, forgotten, Start(forgotten))
    && sizeTotal == |prior| - PendingSize(forgotten, Start(forgotten), |forgotten|) + |added|
  }

  /** The invariant of the merge. */
  ghost predicate Merging(
      out: seq<Sample>, prior: seq<Sample>, p2: nat, forgotten: seq<seq<real>>, f: seq<nat>, added: seq<Sample>, p1: nat)
  {
    && Balanced(out, prior, p2, forgotten, f, added, p1) && Contained(prior, p2, forgotten, f)
    && Sorted(out) && Behind(out, prior, p2) && Behind(out, added, p1)
  }

  lemma Begin(prior: seq<Sample>, added: seq<Sample>, forgotten: seq<seq<real>>, sizeTotal: nat)
    requires Mergeable(prior, added, forgotten, sizeTotal)
    ensures Merging([], prior, 0, forgotten, Start(forgotten), added, 0)
  {
  }

  /** Passing the old sample at p2, when it is at most the next new one. */
  lemma PassOld(
      out: seq<Sample>, prior: seq<Sample>, p2: nat, forgotten: seq<seq<real>>, f: seq<nat>, added: seq<Sample>, p1: nat)
    requires Merging(out, prior, p2, forgotten, f, added, p1) && Sorted(prior) && Sorted(added) && AllAscending(forgotten)
    requires p2 < |prior| && (p1 < |added| ==> prior[p2].value <= added[p1].value)
    ensures if Met(forgotten, f, prior[p2])
            then Merging(out, prior, p2 + 1, forgotten, Meet(forgotten, f, prior[p2]), added, p1)
            else Merging(out + [prior[p2]], prior, p2 + 1, forgotten, f, added, p1)
  {
    Passed(prior, p2, forgotten, f);
    if Met(forgotten, f, prior[p2]) {
      BalancedForget(out, prior, p2, forgotten, f, added, p1);
    } else {
      BalancedKeep(out, prior, p2, forgotten, f, added, p1);
      WrittenInOrder(out, prior[p2], prior, p2);
    }
  }

  lemma WrittenInOrder(out: seq<Sample>, x: Sample, s: seq<Sample>, p: nat)
    requires Sorted(out) && Behind(out, s, p) && p < |s| && s[p] == x
    ensures Sorted(out + [x])
  {
  }

  /** Passing the new sample at p1, when it is less than the next old one. */
  lemma PassAdded(
      out: seq<Sample>, prior: seq<Sample>, p2: nat, forgotten: seq<seq<real>>, f: seq<nat>, added: seq<Sample>, p1: nat)
    requires Merging(out, prior, p2, forgotten, f, added, p1) && Sorted(prior) && Sorted(added)
    requires p1 < |added| && (p2 < |prior| ==> added[p1].value <= prior[p2].value)
    ensures Merging(out + [added[p1]], prior, p2, forgotten, f, added, p1 + 1)
  {
    BalancedAdd(out, prior, p2, forgotten, f, added, p1);
    WrittenInOrder(out, added[p1], added, p1);
  }

  /** While samples are missing, there is one to take. */
  lemma SomethingLeft(
      out: seq<Sample>, prior: seq<Sample>, p2: nat, forgotten: seq<seq<real>>, f: seq<nat>, added: seq<Sample>, p1: nat,
      sizeTotal: nat)
    requires Merging(out, prior, p2, forgotten, f, added, p1) && Mergeable(prior, added, forgotten, sizeTotal)
    ensures |out| <= sizeTotal
    ensures |out| < sizeTotal ==> p1 < |added| || p2 < |prior|
  {
    Enough(prior, p2, forgotten, f);
    if p2 == |prior| && p1 == |added| {
      assert PendingSize(forgotten, f, |f|) == 0;
    }
  }

  /** When as many samples have been written as there should be, the right ones have. */
  lemma Complete(
      out: seq<Sample>, prior: seq<Sample>, p2: nat, forgotten: seq<seq<real>>, f: seq<nat>, added: seq<Sample>, p1: nat)
    requires Merging(out, prior, p2, forgotten, f, added, p1) && Mergeable(prior, added, forgotten, |out|)
    ensures IsMerge(out, prior, forgotten, added)
  {
    Enough(prior, p2, forgotten, f);
    assert added[p1..] == [] && added[0..] == added && prior[0..] == prior;
    forall x
      ensures multiset(out)[x] == multiset(prior)[x] - Pending(forgotten, Start(forgotten), x) + multiset(added)[x]
    {
      assert multiset(out)[x] + Due(prior, p2, forgotten, f, added, p1, x)
          == Due(prior, 0, forgotten, Start(forgotten), added, 0, x);
    }
  }

  /** One turn of the loop that takes an old sample: the sample is met and left out, or written. */
  method TakeOld(
      x: Sample, forgotten: seq<seq<real>>, f: seq<nat>, out: seq<Sample>, T: seq<int>)
    returns (f': seq<nat>, out': seq<Sample>, T': seq<int>)
    requires Cursors(forgotten, f) && x.result < |forgotten| == |T| && T == ClassCounts(out, |T|)
    ensures T' == ClassCounts(out', |T|)
    ensures if Met(forgotten, f, x) then f' == Meet(forgotten, f, x) && out' == out else f' == f && out' == out + [x]
  {
    f', out', T' := f, out, T;
    var j := x.result;
    if f[j] != |forgotten[j]| {
      if x.value == forgotten[j][f[j]] {
        f' := f[j := f[j] + 1];
        return;
      }
    }
    out', T' := Write(x, out, T);
  }

  method Write(x: Sample, out: seq<Sample>, T: seq<int>) returns (out': seq<Sample>, T': seq<int>)
    requires x.result < |T| && T == ClassCounts(out, |T|)
    ensures out' == out + [x] && T' == ClassCounts(out', |T|)
  {
    out' := out + [x];
    T' := T[x.result := T[x.result] + 1];
    assert out'[..|out|] == out && out'[..|out'|] == out';
    CountOneMore(out', |out|, |T|);
  }

  /**
    The merge.  Nothing is read beyond the ends: the loop stops when sizeTotal samples have been written, and then
    nothing but forgotten samples is left.
   */
  method Merge(prior: seq<Sample>, added: seq<Sample>, forgotten: seq<seq<real>>, sizeTotal: nat)
    returns (out: seq<Sample>, T: seq<int>)
    requires Mergeable(prior, added, forgotten, sizeTotal)
    ensures Sorted(out) && IsMerge(out, prior, forgotten, added) && |out| == sizeTotal
    ensures T == ClassCounts(out, |forgotten|)
  {
    out, T := [], seq(|forgotten|, _ => 0);
    var p1, p2 := 0, 0;
    var f := Start(forgotten);
    Begin(prior, added, forgotten, sizeTotal);
    SomethingLeft(out, prior, p2, forgotten, f, added, p1, sizeTotal);
    while |out| < sizeTotal
      invariant p1 <= |added| && p2 <= |prior| && Merging(out, prior, p2, forgotten, f, added, p1)
      invariant |out| <= sizeTotal && T == ClassCounts(out, |forgotten|)
      decreases |prior| - p2 + |added| - p1
    {
      SomethingLeft(out, prior, p2, forgotten, f, added, p1, sizeTotal);
      var takeOld :=
        if p1 == |added| then true
        else if p2 == |prior| then false
        else !(added[p1].value < prior[p2].value);
      if takeOld {
        PassOld(out, prior, p2, forgotten, f, added, p1);
        f, out, T := TakeOld(prior[p2], forgotten, f, out, T);
        p2 := p2 + 1;
      } else {
        PassAdded(out, prior, p2, forgotten, f, added, p1);
        out, T := Write(added[p1], out, T);
        p1 := p1 + 1;
      }
      SomethingLeft(out, prior, p2, forgotten, f, added, p1, sizeTotal);
    }
    Complete(out, prior, p2, forgotten, f, added, p1);
  }

  // ---------------------------------------------------------------------------------------------
  // The search
  // ---------------------------------------------------------------------------------------------

  /** Merging is as good as sorting again: what has the samples of the merge is a permutation of it. */
  lemma MergedTheSame(out: seq<Sample>, again: seq<Sample>, prior: seq<Sample>, forgotten: seq<seq<real>>, added: seq<Sample>)
    requires IsMerge(out, prior, forgotten, added) && IsMerge(again, prior, forgotten, added)
    ensures multiset(out) == multiset(again)
  {
    forall x
      ensures multiset(out)[x] == multiset(again)[x]
    {
      assert multiset(out)[x] == multiset(prior)[x] - Pending(forgotten, Start(forgotten), x) + multiset(added)[x];
    }
  }

  lemma MergePermuted(
      out: seq<Sample>, prior: seq<Sample>, forgotten: seq<seq<real>>, added: seq<Sample>, added': seq<Sample>)
    requires IsMerge(out, prior, forgotten, added) && multiset(added) == multiset(added')
    ensures IsMerge(out, prior, forgotten, added')
  {
    forall x
      ensures multiset(out)[x] == multiset(prior)[x] - Pending(forgotten, Start(forgotten), x) + multiset(added')[x]
    {
      assert multiset(out)[x] == multiset(prior)[x] - Pending(forgotten, Start(forgotten), x) + multiset(added)[x];
    }
  }

  /**
    Sorts the first sizeNew rows, which are the new ones, merges them with the column kept from the last round, and
    searches the result.  If the rows are what the last round had, without the forgotten ones and with the new
    ones, then the column and the split are those of a search from scratch.
   */
  method IncrementalMinGiniSparse(rows: seq<Row>, sizeNew: nat, prior: seq<Sample>, col: nat, forgotten: seq<seq<real>>)
    returns (ret: MinEval, sorted: seq<Sample>)
    requires 0 < |rows| && sizeNew <= |rows| && Tabular(rows, col, |forgotten|)
    requires Sorted(prior) && AllAscending(forgotten) && Contained(prior, 0, forgotten, Start(forgotten))
    requires forall i :: 0 <= i < |prior| ==> prior[i].result < |forgotten|
    requires |rows| == |prior| - PendingSize(forgotten, Start(forgotten), |forgotten|) + sizeNew
    ensures IsMerge(sorted, prior, forgotten, Column(rows[..sizeNew], col))
    ensures Sorted(sorted) && IsBest(sorted, |forgotten|, ret)
    ensures IsMerge(Column(rows, col), prior, forgotten, Column(rows[..sizeNew], col)) ==>
              IsSortedCopy(sorted, Column(rows, col)) && IsBest(Column(rows, col), |forgotten|, ret)
  {
    var recent := rows[..sizeNew];
    var newD := SortPositions(Values(recent, col));
    SortedByValue(recent, col, newD);
    var added := Arranged(Column(recent, col), newD);
    var T;
    sorted, T := Merge(prior, added, forgotten, |rows|);
    MergePermuted(sorted, prior, forgotten, added, Column(recent, col));
    ClassesInRange(sorted, prior, added, forgotten);
    ret := GiniSparseIncremental(sorted, T);
    if IsMerge(Column(rows, col), prior, forgotten, Column(recent, col)) {
      MergedTheSame(sorted, Column(rows, col), prior, forgotten, Column(recent, col));
      BestPermuted(sorted, Column(rows, col), |forgotten|, ret);
    }
  }

  lemma ClassesInRange(out: seq<Sample>, prior: seq<Sample>, added: seq<Sample>, forgotten: seq<seq<real>>)
    requires IsMerge(out, prior, forgotten, added)
    requires forall i :: 0 <= i < |prior| ==> prior[i].result < |forgotten|
    requires forall i :: 0 <= i < |added| ==> added[i].result < |forgotten|
    ensures forall i :: 0 <= i < |out| ==> out[i].result < |forgotten|
  {
    forall i | 0 <= i < |out|
      ensures out[i].result < |forgotten|
    {
      assert out[i] in multiset(out);
      assert multiset(prior)[out[i]] > 0 || multiset(added)[out[i]] > 0;
      assert out[i] in prior || out[i] in added;
    }
  }
}
