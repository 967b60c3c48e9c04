/** One column of the training rows: a value and a class label for each row; and how many satisfy a query. */
module Samples {

  import opened Orders

  datatype Sample = Sample(value: real, result: nat)

  datatype Query = Label(j: nat) | UpTo(v: real) | LabelUpTo(v: real, j: nat) | Exactly(v: real) | LabelExactly(v: real, j: nat)

  predicate Matches(x: Sample, q: Query) {
    match q
    case Label(j) => x.result == j
    case UpTo(v) => x.value <= v
    case LabelUpTo(v, j) => x.value <= v && x.result == j
    case Exactly(v) => x.value == v
    case LabelExactly(v, j) => x.value == v && x.result == j
  }

  function Tally(s: seq<Sample>, q: Query): nat {
    if s == [] then 0 else Tally(s[..|s| - 1], q) + if Matches(s[|s| - 1], q) then 1 else 0
  }

  predicate Sorted(s: seq<Sample>) {
    forall i, j :: 0 <= i < j < |s| ==> s[i].value <= s[j].value
  }

  lemma {:induction false} TallyOfSum(a: seq<Sample>, b: seq<Sample>, q: Query)
    ensures Tally(a + b, q) == Tally(a, q) + Tally(b, q)
  {
    if b == [] {
      assert a + b == a;
    } else {
      assert (a + b)[..|a + b| - 1] == a + b[..|b| - 1];
      TallyOfSum(a, b[..|b| - 1], q);
    }
  }

  lemma {:induction false} TallyAtMost(s: seq<Sample>, q: Query)
    ensures Tally(s, q) <= |s|
  {
    if s != [] {
      TallyAtMost(s[..|s| - 1], q);
    }
  }

  lemma {:induction false} TallyNone(s: seq<Sample>, q: Query)
    requires forall i :: 0 <= i < |s| ==> !Matches(s[i], q)
    ensures Tally(s, q) == 0
  {
    if s != [] {
      TallyNone(s[..|s| - 1], q);
    }
  }

  lemma {:induction false} TallyAll(s: seq<Sample>, q: Query)
    requires forall i :: 0 <= i < |s| ==> Matches(s[i], q)
    ensures Tally(s, q) == |s|
  {
    if s != [] {
      TallyAll(s[..|s| - 1], q);
    }
  }

  /** A sample that does not match is missing from the tally. */
  lemma TallyMisses(s: seq<Sample>, q: Query, k: nat)
    requires k < |s| && !Matches(s[k], q)
    ensures Tally(s, q) < |s|
  {
    TallyWithout(s, k, q);
    TallyAtMost(s[..k] + s[k + 1..], q);
  }

  /** The matches of q are all in front, where q' says the same. */
  lemma TallyInFront(a: seq<Sample>, b: seq<Sample>, q: Query, q': Query)
    requires forall i :: 0 <= i < |a| ==> (Matches(a[i], q) <==> Matches(a[i], q'))
    requires forall i :: 0 <= i < |b| ==> !Matches(b[i], q)
    ensures Tally(a + b, q) == Tally(a, q')
  {
    TallyOfSum(a, b, q);
    TallyAgrees(a, q, q');
    TallyNone(b, q);
  }

  /** Queries that agree on every sample. */
  lemma {:induction false} TallyAgrees(s: seq<Sample>, q: Query, q': Query)
    requires forall i :: 0 <= i < |s| ==> (Matches(s[i], q) <==> Matches(s[i], q'))
    ensures Tally(s, q) == Tally(s, q')
  {
    if s != [] {
      TallyAgrees(s[..|s| - 1], q, q');
    }
  }

  /** A query that is the disjoint union of two others. */
  lemma {:induction false} TallySplits(s: seq<Sample>, q: Query, a: Query, b: Query)
    requires forall i :: 0 <= i < |s| ==> (Matches(s[i], q) <==> Matches(s[i], a) || Matches(s[i], b))
    requires forall i :: 0 <= i < |s| ==> !(Matches(s[i], a) && Matches(s[i], b))
    ensures Tally(s, q) == Tally(s, a) + Tally(s, b)
  {
    if s != [] {
      TallySplits(s[..|s| - 1], q, a, b);
    }
  }

  lemma TallyWithout(s: seq<Sample>, k: nat, q: Query)
    requires k < |s|
    ensures Tally(s, q) == Tally(s[..k] + s[k + 1..], q) + if Matches(s[k], q) then 1 else 0
  {
    assert s == (s[..k] + [s[k]]) + s[k + 1..];
    TallyOfSum(s[..k] + [s[k]], s[k + 1..], q);
    TallyOfSum(s[..k], s[k + 1..], q);
    assert (s[..k] + [s[k]])[..k] == s[..k];
  }

  /** The order of the samples does not matter. */
  lemma {:induction false} TallyPermuted(a: seq<Sample>, b: seq<Sample>, q: Query)
    requires multiset(a) == multiset(b)
    ensures Tally(a, q) == Tally(b, q)
    decreases |a|
  {
    if a == [] {
      assert |multiset(b)| == 0;
    } else {
      var n := |a| - 1;
      var k := Located(a, b, a[n]);
      Removed(b, k);
      Removed(a, n);
      assert a[..n] + a[n + 1..] == a[..n];
      TallyPermuted(a[..|a| - 1], b[..k] + b[k + 1..], q);
      TallyWithout(b, k, q);
    }
  }

  lemma SameMembers(a: seq<Sample>, b: seq<Sample>, x: Sample)
    requires multiset(a) == multiset(b) && x in a
    ensures x in b
  {
    assert x in multiset(a);
  }
}

/** Weighted Gini impurity of a split (sdk/Evaluation.cpp), over real numbers, and what the best split is. */
module GiniIndex {

  import opened Fractions
  import opened Samples

  /** The largest finite double. */
  const DBL_MAX: real :=
    179769313486231570814527423731704356798070567525844996598917476803157260780028538760589558632766878171540458953514382464234321326889464182768467546703537516986049910576551282076245490090389328944075868508455133942304583236903222948165808559332123348274797826204144723168738177180919299881250404026184124858368.0

  function Share(count: int, total: nat): real {
    if total == 0 then 0.0 else (count as real) / (total as real)
  }

  function Square(x: real): (y: real)
    ensures y >= 0.0
  {
    x * x
  }

  function SquaredShares(counts: seq<int>, total: nat): (sum: real)
    ensures sum >= 0.0
  {
    if counts == [] then 0.0 else SquaredShares(counts[..|counts| - 1], total) + Square(Share(counts[|counts| - 1], total))
  }

  function Impurity(counts: seq<int>, total: nat): (gini: real)
    ensures gini <= 1.0
  {
    1.0 - SquaredShares(counts, total)
  }

  /** Class counts of the right side. */
  function Others(all: seq<int>, left: seq<int>): (r: seq<int>)
    requires |left| == |all|
    ensures |r| == |all|
  {
    seq(|all|, j requires 0 <= j < |all| => all[j] - left[j])
  }

  /** x weighted by part of whole. */
  function Portion(x: real, part: nat, whole: nat): real
    requires whole > 0
  {
    x * (part as real) / (whole as real)
  }

  function WeightedGini(left: seq<int>, all: seq<int>, total: nat, size: nat): real
    requires |left| == |all| && total <= size && size > 0
  {
    Portion(Impurity(left, total), total, size) + Portion(Impurity(Others(all, left), size - total), size - total, size)
  }

  lemma PortionAtMost(x: real, part: nat, whole: nat)
    requires whole > 0 && x <= 1.0
    ensures Portion(x, part, whole) <= (part as real) / (whole as real)
  {
    assert x * (part as real) <= part as real;
  }

  lemma WeightedGiniAtMostOne(left: seq<int>, all: seq<int>, total: nat, size: nat)
    requires |left| == |all| && total <= size && size > 0
    ensures WeightedGini(left, all, total, size) <= 1.0
  {
    PortionAtMost(Impurity(left, total), total, size);
    PortionAtMost(Impurity(Others(all, left), size - total), size - total, size);
    PartsOfOne(total as real, (size - total) as real, size as real);
  }

  lemma PartsOfOne(a: real, b: real, n: real)
    requires n > 0.0 && a + b == n
    ensures a / n + b / n == 1.0
  {
    Divided(a, b, n);
  }

  // ---------------------------------------------------------------------------------------------
  // The best split of a column
  // ---------------------------------------------------------------------------------------------

  /** Class counts of the samples with value at most v. */
  function CountsUpTo(s: seq<Sample>, v: real, classes: nat): (r: seq<int>)
    ensures |r| == classes
  {
    seq(classes, j requires 0 <= j < classes => Tally(s, LabelUpTo(v, j)))
  }

  function ClassCounts(s: seq<Sample>, classes: nat): (r: seq<int>)
    ensures |r| == classes
  {
    seq(classes, j requires 0 <= j < classes => Tally(s, Label(j)))
  }

  /** Weighted Gini of splitting the samples at threshold v. */
  function Score(s: seq<Sample>, classes: nat, v: real): real {
    var total := Tally(s, UpTo(v));
    if s == [] || total > |s| then 0.0 else WeightedGini(CountsUpTo(s, v, classes), ClassCounts(s, classes), total, |s|)
  }

  lemma ScoreBelowLimit(s: seq<Sample>, classes: nat, v: real)
    ensures Score(s, classes, v) < DBL_MAX
  {
    TallyAtMost(s, UpTo(v));
    if s != [] {
      WeightedGiniAtMostOne(CountsUpTo(s, v, classes), ClassCounts(s, classes), Tally(s, UpTo(v)), |s|);
    }
  }

  ghost predicate HasValue(s: seq<Sample>, v: real) {
    exists i :: 0 <= i < |s| && s[i].value == v
  }

  ghost predicate HasLarger(s: seq<Sample>, v: real) {
    exists i :: 0 <= i < |s| && s[i].value > v
  }

  /** v is a value that occurs, and not the largest: a threshold that leaves samples on both sides. */
  ghost predicate IsBoundary(s: seq<Sample>, v: real) {
    HasValue(s, v) && HasLarger(s, v)
  }

  /** value and eval are unset in the source while eval is DBL_MAX; left is not set by the incremental search. */
  datatype MinEval = MinEval(eval: real, value: real, left: nat)

  function Unset(): MinEval {
    MinEval(DBL_MAX, 0.0, 0)
  }

  /** r is at least as good as every boundary, and strictly better than the smaller ones. */
  ghost predicate Leads(s: seq<Sample>, classes: nat, r: MinEval, v: real) {
    r.eval <= Score(s, classes, v) && (v < r.value ==> r.eval < Score(s, classes, v))
  }

  /** r is the first of the best splits, or says that there is none. */
  ghost predicate IsBest(s: seq<Sample>, classes: nat, r: MinEval) {
    && (r.eval != DBL_MAX ==> IsBoundary(s, r.value) && r.eval == Score(s, classes, r.value))
    && (forall v :: IsBoundary(s, v) ==> r.eval < DBL_MAX && Leads(s, classes, r, v))
  }

  /** All searches that are right agree. */
  lemma BestIsUnique(s: seq<Sample>, s': seq<Sample>, classes: nat, r: MinEval, r': MinEval)
    requires multiset(s) == multiset(s') && IsBest(s, classes, r) && IsBest(s', classes, r')
    ensures r.eval == r'.eval && (r.eval != DBL_MAX ==> r.value == r'.value)
  {
    BestPermuted(s', s, classes, r');
    if r.eval != DBL_MAX {
      assert Leads(s, classes, r', r.value);
    }
    if r'.eval != DBL_MAX {
      assert Leads(s, classes, r, r'.value);
    }
  }

  lemma ScorePermuted(s: seq<Sample>, s': seq<Sample>, classes: nat, v: real)
    requires multiset(s) == multiset(s')
    ensures Score(s, classes, v) == Score(s', classes, v)
  {
    assert |multiset(s)| == |s| && |multiset(s')| == |s'|;
    TallyPermuted(s, s', UpTo(v));
    forall j: nat
      ensures Tally(s, LabelUpTo(v, j)) == Tally(s', LabelUpTo(v, j)) && Tally(s, Label(j)) == Tally(s', Label(j))
    {
      TallyPermuted(s, s', LabelUpTo(v, j));
      TallyPermuted(s, s', Label(j));
    }
    assert CountsUpTo(s, v, classes) == CountsUpTo(s', v, classes);
    assert ClassCounts(s, classes) == ClassCounts(s', classes);
  }

  lemma BoundaryPermuted(s: seq<Sample>, s': seq<Sample>, v: real)
    requires multiset(s) == multiset(s') && IsBoundary(s, v)
    ensures IsBoundary(s', v)
  {
    var i :| 0 <= i < |s| && s[i].value == v;
    var k :| 0 <= k < |s| && s[k].value > v;
    SameMembers(s, s', s[i]);
    SameMembers(s, s', s[k]);
  }

  lemma BestPermuted(s: seq<Sample>, s': seq<Sample>, classes: nat, r: MinEval)
    requires multiset(s) == multiset(s') && IsBest(s, classes, r)
    ensures IsBest(s', classes, r)
  {
    if r.eval != DBL_MAX {
      BoundaryPermuted(s, s', r.value);
      ScorePermuted(s, s', classes, r.value);
    }
    forall v | IsBoundary(s', v)
      ensures r.eval < DBL_MAX && Leads(s', classes, r, v)
    {
      BoundaryPermuted(s', s, v);
      ScorePermuted(s, s', classes, v);
    }
  }

  // ---------------------------------------------------------------------------------------------
  // Taking the first minimum over a list of thresholds
  // ---------------------------------------------------------------------------------------------

  predicate Increasing(vs: seq<real>) {
    forall i, j :: 0 <= i < j < |vs| ==> vs[i] < vs[j]
  }

  /** The running minimum after the thresholds vs. */
  function FirstMinimum(s: seq<Sample>, classes: nat, vs: seq<real>): MinEval {
    if vs == [] then Unset()
    else
      var r, v := FirstMinimum(s, classes, vs[..|vs| - 1]), vs[|vs| - 1];
      if r.eval > Score(s, classes, v) then MinEval(Score(s, classes, v), v, Tally(s, UpTo(v))) else r
  }

  lemma {:induction false} FirstMinimumLeads(s: seq<Sample>, classes: nat, vs: seq<real>)
    requires Increasing(vs) && vs != []
    ensures var r := FirstMinimum(s, classes, vs);
            && r.value in vs && r.eval == Score(s, classes, r.value) < DBL_MAX && r.left == Tally(s, UpTo(r.value))
            && forall i :: 0 <= i < |vs| ==> Leads(s, classes, r, vs[i])
  {
    var front, v := vs[..|vs| - 1], vs[|vs| - 1];
    ScoreBelowLimit(s, classes, v);
    if front != [] {
      FirstMinimumLeads(s, classes, front);
      assert forall i :: 0 <= i < |front| ==> vs[i] == front[i];
    }
  }

  /** vs lists the boundaries of s below limit. */
  ghost predicate ListsBoundaries(s: seq<Sample>, limit: real, vs: seq<real>) {
    && Increasing(vs)
    && (forall v :: v in vs <==> IsBoundary(s, v) && v < limit)
  }

  lemma FirstMinimumIsBest(s: seq<Sample>, classes: nat, limit: real, vs: seq<real>)
    requires ListsBoundaries(s, limit, vs) && forall i :: 0 <= i < |s| ==> s[i].value <= limit
    ensures IsBest(s, classes, FirstMinimum(s, classes, vs))
    ensures vs != [] ==> FirstMinimum(s, classes, vs).left == Tally(s, UpTo(FirstMinimum(s, classes, vs).value))
    ensures FirstMinimum(s, classes, vs).eval == DBL_MAX <==> vs == []
  {
    if vs != [] {
      FirstMinimumLeads(s, classes, vs);
    }
    forall v | IsBoundary(s, v)
      ensures v in vs
    {
      var k :| 0 <= k < |s| && s[k].value > v;
    }
  }
}

/** What the Gini impurity counts: the pairs of samples of different class. */
module MixedPairs {

  import opened Fractions
  import opened Samples
  import opened GiniIndex

  /** Ordered pairs of samples of different class: a sample forms two with each earlier one of another class. */
  function Mixed(s: seq<Sample>): int {
    if s == [] then 0
    else
      var front := s[..|s| - 1];
      Mixed(front) + 2 * (|front| - Tally(front, Label(s[|s| - 1].result)))
  }

  function SumOfSquares(counts: seq<int>): int {
    if counts == [] then 0
    else SumOfSquares(counts[..|counts| - 1]) + counts[|counts| - 1] * counts[|counts| - 1]
  }

  ghost predicate Classified(s: seq<Sample>, classes: nat) {
    forall i :: 0 <= i < |s| ==> s[i].result < classes
  }

  lemma {:induction false} OneMoreOf(counts: seq<int>, c: nat)
    requires c < |counts|
    ensures SumOfSquares(counts[c := counts[c] + 1]) == SumOfSquares(counts) + 2 * counts[c] + 1
  {
    var n := |counts| - 1;
    var more := counts[c := counts[c] + 1];
    if c == n {
      assert more[..n] == counts[..n];
    } else {
      OneMoreOf(counts[..n], c);
      assert more[..n] == counts[..n][c := counts[c] + 1];
    }
  }

  lemma {:induction false} NoSquares(counts: seq<int>)
    requires forall i :: 0 <= i < |counts| ==> counts[i] == 0
    ensures SumOfSquares(counts) == 0
  {
    if counts != [] {
      NoSquares(counts[..|counts| - 1]);
    }
  }

  lemma {:induction false} MixedIs(s: seq<Sample>, classes: nat)
    requires Classified(s, classes)
    ensures Mixed(s) == |s| * |s| - SumOfSquares(ClassCounts(s, classes))
  {
    if s == [] {
      NoSquares(ClassCounts(s, classes));
    } else {
      var n := |s| - 1;
      var c := s[n].result;
      var counts := ClassCounts(s[..n], classes);
      MixedIs(s[..n], classes);
      assert ClassCounts(s, classes) == counts[c := counts[c] + 1];
      OneMoreOf(counts, c);
      NextSquare(n);
    }
  }

  lemma NextSquare(n: nat)
    ensures (n + 1) * (n + 1) == n * n + 2 * n + 1
  {
  }

  lemma ShareSquared(c: int, n: nat)
    requires n > 0
    ensures Square(Share(c, n)) * (n as real) * (n as real) == (c * c) as real
  {
    var x, m := c as real, n as real;
    var q := x / m;
    assert q * m == x;
    assert (q * q) * m * m == (q * m) * (q * m);
    assert (c * c) as real == x * x;
  }

  lemma {:induction false} SharesSquared(counts: seq<int>, n: nat)
    requires n > 0
    ensures SquaredShares(counts, n) * (n as real) * (n as real) == SumOfSquares(counts) as real
  {
    if counts != [] {
      var front, last := counts[..|counts| - 1], counts[|counts| - 1];
      SharesSquared(front, n);
      ShareSquared(last, n);
      Distributed(SquaredShares(front, n), Square(Share(last, n)), n as real);
    }
  }

  lemma Distributed(a: real, b: real, m: real)
    ensures (a + b) * m * m == a * m * m + b * m * m
  {
  }

  /** x is the share of the pairs among all n * n ordered pairs. */
  predicate IsShare(x: real, pairs: int, n: nat) {
    x * (n as real) * (n as real) == pairs as real
  }

  /** The impurity is the share of the ordered pairs of samples that are of different class. */
  lemma ImpurityCountsPairs(s: seq<Sample>, classes: nat)
    requires s != [] && Classified(s, classes)
    ensures IsShare(Impurity(ClassCounts(s, classes), |s|), Mixed(s), |s|)
  {
    MixedIs(s, classes);
    Complement(ClassCounts(s, classes), |s|, Mixed(s));
  }

  lemma Complement(counts: seq<int>, n: nat, mixed: int)
    requires n > 0 && mixed == n * n - SumOfSquares(counts)
    ensures IsShare(Impurity(counts, n), mixed, n)
  {
    var m := n as real;
    SharesSquared(counts, n);
    Distributed(1.0 - SquaredShares(counts, n), SquaredShares(counts, n), m);
    assert (n * n) as real == m * m;
  }

  // ---------------------------------------------------------------------------------------------
  // Both sides of a threshold
  // ---------------------------------------------------------------------------------------------

  /** The samples up to v, or those above v. */
  function Part(s: seq<Sample>, v: real, upTo: bool): seq<Sample> {
    if s == [] then []
    else
      var front, last := Part(s[..|s| - 1], v, upTo), s[|s| - 1];
      if upTo == (last.value <= v) then front + [last] else front
  }

  lemma {:induction false} PartCounts(s: seq<Sample>, v: real, j: nat)
    ensures Tally(Part(s, v, true), Label(j)) == Tally(s, LabelUpTo(v, j))
    ensures Tally(Part(s, v, true), Label(j)) + Tally(Part(s, v, false), Label(j)) == Tally(s, Label(j))
  {
    if s != [] {
      PartCounts(s[..|s| - 1], v, j);
      PartGrows(s, v, true, j);
      PartGrows(s, v, false, j);
    }
  }

  lemma PartGrows(s: seq<Sample>, v: real, upTo: bool, j: nat)
    requires s != []
    ensures Tally(Part(s, v, upTo), Label(j))
         == Tally(Part(s[..|s| - 1], v, upTo), Label(j))
            + if upTo == (s[|s| - 1].value <= v) && s[|s| - 1].result == j then 1 else 0
  {
    var front, last := Part(s[..|s| - 1], v, upTo), s[|s| - 1];
    assert (front + [last])[..|front|] == front;
  }

  lemma {:induction false} PartSizes(s: seq<Sample>, v: real)
    ensures |Part(s, v, true)| == Tally(s, UpTo(v)) && |Part(s, v, true)| + |Part(s, v, false)| == |s|
  {
    if s != [] {
      PartSizes(s[..|s| - 1], v);
    }
  }

  lemma {:induction false} PartClassified(s: seq<Sample>, v: real, upTo: bool, classes: nat)
    requires Classified(s, classes)
    ensures Classified(Part(s, v, upTo), classes)
  {
    if s != [] {
      PartClassified(s[..|s| - 1], v, upTo, classes);
    }
  }

  lemma {:induction false} PartHas(s: seq<Sample>, v: real, upTo: bool, i: nat)
    requires i < |s| && upTo == (s[i].value <= v)
    ensures Part(s, v, upTo) != []
  {
    if i < |s| - 1 {
      PartHas(s[..|s| - 1], v, upTo, i);
    }
  }

  lemma PartCountsOfAll(s: seq<Sample>, v: real, classes: nat)
    ensures ClassCounts(Part(s, v, true), classes) == CountsUpTo(s, v, classes)
    ensures ClassCounts(Part(s, v, false), classes) == Others(ClassCounts(s, classes), CountsUpTo(s, v, classes))
  {
    forall j: nat
      ensures Tally(Part(s, v, true), Label(j)) == Tally(s, LabelUpTo(v, j))
      ensures Tally(Part(s, v, true), Label(j)) + Tally(Part(s, v, false), Label(j)) == Tally(s, Label(j))
    {
      PartCounts(s, v, j);
    }
  }

  /** Pairs of samples of different class, per sample. */
  function PerSample(s: seq<Sample>): real
    requires s != []
  {
    (Mixed(s) as real) / (|s| as real)
  }

  /** Both sides of a threshold together. */
  function SplitRate(s: seq<Sample>, v: real): real
    requires Part(s, v, true) != [] && Part(s, v, false) != []
  {
    PerSample(Part(s, v, true)) + PerSample(Part(s, v, false))
  }

  /** x is what a part of all n samples with the given rate contributes. */
  predicate IsPortion(x: real, rate: real, n: nat) {
    x * (n as real) == rate
  }

  lemma PortionPerSample(x: real, pairs: int, part: nat, whole: nat)
    requires part > 0 && whole > 0 && IsShare(x, pairs, part)
    ensures IsPortion(Portion(x, part, whole), (pairs as real) / (part as real), whole)
  {
    var a := part as real;
    assert x * a == (pairs as real) / a;
  }

  /** A split scores, for each side, the pairs of different class per sample of the side. */
  lemma ScoreCountsPairs(s: seq<Sample>, classes: nat, v: real)
    requires Classified(s, classes) && IsBoundary(s, v)
    ensures Part(s, v, true) != [] && Part(s, v, false) != []
    ensures IsPortion(Score(s, classes, v), SplitRate(s, v), |s|)
  {
    BothPartsOccur(s, v);
    ScoreOfParts(s, classes, v);
    SideCountsPairs(s, classes, v, true);
    SideCountsPairs(s, classes, v, false);
    var l, r := Part(s, v, true), Part(s, v, false);
    var x, y := SideScore(s, classes, l), SideScore(s, classes, r);
    Summed(x, PerSample(l), y, PerSample(r), Score(s, classes, v), SplitRate(s, v), |s|);
  }

  lemma ScoreOfParts(s: seq<Sample>, classes: nat, v: real)
    requires s != []
    ensures Score(s, classes, v) == SideScore(s, classes, Part(s, v, true)) + SideScore(s, classes, Part(s, v, false))
  {
    PartSizes(s, v);
    PartCountsOfAll(s, v, classes);
  }

  lemma BothPartsOccur(s: seq<Sample>, v: real)
    requires IsBoundary(s, v)
    ensures Part(s, v, true) != [] && Part(s, v, false) != []
  {
    var i :| 0 <= i < |s| && s[i].value == v;
    var k :| 0 <= k < |s| && s[k].value > v;
    PartHas(s, v, true, i);
    PartHas(s, v, false, k);
  }

  function SideScore(s: seq<Sample>, classes: nat, side: seq<Sample>): real
    requires s != []
  {
    Portion(Impurity(ClassCounts(side, classes), |side|), |side|, |s|)
  }

  lemma SideCountsPairs(s: seq<Sample>, classes: nat, v: real, upTo: bool)
    requires s != [] && Classified(s, classes) && Part(s, v, upTo) != []
    ensures IsPortion(SideScore(s, classes, Part(s, v, upTo)), PerSample(Part(s, v, upTo)), |s|)
  {
    var part := Part(s, v, upTo);
    PartClassified(s, v, upTo, classes);
    ImpurityCountsPairs(part, classes);
    PortionPerSample(Impurity(ClassCounts(part, classes), |part|), Mixed(part), |part|, |s|);
  }

  lemma Summed(x: real, a: real, y: real, b: real, z: real, c: real, n: nat)
    requires IsPortion(x, a, n) && IsPortion(y, b, n) && z == x + y && c == a + b
    ensures IsPortion(z, c, n)
  {
  }

  /** The best split has the fewest such pairs per sample, and is the smallest threshold that has. */
  lemma BestMeans(s: seq<Sample>, classes: nat, r: MinEval, v: real)
    requires Classified(s, classes) && IsBest(s, classes, r) && IsBoundary(s, v)
    ensures r.eval != DBL_MAX && IsBoundary(s, r.value)
    ensures Part(s, v, true) != [] && Part(s, v, false) != []
    ensures Part(s, r.value, true) != [] && Part(s, r.value, false) != []
    ensures SplitRate(s, r.value) <= SplitRate(s, v) && (v < r.value ==> SplitRate(s, r.value) < SplitRate(s, v))
  {
    assert r.eval < DBL_MAX && Leads(s, classes, r, v);
    ScoreCountsPairs(s, classes, v);
    ScoreCountsPairs(s, classes, r.value);
    Compared(Score(s, classes, r.value), SplitRate(s, r.value), Score(s, classes, v), SplitRate(s, v), |s|);
  }

  lemma Compared(x: real, a: real, y: real, b: real, n: nat)
    requires n > 0 && IsPortion(x, a, n) && IsPortion(y, b, n)
    ensures (x <= y ==> a <= b) && (x < y ==> a < b)
  {
    if x < y {
      Smaller(x, a, y, b, n);
    } else if x == y {
      assert IsPortion(x, b, n);
    }
  }

  lemma Smaller(x: real, a: real, y: real, b: real, n: nat)
    requires n > 0 && IsPortion(x, a, n) && IsPortion(y, b, n) && x < y
    ensures a < b
  {
    var m := n as real;
    assert b - a == (y - x) * m;
    assert y - x > 0.0 && m > 0.0;
  }
}
