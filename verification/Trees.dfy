/**
  Decision trees as values: what it means for a tree to be the one built from some rows, and what such trees are
  good for.
 */
module Trees {

  import opened Samples
  import opened GiniIndex
  import opened SplitSearch
  import opened ColumnSearch

  /**
    What a tree is built with: number of classes and columns, the columns to try, in order, those of them that are
    searched by sorting, and the greatest height.
   */
  datatype Plan = Plan(classes: nat, width: nat, features: seq<nat>, sorting: set<nat>, maxHeight: nat)

  /** A node keeps its rows; one that splits keeps sorted copies of its columns, too. */
  datatype Tree =
    | Leaf(rows: seq<Row>, result: nat)
    | Split(rows: seq<Row>, columns: map<nat, seq<Sample>>, feature: nat, dpoint: real, left: Tree, right: Tree)

  ghost predicate Sound(plan: Plan) {
    plan.classes >= 1 && forall l :: 0 <= l < |plan.features| ==> plan.features[l] < plan.width
  }

  predicate Fits(row: Row, plan: Plan) {
    plan.width <= |row.data| && row.result < plan.classes
  }

  ghost predicate AllFit(rows: seq<Row>, plan: Plan) {
    forall i :: 0 <= i < |rows| ==> Fits(rows[i], plan)
  }

  // ---------------------------------------------------------------------------------------------
  // Sides of a split
  // ---------------------------------------------------------------------------------------------

  predicate GoesLeft(data: seq<real>, feature: nat, dpoint: real) {
    feature < |data| && data[feature] <= dpoint
  }

  /** The rows on one side of a split, in order. */
  function Side(rows: seq<Row>, feature: nat, dpoint: real, left: bool): seq<Row> {
    if rows == [] then []
    else
      var last := rows[|rows| - 1];
      Side(rows[..|rows| - 1], feature, dpoint, left) + if GoesLeft(last.data, feature, dpoint) == left then [last] else []
  }

  lemma {:induction false} SideMembers(rows: seq<Row>, feature: nat, dpoint: real, left: bool, x: Row)
    ensures x in Side(rows, feature, dpoint, left) <==> x in rows && GoesLeft(x.data, feature, dpoint) == left
  {
    if rows != [] {
      var n := |rows| - 1;
      SideMembers(rows[..n], feature, dpoint, left, x);
      assert rows == rows[..n] + [rows[n]];
    }
  }

  lemma SideGrows(rows: seq<Row>, feature: nat, dpoint: real, left: bool)
    requires rows != []
    ensures multiset(Side(rows, feature, dpoint, left))
         == multiset(Side(rows[..|rows| - 1], feature, dpoint, left))
              + if GoesLeft(rows[|rows| - 1].data, feature, dpoint) == left then multiset{rows[|rows| - 1]} else multiset{}
  {
  }

  lemma {:induction false} SidesPartition(rows: seq<Row>, feature: nat, dpoint: real)
    ensures multiset(Side(rows, feature, dpoint, true)) + multiset(Side(rows, feature, dpoint, false)) == multiset(rows)
  {
    if rows != [] {
      var n := |rows| - 1;
      SidesPartition(rows[..n], feature, dpoint);
      assert rows == rows[..n] + [rows[n]];
      SideGrows(rows, feature, dpoint, true);
      SideGrows(rows, feature, dpoint, false);
    }
  }

  lemma SidesFit(rows: seq<Row>, plan: Plan, feature: nat, dpoint: real, left: bool)
    requires AllFit(rows, plan)
    ensures AllFit(Side(rows, feature, dpoint, left), plan)
  {
    var side := Side(rows, feature, dpoint, left);
    forall i | 0 <= i < |side|
      ensures Fits(side[i], plan)
    {
      SideMembers(rows, feature, dpoint, left, side[i]);
    }
  }

  // ---------------------------------------------------------------------------------------------
  // Leaves and splits that are right for their rows
  // ---------------------------------------------------------------------------------------------

  /** The rows as samples of nothing but their class. */
  function Results(rows: seq<Row>): (s: seq<Sample>)
    ensures |s| == |rows|
  {
    seq(|rows|, i requires 0 <= i < |rows| => Sample(0.0, rows[i].result))
  }

  function Frequency(rows: seq<Row>, c: nat): nat {
    Tally(Results(rows), Label(c))
  }

  /** r is the lowest-numbered most frequent class. */
  ghost predicate MostFrequent(rows: seq<Row>, classes: nat, r: nat) {
    && r < classes
    && forall c :: 0 <= c < classes ==>
         Frequency(rows, c) <= Frequency(rows, r) && (c < r ==> Frequency(rows, c) < Frequency(rows, r))
  }

  /** All rows have one class. */
  ghost predicate Pure(rows: seq<Row>, classes: nat) {
    exists c :: 0 <= c < classes && Frequency(rows, c) == |rows|
  }

  /** Threshold v in the l-th feature leaves rows on both sides. */
  ghost predicate Splits(rows: seq<Row>, plan: Plan, l: nat, v: real) {
    Sound(plan) && AllFit(rows, plan) && l < |plan.features| && IsBoundary(Column(rows, plan.features[l]), v)
  }

  function FeatureScore(rows: seq<Row>, plan: Plan, l: nat, v: real): real
    requires Sound(plan) && AllFit(rows, plan) && l < |plan.features|
  {
    Score(Column(rows, plan.features[l]), plan.classes, v)
  }

  /** (k, v) is at least as good as (l, u), and better if it comes later. */
  ghost predicate Ahead(rows: seq<Row>, plan: Plan, k: nat, v: real, l: nat, u: real)
    requires Sound(plan) && AllFit(rows, plan) && k < |plan.features| && l < |plan.features|
  {
    && FeatureScore(rows, plan, k, v) <= FeatureScore(rows, plan, l, u)
    && (l < k || (l == k && u < v) ==> FeatureScore(rows, plan, k, v) < FeatureScore(rows, plan, l, u))
  }

  /** (k, v) is the first of the best splits among the first n features. */
  ghost predicate FirstBest(rows: seq<Row>, plan: Plan, n: nat, k: nat, v: real) {
    && k < n <= |plan.features| && Splits(rows, plan, k, v)
    && forall l, u :: 0 <= l < n && Splits(rows, plan, l, u) ==> Ahead(rows, plan, k, v, l, u)
  }

  /** The split by the k-th feature at dpoint is the best one of all. */
  ghost predicate Chosen(rows: seq<Row>, plan: Plan, k: nat, feature: nat, dpoint: real) {
    FirstBest(rows, plan, |plan.features|, k, dpoint) && plan.features[k] == feature
  }

  ghost predicate Picked(rows: seq<Row>, plan: Plan, feature: nat, dpoint: real) {
    exists k: nat :: Chosen(rows, plan, k, feature, dpoint)
  }

  ghost predicate Unsplittable(rows: seq<Row>, plan: Plan, n: nat) {
    forall l, u :: 0 <= l < n ==> !Splits(rows, plan, l, u)
  }

  /** The first n columns of the plan that are searched by sorting are at hand, sorted. */
  ghost predicate Shelved(columns: map<nat, seq<Sample>>, rows: seq<Row>, plan: Plan, n: nat) {
    && Sound(plan) && AllFit(rows, plan) && n <= |plan.features|
    && forall l :: 0 <= l < n && plan.features[l] in plan.sorting ==>
         plan.features[l] in columns && IsSortedCopy(columns[plan.features[l]], Column(rows, plan.features[l]))
  }

  /** The tree is the one to be built from the rows at this height. */
  ghost predicate Fitted(tree: Tree, rows: seq<Row>, plan: Plan, height: nat)
    decreases tree
  {
    match tree
    case Leaf(held, result) =>
      && held == rows && height <= plan.maxHeight && MostFrequent(rows, plan.classes, result)
      && (height == plan.maxHeight || Pure(rows, plan.classes) || Unsplittable(rows, plan, |plan.features|))
    case Split(held, columns, feature, dpoint, left, right) =>
      && held == rows && Shelved(columns, rows, plan, |plan.features|)
      && height < plan.maxHeight && !Pure(rows, plan.classes)
      && Picked(rows, plan, feature, dpoint)
      && Fitted(left, Side(rows, feature, dpoint, true), plan, height + 1)
      && Fitted(right, Side(rows, feature, dpoint, false), plan, height + 1)
  }

  lemma FirstBestIsUnique(rows: seq<Row>, plan: Plan, n: nat, k: nat, v: real, k': nat, v': real)
    requires FirstBest(rows, plan, n, k, v) && FirstBest(rows, plan, n, k', v')
    ensures k == k' && v == v'
  {
    assert Ahead(rows, plan, k, v, k', v') && Ahead(rows, plan, k', v', k, v);
  }

  lemma MostFrequentIsUnique(rows: seq<Row>, classes: nat, r: nat, r': nat)
    requires MostFrequent(rows, classes, r) && MostFrequent(rows, classes, r')
    ensures r == r'
  {
    assert Frequency(rows, r) <= Frequency(rows, r');
    assert Frequency(rows, r') <= Frequency(rows, r);
  }

  /** The tree without the sorted copies, in which samples of one value may stand in any order. */
  function Bare(tree: Tree): Tree {
    match tree
    case Leaf(_, _) => tree
    case Split(rows, _, feature, dpoint, left, right) => Split(rows, map[], feature, dpoint, Bare(left), Bare(right))
  }

  lemma {:induction false} BarePredicts(tree: Tree, data: seq<real>)
    ensures Predict(Bare(tree), data) == Predict(tree, data)
  {
    if tree.Split? {
      BarePredicts(if GoesLeft(data, tree.feature, tree.dpoint) then tree.left else tree.right, data);
    }
  }

  /** There is only one such tree: it does not depend on how ties are sorted, nor on how columns are searched. */
  lemma {:induction false} FittedIsUnique(tree: Tree, tree': Tree, rows: seq<Row>, plan: Plan, height: nat)
    requires Fitted(tree, rows, plan, height) && Fitted(tree', rows, plan, height)
    ensures Bare(tree) == Bare(tree')
    decreases tree
  {
    if tree.Leaf? && tree'.Leaf? {
      MostFrequentIsUnique(rows, plan.classes, tree.result, tree'.result);
    } else if tree.Split? && tree'.Split? {
      var k: nat :| Chosen(rows, plan, k, tree.feature, tree.dpoint);
      var k': nat :| Chosen(rows, plan, k', tree'.feature, tree'.dpoint);
      FirstBestIsUnique(rows, plan, |plan.features|, k, tree.dpoint, k', tree'.dpoint);
      FittedIsUnique(tree.left, tree'.left, Side(rows, tree.feature, tree.dpoint, true), plan, height + 1);
      FittedIsUnique(tree.right, tree'.right, Side(rows, tree.feature, tree.dpoint, false), plan, height + 1);
    } else {
      LeafOrSplit(tree, tree', rows, plan, height);
    }
  }

  lemma LeafOrSplit(tree: Tree, tree': Tree, rows: seq<Row>, plan: Plan, height: nat)
    requires Fitted(tree, rows, plan, height) && Fitted(tree', rows, plan, height)
    ensures tree.Leaf? == tree'.Leaf?
  {
    var split := if tree.Split? then tree else tree';
    if split.Split? {
      var k: nat :| Chosen(rows, plan, k, split.feature, split.dpoint);
      assert Splits(rows, plan, k, split.dpoint);
    }
  }

  // ---------------------------------------------------------------------------------------------
  // Classification
  // ---------------------------------------------------------------------------------------------

  /** The leaf that data reaches. */
  function LeafAt(tree: Tree, data: seq<real>): (leaf: Tree)
    ensures leaf.Leaf?
  {
    match tree
    case Leaf(_, _) => tree
    case Split(_, _, feature, dpoint, left, right) => LeafAt(if GoesLeft(data, feature, dpoint) then left else right, data)
  }

  function Predict(tree: Tree, data: seq<real>): nat {
    LeafAt(tree, data).result
  }

  /** The rows of all leaves, from left to right. */
  function Held(tree: Tree): seq<Row> {
    match tree
    case Leaf(rows, _) => rows
    case Split(_, _, _, _, left, right) => Held(left) + Held(right)
  }

  function Depth(tree: Tree): nat {
    match tree
    case Leaf(_, _) => 0
    case Split(_, _, _, _, left, right) => 1 + if Depth(left) < Depth(right) then Depth(right) else Depth(left)
  }

  /** The tree asks only for columns below width. */
  predicate Within(tree: Tree, width: nat) {
    match tree
    case Leaf(_, _) => true
    case Split(_, _, feature, _, left, right) => feature < width && Within(left, width) && Within(right, width)
  }

  /** Both sides of every split hold rows. */
  predicate TwoSided(tree: Tree) {
    match tree
    case Leaf(_, _) => true
    case Split(_, _, _, _, left, right) => Held(left) != [] && Held(right) != [] && TwoSided(left) && TwoSided(right)
  }

  /** The rows are laid out over the tree: each node holds those that go its way. */
  ghost predicate Laid(tree: Tree, rows: seq<Row>)
    decreases tree
  {
    tree.rows == rows
    && (tree.Split? ==>
          && Laid(tree.left, Side(rows, tree.feature, tree.dpoint, true))
          && Laid(tree.right, Side(rows, tree.feature, tree.dpoint, false)))
  }

  lemma {:induction false} FittedIsLaid(tree: Tree, rows: seq<Row>, plan: Plan, height: nat)
    requires Fitted(tree, rows, plan, height)
    ensures Laid(tree, rows)
    decreases tree
  {
    if tree.Split? {
      FittedIsLaid(tree.left, Side(rows, tree.feature, tree.dpoint, true), plan, height + 1);
      FittedIsLaid(tree.right, Side(rows, tree.feature, tree.dpoint, false), plan, height + 1);
    }
  }

  /** The leaf reached by a row of the tree holds exactly the rows that reach it. */
  lemma {:induction false} RowsReachTheirLeaf(tree: Tree, rows: seq<Row>, data: seq<real>, x: Row)
    requires Laid(tree, rows)
    ensures x in LeafAt(tree, data).rows <==> x in rows && LeafPath(tree, x.data) == LeafPath(tree, data)
    decreases tree
  {
    if tree.Split? {
      var left := GoesLeft(data, tree.feature, tree.dpoint);
      var next, side := if left then tree.left else tree.right, Side(rows, tree.feature, tree.dpoint, left);
      RowsReachTheirLeaf(next, side, data, x);
      SideMembers(rows, tree.feature, tree.dpoint, left, x);
      PathSplits(tree, x.data, data);
      assert LeafAt(tree, data) == LeafAt(next, data);
    }
  }

  /** The turns that data takes on its way to a leaf. */
  function LeafPath(tree: Tree, data: seq<real>): seq<bool> {
    match tree
    case Leaf(_, _) => []
    case Split(_, _, feature, dpoint, left, right) =>
      var goesLeft := GoesLeft(data, feature, dpoint);
      [goesLeft] + LeafPath(if goesLeft then left else right, data)
  }

  lemma PathSplits(tree: Tree, a: seq<real>, b: seq<real>)
    requires tree.Split?
    ensures LeafPath(tree, a) == LeafPath(tree, b) <==>
              GoesLeft(a, tree.feature, tree.dpoint) == GoesLeft(b, tree.feature, tree.dpoint)
              && var next := if GoesLeft(b, tree.feature, tree.dpoint) then tree.left else tree.right;
                 LeafPath(next, a) == LeafPath(next, b)
  {
    var p, q := LeafPath(tree, a), LeafPath(tree, b);
    assert p[0] == GoesLeft(a, tree.feature, tree.dpoint) && q[0] == GoesLeft(b, tree.feature, tree.dpoint);
    assert p == [p[0]] + p[1..] && q == [q[0]] + q[1..];
  }

  /** Every row is held by exactly one leaf, as often as it was given. */
  lemma {:induction false} LeavesPartition(tree: Tree, rows: seq<Row>)
    requires Laid(tree, rows)
    ensures multiset(Held(tree)) == multiset(rows)
    decreases tree
  {
    if tree.Split? {
      LeavesPartition(tree.left, Side(rows, tree.feature, tree.dpoint, true));
      LeavesPartition(tree.right, Side(rows, tree.feature, tree.dpoint, false));
      SidesPartition(rows, tree.feature, tree.dpoint);
    }
  }

  /** A boundary has rows on both sides. */
  lemma BoundarySides(rows: seq<Row>, plan: Plan, k: nat, v: real)
    requires Splits(rows, plan, k, v)
    ensures Side(rows, plan.features[k], v, true) != [] && Side(rows, plan.features[k], v, false) != []
  {
    var f := plan.features[k];
    var s := Column(rows, f);
    var i :| 0 <= i < |s| && s[i].value == v;
    var j :| 0 <= j < |s| && s[j].value > v;
    SideMembers(rows, f, v, true, rows[i]);
    SideMembers(rows, f, v, false, rows[j]);
  }

  lemma SplitsHold(tree: Tree, rows: seq<Row>, plan: Plan, height: nat)
    requires Fitted(tree, rows, plan, height) && tree.Split?
    ensures Held(tree.left) != [] && Held(tree.right) != [] && tree.feature < plan.width
  {
    FittedIsLaid(tree, rows, plan, height);
    var k: nat :| Chosen(rows, plan, k, tree.feature, tree.dpoint);
    BoundarySides(rows, plan, k, tree.dpoint);
    HoldsSome(tree.left, Side(rows, tree.feature, tree.dpoint, true));
    HoldsSome(tree.right, Side(rows, tree.feature, tree.dpoint, false));
  }

  lemma HoldsSome(tree: Tree, rows: seq<Row>)
    requires Laid(tree, rows) && rows != []
    ensures Held(tree) != []
  {
    LeavesPartition(tree, rows);
    assert |multiset(Held(tree))| == |rows|;
  }

  /** No split is idle, no branch is longer than allowed, and only the given columns are asked for. */
  lemma {:induction false} FittedShape(tree: Tree, rows: seq<Row>, plan: Plan, height: nat)
    requires Fitted(tree, rows, plan, height)
    ensures TwoSided(tree) && Depth(tree) <= plan.maxHeight - height && Within(tree, plan.width)
    decreases tree
  {
    if tree.Split? {
      SplitsHold(tree, rows, plan, height);
      FittedShape(tree.left, Side(rows, tree.feature, tree.dpoint, true), plan, height + 1);
      FittedShape(tree.right, Side(rows, tree.feature, tree.dpoint, false), plan, height + 1);
    }
  }

  /** What is predicted for any data is the lowest-numbered most frequent class of the rows that reach the same leaf. */
  lemma {:induction false} PredictionIsMostFrequent(tree: Tree, rows: seq<Row>, plan: Plan, height: nat, data: seq<real>)
    requires Fitted(tree, rows, plan, height)
    ensures MostFrequent(LeafAt(tree, data).rows, plan.classes, Predict(tree, data))
    decreases tree
  {
    if tree.Split? {
      var left := GoesLeft(data, tree.feature, tree.dpoint);
      PredictionIsMostFrequent(if left then tree.left else tree.right,
                               Side(rows, tree.feature, tree.dpoint, left), plan, height + 1, data);
    }
  }
}

/** What the chosen split is best at, said about the rows themselves. */
module PurestSplits {

  import opened Samples
  import opened GiniIndex
  import opened SplitSearch
  import opened ColumnSearch
  import opened MixedPairs
  import opened Trees

  /** Ordered pairs of rows of different class, per row. */
  function PairsPerRow(rows: seq<Row>): real
    requires rows != []
  {
    PerSample(Results(rows))
  }

  ghost predicate HaveColumn(rows: seq<Row>, col: nat) {
    forall i :: 0 <= i < |rows| ==> col < |rows[i].data|
  }

  lemma {:induction false} SidesAreParts(rows: seq<Row>, f: nat, v: real, left: bool)
    requires HaveColumn(rows, f)
    ensures HaveColumn(Side(rows, f, v, left), f)
    ensures Column(Side(rows, f, v, left), f) == Part(Column(rows, f), v, left)
  {
    if rows != [] {
      var n := |rows| - 1;
      SidesAreParts(rows[..n], f, v, left);
      assert Column(rows, f)[..n] == Column(rows[..n], f);
    }
  }

  lemma {:induction false} OnlyClassesCount(a: seq<Sample>, b: seq<Sample>)
    requires |a| == |b| && forall i :: 0 <= i < |a| ==> a[i].result == b[i].result
    ensures Mixed(a) == Mixed(b)
  {
    if a != [] {
      var n := |a| - 1;
      OnlyClassesCount(a[..n], b[..n]);
      SameLabels(a[..n], b[..n], a[n].result);
    }
  }

  lemma {:induction false} SameLabels(a: seq<Sample>, b: seq<Sample>, c: nat)
    requires |a| == |b| && forall i :: 0 <= i < |a| ==> a[i].result == b[i].result
    ensures Tally(a, Label(c)) == Tally(b, Label(c))
  {
    if a != [] {
      SameLabels(a[..|a| - 1], b[..|b| - 1], c);
    }
  }

  /** The rate of both sides of a threshold is that of the rows that go there. */
  lemma RateOfSides(rows: seq<Row>, f: nat, v: real)
    requires HaveColumn(rows, f) && Side(rows, f, v, true) != [] && Side(rows, f, v, false) != []
    ensures Part(Column(rows, f), v, true) != [] && Part(Column(rows, f), v, false) != []
    ensures SplitRate(Column(rows, f), v)
         == PairsPerRow(Side(rows, f, v, true)) + PairsPerRow(Side(rows, f, v, false))
  {
    SideRate(rows, f, v, true);
    SideRate(rows, f, v, false);
  }

  lemma SideRate(rows: seq<Row>, f: nat, v: real, left: bool)
    requires HaveColumn(rows, f) && Side(rows, f, v, left) != []
    ensures Part(Column(rows, f), v, left) != []
    ensures PerSample(Part(Column(rows, f), v, left)) == PairsPerRow(Side(rows, f, v, left))
  {
    SidesAreParts(rows, f, v, left);
    OnlyClassesCount(Part(Column(rows, f), v, left), Results(Side(rows, f, v, left)));
  }

  lemma SplitScore(rows: seq<Row>, plan: Plan, l: nat, v: real)
    requires Splits(rows, plan, l, v)
    ensures Side(rows, plan.features[l], v, true) != [] && Side(rows, plan.features[l], v, false) != []
    ensures IsPortion(FeatureScore(rows, plan, l, v),
                      PairsPerRow(Side(rows, plan.features[l], v, true)) + PairsPerRow(Side(rows, plan.features[l], v, false)),
                      |rows|)
  {
    var f := plan.features[l];
    BoundarySides(rows, plan, l, v);
    RateOfSides(rows, f, v);
    ScoreCountsPairs(Column(rows, f), plan.classes, v);
  }

  /**
    Among all thresholds of all features to try, the chosen one leaves the fewest pairs of rows of different class, per
    row, on its two sides; among equals it is the first feature, and the smallest threshold of it.
   */
  lemma ChosenSplitIsPurest(rows: seq<Row>, plan: Plan, k: nat, f: nat, v: real, l: nat, u: real)
    requires Chosen(rows, plan, k, f, v) && Splits(rows, plan, l, u)
    ensures Side(rows, f, v, true) != [] && Side(rows, f, v, false) != []
    ensures Side(rows, plan.features[l], u, true) != [] && Side(rows, plan.features[l], u, false) != []
    ensures var a := PairsPerRow(Side(rows, f, v, true)) + PairsPerRow(Side(rows, f, v, false));
            var b := PairsPerRow(Side(rows, plan.features[l], u, true)) + PairsPerRow(Side(rows, plan.features[l], u, false));
            a <= b && (l < k || (l == k && u < v) ==> a < b)
  {
    var g := plan.features[l];
    SplitScore(rows, plan, k, v);
    SplitScore(rows, plan, l, u);
    assert Ahead(rows, plan, k, v, l, u);
    Compared(FeatureScore(rows, plan, k, v), PairsPerRow(Side(rows, f, v, true)) + PairsPerRow(Side(rows, f, v, false)),
             FeatureScore(rows, plan, l, u), PairsPerRow(Side(rows, g, u, true)) + PairsPerRow(Side(rows, g, u, false)),
             |rows|);
  }
}
