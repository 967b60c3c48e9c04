/** The decision tree on linked nodes (sdk/incrementalDecisionTree.cpp): building it in place, and classifying with it. */
module DecisionTree {

  import opened TwoPowers
  import opened Samples
  import opened GiniIndex
  import opened SplitSearch
  import opened ColumnSearch
  import opened Trees

  class Node {
    var height: nat
    var created: bool
    var terminate: bool
    var feature: int
    var dpoint: real
    var result: nat
    var left: Node?
    var right: Node?
    var rows: seq<Row>
    var size: nat
    /** Sorted copies of the columns that are searched by sorting. */
    var sortedData: map<nat, seq<Sample>>
    ghost var Repr: set<Node>

    /** A node that splits has a feature and two nodes to go on to. */
    ghost predicate Ready()
      reads this, Repr
    {
      created && !terminate ==>
        && feature >= 0 && left != null && right != null && left in Repr && right in Repr
        && left.created && right.created
    }

    /** The links of a created node lead to two separate parts, one level down. */
    ghost predicate Shaped()
      reads this, Repr
    {
      && this in Repr
      && (created ==>
            && size == |rows| && left != null && right != null && left in Repr && right in Repr
            && left.Repr <= Repr && right.Repr <= Repr && this !in left.Repr && this !in right.Repr
            && left.Repr !! right.Repr
            && left.height == height + 1 && right.height == height + 1)
    }

    ghost predicate Valid()
      reads this, Repr
      decreases Repr
    {
      Shaped() && Ready() && (created ==> left.Valid() && right.Valid())
    }

    /** Valid but for what the node itself says about its split. */
    ghost predicate Linked()
      reads this, Repr
    {
      Shaped() && (created ==> left.Valid() && right.Valid())
    }

    /** The tree below this node. */
    ghost function Model(): Tree
      requires Valid()
      reads this, Repr
      decreases Repr
    {
      if !created || terminate then Leaf(rows, result)
      else Split(rows, sortedData, feature, dpoint, left.Model(), right.Model())
    }

    /** Becomes the node over its two subtrees, after these have changed. */
    method Adopt(ghost treeL: Tree, ghost treeR: Tree)
      requires created && !terminate && feature >= 0 && left != null && right != null
      requires left.Valid() && right.Valid() && left.created && right.created && left.Repr !! right.Repr
      requires this !in left.Repr && this !in right.Repr
      requires left.height == height + 1 && right.height == height + 1 && size == |rows|
      requires left.Model() == treeL && right.Model() == treeR
      modifies this`Repr
      ensures Repr == {this} + old(left.Repr) + old(right.Repr)
      ensures Valid() && Model() == Split(rows, sortedData, feature, dpoint, treeL, treeR)
    {
      Repr := {this} + left.Repr + right.Repr;
    }

    /** A node as allocated for a child: only its height and that it is not created are set. */
    constructor (height: nat)
      ensures Valid() && Repr == {this} && !created && this.height == height
    {
      this.height, created := height, false;
      Repr := {this};
    }

    method CreateNode()
      requires Linked() && !created
      modifies this
      ensures Linked() && created && height == old(height) && fresh(Repr - {this})
      ensures !left.created && !right.created
      ensures rows == [] && size == 0 && feature == -1 && sortedData == map[]
      ensures terminate == old(terminate) && result == old(result)
    {
      created := true;
      sortedData, rows, size, feature := map[], [], 0, -1;
      var l := new Node(height + 1);
      var r := new Node(height + 1);
      left, right := l, r;
      Repr := {this, l, r};
    }
  }

  // ---------------------------------------------------------------------------------------------
  // Class counts
  // ---------------------------------------------------------------------------------------------

  lemma {:induction false} LabelsOfColumn(rows: seq<Row>, col: nat, j: nat)
    requires forall i :: 0 <= i < |rows| ==> col < |rows[i].data|
    ensures Tally(Column(rows, col), Label(j)) == Tally(Results(rows), Label(j))
  {
    if rows != [] {
      var front := rows[..|rows| - 1];
      LabelsOfColumn(front, col, j);
      assert Column(rows, col)[..|rows| - 1] == Column(front, col);
      assert Results(rows)[..|rows| - 1] == Results(front);
    }
  }

  lemma CountsOfColumn(rows: seq<Row>, col: nat, classes: nat)
    requires forall i :: 0 <= i < |rows| ==> col < |rows[i].data|
    ensures ClassCounts(Column(rows, col), classes) == ClassCounts(Results(rows), classes)
  {
    forall j: nat
      ensures Tally(Column(rows, col), Label(j)) == Tally(Results(rows), Label(j))
    {
      LabelsOfColumn(rows, col, j);
    }
  }

  method CountClasses(rows: seq<Row>, classes: nat) returns (T: seq<int>)
    requires forall i :: 0 <= i < |rows| ==> rows[i].result < classes
    ensures T == ClassCounts(Results(rows), classes)
  {
    T := seq(classes, _ => 0);
    ghost var s := Results(rows);
    var i := 0;
    while i < |rows|
      invariant 0 <= i <= |rows| && T == ClassCounts(s[..i], classes)
    {
      CountOneMore(s, i, classes);
      var j := rows[i].result;
      T := T[j := T[j] + 1];
      i := i + 1;
    }
    assert s[..i] == s;
  }

  /** Position of the first greatest count. */
  method MaxElement(T: seq<int>) returns (max: nat)
    requires |T| > 0
    ensures max < |T| && forall c :: 0 <= c < |T| ==> T[c] <= T[max] && (c < max ==> T[c] < T[max])
  {
    max := 0;
    var i := 1;
    while i < |T|
      invariant 1 <= i <= |T| && max < i
      invariant forall c :: 0 <= c < i ==> T[c] <= T[max] && (c < max ==> T[c] < T[max])
    {
      if T[max] < T[i] {
        max := i;
      }
      i := i + 1;
    }
  }

  lemma MaxIsMostFrequent(rows: seq<Row>, classes: nat, max: nat)
    requires max < classes
    requires var T := ClassCounts(Results(rows), classes);
             forall c :: 0 <= c < classes ==> T[c] <= T[max] && (c < max ==> T[c] < T[max])
    ensures MostFrequent(rows, classes, max)
  {
    var T := ClassCounts(Results(rows), classes);
    forall c | 0 <= c < classes
      ensures Frequency(rows, c) == T[c]
    {
    }
  }

  /** If all rows have class c, and the classes before do not, c is the lowest-numbered most frequent one. */
  lemma OnlyIsMostFrequent(rows: seq<Row>, classes: nat, c: nat)
    requires c < classes && Frequency(rows, c) == |rows|
    requires forall b :: 0 <= b < c ==> Frequency(rows, b) != |rows|
    ensures MostFrequent(rows, classes, c) && Pure(rows, classes)
  {
    forall b: nat
      ensures Frequency(rows, b) <= |rows|
    {
      TallyAtMost(Results(rows), Label(b));
    }
  }

  // ---------------------------------------------------------------------------------------------
  // Choosing a split
  // ---------------------------------------------------------------------------------------------

  /** What is known after n features: there is no split, or (k, c.value) is the first of the best. */
  ghost predicate BestOf(rows: seq<Row>, plan: Plan, n: nat, c: MinEval, k: nat, feature: int) {
    && Sound(plan) && AllFit(rows, plan) && n <= |plan.features|
    && (c.eval == DBL_MAX ==> Unsplittable(rows, plan, n))
    && (c.eval != DBL_MAX ==>
          && FirstBest(rows, plan, n, k, c.value) && c.eval == FeatureScore(rows, plan, k, c.value)
          && feature == plan.features[k])
  }

  lemma NextFeature(rows: seq<Row>, plan: Plan, n: nat, c: MinEval, k: nat, feature: int, next: MinEval)
    requires BestOf(rows, plan, n, c, k, feature) && n < |plan.features|
    requires IsBest(Column(rows, plan.features[n]), plan.classes, next)
    ensures next.eval < c.eval ==> BestOf(rows, plan, n + 1, next, n, plan.features[n])
    ensures !(next.eval < c.eval) ==> BestOf(rows, plan, n + 1, c, k, feature)
  {
    if next.eval < c.eval {
      NextIsBetter(rows, plan, n, c, k, feature, next);
    } else if c.eval == DBL_MAX {
      NoneSplits(rows, plan, n, next);
    } else {
      NextIsNoBetter(rows, plan, n, c, k, feature, next);
    }
  }

  lemma NoneSplits(rows: seq<Row>, plan: Plan, n: nat, next: MinEval)
    requires Sound(plan) && AllFit(rows, plan) && n < |plan.features| && Unsplittable(rows, plan, n)
    requires IsBest(Column(rows, plan.features[n]), plan.classes, next) && next.eval >= DBL_MAX
    ensures Unsplittable(rows, plan, n + 1)
  {
    forall l, u | 0 <= l < n + 1
      ensures !Splits(rows, plan, l, u)
    {
      assert l < n ==> !Splits(rows, plan, l, u);
    }
  }

  lemma NextIsBetter(rows: seq<Row>, plan: Plan, n: nat, c: MinEval, k: nat, feature: int, next: MinEval)
    requires BestOf(rows, plan, n, c, k, feature) && n < |plan.features|
    requires IsBest(Column(rows, plan.features[n]), plan.classes, next) && next.eval < c.eval
    ensures BestOf(rows, plan, n + 1, next, n, plan.features[n])
  {
    NeverAbove(rows, plan, n, c, k, feature);
    var s := Column(rows, plan.features[n]);
    assert Splits(rows, plan, n, next.value);
    forall l, u | 0 <= l < n + 1 && Splits(rows, plan, l, u)
      ensures Ahead(rows, plan, n, next.value, l, u)
    {
      if l == n {
        assert Leads(s, plan.classes, next, u);
      } else if c.eval != DBL_MAX {
        assert Ahead(rows, plan, k, c.value, l, u);
      }
    }
  }

  lemma NextIsNoBetter(rows: seq<Row>, plan: Plan, n: nat, c: MinEval, k: nat, feature: int, next: MinEval)
    requires BestOf(rows, plan, n, c, k, feature) && n < |plan.features| && c.eval != DBL_MAX
    requires IsBest(Column(rows, plan.features[n]), plan.classes, next) && next.eval >= c.eval
    ensures BestOf(rows, plan, n + 1, c, k, feature)
  {
    forall l, u | 0 <= l < n + 1 && Splits(rows, plan, l, u)
      ensures Ahead(rows, plan, k, c.value, l, u)
    {
      if l == n {
        assert Leads(Column(rows, plan.features[n]), plan.classes, next, u);
      }
    }
  }

  lemma NeverAbove(rows: seq<Row>, plan: Plan, n: nat, c: MinEval, k: nat, feature: int)
    requires BestOf(rows, plan, n, c, k, feature)
    ensures c.eval <= DBL_MAX
  {
    if c.eval != DBL_MAX {
      ScoreBelowLimit(Column(rows, plan.features[k]), plan.classes, c.value);
    }
  }

  lemma BestIsPicked(rows: seq<Row>, plan: Plan, c: MinEval, k: nat, feature: nat)
    requires BestOf(rows, plan, |plan.features|, c, k, feature) && c.eval != DBL_MAX
    ensures Picked(rows, plan, feature, c.value) && feature < plan.width
  {
    assert Chosen(rows, plan, k, feature, c.value);
  }

  lemma FittedSplit(
      rows: seq<Row>, columns: map<nat, seq<Sample>>, plan: Plan, height: nat, feature: nat, dpoint: real, left: Tree,
      right: Tree)
    requires Shelved(columns, rows, plan, |plan.features|)
    requires Picked(rows, plan, feature, dpoint) && height < plan.maxHeight && !Pure(rows, plan.classes)
    requires Fitted(left, Side(rows, feature, dpoint, true), plan, height + 1)
    requires Fitted(right, Side(rows, feature, dpoint, false), plan, height + 1)
    ensures Fitted(Split(rows, columns, feature, dpoint, left, right), rows, plan, height)
  {
  }

  /** The rows on both sides of a split, in order. */
  method Divide(rows: seq<Row>, feature: nat, dpoint: real, ghost plan: Plan) returns (rowsL: seq<Row>, rowsR: seq<Row>)
    requires AllFit(rows, plan) && feature < plan.width
    ensures AllFit(rowsL, plan) && AllFit(rowsR, plan)
    ensures rowsL == Side(rows, feature, dpoint, true) && rowsR == Side(rows, feature, dpoint, false)
  {
    rowsL, rowsR := [], [];
    var i := 0;
    while i < |rows|
      invariant 0 <= i <= |rows|
      invariant rowsL == Side(rows[..i], feature, dpoint, true) && rowsR == Side(rows[..i], feature, dpoint, false)
    {
      assert rows[..i + 1][..i] == rows[..i] && Fits(rows[i], plan);
      if rows[i].data[feature] <= dpoint {
        rowsL := rowsL + [rows[i]];
      } else {
        rowsR := rowsR + [rows[i]];
      }
      i := i + 1;
    }
    assert rows[..i] == rows;
    SidesFit(rows, plan, feature, dpoint, true);
    SidesFit(rows, plan, feature, dpoint, false);
  }

  // ---------------------------------------------------------------------------------------------
  // The tree
  // ---------------------------------------------------------------------------------------------

  class DecisionTree {
    const classes: nat
    const width: nat
    /** For each column, 1 if it is searched by sorting, 0 if by tabulating. */
    const sparse: seq<int>
    const featureId: seq<nat>
    var maxHeight: nat
    const root: Node

    ghost predicate Configured() {
      && classes >= 2 && |sparse| == width
      && (forall i :: 0 <= i < |sparse| ==> sparse[i] == 0 || sparse[i] == 1)
      && (forall l :: 0 <= l < |featureId| ==> featureId[l] < width)
    }

    ghost function ThePlan(): (plan: Plan)
      requires Configured()
      reads this
      ensures Sound(plan)
    {
      Plan(classes, width, featureId, (set c | 0 <= c < |sparse| && sparse[c] == 1), maxHeight)
    }

    constructor (width: nat, sparse: seq<int>, noClasses: nat, featureId: seq<nat>)
      requires |sparse| == width && forall i :: 0 <= i < |sparse| ==> sparse[i] == 0 || sparse[i] == 1
      requires forall l :: 0 <= l < |featureId| ==> featureId[l] < width
      ensures Configured() && classes == (if noClasses < 2 then 2 else noClasses)
      ensures fresh(root) && fresh(root.Repr) && root.Valid() && root.created && root.height == 0 && root.size == 0
      ensures root.terminate && root.result == 0
    {
      this.width, this.sparse, this.featureId, maxHeight := width, sparse, featureId, 0;
      classes := if noClasses < 2 then 2 else noClasses;
      root := new Node(0);
      new;
      root.terminate, root.result := true, 0;
      root.CreateNode();
    }

    /** Tries the columns in turn. */
    method ChooseSplit(rows: seq<Row>, T: seq<int>, before: map<nat, seq<Sample>>)
      returns (cMin: MinEval, cFeature: int, sortedData: map<nat, seq<Sample>>, ghost k: nat)
      requires Configured() && AllFit(rows, ThePlan()) && |rows| > 0 && T == ClassCounts(Results(rows), classes)
      ensures BestOf(rows, ThePlan(), |featureId|, cMin, k, cFeature)
      ensures Shelved(sortedData, rows, ThePlan(), |featureId|)
    {
      ghost var plan := ThePlan();
      cMin, cFeature, sortedData, k := Unset(), -1, before, 0;
      var i := 0;
      while i < |featureId|
        invariant 0 <= i <= |featureId|
        invariant BestOf(rows, plan, i, cMin, k, cFeature)
        invariant Shelved(sortedData, rows, plan, i)
      {
        var col := featureId[i];
        var c: MinEval;
        CountsOfColumn(rows, col, classes);
        if sparse[col] == 1 {
          var sorted;
          c, sorted := FindMinGiniSparse(rows, T, col);
          sortedData := sortedData[col := sorted];
        } else {
          var record, rem;
          c, record, rem := FindMinGiniDense(rows, T, col);
        }
        NextFeature(rows, plan, i, cMin, k, cFeature, c);
        if c.eval < cMin.eval {
          cMin, cFeature, k := c, col, i;
        }
        i := i + 1;
      }
    }
  
    /** Builds two separate subtrees. */
    method UpdateBoth(left: Node, right: Node, rowsL: seq<Row>, rowsR: seq<Row>, height: nat, ghost plan: Plan)
      returns (ghost treeL: Tree, ghost treeR: Tree)
      requires Configured() && plan == ThePlan() && left.Valid() && right.Valid() && left.Repr !! right.Repr
      requires left.height == right.height == height <= maxHeight && AllFit(rowsL, plan) && AllFit(rowsR, plan)
      modifies left.Repr, right.Repr
      ensures left.Valid() && right.Valid() && left.Repr !! right.Repr && left.created && right.created
      ensures fresh(left.Repr - old(left.Repr)) && fresh(right.Repr - old(right.Repr))
      ensures left.height == right.height == height
      ensures left.Model() == treeL && right.Model() == treeR
      ensures Fitted(treeL, rowsL, plan, height) && Fitted(treeR, rowsR, plan, height)
      decreases maxHeight - height, 4
    {
      treeL := Update(rowsL, left, plan);
      treeR := Update(rowsR, right, plan);
    }

    /** Builds the subtrees of a node that has been given a split. */
    method Descend(
        current: Node, rowsL: seq<Row>, rowsR: seq<Row>, below: nat, ghost plan: Plan, ghost rows: seq<Row>,
        ghost columns: map<nat, seq<Sample>>, ghost feature: nat, ghost dpoint: real)
      returns (ghost treeL: Tree, ghost treeR: Tree)
      requires Configured() && plan == ThePlan() && current.Linked() && current.created && below <= maxHeight
      requires !current.terminate && current.feature == feature && current.dpoint == dpoint && below == current.height + 1
      requires current.rows == rows && current.sortedData == columns
      requires AllFit(rowsL, plan) && AllFit(rowsR, plan)
      modifies current.Repr
      ensures current.Valid() && fresh(current.Repr - old(current.Repr))
      ensures current.created && below == current.height + 1
      ensures current.Model() == Split(rows, columns, feature, dpoint, treeL, treeR)
      ensures Fitted(treeL, rowsL, plan, below) && Fitted(treeR, rowsR, plan, below)
      decreases maxHeight - below, 5
    {
      treeL, treeR := UpdateBoth(current.left, current.right, rowsL, rowsR, below, plan);
      ghost var newL, newR := current.left.Repr, current.right.Repr;
      current.Adopt(treeL, treeR);
      assert current.Repr == {current} + newL + newR;
    }

    /** Builds the tree for the rows below this node, in place. */
    method Update(rows: seq<Row>, current: Node, ghost plan: Plan) returns (ghost tree: Tree)
      requires Configured() && plan == ThePlan() && current.Valid() && current.height <= maxHeight && AllFit(rows, plan)
      modifies current.Repr
      ensures current.Valid() && fresh(current.Repr - old(current.Repr))
      ensures current.created && current.height == old(current.height)
      ensures current.Model() == tree && Fitted(tree, rows, plan, current.height)
      decreases maxHeight - current.height, 3
    {
      Prepare(rows, current);
      var T := CountClasses(rows, classes);
      if current.height == maxHeight {
        var max := MaxElement(T);
        MaxIsMostFrequent(rows, classes, max);
        Close(rows, max, current);
        return Leaf(rows, max);
      }
      var only := OnlyClass(rows, T);
      if only < classes {
        Close(rows, only, current);
        return Leaf(rows, only);
      }
      tree := SplitOrClose(rows, T, current, plan);
    }

    /** Gives the node its rows, and children if it is new. */
    method Prepare(rows: seq<Row>, current: Node)
      requires current.Valid()
      modifies current
      ensures current.Linked() && current.created && fresh(current.Repr - old(current.Repr))
      ensures current.height == old(current.height) && current.rows == rows
    {
      if !current.created {
        current.CreateNode();
      }
      current.rows, current.size := rows, |rows|;
    }

    /** Makes the node a leaf. */
    method Close(rows: seq<Row>, result: nat, current: Node)
      requires current.Linked() && current.created && current.rows == rows
      modifies current`terminate, current`result
      ensures current.Valid() && current.terminate && current.Model() == Leaf(rows, result)
    {
      current.terminate, current.result := true, result;
    }

    /** The first class that all rows have, or `classes`. */
    method OnlyClass(rows: seq<Row>, T: seq<int>) returns (i: nat)
      requires classes > 0 && T == ClassCounts(Results(rows), classes)
      ensures i < classes ==> Pure(rows, classes) && MostFrequent(rows, classes, i)
      ensures i >= classes ==> !Pure(rows, classes) && |rows| > 0
    {
      i := 0;
      while i < classes
        invariant 0 <= i <= classes && forall b :: 0 <= b < i ==> Frequency(rows, b) != |rows|
      {
        if T[i] == |rows| {
          OnlyIsMostFrequent(rows, classes, i);
          return;
        }
        i := i + 1;
      }
      assert Frequency(rows, 0) != |rows|;
      TallyAtMost(Results(rows), Label(0));
    }

    /** Splits the rows of a node at the best boundary, or makes it a leaf if there is none. */
    method SplitOrClose(rows: seq<Row>, T: seq<int>, current: Node, ghost plan: Plan) returns (ghost tree: Tree)
      requires Configured() && plan == ThePlan() && current.Linked() && current.created && current.rows == rows
      requires current.height < maxHeight
      requires AllFit(rows, plan) && |rows| > 0 && !Pure(rows, classes) && T == ClassCounts(Results(rows), classes)
      modifies current.Repr
      ensures current.Valid() && fresh(current.Repr - old(current.Repr))
      ensures current.created && current.height == old(current.height)
      ensures current.Model() == tree && Fitted(tree, rows, plan, current.height)
      decreases maxHeight - current.height, 2
    {
      var cMin, cFeature, sortedData, k := ChooseSplit(rows, T, current.sortedData);
      if cMin.eval == DBL_MAX {
        current.sortedData := sortedData;
        var max := MaxElement(T);
        MaxIsMostFrequent(rows, classes, max);
        Close(rows, max, current);
        return Leaf(rows, max);
      }
      BestIsPicked(rows, plan, cMin, k, cFeature);
      Mark(current, cFeature, cMin.value, sortedData);
      var rowsL, rowsR := Divide(rows, cFeature, cMin.value, plan);
      tree := SplitAt(rows, rowsL, rowsR, cFeature, cMin.value, current, current.height, plan);
    }

    /** Builds the subtrees of a node that has been given a split for its rows. */
    method SplitAt(
        rows: seq<Row>, rowsL: seq<Row>, rowsR: seq<Row>, feature: nat, dpoint: real, current: Node, height: nat,
        ghost plan: Plan)
      returns (ghost tree: Tree)
      requires Configured() && plan == ThePlan() && current.Linked() && current.created
      requires current.height == height < maxHeight
      requires AllFit(rowsL, plan) && AllFit(rowsR, plan) && !Pure(rows, classes) && Picked(rows, plan, feature, dpoint)
      requires rowsL == Side(rows, feature, dpoint, true) && rowsR == Side(rows, feature, dpoint, false)
      requires !current.terminate && current.feature == feature && current.dpoint == dpoint
      requires current.rows == rows && Shelved(current.sortedData, rows, plan, |plan.features|)
      modifies current.Repr
      ensures current.Valid() && fresh(current.Repr - old(current.Repr))
      ensures current.created && current.height == height
      ensures current.Model() == tree && Fitted(tree, rows, plan, height)
      decreases maxHeight - height, 1
    {
      ghost var columns := current.sortedData;
      ghost var treeL, treeR := Descend(current, rowsL, rowsR, height + 1, plan, rows, columns, feature, dpoint);
      FittedSplit(rows, columns, plan, height, feature, dpoint, treeL, treeR);
      tree := Split(rows, columns, feature, dpoint, treeL, treeR);
    }

    method Mark(current: Node, feature: int, dpoint: real, sortedData: map<nat, seq<Sample>>)
      requires current.Linked() && current.created
      modifies current`terminate, current`feature, current`dpoint, current`sortedData
      ensures current.Linked() && !current.terminate && current.feature == feature && current.dpoint == dpoint
      ensures current.sortedData == sortedData
    {
      current.sortedData := sortedData;
      current.terminate, current.feature, current.dpoint := false, feature, dpoint;
    }
  
    /** Classifies by walking down from a node. */
    method Test(data: seq<real>, node: Node) returns (r: nat)
      requires node.Valid() && node.created && Within(node.Model(), |data|)
      requires node.height + Depth(node.Model()) <= maxHeight
      ensures r == Predict(node.Model(), data)
      decreases node.Repr
    {
      if node.terminate || node.height == maxHeight {
        return node.result;
      }
      if data[node.feature] <= node.dpoint {
        r := Test(data, node.left);
      } else {
        r := Test(data, node.right);
      }
    }

    /** The first fit: the height is bounded by the logarithm of the number of rows. */
    method Fit(rows: seq<Row>) returns (ghost tree: Tree)
      requires Configured() && root.Valid() && root.height == 0 && root.size == 0
      requires |rows| > 0 && AllFit(rows, ThePlan())
      modifies this, root.Repr
      ensures root.Valid() && root.created && root.height == 0 && root.rows == rows
      ensures if |rows| < 2 then maxHeight == 1 else Pow2(maxHeight) <= |rows| < Pow2(maxHeight + 1)
      ensures root.Model() == tree && Fitted(tree, rows, ThePlan(), 0)
    {
      maxHeight := Log2(|rows|);
      if maxHeight < 1 {
        maxHeight := 1;
      }
      assert forall i :: 0 <= i < |rows| ==> Fits(rows[i], ThePlan());
      tree := Update(rows, root, ThePlan());
    }

    method TestAll(tests: seq<seq<real>>) returns (results: seq<nat>)
      requires root.Valid() && root.created && Within(root.Model(), width)
      requires root.height + Depth(root.Model()) <= maxHeight
      requires forall i :: 0 <= i < |tests| ==> width <= |tests[i]|
      ensures |results| == |tests|
      ensures forall i :: 0 <= i < |tests| ==> results[i] == Predict(root.Model(), tests[i])
    {
      ghost var tree := root.Model();
      results := [];
      var i := 0;
      while i < |tests|
        invariant 0 <= i <= |tests| && |results| == i
        invariant forall n :: 0 <= n < i ==> results[n] == Predict(tree, tests[n])
      {
        WithinWider(tree, width, |tests[i]|);
        var r := Test(tests[i], root);
        results := results + [r];
        i := i + 1;
      }
    }

    /** Trains on the rows and classifies the others. */
    method FitThenPredict(rows: seq<Row>, tests: seq<seq<real>>) returns (results: seq<nat>, ghost tree: Tree)
      requires Configured() && root.Valid() && root.height == 0 && root.size == 0
      requires |rows| > 0 && AllFit(rows, ThePlan()) && forall i :: 0 <= i < |tests| ==> width <= |tests[i]|
      modifies this, root.Repr
      ensures root.Valid() && root.Model() == tree && Fitted(tree, rows, ThePlan(), 0)
      ensures |results| == |tests| && forall i :: 0 <= i < |tests| ==> results[i] == Predict(tree, tests[i])
    {
      tree := Fit(rows);
      FittedShape(tree, rows, ThePlan(), 0);
      results := TestAll(tests);
    }
  }

  lemma {:induction false} WithinWider(tree: Tree, width: nat, wider: nat)
    requires Within(tree, width) && width <= wider
    ensures Within(tree, wider)
  {
    if tree.Split? {
      WithinWider(tree.left, width, wider);
      WithinWider(tree.right, width, wider);
    }
  }
}
