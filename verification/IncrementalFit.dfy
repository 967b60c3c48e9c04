/**
  Incremental training on linked nodes (sdk/incrementalDecisionTree.cpp, IncrementalUpdate and the second branch of
  fit).  In the source a forgotten row is marked where it is stored, and every node that holds the row sees the mark;
  rows are values here, so the marks are handed down with them.
 */
module IncrementalFit {

  import opened TwoPowers
  import opened Samples
  import opened GiniIndex
  import opened SplitSearch
  import opened ColumnSearch
  import opened IncrementalColumn
  import opened Trees
  import opened IncrementalTrees
  import opened Nodes = DecisionTree

  // ---------------------------------------------------------------------------------------------
  // Rows and their marks
  // ---------------------------------------------------------------------------------------------

  /** The rows that stay, and those that are forgotten. */
  method Separate(rows: seq<Row>, gone: seq<bool>) returns (kept: seq<Row>, dropped: seq<Row>)
    requires |gone| == |rows|
    ensures kept == Marked(rows, gone, false) && dropped == Marked(rows, gone, true)
  {
    kept, dropped := [], [];
    var i := 0;
    while i < |rows|
      invariant 0 <= i <= |rows|
      invariant kept == Marked(rows[..i], gone[..i], false) && dropped == Marked(rows[..i], gone[..i], true)
    {
      assert rows[..i + 1][..i] == rows[..i] && gone[..i + 1][..i] == gone[..i];
      if gone[i] {
        dropped := dropped + [rows[i]];
      } else {
        kept := kept + [rows[i]];
      }
      i := i + 1;
    }
    assert rows[..i] == rows && gone[..i] == gone;
  }

  /** The marks of the rows on either side of a split. */
  method DivideMarks(rows: seq<Row>, gone: seq<bool>, feature: nat, dpoint: real, ghost plan: Plan)
    returns (goneL: seq<bool>, goneR: seq<bool>)
    requires |gone| == |rows| && AllFit(rows, plan) && feature < plan.width
    ensures goneL == SideMarks(rows, gone, feature, dpoint, true)
    ensures goneR == SideMarks(rows, gone, feature, dpoint, false)
  {
    goneL, goneR := [], [];
    var i := 0;
    while i < |rows|
      invariant 0 <= i <= |rows|
      invariant goneL == SideMarks(rows[..i], gone[..i], feature, dpoint, true)
      invariant goneR == SideMarks(rows[..i], gone[..i], feature, dpoint, false)
    {
      assert rows[..i + 1][..i] == rows[..i] && gone[..i + 1][..i] == gone[..i] && Fits(rows[i], plan);
      if rows[i].data[feature] <= dpoint {
        goneL := goneL + [gone[i]];
      } else {
        goneR := goneR + [gone[i]];
      }
      i := i + 1;
    }
    assert rows[..i] == rows && gone[..i] == gone;
  }

  lemma ColumnGrows(rows: seq<Row>, x: Row, plan: Plan, col: nat)
    requires AllFit(rows, plan) && Fits(x, plan) && col < plan.width
    ensures AllFit(rows + [x], plan)
    ensures multiset(Column(rows + [x], col)) == multiset(Column(rows, col)) + multiset{Sample(x.data[col], x.result)}
  {
    assert Column(rows + [x], col) == Column(rows, col) + [Sample(x.data[col], x.result)];
  }

  lemma {:induction false} ColumnOfMarked(rows: seq<Row>, gone: seq<bool>, plan: Plan, col: nat)
    requires |gone| == |rows| && AllFit(rows, plan) && col < plan.width
    ensures AllFit(Marked(rows, gone, false), plan) && AllFit(Marked(rows, gone, true), plan)
    ensures multiset(Column(rows, col))
         == multiset(Column(Marked(rows, gone, false), col)) + multiset(Column(Marked(rows, gone, true), col))
  {
    if rows != [] {
      var n := |rows| - 1;
      ColumnOfMarked(rows[..n], gone[..n], plan, col);
      assert Fits(rows[n], plan);
      ColumnOneMore(rows[..n], gone[..n], rows[n], gone[n], plan, col);
      assert rows == rows[..n] + [rows[n]] && gone == gone[..n] + [gone[n]];
    }
  }

  lemma ColumnOneMore(rows: seq<Row>, gone: seq<bool>, x: Row, m: bool, plan: Plan, col: nat)
    requires |gone| == |rows| && AllFit(rows, plan) && Fits(x, plan) && col < plan.width
    requires AllFit(Marked(rows, gone, false), plan) && AllFit(Marked(rows, gone, true), plan)
    requires multiset(Column(rows, col))
          == multiset(Column(Marked(rows, gone, false), col)) + multiset(Column(Marked(rows, gone, true), col))
    ensures var all, marks := rows + [x], gone + [m];
            && AllFit(all, plan) && AllFit(Marked(all, marks, false), plan) && AllFit(Marked(all, marks, true), plan)
            && multiset(Column(all, col))
               == multiset(Column(Marked(all, marks, false), col)) + multiset(Column(Marked(all, marks, true), col))
  {
    var kept, dropped := Marked(rows, gone, false), Marked(rows, gone, true);
    MarkedGrows(rows, gone, false, x, m);
    MarkedGrows(rows, gone, true, x, m);
    ColumnGrows(rows, x, plan, col);
    if m {
      assert Marked(rows + [x], gone + [m], false) == kept;
      ColumnGrows(dropped, x, plan, col);
    } else {
      assert Marked(rows + [x], gone + [m], true) == dropped;
      ColumnGrows(kept, x, plan, col);
    }
  }

  /** A sorted copy of a column is one of the kept and the forgotten rows together. */
  lemma PriorOfMarked(prior: seq<Sample>, rows: seq<Row>, gone: seq<bool>, plan: Plan, col: nat)
    requires |gone| == |rows| && AllFit(rows, plan) && col < plan.width && IsSortedCopy(prior, Column(rows, col))
    ensures AllFit(Marked(rows, gone, false), plan) && AllFit(Marked(rows, gone, true), plan)
    ensures IsSortedCopy(prior, Column(Marked(rows, gone, false) + Marked(rows, gone, true), col))
  {
    ColumnOfMarked(rows, gone, plan, col);
    ColumnOfSum(Marked(rows, gone, false), Marked(rows, gone, true), col);
  }

  // ---------------------------------------------------------------------------------------------
  // The search
  // ---------------------------------------------------------------------------------------------

  /** All columns are searched by sorting, and none is tried twice. */
  ghost predicate BySorting(t: DecisionTree) {
    && t.Configured()
    && (forall l :: 0 <= l < |t.featureId| ==> t.sparse[t.featureId[l]] == 1)
    && forall l, m :: 0 <= l < m < |t.featureId| ==> t.featureId[l] != t.featureId[m]
  }

  lemma AllFitSum(a: seq<Row>, b: seq<Row>, plan: Plan)
    requires AllFit(a, plan) && AllFit(b, plan)
    ensures AllFit(a + b, plan)
  {
  }

  lemma FitIsTabular(rows: seq<Row>, plan: Plan, col: nat)
    requires AllFit(rows, plan) && col < plan.width
    ensures Tabular(rows, col, plan.classes)
  {
    forall i | 0 <= i < |rows|
      ensures col < |rows[i].data| && rows[i].result < plan.classes
    {
      assert Fits(rows[i], plan);
    }
  }

  /** One column of the search. */
  method Try(
      prior: seq<Sample>, kept: seq<Row>, dropped: seq<Row>, recent: seq<Row>, col: nat, classes: nat, ghost plan: Plan,
      ghost held: seq<Row>, ghost gone: seq<bool>)
    returns (c: MinEval, sorted: seq<Sample>)
    requires |gone| == |held| && AllFit(held, plan) && AllFit(recent, plan)
    requires col < plan.width && classes == plan.classes
    requires kept == Marked(held, gone, false) && dropped == Marked(held, gone, true) && recent + kept != []
    requires IsSortedCopy(prior, Column(held, col))
    ensures AllFit(recent + kept, plan) && IsSortedCopy(sorted, Column(recent + kept, col))
    ensures IsBest(Column(recent + kept, col), classes, c)
  {
    PriorOfMarked(prior, held, gone, plan, col);
    FitIsTabular(kept, plan, col);
    FitIsTabular(dropped, plan, col);
    FitIsTabular(recent, plan, col);
    AllFitSum(recent, kept, plan);
    c, sorted := Advance(kept, dropped, recent, prior, col, classes);
  }

  /** Tries the columns in turn, bringing the sorted copies up to date. */
  method SearchAgain(
      t: DecisionTree, kept: seq<Row>, dropped: seq<Row>, recent: seq<Row>, before: map<nat, seq<Sample>>,
      ghost plan: Plan, ghost held: seq<Row>, ghost gone: seq<bool>)
    returns (cMin: MinEval, cFeature: int, columns: map<nat, seq<Sample>>, ghost k: nat)
    requires BySorting(t) && plan == t.ThePlan() && |gone| == |held| && AllFit(held, plan) && AllFit(recent, plan)
    requires kept == Marked(held, gone, false) && dropped == Marked(held, gone, true) && recent + kept != []
    requires Shelved(before, held, plan, |plan.features|)
    ensures BestOf(recent + kept, plan, |plan.features|, cMin, k, cFeature)
    ensures Shelved(columns, recent + kept, plan, |plan.features|)
  {
    ghost var rows := recent + kept;
    MarkedFit(held, gone, false, plan);
    AllFitSum(recent, kept, plan);
    cMin, cFeature, columns, k := Unset(), -1, before, 0;
    var i := 0;
    while i < |t.featureId|
      invariant 0 <= i <= |t.featureId|
      invariant BestOf(rows, plan, i, cMin, k, cFeature)
      invariant Shelved(columns, rows, plan, i)
      invariant forall l :: i <= l < |t.featureId| ==>
                  t.featureId[l] in columns && columns[t.featureId[l]] == before[t.featureId[l]]
    {
      var col := t.featureId[i];
      var c, sorted := Try(columns[col], kept, dropped, recent, col, t.classes, plan, held, gone);
      columns := columns[col := sorted];
      NextFeature(rows, plan, i, cMin, k, cFeature, c);
      if c.eval < cMin.eval {
        cMin, cFeature, k := c, col, i;
      }
      i := i + 1;
    }
  }

  // ---------------------------------------------------------------------------------------------
  // The round on nodes
  // ---------------------------------------------------------------------------------------------

  /** The round is one for the rows of the tree, and leaves some. */
  ghost predicate Suits(round: Round, former: Tree, plan: Plan) {
    && former.rows == round.held && Laid(former, round.held) && Stocked(former, plan)
    && AllFit(round.held, plan) && AllFit(round.recent, plan) && Renewal(round) != []
  }

  lemma RenewalFits(round: Round, plan: Plan)
    requires AllFit(round.held, plan) && AllFit(round.recent, plan)
    ensures AllFit(Renewal(round), plan)
  {
    MarkedFit(round.held, round.gone, false, plan);
    AllFitSum(round.recent, Retained(round), plan);
  }

  lemma FitsBelow(round: Round, plan: Plan, feature: nat, dpoint: real, left: bool)
    requires AllFit(round.held, plan) && AllFit(round.recent, plan) && Picked(Renewal(round), plan, feature, dpoint)
    ensures var below := RoundOn(round, feature, dpoint, left);
            AllFit(below.held, plan) && AllFit(below.recent, plan) && Renewal(below) != []
  {
    RenewalSide(round, feature, dpoint, left);
    PickedSplits(Renewal(round), plan, feature, dpoint);
    SidesFit(round.held, plan, feature, dpoint, left);
    SidesFit(round.recent, plan, feature, dpoint, left);
  }

  lemma LaidBelow(tree: Tree, rows: seq<Row>, plan: Plan)
    requires tree.Split? && Laid(tree, rows) && Stocked(tree, plan)
    ensures var sideL := Side(rows, tree.feature, tree.dpoint, true);
            tree.left.rows == sideL && Laid(tree.left, sideL) && Stocked(tree.left, plan)
    ensures var sideR := Side(rows, tree.feature, tree.dpoint, false);
            tree.right.rows == sideR && Laid(tree.right, sideR) && Stocked(tree.right, plan)
  {
  }

  /** The round goes on below a split that leaves rows on both sides. */
  lemma SuitsBelow(round: Round, former: Tree, plan: Plan)
    requires former.Split? && Suits(round, former, plan)
    requires Picked(Renewal(round), plan, former.feature, former.dpoint)
    ensures Suits(RoundOn(round, former.feature, former.dpoint, true), former.left, plan)
    ensures Suits(RoundOn(round, former.feature, former.dpoint, false), former.right, plan)
  {
    FitsBelow(round, plan, former.feature, former.dpoint, true);
    FitsBelow(round, plan, former.feature, former.dpoint, false);
    LaidBelow(former, round.held, plan);
  }

  /** IncrementalUpdate: one round at a node. */
  method IncrementalUpdate(t: DecisionTree, round: Round, current: Node, ghost plan: Plan, ghost former: Tree)
    returns (ghost tree: Tree)
    requires BySorting(t) && plan == t.ThePlan() && current.Valid() && current.created && current.height <= t.maxHeight
    requires current.Model() == former && Suits(round, former, plan)
    modifies current.Repr
    ensures current.Valid() && fresh(current.Repr - old(current.Repr))
    ensures current.created && current.height == old(current.height)
    ensures current.Model() == tree && Renewed(tree, former, round, plan, current.height)
    decreases t.maxHeight - current.height, 3
  {
    var kept, dropped := Separate(current.rows, round.gone);
    var rows := round.recent + kept;
    RenewalFits(round, plan);
    if kept == [] || current.terminate || current.height == t.maxHeight || |rows| == 1 || round.recent == [] {
      tree := t.Update(rows, current, plan);
    } else {
      tree := SearchAndRenew(t, rows, kept, dropped, round, current, current.height, plan, former);
    }
  }

  /** The rest of the round, from the search on. */
  method SearchAndRenew(
      t: DecisionTree, rows: seq<Row>, kept: seq<Row>, dropped: seq<Row>, round: Round, current: Node, height: nat,
      ghost plan: Plan, ghost former: Tree)
    returns (ghost tree: Tree)
    requires BySorting(t) && plan == t.ThePlan() && current.Valid() && current.created
    requires current.height == height < t.maxHeight
    requires current.Model() == former && Suits(round, former, plan) && !Rebuilt(former, round, plan, height)
    requires kept == Marked(round.held, round.gone, false) && dropped == Marked(round.held, round.gone, true)
    requires rows == Renewal(round) && AllFit(rows, plan)
    modifies current.Repr
    ensures current.Valid() && fresh(current.Repr - old(current.Repr))
    ensures current.created && current.height == height
    ensures current.Model() == tree && Renewed(tree, former, round, plan, height)
    decreases t.maxHeight - height, 2
  {
    var cMin, cFeature, columns, k :=
      SearchAgain(t, kept, dropped, round.recent, current.sortedData, plan, round.held, round.gone);
    Refresh(current, rows, columns);
    tree := Follow(t, rows, columns, cMin, cFeature, k, round, current, height, plan, former);
  }

  /** What the search has found is carried out. */
  method Follow(
      t: DecisionTree, rows: seq<Row>, columns: map<nat, seq<Sample>>, cMin: MinEval, cFeature: int, ghost k: nat,
      round: Round, current: Node, height: nat, ghost plan: Plan, ghost former: Tree)
    returns (ghost tree: Tree)
    requires BySorting(t) && plan == t.ThePlan() && current.Linked() && current.Ready() && current.created
    requires !current.terminate && current.height == height < t.maxHeight
    requires current.rows == rows && current.sortedData == columns
    requires former.Split? && former.feature == current.feature && former.dpoint == current.dpoint
    requires current.left.Model() == former.left && current.right.Model() == former.right
    requires Suits(round, former, plan) && !Rebuilt(former, round, plan, height) && rows == Renewal(round)
    requires BestOf(rows, plan, |plan.features|, cMin, k, cFeature) && Shelved(columns, rows, plan, |plan.features|)
    modifies current.Repr
    ensures current.Valid() && fresh(current.Repr - old(current.Repr))
    ensures current.created && current.height == height
    ensures current.Model() == tree && Renewed(tree, former, round, plan, height)
    decreases t.maxHeight - height, 1, 1
  {
    if cMin.eval == DBL_MAX {
      tree := CloseForRecent(t, rows, round, current, plan, former);
      return;
    }
    BestIsPicked(rows, plan, cMin, k, cFeature);
    if current.dpoint == cMin.value && current.feature == cFeature {
      tree := RenewBelow(t, rows, columns, round, current, height, plan, former);
    } else {
      tree := SplitAnew(t, rows, columns, round, current, cFeature, cMin.value, height, plan, former);
    }
  }

  /** The node gets its rows and columns; what is below it stays. */
  method Refresh(current: Node, rows: seq<Row>, columns: map<nat, seq<Sample>>)
    requires current.Valid() && current.created && !current.terminate
    modifies current`rows, current`size, current`sortedData
    ensures current.Linked() && current.Ready() && current.rows == rows
    ensures current.sortedData == columns
    ensures current.left.Model() == old(current.left.Model()) && current.right.Model() == old(current.right.Model())
  {
    current.rows, current.size, current.sortedData := rows, |rows|, columns;
  }

  /** No column has a boundary: the node becomes a leaf, for which the recent rows are counted. */
  method CloseForRecent(
      t: DecisionTree, rows: seq<Row>, round: Round, current: Node, ghost plan: Plan, ghost former: Tree)
    returns (ghost tree: Tree)
    requires BySorting(t) && plan == t.ThePlan() && current.Linked() && current.created && current.rows == rows
    requires rows == Renewal(round) && AllFit(round.recent, plan) && !Rebuilt(former, round, plan, current.height)
    requires Unsplittable(rows, plan, |plan.features|) && current.height < t.maxHeight
    modifies current`terminate, current`result
    ensures current.Valid() && current.Model() == tree && Renewed(tree, former, round, plan, current.height)
  {
    assert forall i :: 0 <= i < |round.recent| ==> Fits(round.recent[i], plan);
    var T := CountClasses(round.recent, t.classes);
    var max := MaxElement(T);
    MaxIsMostFrequent(round.recent, t.classes, max);
    t.Close(rows, max, current);
    tree := Leaf(rows, max);
  }

  /** A node over two trees that have been built from scratch, for a split unlike the last one. */
  lemma UnlikeIsRenewed(
      rows: seq<Row>, columns: map<nat, seq<Sample>>, feature: nat, dpoint: real, treeL: Tree, treeR: Tree, former: Tree,
      round: Round, plan: Plan, height: nat)
    requires rows == Renewal(round) && !Rebuilt(former, round, plan, height) && height < plan.maxHeight
    requires Shelved(columns, rows, plan, |plan.features|) && Picked(rows, plan, feature, dpoint)
    requires !(feature == former.feature && dpoint == former.dpoint)
    requires Fitted(treeL, Side(rows, feature, dpoint, true), plan, height + 1)
    requires Fitted(treeR, Side(rows, feature, dpoint, false), plan, height + 1)
    ensures Renewed(Split(rows, columns, feature, dpoint, treeL, treeR), former, round, plan, height)
  {
  }

  /** A node over two trees that have been renewed, for the same split as last time. */
  lemma AlikeIsRenewed(
      rows: seq<Row>, columns: map<nat, seq<Sample>>, treeL: Tree, treeR: Tree, former: Tree, round: Round, plan: Plan,
      height: nat)
    requires rows == Renewal(round) && !Rebuilt(former, round, plan, height) && height < plan.maxHeight
    requires Shelved(columns, rows, plan, |plan.features|) && Picked(rows, plan, former.feature, former.dpoint)
    requires Renewed(treeL, former.left, RoundOn(round, former.feature, former.dpoint, true), plan, height + 1)
    requires Renewed(treeR, former.right, RoundOn(round, former.feature, former.dpoint, false), plan, height + 1)
    ensures Renewed(Split(rows, columns, former.feature, former.dpoint, treeL, treeR), former, round, plan, height)
  {
  }

  /** A split unlike the last one: both sides are built from scratch. */
  method SplitAnew(
      t: DecisionTree, rows: seq<Row>, columns: map<nat, seq<Sample>>, round: Round, current: Node, feature: nat,
      dpoint: real, height: nat, ghost plan: Plan, ghost former: Tree)
    returns (ghost tree: Tree)
    requires BySorting(t) && plan == t.ThePlan() && current.Linked() && current.created && !current.terminate
    requires current.height == height < t.maxHeight && current.rows == rows
    requires current.sortedData == columns && Shelved(columns, rows, plan, |plan.features|)
    requires rows == Renewal(round) && !Rebuilt(former, round, plan, height) && Picked(rows, plan, feature, dpoint)
    requires AllFit(rows, plan) && feature < plan.width && !(feature == former.feature && dpoint == former.dpoint)
    modifies current.Repr
    ensures current.Valid() && fresh(current.Repr - old(current.Repr))
    ensures current.created && current.height == height
    ensures current.Model() == tree && Renewed(tree, former, round, plan, height)
  {
    t.Mark(current, feature, dpoint, columns);
    var rowsL, rowsR := Divide(rows, feature, dpoint, plan);
    ghost var treeL, treeR := t.Descend(current, rowsL, rowsR, height + 1, plan, rows, columns, feature, dpoint);
    UnlikeIsRenewed(rows, columns, feature, dpoint, treeL, treeR, former, round, plan, height);
    tree := Split(rows, columns, feature, dpoint, treeL, treeR);
  }

  /** The same split as last time: the round goes on on both sides. */
  method RenewBelow(
      t: DecisionTree, rows: seq<Row>, columns: map<nat, seq<Sample>>, round: Round, current: Node, height: nat,
      ghost plan: Plan, ghost former: Tree)
    returns (ghost tree: Tree)
    requires BySorting(t) && plan == t.ThePlan() && current.Linked() && current.Ready() && current.created
    requires !current.terminate && current.height == height < t.maxHeight
    requires current.rows == rows && current.sortedData == columns
    requires former.Split? && former.feature == current.feature && former.dpoint == current.dpoint
    requires current.left.Model() == former.left && current.right.Model() == former.right
    requires Suits(round, former, plan) && !Rebuilt(former, round, plan, height) && rows == Renewal(round)
    requires Picked(rows, plan, former.feature, former.dpoint) && Shelved(columns, rows, plan, |plan.features|)
    modifies current.Repr
    ensures current.Valid() && fresh(current.Repr - old(current.Repr))
    ensures current.created && current.height == height
    ensures current.Model() == tree && Renewed(tree, former, round, plan, height)
    decreases t.maxHeight - height, 1, 0
  {
    PickedInWidth(rows, plan, former.feature, former.dpoint);
    SuitsBelow(round, former, plan);
    var roundL, roundR := DivideRound(round, current.feature, current.dpoint, plan);
    ghost var treeL, treeR := RenewChildren(t, roundL, roundR, current, height + 1, plan, former.left, former.right, rows,
                                            columns, former.feature, former.dpoint);
    AlikeIsRenewed(rows, columns, treeL, treeR, former, round, plan, height);
    tree := Split(rows, columns, former.feature, former.dpoint, treeL, treeR);
  }

  /** The round on the children of a node. */
  method RenewChildren(
      t: DecisionTree, roundL: Round, roundR: Round, current: Node, below: nat, ghost plan: Plan, ghost formerL: Tree,
      ghost formerR: Tree, ghost rows: seq<Row>, ghost columns: map<nat, seq<Sample>>, ghost feature: nat,
      ghost dpoint: real)
    returns (ghost treeL: Tree, ghost treeR: Tree)
    requires BySorting(t) && plan == t.ThePlan() && current.Linked() && current.Ready() && current.created
    requires !current.terminate && current.feature == feature && current.dpoint == dpoint
    requires current.rows == rows && current.sortedData == columns && below == current.height + 1 <= t.maxHeight
    requires current.left.Model() == formerL && Suits(roundL, formerL, plan)
    requires current.right.Model() == formerR && Suits(roundR, formerR, plan)
    modifies current.Repr
    ensures current.Valid() && fresh(current.Repr - old(current.Repr))
    ensures current.created && below == current.height + 1
    ensures current.Model() == Split(rows, columns, feature, dpoint, treeL, treeR)
    ensures Renewed(treeL, formerL, roundL, plan, below) && Renewed(treeR, formerR, roundR, plan, below)
    decreases t.maxHeight - below, 6
  {
    treeL, treeR :=
      RenewBoth(t, roundL, roundR, current.left, current.right, below, plan, formerL, formerR, current.Repr);
    ghost var newL, newR := current.left.Repr, current.right.Repr;
    current.Adopt(treeL, treeR);
    assert current.Repr == {current} + newL + newR;
  }

  method DivideRound(round: Round, feature: nat, dpoint: real, ghost plan: Plan) returns (roundL: Round, roundR: Round)
    requires AllFit(round.held, plan) && AllFit(round.recent, plan) && feature < plan.width
    ensures roundL == RoundOn(round, feature, dpoint, true) && roundR == RoundOn(round, feature, dpoint, false)
  {
    var recentL, recentR := Divide(round.recent, feature, dpoint, plan);
    var heldL, heldR := Divide(round.held, feature, dpoint, plan);
    var goneL, goneR := DivideMarks(round.held, round.gone, feature, dpoint, plan);
    roundL, roundR := Round(heldL, goneL, recentL), Round(heldR, goneR, recentR);
  }

  /** The round on two separate subtrees. */
  method RenewBoth(
      t: DecisionTree, roundL: Round, roundR: Round, left: Node, right: Node, height: nat, ghost plan: Plan,
      ghost formerL: Tree, ghost formerR: Tree, ghost above: set<Node>)
    returns (ghost treeL: Tree, ghost treeR: Tree)
    requires BySorting(t) && plan == t.ThePlan() && left.Valid() && right.Valid() && left.Repr !! right.Repr
    requires left.created && right.created && left.height == right.height == height <= t.maxHeight
    requires left.Model() == formerL && Suits(roundL, formerL, plan)
    requires right.Model() == formerR && Suits(roundR, formerR, plan)
    requires left.Repr <= above && right.Repr <= above
    modifies left.Repr, right.Repr
    ensures left.Valid() && right.Valid() && left.Repr !! right.Repr && left.created && right.created
    ensures fresh(left.Repr - old(left.Repr)) && fresh(right.Repr - old(right.Repr))
    ensures fresh(left.Repr - above) && fresh(right.Repr - above)
    ensures left.height == right.height == height
    ensures left.Model() == treeL && right.Model() == treeR
    ensures Renewed(treeL, formerL, roundL, plan, height) && Renewed(treeR, formerR, roundR, plan, height)
    decreases t.maxHeight - height, 5
  {
    treeL := RenewOne(t, roundL, left, right, height, plan, formerL, formerR);
    treeR := RenewOne(t, roundR, right, left, height, plan, formerR, treeL);
  }

  /** The round on one subtree, beside another. */
  method RenewOne(
      t: DecisionTree, round: Round, current: Node, ghost other: Node, height: nat, ghost plan: Plan, ghost former: Tree,
      ghost otherTree: Tree)
    returns (ghost tree: Tree)
    requires BySorting(t) && plan == t.ThePlan() && current.Valid() && other.Valid() && current.Repr !! other.Repr
    requires current.created && other.created && current.height == other.height == height <= t.maxHeight
    requires current.Model() == former && other.Model() == otherTree && Suits(round, former, plan)
    modifies current.Repr
    ensures current.Valid() && other.Valid() && current.Repr !! other.Repr && current.created && other.created
    ensures fresh(current.Repr - old(current.Repr)) && other.Repr == old(other.Repr)
    ensures current.height == other.height == height
    ensures current.Model() == tree && other.Model() == otherTree && Renewed(tree, former, round, plan, height)
    decreases t.maxHeight - height, 4
  {
    tree := IncrementalUpdate(t, round, current, plan, former);
  }

  // ---------------------------------------------------------------------------------------------
  // Further fits
  // ---------------------------------------------------------------------------------------------

  /**
    A fit of a tree that has been fitted before, with the number of rows to retain given.  The tree is the one that
    training from scratch would build exactly if the round is regular, and it is ready for the next fit in any case.
   */
  method FitAgain(t: DecisionTree, recent: seq<Row>, retain: nat, ghost before: Plan, ghost former: Tree)
    returns (ghost tree: Tree)
    requires BySorting(t) && before == t.ThePlan() && t.root.Valid() && t.root.created && t.root.height == 0
    requires t.root.Model() == former && Laid(former, former.rows) && Stocked(former, before)
    requires AllFit(former.rows, before) && AllFit(recent, before)
    requires |recent| <= retain && 0 < retain && former.rows != []
    modifies t, t.root.Repr
    ensures t.Configured() && t.root.Valid() && t.root.created && t.root.height == 0 && t.root.Model() == tree
    ensures if retain < 2 then t.maxHeight == 1 else Pow2(t.maxHeight) <= retain < Pow2(t.maxHeight + 1)
    ensures Renewed(tree, former, RootRound(former.rows, recent, retain), t.ThePlan(), 0)
    ensures Laid(tree, Renewal(RootRound(former.rows, recent, retain))) && Stocked(tree, t.ThePlan())
    ensures Fitted(tree, Renewal(RootRound(former.rows, recent, retain)), t.ThePlan(), 0)
            <==> Regular(former, RootRound(former.rows, recent, retain), t.ThePlan(), 0)
  {
    t.maxHeight := Log2(retain);
    if t.maxHeight < 1 {
      t.maxHeight := 1;
    }
    ghost var plan := t.ThePlan();
    assert plan == before.(maxHeight := t.maxHeight);
    var round := RootRound(t.root.rows, recent, retain);
    StockedAtAnyHeight(former, before, t.maxHeight);
    RootSuits(former, recent, retain, before, plan);
    tree := IncrementalUpdate(t, round, t.root, plan, former);
    RenewedIsStocked(tree, former, round, plan, 0);
    RoundIsTrainingFromScratch(tree, former, round, plan, 0);
  }

  /** Fits the tree, for the first time or again; it can then be asked. */
  method FitAnyTime(t: DecisionTree, train: seq<Row>, retain: nat, ghost before: Plan, ghost former: Tree)
    returns (ghost tree: Tree)
    requires BySorting(t) && before == t.ThePlan() && t.root.Valid() && t.root.created && t.root.height == 0
    requires t.root.Model() == former && Laid(former, former.rows) && Stocked(former, before)
    requires AllFit(former.rows, before) && AllFit(train, before) && (former.rows == [] ==> train != [])
    requires |train| <= retain && 0 < retain
    modifies t, t.root.Repr
    ensures t.Configured() && t.root.Valid() && t.root.created && t.root.height == 0 && t.root.Model() == tree
    ensures if former.rows == [] then Fitted(tree, train, t.ThePlan(), 0)
            else Renewed(tree, former, RootRound(former.rows, train, retain), t.ThePlan(), 0)
    ensures Laid(tree, tree.rows) && Stocked(tree, t.ThePlan())
    ensures Shape(tree, t.maxHeight, t.width)
  {
    if t.root.size == 0 {
      tree := t.Fit(train);
      FittedIsStocked(tree, train, t.ThePlan(), 0);
      FittedShape(tree, train, t.ThePlan(), 0);
    } else {
      tree := FitAgain(t, train, retain, before, former);
      RenewedShape(tree, former, RootRound(former.rows, train, retain), t.ThePlan(), 0);
    }
  }

  /** Fits the tree, for the first time or again, and classifies the other rows with it. */
  method FitThenPredict(
      t: DecisionTree, train: seq<Row>, retain: nat, tests: seq<seq<real>>, ghost before: Plan, ghost former: Tree)
    returns (results: seq<nat>, ghost tree: Tree)
    requires BySorting(t) && before == t.ThePlan() && t.root.Valid() && t.root.created && t.root.height == 0
    requires t.root.Model() == former && Laid(former, former.rows) && Stocked(former, before)
    requires AllFit(former.rows, before) && AllFit(train, before) && (former.rows == [] ==> train != [])
    requires |train| <= retain && 0 < retain && forall i :: 0 <= i < |tests| ==> t.width <= |tests[i]|
    modifies t, t.root.Repr
    ensures t.Configured() && t.root.Valid() && t.root.created && t.root.height == 0 && t.root.Model() == tree
    ensures if former.rows == [] then Fitted(tree, train, t.ThePlan(), 0)
            else Renewed(tree, former, RootRound(former.rows, train, retain), t.ThePlan(), 0)
    ensures Laid(tree, tree.rows) && Stocked(tree, t.ThePlan())
    ensures |results| == |tests| && forall i :: 0 <= i < |tests| ==> results[i] == Predict(tree, tests[i])
  {
    tree := FitAnyTime(t, train, retain, before, former);
    results := t.TestAll(tests);
  }

  lemma RootSuits(former: Tree, recent: seq<Row>, retain: nat, before: Plan, plan: Plan)
    requires Laid(former, former.rows) && Stocked(former, plan) && plan == before.(maxHeight := plan.maxHeight)
    requires AllFit(former.rows, before) && AllFit(recent, before)
    requires |recent| <= retain && 0 < retain && former.rows != []
    ensures Suits(RootRound(former.rows, recent, retain), former, plan)
  {
    RootRenewal(former.rows, recent, retain);
    assert forall i :: 0 <= i < |former.rows| ==> Fits(former.rows[i], before);
    assert forall i :: 0 <= i < |recent| ==> Fits(recent[i], before);
  }
}
