/**
  What a round of incremental training makes of a tree (sdk/incrementalDecisionTree.cpp, IncrementalUpdate), and when
  that is the tree that training from scratch would build.  The round drops some of the rows that the tree holds and
  adds recent ones.
 */
module IncrementalTrees {

  import opened Samples
  import opened GiniIndex
  import opened SplitSearch
  import opened Trees

  // ---------------------------------------------------------------------------------------------
  // Marked rows
  // ---------------------------------------------------------------------------------------------

  /** The rows that are marked as forgotten, or those that are not. */
  function Marked(rows: seq<Row>, gone: seq<bool>, mark: bool): seq<Row>
    requires |gone| == |rows|
  {
    if rows == [] then []
    else
      var n := |rows| - 1;
      Marked(rows[..n], gone[..n], mark) + if gone[n] == mark then [rows[n]] else []
  }

  /** The marks of the rows on one side of a split. */
  function SideMarks(rows: seq<Row>, gone: seq<bool>, feature: nat, dpoint: real, left: bool): (r: seq<bool>)
    requires |gone| == |rows|
    ensures |r| == |Side(rows, feature, dpoint, left)|
  {
    if rows == [] then []
    else
      var n := |rows| - 1;
      SideMarks(rows[..n], gone[..n], feature, dpoint, left)
        + if GoesLeft(rows[n].data, feature, dpoint) == left then [gone[n]] else []
  }

  lemma MarkedGrows(rows: seq<Row>, gone: seq<bool>, mark: bool, x: Row, m: bool)
    requires |gone| == |rows|
    ensures Marked(rows + [x], gone + [m], mark) == Marked(rows, gone, mark) + if m == mark then [x] else []
  {
    assert (rows + [x])[..|rows|] == rows && (gone + [m])[..|gone|] == gone;
  }

  lemma {:induction false} SideOfSum(a: seq<Row>, b: seq<Row>, feature: nat, dpoint: real, left: bool)
    ensures Side(a + b, feature, dpoint, left) == Side(a, feature, dpoint, left) + Side(b, feature, dpoint, left)
  {
    if b == [] {
      assert a + b == a;
    } else {
      var n := |b| - 1;
      SideOfSum(a, b[..n], feature, dpoint, left);
      assert (a + b)[..|a + b| - 1] == a + b[..n];
    }
  }

  /** Dividing and dropping commute. */
  lemma {:induction false} MarkedSide(
      rows: seq<Row>, gone: seq<bool>, mark: bool, feature: nat, dpoint: real, left: bool)
    requires |gone| == |rows|
    ensures Marked(Side(rows, feature, dpoint, left), SideMarks(rows, gone, feature, dpoint, left), mark)
         == Side(Marked(rows, gone, mark), feature, dpoint, left)
  {
    if rows != [] {
      var n := |rows| - 1;
      MarkedSide(rows[..n], gone[..n], mark, feature, dpoint, left);
      var side, marks := Side(rows[..n], feature, dpoint, left), SideMarks(rows[..n], gone[..n], feature, dpoint, left);
      var kept := Marked(rows[..n], gone[..n], mark);
      MarkedGrows(side, marks, mark, rows[n], gone[n]);
      SideGrowsBy(kept, feature, dpoint, left, rows[n]);
      assert side + [] == side && marks + [] == marks && kept + [] == kept;
      assert Marked(side, marks, mark) + [] == Marked(side, marks, mark);
    }
  }

  lemma SideGrowsBy(rows: seq<Row>, feature: nat, dpoint: real, left: bool, x: Row)
    ensures Side(rows + [x], feature, dpoint, left)
         == Side(rows, feature, dpoint, left) + if GoesLeft(x.data, feature, dpoint) == left then [x] else []
  {
    assert (rows + [x])[..|rows|] == rows;
  }

  lemma {:induction false} MarkedFit(rows: seq<Row>, gone: seq<bool>, mark: bool, plan: Plan)
    requires |gone| == |rows| && AllFit(rows, plan)
    ensures AllFit(Marked(rows, gone, mark), plan)
  {
    if rows != [] {
      var n := |rows| - 1;
      MarkedFit(rows[..n], gone[..n], mark, plan);
      assert Fits(rows[n], plan);
    }
  }

  // ---------------------------------------------------------------------------------------------
  // A round
  // ---------------------------------------------------------------------------------------------

  /** What a round finds at a node: the rows it holds, which of them are forgotten, and the recent rows. */
  datatype RoundData = Round(held: seq<Row>, gone: seq<bool>, recent: seq<Row>)

  type Round = r: RoundData | |r.gone| == |r.held| witness Round([], [], [])

  function Retained(round: Round): seq<Row> {
    Marked(round.held, round.gone, false)
  }

  /** All that the node holds after the round. */
  function Renewal(round: Round): seq<Row> {
    round.recent + Retained(round)
  }

  /** What the round finds one level down. */
  function RoundOn(round: Round, feature: nat, dpoint: real, left: bool): Round {
    Round(Side(round.held, feature, dpoint, left), SideMarks(round.held, round.gone, feature, dpoint, left),
          Side(round.recent, feature, dpoint, left))
  }

  lemma RenewalSide(round: Round, feature: nat, dpoint: real, left: bool)
    ensures Renewal(RoundOn(round, feature, dpoint, left)) == Side(Renewal(round), feature, dpoint, left)
  {
    MarkedSide(round.held, round.gone, false, feature, dpoint, left);
    SideOfSum(round.recent, Retained(round), feature, dpoint, left);
  }

  /** The subtree is built from scratch, without a search that starts from the former one. */
  predicate Rebuilt(former: Tree, round: Round, plan: Plan, height: nat) {
    former.Leaf? || height == plan.maxHeight || round.recent == [] || Retained(round) == [] || |Renewal(round)| == 1
  }

  /** Tree is what the round makes of the former one. */
  ghost predicate Renewed(tree: Tree, former: Tree, round: Round, plan: Plan, height: nat)
    decreases former
  {
    var all := Renewal(round);
    if Rebuilt(former, round, plan, height) then Fitted(tree, all, plan, height)
    else
      match tree
      case Leaf(held, result) =>
        && held == all && height < plan.maxHeight && Unsplittable(all, plan, |plan.features|)
        && MostFrequent(round.recent, plan.classes, result)
      case Split(held, columns, feature, dpoint, left, right) =>
        && held == all && Shelved(columns, all, plan, |plan.features|) && height < plan.maxHeight
        && Picked(all, plan, feature, dpoint)
        && if feature == former.feature && dpoint == former.dpoint then
             && Renewed(left, former.left, RoundOn(round, feature, dpoint, true), plan, height + 1)
             && Renewed(right, former.right, RoundOn(round, feature, dpoint, false), plan, height + 1)
           else
             && Fitted(left, Side(all, feature, dpoint, true), plan, height + 1)
             && Fitted(right, Side(all, feature, dpoint, false), plan, height + 1)
  }

  ghost predicate SameWinner(a: seq<Row>, b: seq<Row>, classes: nat) {
    forall r: nat :: MostFrequent(a, classes, r) <==> MostFrequent(b, classes, r)
  }

  /**
    Where no column has a boundary any more, the recent rows alone have the winner of all rows; and no search meets
    rows of one class alone.
   */
  ghost predicate Regular(former: Tree, round: Round, plan: Plan, height: nat)
    decreases former
  {
    var all := Renewal(round);
    if Rebuilt(former, round, plan, height) then true
    else if Unsplittable(all, plan, |plan.features|) then SameWinner(round.recent, all, plan.classes)
    else
      !Pure(all, plan.classes)
      && (Picked(all, plan, former.feature, former.dpoint) ==>
            && Regular(former.left, RoundOn(round, former.feature, former.dpoint, true), plan, height + 1)
            && Regular(former.right, RoundOn(round, former.feature, former.dpoint, false), plan, height + 1))
  }

  lemma PickedIsUnique(rows: seq<Row>, plan: Plan, f: nat, v: real, f': nat, v': real)
    requires Picked(rows, plan, f, v) && Picked(rows, plan, f', v')
    ensures f == f' && v == v'
  {
    var k: nat :| Chosen(rows, plan, k, f, v);
    var k': nat :| Chosen(rows, plan, k', f', v');
    FirstBestIsUnique(rows, plan, |plan.features|, k, v, k', v');
  }

  lemma PickedSplits(rows: seq<Row>, plan: Plan, f: nat, v: real)
    requires Picked(rows, plan, f, v)
    ensures !Unsplittable(rows, plan, |plan.features|)
    ensures Side(rows, f, v, true) != [] && Side(rows, f, v, false) != []
  {
    var k: nat :| Chosen(rows, plan, k, f, v);
    assert Splits(rows, plan, k, v);
    BoundarySides(rows, plan, k, v);
  }

  /**
    A round gives the tree of training from scratch exactly if it is regular.  It always does so where nothing is
    recent, nothing is left of the old rows, or the former tree is a leaf.
   */
  lemma {:induction false} RoundIsTrainingFromScratch(tree: Tree, former: Tree, round: Round, plan: Plan, height: nat)
    requires Renewed(tree, former, round, plan, height)
    ensures Fitted(tree, Renewal(round), plan, height) <==> Regular(former, round, plan, height)
    ensures former.Leaf? || round.recent == [] || Retained(round) == [] || height == plan.maxHeight ==>
              Fitted(tree, Renewal(round), plan, height)
    decreases former
  {
    if !Rebuilt(former, round, plan, height) {
      match tree
      case Leaf(_, result) => WinnerDecides(Renewal(round), round.recent, plan, result);
      case Split(_, _, _, _, _, _) => SplitIsRegular(tree, former, round, plan, height);
    }
  }

  lemma SplitIsRegular(tree: Tree, former: Tree, round: Round, plan: Plan, height: nat)
    requires Renewed(tree, former, round, plan, height) && !Rebuilt(former, round, plan, height) && tree.Split?
    ensures Fitted(tree, Renewal(round), plan, height) <==> Regular(former, round, plan, height)
    decreases former, 0
  {
    var all, feature, dpoint := Renewal(round), tree.feature, tree.dpoint;
    PickedSplits(all, plan, feature, dpoint);
    if feature == former.feature && dpoint == former.dpoint {
      RenewalSide(round, feature, dpoint, true);
      RenewalSide(round, feature, dpoint, false);
      RoundIsTrainingFromScratch(tree.left, former.left, RoundOn(round, feature, dpoint, true), plan, height + 1);
      RoundIsTrainingFromScratch(tree.right, former.right, RoundOn(round, feature, dpoint, false), plan, height + 1);
    } else if Picked(all, plan, former.feature, former.dpoint) {
      PickedIsUnique(all, plan, feature, dpoint, former.feature, former.dpoint);
    }
  }

  lemma WinnerDecides(all: seq<Row>, recent: seq<Row>, plan: Plan, result: nat)
    requires MostFrequent(recent, plan.classes, result)
    ensures MostFrequent(all, plan.classes, result) <==> SameWinner(recent, all, plan.classes)
  {
    forall r: nat | MostFrequent(recent, plan.classes, r)
      ensures r == result
    {
      MostFrequentIsUnique(recent, plan.classes, r, result);
    }
    forall r: nat | MostFrequent(all, plan.classes, result) && MostFrequent(all, plan.classes, r)
      ensures r == result
    {
      MostFrequentIsUnique(all, plan.classes, r, result);
    }
  }

  // ---------------------------------------------------------------------------------------------
  // Classification after a round
  // ---------------------------------------------------------------------------------------------

  ghost predicate AllOf(rows: seq<Row>, c: nat) {
    forall i :: 0 <= i < |rows| ==> rows[i].result == c
  }

  lemma PureIsAllOf(rows: seq<Row>, c: nat)
    ensures Frequency(rows, c) == |rows| <==> AllOf(rows, c)
  {
    var s := Results(rows);
    if AllOf(rows, c) {
      TallyAll(s, Label(c));
    } else {
      var k :| 0 <= k < |rows| && rows[k].result != c;
      TallyMisses(s, Label(c), k);
    }
  }

  lemma OnlyWinner(rows: seq<Row>, classes: nat, c: nat, r: nat)
    requires rows != [] && AllOf(rows, c) && c < classes && MostFrequent(rows, classes, r)
    ensures r == c
  {
    PureIsAllOf(rows, c);
    assert Frequency(rows, c) <= Frequency(rows, r);
    if r != c {
      TallyNone(Results(rows), Label(r));
    }
  }

  lemma SideOfClass(rows: seq<Row>, c: nat, feature: nat, dpoint: real, left: bool)
    requires AllOf(rows, c)
    ensures AllOf(Side(rows, feature, dpoint, left), c)
  {
    var side := Side(rows, feature, dpoint, left);
    forall i | 0 <= i < |side|
      ensures side[i].result == c
    {
      SideMembers(rows, feature, dpoint, left, side[i]);
    }
  }

  /** A fitted tree of rows of one class is a leaf with that class. */
  lemma FittedOfClass(tree: Tree, rows: seq<Row>, plan: Plan, height: nat, c: nat)
    requires Fitted(tree, rows, plan, height) && rows != [] && AllOf(rows, c) && c < plan.classes
    ensures tree.Leaf? && tree.result == c
  {
    PureIsAllOf(rows, c);
    assert Pure(rows, plan.classes);
    OnlyWinner(rows, plan.classes, c, tree.result);
  }

  lemma RecentOfClass(round: Round, c: nat)
    requires AllOf(Renewal(round), c)
    ensures AllOf(round.recent, c)
  {
    assert forall i :: 0 <= i < |round.recent| ==> round.recent[i] == Renewal(round)[i];
  }

  /** Rows of one class are classified so, even if the round has split them. */
  lemma {:induction false} RenewedOfClass(
      tree: Tree, former: Tree, round: Round, plan: Plan, height: nat, c: nat, data: seq<real>)
    requires Renewed(tree, former, round, plan, height) && c < plan.classes
    requires Renewal(round) != [] && AllOf(Renewal(round), c)
    ensures Predict(tree, data) == c
    decreases former
  {
    var all := Renewal(round);
    if Rebuilt(former, round, plan, height) {
      FittedOfClass(tree, all, plan, height, c);
    } else if tree.Leaf? {
      RecentOfClass(round, c);
      OnlyWinner(round.recent, plan.classes, c, tree.result);
    } else {
      var left := GoesLeft(data, tree.feature, tree.dpoint);
      var next, side := if left then tree.left else tree.right, Side(all, tree.feature, tree.dpoint, left);
      PickedSplits(all, plan, tree.feature, tree.dpoint);
      SideOfClass(all, c, tree.feature, tree.dpoint, left);
      if tree.feature == former.feature && tree.dpoint == former.dpoint {
        RenewalSide(round, tree.feature, tree.dpoint, left);
        RenewedOfClass(next, if left then former.left else former.right,
                       RoundOn(round, tree.feature, tree.dpoint, left), plan, height + 1, c, data);
      } else {
        FittedOfClass(next, side, plan, height + 1, c);
      }
      assert Predict(tree, data) == Predict(next, data);
    }
  }

  /** As Regular, but rows of one class may be split: all that matters is who wins where nothing can be split. */
  ghost predicate Faithful(former: Tree, round: Round, plan: Plan, height: nat)
    decreases former
  {
    var all := Renewal(round);
    if Rebuilt(former, round, plan, height) then true
    else if Unsplittable(all, plan, |plan.features|) then SameWinner(round.recent, all, plan.classes)
    else
      || Pure(all, plan.classes)
      || (Picked(all, plan, former.feature, former.dpoint) ==>
            && Faithful(former.left, RoundOn(round, former.feature, former.dpoint, true), plan, height + 1)
            && Faithful(former.right, RoundOn(round, former.feature, former.dpoint, false), plan, height + 1))
  }

  lemma FittedClassifyAlike(tree: Tree, tree': Tree, rows: seq<Row>, plan: Plan, height: nat, data: seq<real>)
    requires Fitted(tree, rows, plan, height) && Fitted(tree', rows, plan, height)
    ensures Predict(tree, data) == Predict(tree', data)
  {
    FittedIsUnique(tree, tree', rows, plan, height);
    BarePredicts(tree, data);
    BarePredicts(tree', data);
  }

  /** What training from scratch makes of rows that the round has split. */
  lemma ScratchSplits(tree: Tree, former: Tree, round: Round, plan: Plan, height: nat, scratch: Tree)
    requires Renewed(tree, former, round, plan, height) && !Rebuilt(former, round, plan, height) && tree.Split?
    requires Fitted(scratch, Renewal(round), plan, height) && !Pure(Renewal(round), plan.classes)
    ensures scratch.Split? && scratch.feature == tree.feature && scratch.dpoint == tree.dpoint
    ensures forall left :: Renewal(RoundOn(round, tree.feature, tree.dpoint, left))
                        == Side(Renewal(round), tree.feature, tree.dpoint, left)
  {
    PickedSplits(Renewal(round), plan, tree.feature, tree.dpoint);
    assert scratch.Split?;
    PickedIsUnique(Renewal(round), plan, tree.feature, tree.dpoint, scratch.feature, scratch.dpoint);
    forall left
      ensures Renewal(RoundOn(round, tree.feature, tree.dpoint, left))
           == Side(Renewal(round), tree.feature, tree.dpoint, left)
    {
      RenewalSide(round, tree.feature, tree.dpoint, left);
    }
  }

  lemma {:induction false} FaithfulClassifiesAlike(
      tree: Tree, former: Tree, round: Round, plan: Plan, height: nat, scratch: Tree, data: seq<real>)
    requires Renewed(tree, former, round, plan, height) && Fitted(scratch, Renewal(round), plan, height)
    requires Faithful(former, round, plan, height)
    ensures Predict(tree, data) == Predict(scratch, data)
    decreases former
  {
    var all := Renewal(round);
    if Rebuilt(former, round, plan, height) {
      FittedClassifyAlike(tree, scratch, all, plan, height, data);
    } else if tree.Leaf? {
      UnsplittableIsLeaf(scratch, all, plan, height);
      MostFrequentIsUnique(all, plan.classes, tree.result, scratch.result);
    } else if Pure(all, plan.classes) {
      var c :| 0 <= c < plan.classes && Frequency(all, c) == |all|;
      PureIsAllOf(all, c);
      RenewedOfClass(tree, former, round, plan, height, c, data);
      FittedOfClass(scratch, all, plan, height, c);
    } else {
      var left := GoesLeft(data, tree.feature, tree.dpoint);
      var next := if left then tree.left else tree.right;
      ScratchSplits(tree, former, round, plan, height, scratch);
      PickedSplits(all, plan, tree.feature, tree.dpoint);
      var below := if left then scratch.left else scratch.right;
      if tree.feature == former.feature && tree.dpoint == former.dpoint {
        FaithfulClassifiesAlike(next, if left then former.left else former.right,
                                RoundOn(round, tree.feature, tree.dpoint, left), plan, height + 1, below, data);
      } else {
        FittedClassifyAlike(next, below, Side(all, tree.feature, tree.dpoint, left), plan, height + 1, data);
      }
      assert Predict(tree, data) == Predict(next, data) && Predict(scratch, data) == Predict(below, data);
    }
  }

  lemma UnsplittableIsLeaf(tree: Tree, rows: seq<Row>, plan: Plan, height: nat)
    requires Fitted(tree, rows, plan, height) && Unsplittable(rows, plan, |plan.features|)
    ensures tree.Leaf?
  {
    if tree.Split? {
      PickedSplits(rows, plan, tree.feature, tree.dpoint);
    }
  }

  /** After any other round one of the rows is itself classified otherwise than by training from scratch. */
  lemma {:induction false} OtherwiseARowDiffers(
      tree: Tree, former: Tree, round: Round, plan: Plan, height: nat, scratch: Tree)
    returns (x: Row)
    requires Renewed(tree, former, round, plan, height) && Fitted(scratch, Renewal(round), plan, height)
    requires !Faithful(former, round, plan, height)
    ensures x in Renewal(round) && Predict(tree, x.data) != Predict(scratch, x.data)
    decreases former
  {
    var all := Renewal(round);
    if tree.Leaf? {
      UnsplittableIsLeaf(scratch, all, plan, height);
      WinnerDecides(all, round.recent, plan, tree.result);
      x := all[0];
    } else {
      PickedSplits(all, plan, tree.feature, tree.dpoint);
      PickedIsUnique(all, plan, tree.feature, tree.dpoint, former.feature, former.dpoint);
      ScratchSplits(tree, former, round, plan, height, scratch);
      var left := !Faithful(former.left, RoundOn(round, tree.feature, tree.dpoint, true), plan, height + 1);
      var next, below := if left then tree.left else tree.right, if left then scratch.left else scratch.right;
      x := OtherwiseARowDiffers(next, if left then former.left else former.right,
                                RoundOn(round, tree.feature, tree.dpoint, left), plan, height + 1, below);
      SideMembers(all, tree.feature, tree.dpoint, left, x);
      assert Predict(tree, x.data) == Predict(next, x.data) && Predict(scratch, x.data) == Predict(below, x.data);
    }
  }

  /** A round classifies everything as training from scratch would, exactly if it is faithful. */
  lemma RoundClassifiesAlike(tree: Tree, former: Tree, round: Round, plan: Plan, height: nat, scratch: Tree)
    requires Renewed(tree, former, round, plan, height) && Fitted(scratch, Renewal(round), plan, height)
    ensures (forall data: seq<real> :: Predict(tree, data) == Predict(scratch, data)) <==>
              Faithful(former, round, plan, height)
  {
    if Faithful(former, round, plan, height) {
      forall data: seq<real>
        ensures Predict(tree, data) == Predict(scratch, data)
      {
        FaithfulClassifiesAlike(tree, former, round, plan, height, scratch, data);
      }
    } else {
      var x := OtherwiseARowDiffers(tree, former, round, plan, height, scratch);
    }
  }

  // ---------------------------------------------------------------------------------------------
  // The next round
  // ---------------------------------------------------------------------------------------------

  /** Every node that splits has its columns at hand. */
  ghost predicate Stocked(tree: Tree, plan: Plan)
    decreases tree
  {
    tree.Split? ==>
      && tree.feature < plan.width && Shelved(tree.columns, tree.rows, plan, |plan.features|)
      && Stocked(tree.left, plan) && Stocked(tree.right, plan)
  }

  lemma {:induction false} FittedIsStocked(tree: Tree, rows: seq<Row>, plan: Plan, height: nat)
    requires Fitted(tree, rows, plan, height)
    ensures Laid(tree, rows) && Stocked(tree, plan)
    decreases tree
  {
    FittedIsLaid(tree, rows, plan, height);
    if tree.Split? {
      PickedInWidth(rows, plan, tree.feature, tree.dpoint);
      FittedIsStocked(tree.left, Side(rows, tree.feature, tree.dpoint, true), plan, height + 1);
      FittedIsStocked(tree.right, Side(rows, tree.feature, tree.dpoint, false), plan, height + 1);
    }
  }

  lemma PickedInWidth(rows: seq<Row>, plan: Plan, f: nat, v: real)
    requires Picked(rows, plan, f, v)
    ensures f < plan.width
  {
    var k: nat :| Chosen(rows, plan, k, f, v);
    assert Splits(rows, plan, k, v);
  }

  /** A renewed tree is ready for another round, whether or not the round was regular. */
  lemma {:induction false} RenewedIsStocked(tree: Tree, former: Tree, round: Round, plan: Plan, height: nat)
    requires Renewed(tree, former, round, plan, height)
    ensures Laid(tree, Renewal(round)) && Stocked(tree, plan)
    decreases former
  {
    var all := Renewal(round);
    if Rebuilt(former, round, plan, height) {
      FittedIsStocked(tree, all, plan, height);
    } else if tree.Split? {
      PickedInWidth(all, plan, tree.feature, tree.dpoint);
      if tree.feature == former.feature && tree.dpoint == former.dpoint {
        RenewalSide(round, tree.feature, tree.dpoint, true);
        RenewalSide(round, tree.feature, tree.dpoint, false);
        RenewedIsStocked(tree.left, former.left, RoundOn(round, tree.feature, tree.dpoint, true), plan, height + 1);
        RenewedIsStocked(tree.right, former.right, RoundOn(round, tree.feature, tree.dpoint, false), plan, height + 1);
      } else {
        FittedIsStocked(tree.left, Side(all, tree.feature, tree.dpoint, true), plan, height + 1);
        FittedIsStocked(tree.right, Side(all, tree.feature, tree.dpoint, false), plan, height + 1);
      }
    }
  }

  /** No branch is longer than `most`, and only the columns below `width` are asked for. */
  predicate Shape(tree: Tree, most: int, width: nat) {
    Depth(tree) <= most && Within(tree, width)
  }

  lemma FittedHasShape(tree: Tree, rows: seq<Row>, plan: Plan, height: nat)
    requires Fitted(tree, rows, plan, height)
    ensures Shape(tree, plan.maxHeight - height, plan.width)
  {
    FittedShape(tree, rows, plan, height);
  }

  /** No branch of a renewed tree is longer than allowed, and only the given columns are asked for. */
  lemma {:induction false} RenewedShape(tree: Tree, former: Tree, round: Round, plan: Plan, height: nat)
    requires Renewed(tree, former, round, plan, height)
    ensures Shape(tree, plan.maxHeight - height, plan.width)
    decreases former
  {
    if Rebuilt(former, round, plan, height) {
      FittedHasShape(tree, Renewal(round), plan, height);
    } else if tree.Split? {
      PickedInWidth(Renewal(round), plan, tree.feature, tree.dpoint);
      PartsShape(tree, former, round, plan, height);
    }
  }

  lemma PartsShape(tree: Tree, former: Tree, round: Round, plan: Plan, height: nat)
    requires Renewed(tree, former, round, plan, height) && !Rebuilt(former, round, plan, height) && tree.Split?
    ensures Shape(tree.left, plan.maxHeight - height - 1, plan.width)
    ensures Shape(tree.right, plan.maxHeight - height - 1, plan.width)
    decreases former, 0
  {
    if tree.feature == former.feature && tree.dpoint == former.dpoint {
      RenewedShape(tree.left, former.left, RoundOn(round, tree.feature, tree.dpoint, true), plan, height + 1);
      RenewedShape(tree.right, former.right, RoundOn(round, tree.feature, tree.dpoint, false), plan, height + 1);
    } else {
      FittedHasShape(tree.left, Side(Renewal(round), tree.feature, tree.dpoint, true), plan, height + 1);
      FittedHasShape(tree.right, Side(Renewal(round), tree.feature, tree.dpoint, false), plan, height + 1);
    }
  }

  lemma {:induction false} StockedAtAnyHeight(tree: Tree, plan: Plan, height: nat)
    requires Stocked(tree, plan)
    ensures Stocked(tree, plan.(maxHeight := height))
    decreases tree
  {
    if tree.Split? {
      StockedAtAnyHeight(tree.left, plan, height);
      StockedAtAnyHeight(tree.right, plan, height);
      assert Shelved(tree.columns, tree.rows, plan.(maxHeight := height), |plan.features|);
    }
  }

  // ---------------------------------------------------------------------------------------------
  // The round at the root
  // ---------------------------------------------------------------------------------------------

  /** The last `count` of n rows are forgotten. */
  function LastGone(n: nat, count: nat): (gone: seq<bool>)
    requires count <= n
    ensures |gone| == n
  {
    seq(n, i => i >= n - count)
  }

  lemma {:induction false} KeptInFront(rows: seq<Row>, gone: seq<bool>, k: nat)
    requires |gone| == |rows| && k <= |rows| && forall i :: 0 <= i < |rows| ==> gone[i] == (i >= k)
    ensures Marked(rows, gone, false) == rows[..k]
  {
    if rows == [] {
    } else {
      var n := |rows| - 1;
      if k <= n {
        KeptInFront(rows[..n], gone[..n], k);
        assert rows[..n][..k] == rows[..k];
      } else {
        KeptInFront(rows[..n], gone[..n], n);
        assert rows[..n][..n] + [rows[n]] == rows[..k];
      }
    }
  }

  /** What a fit finds at the root: the rows that exceed `retain` are forgotten from the end. */
  function RootRound(held: seq<Row>, recent: seq<Row>, retain: nat): (round: Round)
    requires |recent| <= retain
    ensures round.held == held && round.recent == recent
  {
    var excess := if |held| + |recent| > retain then |held| + |recent| - retain else 0;
    Round(held, LastGone(|held|, excess), recent)
  }

  lemma RootRenewal(held: seq<Row>, recent: seq<Row>, retain: nat)
    requires |recent| <= retain
    ensures Renewal(RootRound(held, recent, retain))
         == recent + if |held| + |recent| > retain then held[..retain - |recent|] else held
  {
    var round := RootRound(held, recent, retain);
    var k := if |held| + |recent| > retain then retain - |recent| else |held|;
    KeptInFront(held, round.gone, k);
    assert held[..|held|] == held;
  }
}

/** Rounds that are not regular. */
module IrregularRounds {

  import opened Samples
  import opened GiniIndex
  import opened SplitSearch
  import opened ColumnSearch
  import opened Trees
  import opened IncrementalTrees

  /** Two classes and one column. */
  const PLAN := Plan(2, 1, [0], {0}, 1)

  function At(value: real, result: nat): Row {
    Row([value], result)
  }

  function TwoRows(): seq<Row> {
    [At(0.0, 0), At(1.0, 1)]
  }

  /** The tree of these two rows. */
  function FirstTree(): Tree {
    Split(TwoRows(), map[0 := [Sample(0.0, 0), Sample(1.0, 1)]], 0, 0.0, Leaf([At(0.0, 0)], 0), Leaf([At(1.0, 1)], 1))
  }

  lemma OneRow(value: real, c: nat)
    requires c < 2
    ensures MostFrequent([At(value, c)], 2, c) && Pure([At(value, c)], 2)
  {
    var rows := [At(value, c)];
    PureIsAllOf(rows, c);
    PureIsAllOf(rows, 1 - c);
    TallyAtMost(Results(rows), Label(1 - c));
  }

  lemma PairFrequency(x: Row, y: Row, c: nat)
    ensures Frequency([x, y], c) == (if x.result == c then 1 else 0) + (if y.result == c then 1 else 0)
  {
    var s := Results([x, y]);
    assert s[..1] == Results([x]) && Results([x])[..0] == [] && s[..1][..0] == [];
    assert Tally(s[..1], Label(c)) == Tally([], Label(c)) + if x.result == c then 1 else 0;
  }

  lemma PairSides(a: nat, b: nat)
    ensures Side([At(0.0, a), At(1.0, b)], 0, 0.0, true) == [At(0.0, a)]
    ensures Side([At(0.0, a), At(1.0, b)], 0, 0.0, false) == [At(1.0, b)]
  {
    var x, y := At(0.0, a), At(1.0, b);
    SideGrowsBy([], 0, 0.0, true, x);
    SideGrowsBy([], 0, 0.0, false, x);
    SideGrowsBy([x], 0, 0.0, true, y);
    SideGrowsBy([x], 0, 0.0, false, y);
    assert [] + [x] == [x] && [x] + [y] == [x, y];
  }

  /** Of two rows with the values 0 and 1, in either order, 0 is the only boundary, and so the best. */
  lemma PairSplits(x: Row, y: Row)
    requires x.result < 2 && y.result < 2
    requires (x.data == [0.0] && y.data == [1.0]) || (x.data == [1.0] && y.data == [0.0])
    ensures Picked([x, y], PLAN, 0, 0.0)
  {
    var s := Column([x, y], 0);
    assert s[0] == Sample(x.data[0], x.result) && s[1] == Sample(y.data[0], y.result);
    assert Splits([x, y], PLAN, 0, 0.0);
    assert forall u :: Splits([x, y], PLAN, 0, u) ==> u == 0.0;
    assert Chosen([x, y], PLAN, 0, 0, 0.0);
  }

  lemma FirstTreeIsFitted()
    ensures Fitted(FirstTree(), TwoRows(), PLAN, 0)
  {
    PairSides(0, 1);
    PairSplits(At(0.0, 0), At(1.0, 1));
    OneRow(0.0, 0);
    OneRow(1.0, 1);
    PairFrequency(At(0.0, 0), At(1.0, 1), 0);
    PairFrequency(At(0.0, 0), At(1.0, 1), 1);
    assert !Pure(TwoRows(), 2);
    assert FirstTree().columns[0] == Column(TwoRows(), 0);
    assert Shelved(FirstTree().columns, TwoRows(), PLAN, 1);
  }

  /** With two rows to retain, a recent one leaves the first of the two old ones. */
  lemma OneStays(recent: Row)
    ensures Renewal(RootRound(TwoRows(), [recent], 2)) == [recent, At(0.0, 0)]
    ensures !Rebuilt(FirstTree(), RootRound(TwoRows(), [recent], 2), PLAN, 0)
  {
    RootRenewal(TwoRows(), [recent], 2);
    assert Retained(RootRound(TwoRows(), [recent], 2)) == Renewal(RootRound(TwoRows(), [recent], 2))[1..];
  }

  /**
    One row of each class is left, with the same value, so that class 0 should win; but the recent row alone is
    counted, and class 1 wins.
   */
  lemma RecentRowsDecide()
    ensures !Faithful(FirstTree(), RootRound(TwoRows(), [At(0.0, 1)], 2), PLAN, 0)
  {
    var round := RootRound(TwoRows(), [At(0.0, 1)], 2);
    OneStays(At(0.0, 1));
    var all := Renewal(round);
    assert forall u :: !HasLarger(Column(all, 0), u) || u < 0.0;
    assert Unsplittable(all, PLAN, 1);
    OneRow(0.0, 1);
    PairFrequency(At(0.0, 1), At(0.0, 0), 0);
    PairFrequency(At(0.0, 1), At(0.0, 0), 1);
    assert MostFrequent(round.recent, 2, 1) && !MostFrequent(all, 2, 1);
  }

  /** Two rows of class 0 are left, with different values: they are split, though training from scratch makes a leaf. */
  lemma OneClassIsSplit()
    ensures var round := RootRound(TwoRows(), [At(1.0, 0)], 2);
            !Regular(FirstTree(), round, PLAN, 0) && Faithful(FirstTree(), round, PLAN, 0)
  {
    var round := RootRound(TwoRows(), [At(1.0, 0)], 2);
    OneStays(At(1.0, 0));
    var all := Renewal(round);
    PairSplits(At(1.0, 0), At(0.0, 0));
    PickedSplits(all, PLAN, 0, 0.0);
    PureIsAllOf(all, 0);
    assert Pure(all, 2);
  }
}
