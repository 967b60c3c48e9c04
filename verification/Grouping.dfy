/** What a GROUP BY is, seen from the outside, and that the row lists by group number are one. */
module Grouping {
  import opened RobinHood
  import opened DenseVector
  import opened GroupNumbers

  /** The row lists of GROUP BY partition the rows by key: two rows share a list exactly when their keys are equal. */
  lemma GroupsArePartition<K(!new)>(keys: seq<K>, g: nat, r: nat, s: nat)
    requires r < |keys| && s < |keys| && r in RowsOf(Ids(keys), g, |keys|)
    ensures s in RowsOf(Ids(keys), g, |keys|) <==> keys[s] == keys[r]
    ensures forall h :: h != g ==> r !in RowsOf(Ids(keys), h, |keys|)
    ensures g < |Pushed(keys)| && Pushed(keys)[g].0 == keys[r]
  {
    RowsOfAreTheGroup(Ids(keys), g, |keys|);
    SameGroupSameKey(keys, r, s);
    PushedKeys(keys);
    forall h | h != g
      ensures r !in RowsOf(Ids(keys), h, |keys|)
    {
      RowsOfAreTheGroup(Ids(keys), h, |keys|);
    }
  }

  // ---------------------------------------------------------------------------------------------
  // GROUP BY from the outside
  // ---------------------------------------------------------------------------------------------

  /** The rows of one group: exactly those with its key, each once, latest first. */
  ghost predicate IsGroup<K(!new)>(keys: seq<K>, key: K, rows: seq<nat>) {
    && rows != []
    && (forall r: nat :: r in rows <==> r < |keys| && keys[r] == key)
    && (forall a, b :: 0 <= a < b < |rows| ==> rows[a] > rows[b])
  }

  function FirstRow(rows: seq<nat>): nat
    requires rows != []
  {
    rows[|rows| - 1]
  }

  /** The groups of the rows by key, in the order in which the keys appear first. */
  ghost predicate IsGrouping<K(!new)>(keys: seq<K>, groupKeys: seq<K>, groups: seq<seq<nat>>) {
    && |groups| == |groupKeys|
    && (forall k :: k in keys <==> k in groupKeys)
    && (forall g :: 0 <= g < |groups| ==> IsGroup(keys, groupKeys[g], groups[g]))
    && (forall g, h :: 0 <= g < h < |groups| ==> FirstRow(groups[g]) < FirstRow(groups[h]))
  }

  lemma InGroup<K(!new)>(keys: seq<K>, g: nat, r: nat)
    requires g < |Pushed(keys)|
    ensures r in RowsOf(Ids(keys), g, |keys|) <==> r < |keys| && keys[r] == Pushed(keys)[g].0
  {
    RowsOfAreTheGroup(Ids(keys), g, |keys|);
    PushedKeys(keys);
  }

  lemma GroupIsNotEmpty<K(!new)>(keys: seq<K>, g: nat)
    requires g < |Pushed(keys)|
    ensures RowsOf(Ids(keys), g, |keys|) != []
  {
    PushedKeys(keys);
    assert g in Ids(keys);
    var i :| 0 <= i < |keys| && Ids(keys)[i] == g;
    RowsOfAreTheGroup(Ids(keys), g, |keys|);
    assert i in RowsOf(Ids(keys), g, |keys|);
  }

  lemma RowsAreGroup<K(!new)>(keys: seq<K>, g: nat)
    requires g < |Pushed(keys)|
    ensures IsGroup(keys, Pushed(keys)[g].0, RowsOf(Ids(keys), g, |keys|))
  {
    GroupIsNotEmpty(keys, g);
    RowsOfAreTheGroup(Ids(keys), g, |keys|);
    forall r: nat
      ensures r in RowsOf(Ids(keys), g, |keys|) <==> r < |keys| && keys[r] == Pushed(keys)[g].0
    {
      InGroup(keys, g, r);
    }
  }

  /** A row that opens group h comes after a row of each earlier group. */
  lemma OpensLater<K(!new)>(keys: seq<K>, g: nat, h: nat, i: nat)
    requires i < |keys| && g < h == Ids(keys)[i] && forall r :: 0 <= r < i ==> Ids(keys)[r] != h
    ensures exists r :: 0 <= r < i && Ids(keys)[r] == g
  {
    NumbersAreStable(keys, i);
    PushedKeys(keys[..i]);
    FirstAppearance(keys, i);
    if keys[i] in keys[..i] {
      var r :| 0 <= r < i && keys[r] == keys[i];
      SameGroupSameKey(keys, r, i);
    } else {
      assert g in Ids(keys[..i]);
      var r :| 0 <= r < i && Ids(keys[..i])[r] == g;
      assert Ids(keys)[r] == g;
    }
  }

  lemma FirstRowsInOrder<K(!new)>(keys: seq<K>, g: nat, h: nat)
    requires g < h < |Pushed(keys)|
    requires RowsOf(Ids(keys), g, |keys|) != [] && RowsOf(Ids(keys), h, |keys|) != []
    ensures FirstRow(RowsOf(Ids(keys), g, |keys|)) < FirstRow(RowsOf(Ids(keys), h, |keys|))
  {
    var ids, rowsG, rowsH := Ids(keys), RowsOf(Ids(keys), g, |keys|), RowsOf(Ids(keys), h, |keys|);
    RowsOfAreTheGroup(ids, g, |keys|);
    RowsOfAreTheGroup(ids, h, |keys|);
    var i := FirstRow(rowsH);
    assert i in rowsH;
    assert forall a :: 0 <= a < |rowsH| ==> rowsH[a] >= i;
    forall r | 0 <= r < i
      ensures ids[r] != h
    {
      assert r !in rowsH;
    }
    OpensLater(keys, g, h, i);
    var r :| 0 <= r < i && ids[r] == g;
    assert r in rowsG;
  }

  lemma RowsAreGrouping<K(!new)>(keys: seq<K>, groupKeys: seq<K>, groups: seq<seq<nat>>)
    requires |groups| == |groupKeys| == |Pushed(keys)|
    requires forall g :: 0 <= g < |groups| ==> groupKeys[g] == Pushed(keys)[g].0
    requires forall g :: 0 <= g < |groups| ==> groups[g] == RowsOf(Ids(keys), g, |keys|)
    ensures IsGrouping(keys, groupKeys, groups)
  {
    forall g | 0 <= g < |groups|
      ensures IsGroup(keys, groupKeys[g], groups[g])
    {
      RowsAreGroup(keys, g);
    }
    forall g, h | 0 <= g < h < |groups|
      ensures FirstRow(groups[g]) < FirstRow(groups[h])
    {
      FirstRowsInOrder(keys, g, h);
    }
    forall k
      ensures k in keys <==> k in groupKeys
    {
      PushedHolds(keys, k);
      if k in keys {
        assert groupKeys[FindIndex(Pushed(keys), k)] == k;
      }
      if k in groupKeys {
        var g :| 0 <= g < |groupKeys| && groupKeys[g] == k;
        assert groups[g][0] in groups[g];
      }
    }
  }
}
