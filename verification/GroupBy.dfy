/**
  GROUP BY (server/hasher.h): every row's key is pushed into a set, the dense position it gets is the
  row's group number, and a counting sort turns the group numbers into one list of rows per group.
 */
module GroupNumbers {
  import opened RobinHood
  import opened DenseVector

  /** The key set after the keys have been pushed one after the other. */
  function Pushed<K(==)>(keys: seq<K>): (vals: seq<(K, ())>) {
    if keys == [] then [] else Inserted(Pushed(keys[..|keys| - 1]), keys[|keys| - 1], ())
  }

  /** The numbers that the pushes return. */
  function Ids<K(==)>(keys: seq<K>): (ids: seq<nat>)
    ensures |ids| == |keys|
  {
    if keys == [] then []
    else
      var before := keys[..|keys| - 1];
      Ids(before) + [FindIndex(Pushed(before), keys[|keys| - 1])]
  }

  /** ids number the keys by the entries of vals, and use every entry. */
  ghost predicate Numbers<K(!new)>(vals: seq<(K, ())>, keys: seq<K>, ids: seq<nat>) {
    && DistinctKeys(vals) && |vals| <= |keys| == |ids|
    && (forall i :: 0 <= i < |keys| ==> ids[i] < |vals| && vals[ids[i]].0 == keys[i])
    && (forall g :: 0 <= g < |vals| ==> g in ids)
  }

  lemma NumbersOneMore<K(!new)>(vals: seq<(K, ())>, keys: seq<K>, ids: seq<nat>, k: K)
    requires Numbers(vals, keys, ids)
    ensures Numbers(Inserted(vals, k, ()), keys + [k], ids + [FindIndex(vals, k)])
  {
    var vals', ids' := Inserted(vals, k, ()), ids + [FindIndex(vals, k)];
    forall g | 0 <= g < |vals'|
      ensures g in ids'
    {
      assert g < |vals| ==> g in ids;
      assert ids'[|ids|] == FindIndex(vals, k);
    }
  }

  lemma {:induction false} PushedKeys<K(!new)>(keys: seq<K>)
    ensures Numbers(Pushed(keys), keys, Ids(keys))
  {
    if keys != [] {
      var before, last := keys[..|keys| - 1], keys[|keys| - 1];
      PushedKeys(before);
      NumbersOneMore(Pushed(before), before, Ids(before), last);
      assert keys == before + [last];
    }
  }

  lemma PushedOneMore<K(!new)>(keys: seq<K>, i: nat)
    requires i < |keys|
    ensures |Pushed(keys[..i])| <= i
    ensures Pushed(keys[..i + 1]) == Inserted(Pushed(keys[..i]), keys[i], ())
    ensures Ids(keys[..i + 1]) == Ids(keys[..i]) + [FindIndex(Pushed(keys[..i]), keys[i])]
  {
    assert keys[..i + 1][..i] == keys[..i];
    PushedKeys(keys[..i]);
  }

  lemma PushedNext<K(!new)>(keys: seq<K>, key: K)
    ensures |Pushed(keys)| <= |keys| && Pushed(keys + [key]) == Inserted(Pushed(keys), key, ())
    ensures Ids(keys + [key]) == Ids(keys) + [FindIndex(Pushed(keys), key)]
  {
    assert (keys + [key])[..|keys|] == keys;
    PushedKeys(keys);
  }

  /** Rows share a group number exactly when their keys are equal. */
  lemma SameGroupSameKey<K(!new)>(keys: seq<K>, i: nat, j: nat)
    requires i < |keys| && j < |keys|
    ensures Ids(keys)[i] == Ids(keys)[j] <==> keys[i] == keys[j]
  {
    PushedKeys(keys);
    FindIndexIs(Pushed(keys), keys[i], Ids(keys)[i]);
    FindIndexIs(Pushed(keys), keys[j], Ids(keys)[j]);
  }

  /** A group keeps its number and its key when more rows arrive, whatever the table does meanwhile. */
  lemma {:induction false} NumbersAreStable<K(!new)>(keys: seq<K>, n: nat)
    requires n <= |keys|
    ensures Ids(keys[..n]) == Ids(keys)[..n] && Pushed(keys[..n]) <= Pushed(keys)
  {
    if n < |keys| {
      var before := keys[..|keys| - 1];
      assert before[..n] == keys[..n];
      NumbersAreStable(before, n);
    } else {
      assert keys[..n] == keys;
    }
  }

  /** The key set holds exactly the keys pushed. */
  lemma PushedHolds<K(!new)>(keys: seq<K>, k: K)
    ensures k in keys <==> FindIndex(Pushed(keys), k) < |Pushed(keys)|
  {
    PushedKeys(keys);
    var vals, ids := Pushed(keys), Ids(keys);
    if k in keys {
      var j :| 0 <= j < |keys| && keys[j] == k;
      FindIndexIs(vals, k, ids[j]);
    } else {
      forall v | 0 <= v < |vals|
        ensures vals[v].0 != k
      {
        assert v in ids;
        var j :| 0 <= j < |ids| && ids[j] == v;
        assert vals[v].0 == keys[j];
      }
      FindIndexIsEnd(vals, k);
    }
  }

  /** Numbers are given by first appearance: a row either joins an old group or opens the next one. */
  lemma FirstAppearance<K(!new)>(keys: seq<K>, i: nat)
    requires i < |keys|
    ensures if keys[i] in keys[..i] then Ids(keys)[i] < |Pushed(keys[..i])|
            else Ids(keys)[i] == |Pushed(keys[..i])|
  {
    var upto, before := keys[..i + 1], keys[..i];
    NumbersAreStable(keys, i + 1);
    assert upto[..i] == before;
    PushedHolds(before, keys[i]);
    assert Ids(keys)[i] == Ids(upto)[i];
  }

  // ---------------------------------------------------------------------------------------------
  // Rows of a group
  // ---------------------------------------------------------------------------------------------

  /** The rows among the first n whose number is g, latest first. */
  function RowsOf(ids: seq<nat>, g: nat, n: nat): (rows: seq<nat>)
    requires n <= |ids|
    ensures |rows| <= n
  {
    if n == 0 then []
    else if ids[n - 1] == g then [n - 1] + RowsOf(ids, g, n - 1)
    else
      RowsOf(ids, g, n - 1)
  }

  /** RowsOf lists exactly the rows of the group, each once, in decreasing order. */
  lemma {:induction false} RowsOfAreTheGroup(ids: seq<nat>, g: nat, n: nat)
    requires n <= |ids|
    ensures forall r: nat :: r in RowsOf(ids, g, n) <==> r < n && ids[r] == g
    ensures forall a, b :: 0 <= a < b < |RowsOf(ids, g, n)| ==> RowsOf(ids, g, n)[a] > RowsOf(ids, g, n)[b]
  {
    if n > 0 {
      RowsOfAreTheGroup(ids, g, n - 1);
      var rest := RowsOf(ids, g, n - 1);
      assert forall a :: 0 <= a < |rest| ==> rest[a] in rest;
    }
  }

  /** Where group g begins when the first n rows are laid out group by group. */
  function StartOf(ids: seq<nat>, g: nat, n: nat): nat
    requires n <= |ids|
  {
    if g == 0 then 0 else StartOf(ids, g - 1, n) + |RowsOf(ids, g - 1, n)|
  }

  lemma {:induction false} StartsAreOrdered(ids: seq<nat>, g: nat, h: nat, n: nat)
    requires n <= |ids| && g < h
    ensures StartOf(ids, g, n) + |RowsOf(ids, g, n)| <= StartOf(ids, h, n)
  {
    if g + 1 < h {
      StartsAreOrdered(ids, g, h - 1, n);
    }
  }

  lemma {:induction false} StartStep(ids: seq<nat>, g: nat, n: nat)
    requires 0 < n <= |ids|
    ensures StartOf(ids, g, n) == StartOf(ids, g, n - 1) + if ids[n - 1] < g then 1 else 0
  {
    if g > 0 {
      StartStep(ids, g - 1, n);
    }
  }

  /** The groups fill the layout completely. */
  lemma {:induction false} GroupsFillLayout(ids: seq<nat>, groups: nat, n: nat)
    requires n <= |ids| && forall i :: 0 <= i < |ids| ==> ids[i] < groups
    ensures StartOf(ids, groups, n) == n
  {
    if n == 0 {
      NoRowsNoStart(ids, groups);
    } else {
      GroupsFillLayout(ids, groups, n - 1);
      StartStep(ids, groups, n);
    }
  }

  lemma {:induction false} NoRowsNoStart(ids: seq<nat>, g: nat)
    ensures StartOf(ids, g, 0) == 0
  {
    if g > 0 {
      NoRowsNoStart(ids, g - 1);
    }
  }

  lemma {:induction false} RowsOfPrefix(ids: seq<nat>, more: seq<nat>, g: nat, n: nat)
    requires n <= |ids| <= |more| && ids == more[..|ids|]
    ensures RowsOf(ids, g, n) == RowsOf(more, g, n)
  {
    if n > 0 {
      RowsOfPrefix(ids, more, g, n - 1);
    }
  }

  lemma {:induction false} MoreRows(ids: seq<nat>, g: nat, i: nat, n: nat)
    requires i <= n <= |ids|
    ensures |RowsOf(ids, g, i)| <= |RowsOf(ids, g, n)|
  {
    if i < n {
      MoreRows(ids, g, i, n - 1);
    }
  }

  // ---------------------------------------------------------------------------------------------
  // Laying rows out
  // ---------------------------------------------------------------------------------------------

  /** A view of `size` cells of the row map from `start` on. */
  datatype RowView = RowView(size: nat, start: nat)

  /** A view shows exactly the rows of its group. */
  ghost predicate SliceHolds(view: RowView, cells: seq<nat>, ids: seq<nat>, g: nat) {
    && view.start + view.size <= |ids| <= |cells|
    && cells[view.start..view.start + view.size] == RowsOf(ids, g, |ids|)
  }

  function Offset(sizes: seq<nat>, g: nat): nat
    requires g <= |sizes|
  {
    if g == 0 then 0 else Offset(sizes, g - 1) + sizes[g - 1]
  }

  lemma {:induction false} OffsetIsStart(sizes: seq<nat>, ids: seq<nat>, g: nat)
    requires g <= |sizes| && forall h :: 0 <= h < g ==> sizes[h] == |RowsOf(ids, h, |ids|)|
    ensures Offset(sizes, g) == StartOf(ids, g, |ids|)
  {
    if g > 0 {
      OffsetIsStart(sizes, ids, g - 1);
    }
  }

  lemma OffsetsAreStarts(sizes: seq<nat>, ids: seq<nat>, groups: nat)
    requires groups <= |sizes| && forall h :: 0 <= h < groups ==> sizes[h] == |RowsOf(ids, h, |ids|)|
    ensures forall g :: 0 <= g <= groups ==> Offset(sizes, g) == StartOf(ids, g, |ids|)
  {
    forall g | 0 <= g <= groups
      ensures Offset(sizes, g) == StartOf(ids, g, |ids|)
    {
      OffsetIsStart(sizes, ids, g);
    }
  }

  /** After i rows group g fills the cells below its end. */
  ghost predicate Placed(ends: seq<nat>, cells: seq<nat>, ids: seq<nat>, g: nat, i: nat)
    requires g < |ends| && i <= |ids|
  {
    && ends[g] + |RowsOf(ids, g, i)| == StartOf(ids, g + 1, |ids|) <= |ids| <= |cells|
    && cells[ends[g]..StartOf(ids, g + 1, |ids|)] == RowsOf(ids, g, i)
  }

  ghost predicate AllPlaced(ends: seq<nat>, cells: seq<nat>, ids: seq<nat>, i: nat)
    requires i <= |ids|
  {
    && (forall r :: 0 <= r < |ids| ==> ids[r] < |ends|)
    && forall g :: 0 <= g < |ends| ==> Placed(ends, cells, ids, g, i)
  }

  lemma SliceInside(ids: seq<nat>, g: nat, groups: nat)
    requires g < groups && forall i :: 0 <= i < |ids| ==> ids[i] < groups
    ensures StartOf(ids, g, |ids|) + |RowsOf(ids, g, |ids|)| <= |ids|
  {
    StartsAreOrdered(ids, g, groups, |ids|);
    GroupsFillLayout(ids, groups, |ids|);
  }

  lemma StartPlacing(ends: seq<nat>, cells: seq<nat>, ids: seq<nat>)
    requires |ids| <= |cells| && forall r :: 0 <= r < |ids| ==> ids[r] < |ends|
    requires forall g :: 0 <= g < |ends| ==> ends[g] == StartOf(ids, g + 1, |ids|)
    ensures AllPlaced(ends, cells, ids, 0)
  {
    forall g | 0 <= g < |ends|
      ensures Placed(ends, cells, ids, g, 0)
    {
      SliceInside(ids, g, |ends|);
    }
  }

  /** A row of group id is not written into the cells of another group. */
  lemma OtherSlice(ids: seq<nat>, g: nat, id: nat, i: nat)
    requires i < |ids| && g != id && id == ids[i]
    ensures g < id ==> StartOf(ids, g + 1, |ids|) + |RowsOf(ids, id, i)| < StartOf(ids, id + 1, |ids|)
    ensures id < g ==> StartOf(ids, id + 1, |ids|) + |RowsOf(ids, g, i)| <= StartOf(ids, g + 1, |ids|)
  {
    MoreRows(ids, g, i, |ids|);
    MoreRows(ids, id, i + 1, |ids|);
    if g < id {
      StartsAreOrdered(ids, g, id, |ids|);
    } else {
      StartsAreOrdered(ids, id, g, |ids|);
    }
  }

  lemma PlaceOther(ends: seq<nat>, cells: seq<nat>, ids: seq<nat>, i: nat, g: nat)
    requires i < |ids| && AllPlaced(ends, cells, ids, i) && g < |ends| && g != ids[i]
    requires 0 < ends[ids[i]] <= |cells|
    ensures Placed(ends[ids[i] := ends[ids[i]] - 1], cells[ends[ids[i]] - 1 := i], ids, g, i + 1)
  {
    var id := ids[i];
    assert Placed(ends, cells, ids, g, i) && Placed(ends, cells, ids, id, i);
    OtherSlice(ids, g, id, i);
    var end := StartOf(ids, g + 1, |ids|);
    assert cells[ends[id] - 1 := i][ends[g]..end] == cells[ends[g]..end];
  }

  /** Placing one more row. */
  lemma PlaceStep(ends: seq<nat>, cells: seq<nat>, ids: seq<nat>, i: nat)
    requires i < |ids| && AllPlaced(ends, cells, ids, i)
    ensures 0 < ends[ids[i]] <= |cells|
    ensures AllPlaced(ends[ids[i] := ends[ids[i]] - 1], cells[ends[ids[i]] - 1 := i], ids, i + 1)
  {
    var id := ids[i];
    assert Placed(ends, cells, ids, id, i);
    MoreRows(ids, id, i + 1, |ids|);
    assert RowsOf(ids, id, i + 1) == [i] + RowsOf(ids, id, i);
    var ends', cells' := ends[id := ends[id] - 1], cells[ends[id] - 1 := i];
    var end, next := StartOf(ids, id + 1, |ids|), i + 1;
    assert cells'[ends'[id]..end] == [i] + cells[ends[id]..end];
    forall g | 0 <= g < |ends'|
      ensures Placed(ends', cells', ids, g, next)
    {
      if g != id {
        PlaceOther(ends, cells, ids, i, g);
      }
    }
  }

  lemma EndPlacing(ends: seq<nat>, cells: seq<nat>, ids: seq<nat>)
    requires AllPlaced(ends, cells, ids, |ids|)
    ensures forall g :: 0 <= g < |ends| ==> ends[g] == StartOf(ids, g, |ids|)
    ensures forall g :: 0 <= g < |ends| ==>
              SliceHolds(RowView(|RowsOf(ids, g, |ids|)|, StartOf(ids, g, |ids|)), cells, ids, g)
  {
    forall g | 0 <= g < |ends|
      ensures ends[g] == StartOf(ids, g, |ids|)
              && SliceHolds(RowView(|RowsOf(ids, g, |ids|)|, StartOf(ids, g, |ids|)), cells, ids, g)
    {
      assert Placed(ends, cells, ids, g, |ids|);
    }
  }
}

module GroupBy {
  import opened RobinHood
  import opened DenseVector
  import opened TagWidth
  import opened UnorderedDense
  import opened GroupNumbers
  import opened Grouping

  /** The groups are spread over the buckets that are reserved for so many rows. */
  ghost predicate GroupsSpread<K(!new)>(hash: K -> Hash64, rows: nat, keys: seq<K>) {
    SpreadAt(hash, Wanted(rows), Pushed(keys))
  }

  /** Fewer than 2^24 - 1 groups are spread by every hash function, whatever the number of rows. */
  lemma FewGroupsAreSpread<K(!new)>(hash: K -> Hash64, keys: seq<K>)
    requires |Pushed(keys)| < REACH
    ensures GroupsSpread(hash, |keys|, keys)
  {
    FewEntriesAreSpread(hash, Wanted(|keys|), Pushed(keys));
  }

  lemma FirstGroupsAreSpread<K(!new)>(hash: K -> Hash64, rows: nat, keys: seq<K>, i: nat)
    requires i <= |keys| && GroupsSpread(hash, rows, keys)
    ensures GroupsSpread(hash, rows, keys[..i])
  {
    NumbersAreStable(keys, i);
    PrefixIsSpread(hash, Wanted(rows), Pushed(keys[..i]), Pushed(keys));
  }

  class AQHashTable<K(==,!new)> {
    const table: Table<K, ()>
    const capacity: nat

    /** Group numbers in the first half, row lists in the second half of one allocation. */
    const store: array<nat>
    const htBase: array<nat>

    ghost predicate Valid()
      reads this, table, table.buckets, store, htBase
    {
      && table.Valid() && table.buckets as object != store && table.buckets as object != htBase
      && store != htBase && store.Length == 2 * capacity && htBase.Length == capacity
      && table.shifts == Wanted(capacity) && table.maxCapacity >= capacity
    }

    /** The rows pushed so far carry the keys. */
    ghost predicate Loaded(keys: seq<K>)
      reads this, table, table.buckets, store, htBase
    {
      && Valid() && |keys| <= capacity <= MAX_ENTRIES
      && table.values == Pushed(keys)
      && store[..|keys|] == Ids(keys)
      && forall g :: 0 <= g < capacity ==> htBase[g] == |RowsOf(Ids(keys), g, |keys|)|
    }

    constructor (hash: K -> Hash64, sz: nat)
      requires sz <= MAX_ENTRIES
      ensures Loaded([]) && capacity == sz && table.hash == hash
      ensures fresh(table) && fresh(table.buckets) && fresh(store) && fresh(htBase)
    {
      capacity := sz;
      var t := new Table<K, ()>(hash, 0);
      t.Reserve(sz);
      table := t;
      store := new nat[2 * sz];
      htBase := new nat[sz](_ => 0);
    }

    method HashtablePush(key: K, i: nat, ghost keys: seq<K>)
      requires Loaded(keys) && i == |keys| < capacity && GroupsSpread(table.hash, capacity, keys + [key])
      modifies table, table.buckets, store, htBase
      ensures Loaded(keys + [key])
      ensures table.buckets == old(table.buckets) || fresh(table.buckets)
    {
      ghost var ids, ids' := Ids(keys), Ids(keys + [key]);
      PushedNext(keys, key);
      var id := table.HashtablePush(key, ());
      assert ids' == ids + [id];
      store[i] := id;
      CountRow(id, ids);
    }

    /** Counts one more row, of group id. */
    method CountRow(id: nat, ghost ids: seq<nat>)
      requires id < htBase.Length
      requires forall g :: 0 <= g < htBase.Length ==> htBase[g] == |RowsOf(ids, g, |ids|)|
      modifies htBase
      ensures forall g :: 0 <= g < htBase.Length ==> htBase[g] == |RowsOf(ids + [id], g, |ids| + 1)|
    {
      htBase[id] := htBase[id] + 1;
      forall g | 0 <= g < htBase.Length
        ensures htBase[g] == |RowsOf(ids + [id], g, |ids| + 1)|
      {
        RowsOfPrefix(ids, ids + [id], g, |ids|);
      }
    }

    /** Numbers all rows of a fresh table, then counts the rows of each group. */
    method HashtablePushAll(keys: seq<K>)
      requires Loaded([]) && |keys| <= capacity && GroupsSpread(table.hash, capacity, keys)
      modifies table, table.buckets, store, htBase
      ensures Loaded(keys)
      ensures table.buckets == old(table.buckets) || fresh(table.buckets)
    {
      NumberRows(keys);
      PushedKeys(keys);
      CountRows(|keys|, Ids(keys));
    }

    method NumberRows(keys: seq<K>)
      requires Loaded([]) && |keys| <= capacity && GroupsSpread(table.hash, capacity, keys)
      modifies table, table.buckets, store
      ensures Valid() && table.values == Pushed(keys) && store[..|keys|] == Ids(keys)
      ensures table.buckets == old(table.buckets) || fresh(table.buckets)
    {
      for i := 0 to |keys|
        invariant Valid() && table.values == Pushed(keys[..i]) && store[..i] == Ids(keys[..i])
        invariant table.buckets == old(table.buckets) || fresh(table.buckets)
      {
        FirstGroupsAreSpread(table.hash, capacity, keys, i + 1);
        NumberRow(keys, i);
      }
      assert keys[..|keys|] == keys;
    }

    method NumberRow(keys: seq<K>, i: nat)
      requires Valid() && i < |keys| <= capacity <= MAX_ENTRIES
      requires table.values == Pushed(keys[..i]) && store[..i] == Ids(keys[..i])
      requires GroupsSpread(table.hash, capacity, keys[..i + 1])
      modifies table, table.buckets, store
      ensures Valid() && table.values == Pushed(keys[..i + 1]) && store[..i + 1] == Ids(keys[..i + 1])
      ensures table.buckets == old(table.buckets) || fresh(table.buckets)
    {
      PushedOneMore(keys, i);
      var id := table.HashtablePush(keys[i], ());
      store[i] := id;
      assert store[..i + 1] == old(store[..i]) + [id];
    }

    method CountRows(len: nat, ghost ids: seq<nat>)
      requires len == |ids| <= store.Length && store[..len] == ids && store != htBase
      requires forall i :: 0 <= i < len ==> ids[i] < htBase.Length
      requires forall g :: 0 <= g < htBase.Length ==> htBase[g] == 0
      modifies htBase
      ensures forall g :: 0 <= g < htBase.Length ==> htBase[g] == |RowsOf(ids, g, len)|
    {
      for i := 0 to len
        invariant forall g :: 0 <= g < htBase.Length ==> htBase[g] == |RowsOf(ids, g, i)|
      {
        assert store[..len][i] == store[i];
        htBase[store[i]] := htBase[store[i]] + 1;
      }
    }

    /** Lays the rows out group by group. */
    method HtPostproc(sz: nat, ghost keys: seq<K>) returns (vecs: seq<RowView>)
      requires Loaded(keys) && sz == |keys| > 0
      modifies store, htBase
      ensures Valid() && table.values == Pushed(keys) && store[..sz] == Ids(keys)
      ensures |vecs| == |Pushed(keys)| <= capacity
      ensures forall g :: 0 <= g < |vecs| ==> htBase[g] == vecs[g].start == StartOf(Ids(keys), g, sz)
      ensures forall g :: 0 <= g < |vecs| ==> SliceHolds(vecs[g], store[capacity..], Ids(keys), g)
    {
      ghost var ids := Ids(keys);
      PushedKeys(keys);
      ghost var sizes := htBase[..];
      vecs := MakeViews(|table.values|);
      OffsetsAreStarts(sizes, ids, |vecs|);
      PlaceRows(sz, |vecs|, ids);
    }

    /** The first loop of ht_postproc: sizes and starts of the views; the counts become ends. */
    method MakeViews(groups: nat) returns (vecs: seq<RowView>)
      requires 0 < groups <= htBase.Length
      modifies htBase
      ensures |vecs| == groups
      ensures forall g :: 0 <= g < groups ==> vecs[g] == RowView(old(htBase[g]), Offset(old(htBase[..]), g))
      ensures forall g :: 0 <= g < groups ==> htBase[g] == Offset(old(htBase[..]), g + 1)
    {
      ghost var sizes := htBase[..];
      vecs := [RowView(htBase[0], 0)];
      assert Offset(sizes, 1) == Offset(sizes, 0) + sizes[0];
      for i := 1 to groups
        invariant |vecs| == i
        invariant forall g :: 0 <= g < i ==> vecs[g] == RowView(sizes[g], Offset(sizes, g))
        invariant forall g :: 0 <= g < i ==> htBase[g] == Offset(sizes, g + 1)
        invariant forall g :: i <= g < htBase.Length ==> htBase[g] == sizes[g]
      {
        vecs := vecs + [RowView(htBase[i], htBase[i - 1])];
        htBase[i] := htBase[i] + htBase[i - 1];
      }
    }

    /** The second loop of ht_postproc: each row goes to the highest free cell of its group. */
    method PlaceRows(sz: nat, groups: nat, ghost ids: seq<nat>)
      requires sz == |ids| <= capacity == htBase.Length && groups <= capacity
      requires store.Length == 2 * capacity && store != htBase && store[..sz] == ids
      requires forall i :: 0 <= i < sz ==> ids[i] < groups
      requires forall g :: 0 <= g < groups ==> htBase[g] == StartOf(ids, g + 1, sz)
      modifies store, htBase
      ensures store[..sz] == ids
      ensures forall g :: 0 <= g < groups ==> htBase[g] == StartOf(ids, g, sz)
      ensures forall g :: 0 <= g < groups ==>
                SliceHolds(RowView(|RowsOf(ids, g, sz)|, StartOf(ids, g, sz)), store[capacity..], ids, g)
    {
      StartPlacing(htBase[..groups], store[capacity..], ids);
      for i := 0 to sz
        invariant store[..sz] == ids
        invariant AllPlaced(htBase[..groups], store[capacity..], ids, i)
      {
        ghost var ends, cells := htBase[..groups], store[capacity..];
        assert store[..sz][i] == store[i];
        var id := store[i];
        PlaceStep(ends, cells, ids, i);
        htBase[id] := htBase[id] - 1;
        store[capacity + htBase[id]] := i;
        assert htBase[..groups] == ends[id := ends[id] - 1];
        assert store[capacity..] == cells[ends[id] - 1 := i];
      }
      EndPlacing(htBase[..groups], store[capacity..], ids);
      assert forall g :: 0 <= g < groups ==> htBase[..groups][g] == htBase[g];
    }
  }

  /** The row lists that the views show. */
  method ReadViews<K(==,!new)>(ht: AQHashTable<K>, vecs: seq<RowView>, keys: seq<K>)
    returns (groupKeys: seq<K>, groups: seq<seq<nat>>)
    requires ht.Valid() && ht.table.values == Pushed(keys) && |vecs| == |Pushed(keys)|
    requires forall g :: 0 <= g < |vecs| ==> SliceHolds(vecs[g], ht.store[ht.capacity..], Ids(keys), g)
    ensures |groups| == |groupKeys| == |vecs|
    ensures forall g :: 0 <= g < |vecs| ==> groupKeys[g] == Pushed(keys)[g].0 && groups[g] == RowsOf(Ids(keys), g, |keys|)
  {
    var vals := ht.table.values;
    groupKeys, groups := [], [];
    for g := 0 to |vecs|
      invariant |groups| == |groupKeys| == g
      invariant forall h :: 0 <= h < g ==> groupKeys[h] == vals[h].0 && groups[h] == RowsOf(Ids(keys), h, |keys|)
    {
      assert SliceHolds(vecs[g], ht.store[ht.capacity..], Ids(keys), g);
      groupKeys := groupKeys + [vals[g].0];
      groups := groups + [ht.store[ht.capacity..][vecs[g].start..vecs[g].start + vecs[g].size]];
    }
  }

  /** The regular path of HashTableFactory::get: the keys and the row lists of a GROUP BY. */
  method Get<K(==,!new)>(keys: seq<K>, hash: K -> Hash64) returns (groupKeys: seq<K>, groups: seq<seq<nat>>)
    requires 0 < |keys| <= MAX_ENTRIES && GroupsSpread(hash, |keys|, keys)
    ensures IsGrouping(keys, groupKeys, groups)
  {
    var ht := new AQHashTable(hash, |keys|);
    ht.HashtablePushAll(keys);
    var vecs := ht.HtPostproc(|keys|, keys);
    groupKeys, groups := ReadViews(ht, vecs, keys);
    RowsAreGrouping(keys, groupKeys, groups);
  }
}
