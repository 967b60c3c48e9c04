/**
  What the table of server/unordered_dense.h stores, apart from how its buckets find it: a dense
  vector of entries with pairwise different keys, and the map it stands for.
 */
module DenseVector {
  import opened RobinHood
  import opened TagWidth

  /** The position of k, or |vals| (the end iterator). */
  function FindIndex<K(==), V>(vals: seq<(K, V)>, k: K): (i: nat)
    ensures i <= |vals|
    ensures i < |vals| ==> vals[i].0 == k
    ensures forall j :: 0 <= j < i ==> vals[j].0 != k
  {
    if vals == [] then 0
    else if vals[0].0 == k then 0
    else
      1 + FindIndex(vals[1..], k)
  }

  lemma FindIndexIs<K, V>(vals: seq<(K, V)>, k: K, i: nat)
    requires DistinctKeys(vals) && i < |vals| && vals[i].0 == k
    ensures FindIndex(vals, k) == i
  {
  }

  lemma FindIndexIsEnd<K, V>(vals: seq<(K, V)>, k: K)
    requires forall v :: 0 <= v < |vals| ==> vals[v].0 != k
    ensures FindIndex(vals, k) == |vals|
  {
  }

  /** Insertion of a key that may be present already: an old entry wins. */
  function Inserted<K(==), V>(vals: seq<(K, V)>, k: K, v: V): seq<(K, V)> {
    if FindIndex(vals, k) < |vals| then vals else vals + [(k, v)]
  }

  function Erased<K(==), V>(vals: seq<(K, V)>, k: K): seq<(K, V)> {
    var i := FindIndex(vals, k);
    if i < |vals| then SwapRemove(vals, i) else vals
  }

  /** Which old entry stands at place i after the entries first .. last are erased from n entries. */
  function RangeSource(n: nat, first: nat, last: nat, i: nat): (j: nat)
    requires first <= last <= n && i < n - (last - first)
    ensures j < n && !(first <= j < last)
  {
    var moved := if last - first <= n - last then last - first else n - last;
    if first <= i < first + moved then n - 1 - (i - first) else i
  }

  /** What range erasure leaves: the gap is refilled from the end. */
  function RangeErased<T>(vals: seq<T>, first: nat, last: nat): (r: seq<T>)
    requires first <= last <= |vals|
    ensures |r| == |vals| - (last - first)
  {
    seq(|vals| - (last - first), i requires 0 <= i < |vals| - (last - first) =>
      vals[RangeSource(|vals|, first, last, i)])
  }

  /** vals after the entries first .. i have been erased one after the other, each by swap-remove. */
  function Refilled<T>(vals: seq<T>, first: nat, i: nat): (r: seq<T>)
    requires first <= i && 2 * i - first <= |vals|
    ensures |r| == |vals| - (i - first)
  {
    seq(|vals| - (i - first), j requires 0 <= j < |vals| - (i - first) =>
      if first <= j < i then vals[|vals| - 1 - (j - first)] else vals[j])
  }

  lemma RefilledStep<T>(vals: seq<T>, first: nat, i: nat)
    requires first <= i && 2 * (i + 1) - first <= |vals|
    ensures SwapRemove(Refilled(vals, first, i), i) == Refilled(vals, first, i + 1)
  {
  }

  /** Erasing from the left while entries follow the range, then cutting off the rest, erases the range. */
  lemma RefilledIsRangeErased<T>(vals: seq<T>, first: nat, last: nat)
    requires first <= last <= |vals|
    ensures var mid := first + if last - first < |vals| - last then last - first else |vals| - last;
            Refilled(vals, first, mid)[..|vals| - (last - first)] == RangeErased(vals, first, last)
  {
  }

  // ---------------------------------------------------------------------------------------------
  // One probe sequence
  // ---------------------------------------------------------------------------------------------

  /** The state of a search for key k after s probes. */
  ghost predicate ProbeAt<K, V>(
      lay: Layout<K>, b: seq<Bucket>, vals: seq<(K, V)>, k: K, s: nat, tag: nat, slot: nat) {
    && s < |b| && lay.Home(k) < |b|
    && slot == Pos(|b|, lay.Home(k), s) && tag == Tag(s, lay.Print(k))
    && Passed(lay, b, vals, k, s)
  }

  /** A complete index with room to end every probe, none of which gets too long. */
  ghost predicate Searchable<K(!new), V>(lay: Layout<K>, b: seq<Bucket>, vals: seq<(K, V)>, pos: seq<nat>) {
    && Complete(lay, b, vals, pos) && DistinctKeys(vals) && |vals| < |b|
    && SpreadOver(lay, |b|, KeysOf(vals))
  }

  lemma ProbeStarts<K, V>(lay: Layout<K>, b: seq<Bucket>, vals: seq<(K, V)>, k: K)
    requires lay.Home(k) < |b|
    ensures ProbeAt(lay, b, vals, k, 0, DIST_INC + lay.Print(k), lay.Home(k))
  {
  }

  /** Going past a bucket that is rich enough and not the key's: there is a next bucket to look at. */
  lemma ProbeGoesOn<K(!new), V>(
      lay: Layout<K>, b: seq<Bucket>, vals: seq<(K, V)>, pos: seq<nat>, k: K, s: nat, tag: nat, slot: nat)
    requires Searchable(lay, b, vals, pos) && ProbeAt(lay, b, vals, k, s, tag, slot)
    requires tag <= b[slot].tag && (tag == b[slot].tag ==> vals[b[slot].idx].0 != k)
    ensures ProbeAt(lay, b, vals, k, s + 1, DistInc(tag), Next(|b|, slot)) && DistInc(tag) == tag + DIST_INC
  {
    var e := HasEmptyBucket(lay, b, vals, pos, |vals|);
    EmptyStopsProbe(lay, b, vals, k, e, s + 1);
    ProbesAreShort(lay, b, vals, pos, k, s + 1);
    FitsUpToReach(s + 1, lay.Print(k));
  }

  /** A probe sequence stays within the distances whose tags fit. */
  lemma ProbesAreShort<K(!new), V>(
      lay: Layout<K>, b: seq<Bucket>, vals: seq<(K, V)>, pos: seq<nat>, k: K, s: nat)
    requires Searchable(lay, b, vals, pos) && lay.Home(k) < |b| && s <= |b| && Passed(lay, b, vals, k, s)
    ensures s < REACH
  {
    if s > 0 {
      var q := Pos(|b|, lay.Home(k), s - 1);
      TagsFitIn32Bits(lay, b, vals, pos, |vals|, q);
      assert Tag(s - 1, lay.Print(k)) <= b[q].tag;
      FitsUpToReach(s, lay.Print(k));
    }
  }

  lemma ProbeHits<K, V>(
      lay: Layout<K>, b: seq<Bucket>, vals: seq<(K, V)>, pos: seq<nat>, k: K, q: nat)
    requires Complete(lay, b, vals, pos) && DistinctKeys(vals) && q < |b| && b[q].tag != 0 && b[q].idx < |vals|
    requires vals[b[q].idx].0 == k
    ensures FindIndex(vals, k) == b[q].idx
  {
    FindIndexIs(vals, k, b[q].idx);
  }

  lemma ProbeMisses<K, V>(
      lay: Layout<K>, b: seq<Bucket>, vals: seq<(K, V)>, pos: seq<nat>, k: K, s: nat, tag: nat, slot: nat)
    requires Complete(lay, b, vals, pos) && ProbeAt(lay, b, vals, k, s, tag, slot) && tag > b[slot].tag
    ensures FindIndex(vals, k) == |vals|
  {
    StopMeansAbsent(lay, b, vals, pos, k, s);
    FindIndexIsEnd(vals, k);
  }

  /** As ProbeAt, or else a poorer bucket has been passed, which proves the key absent. */
  ghost predicate ProbeOrSettled<K, V>(
      lay: Layout<K>, b: seq<Bucket>, vals: seq<(K, V)>, k: K, s: nat, tag: nat, slot: nat, settled: bool) {
    if settled then
      && s < |b| && lay.Home(k) < |b|
      && slot == Pos(|b|, lay.Home(k), s) && tag == Tag(s, lay.Print(k))
      && tag > b[slot].tag && FindIndex(vals, k) == |vals|
    else
      ProbeAt(lay, b, vals, k, s, tag, slot)
  }

  /** Behind a bucket poorer than the probe comes one poorer than the next probe. */
  lemma PoorerGoesOn(b: seq<Bucket>, tag: nat, slot: nat)
    requires RingOrdered(b) && slot < |b| && DIST_INC <= tag && b[slot].tag < tag < TAG_RANGE - DIST_INC
    ensures b[Next(|b|, slot)].tag < DistInc(tag) == tag + DIST_INC
  {
    assert Ordered(b[slot], b[Next(|b|, slot)]);
  }

  /** A probe that does not look for poorer buckets. */
  lemma Unrolled<K(!new), V>(
      lay: Layout<K>, b: seq<Bucket>, vals: seq<(K, V)>, pos: seq<nat>, k: K, s: nat, tag: nat, slot: nat, settled: bool)
    returns (settled': bool)
    requires Searchable(lay, b, vals, pos) && ProbeOrSettled(lay, b, vals, k, s, tag, slot, settled)
    requires s + 1 < |b| && s < REACH - 1
    requires tag == b[slot].tag ==> vals[b[slot].idx].0 != k
    ensures ProbeOrSettled(lay, b, vals, k, s + 1, DistInc(tag), Next(|b|, slot), settled')
  {
    settled' := tag > b[slot].tag;
    if settled' {
      if !settled {
        ProbeMisses(lay, b, vals, pos, k, s, tag, slot);
      }
      FitsUpToReach(s + 1, lay.Print(k));
      PoorerGoesOn(b, tag, slot);
    } else {
      ProbeGoesOn(lay, b, vals, pos, k, s, tag, slot);
    }
  }

  /** The abstract map. */
  ghost function AsMap<K(!new), V>(vals: seq<(K, V)>): (m: map<K, V>)
    ensures forall k :: k in m <==> FindIndex(vals, k) < |vals|
    ensures forall k :: k in m ==> m[k] == vals[FindIndex(vals, k)].1
  {
    var keys := set i | 0 <= i < |vals| :: vals[i].0;
    assert forall k :: FindIndex(vals, k) < |vals| ==> vals[FindIndex(vals, k)].0 in keys;
    map k | k in keys :: vals[FindIndex(vals, k)].1
  }

  lemma AsMapEntry<K(!new), V>(vals: seq<(K, V)>, i: nat)
    requires DistinctKeys(vals) && i < |vals|
    ensures vals[i].0 in AsMap(vals) && AsMap(vals)[vals[i].0] == vals[i].1
  {
    FindIndexIs(vals, vals[i].0, i);
  }

  /** Entries with the same keys and values make the same map, wherever they stand. */
  lemma SameEntriesSameMap<K(!new), V>(a: seq<(K, V)>, m: map<K, V>)
    requires DistinctKeys(a)
    requires forall i :: 0 <= i < |a| ==> a[i].0 in m && m[a[i].0] == a[i].1
    requires forall k :: k in m ==> exists i :: 0 <= i < |a| && a[i].0 == k
    ensures AsMap(a) == m
  {
    forall k | k in m
      ensures k in AsMap(a) && AsMap(a)[k] == m[k]
    {
      var i :| 0 <= i < |a| && a[i].0 == k;
      AsMapEntry(a, i);
    }
    forall k | k in AsMap(a)
      ensures k in m
    {
      assert a[FindIndex(a, k)].0 == k;
    }
  }

  lemma SwapRemoveKeys<K(!new), V>(vals: seq<(K, V)>, r: nat)
    requires r < |vals|
    ensures KeysOf(SwapRemove(vals, r)) <= KeysOf(vals)
  {
    var rest := SwapRemove(vals, r);
    forall x | x in KeysOf(rest)
      ensures x in KeysOf(vals)
    {
      var i :| 0 <= i < |rest| && rest[i].0 == x;
      assert rest[i] == vals[if i == r then |vals| - 1 else i];
    }
  }

  lemma PrefixKeys<K(!new), V>(vals: seq<(K, V)>, more: seq<(K, V)>)
    requires vals <= more
    ensures KeysOf(vals) <= KeysOf(more)
  {
    forall x | x in KeysOf(vals)
      ensures x in KeysOf(more)
    {
      var i :| 0 <= i < |vals| && vals[i].0 == x;
      assert more[i] == vals[i];
    }
  }

  lemma InsertedRefinesMap<K(!new), V>(vals: seq<(K, V)>, k: K, v: V)
    requires DistinctKeys(vals)
    ensures DistinctKeys(Inserted(vals, k, v))
    ensures AsMap(Inserted(vals, k, v)) == if k in AsMap(vals) then AsMap(vals) else AsMap(vals)[k := v]
  {
    if FindIndex(vals, k) == |vals| {
      var m := AsMap(vals)[k := v];
      var vals' := vals + [(k, v)];
      forall i | 0 <= i < |vals'|
        ensures vals'[i].0 in m && m[vals'[i].0] == vals'[i].1
      {
        if i < |vals| {
          AsMapEntry(vals, i);
        }
      }
      forall x | x in m
        ensures exists i :: 0 <= i < |vals'| && vals'[i].0 == x
      {
        var i := if x == k then |vals| else FindIndex(vals, x);
        assert vals'[i].0 == x;
      }
      SameEntriesSameMap(vals', m);
    }
  }

  lemma SwapRemoveDistinct<K, V>(vals: seq<(K, V)>, r: nat)
    requires DistinctKeys(vals) && r < |vals|
    ensures DistinctKeys(SwapRemove(vals, r))
  {
  }

  /** Swap-with-last removes one entry and keeps every other one. */
  lemma SwapRemoveRefinesMap<K(!new), V>(vals: seq<(K, V)>, r: nat)
    requires DistinctKeys(vals) && r < |vals|
    ensures DistinctKeys(SwapRemove(vals, r))
    ensures AsMap(SwapRemove(vals, r)) == AsMap(vals) - {vals[r].0}
  {
    var vals', m := SwapRemove(vals, r), AsMap(vals) - {vals[r].0};
    var last := |vals| - 1;
    SwapRemoveDistinct(vals, r);
    forall i | 0 <= i < last
      ensures vals'[i].0 in m && m[vals'[i].0] == vals'[i].1
    {
      AsMapEntry(vals, if i == r then last else i);
    }
    forall x | x in m
      ensures exists i :: 0 <= i < last && vals'[i].0 == x
    {
      var i := FindIndex(vals, x);
      assert vals'[if i == last then r else i].0 == x;
    }
    SameEntriesSameMap(vals', m);
  }

  lemma ErasedRefinesMap<K(!new), V>(vals: seq<(K, V)>, k: K)
    requires DistinctKeys(vals)
    ensures DistinctKeys(Erased(vals, k)) && AsMap(Erased(vals, k)) == AsMap(vals) - {k}
  {
    var i := FindIndex(vals, k);
    if i < |vals| {
      SwapRemoveRefinesMap(vals, i);
    }
  }

  /** Every entry outside the range survives. */
  lemma RangeSourceOnto(n: nat, first: nat, last: nat, j: nat) returns (i: nat)
    requires first <= last <= n && j < n && !(first <= j < last)
    ensures i < n - (last - first) && RangeSource(n, first, last, i) == j
  {
    i := if j < n - (last - first) then j else first + (n - 1 - j);
  }

  lemma RangeSourceInjective(n: nat, first: nat, last: nat, i: nat, j: nat)
    requires first <= last <= n && i < j < n - (last - first)
    ensures RangeSource(n, first, last, i) != RangeSource(n, first, last, j)
  {
  }

  lemma RangeErasedDistinct<K, V>(vals: seq<(K, V)>, first: nat, last: nat)
    requires DistinctKeys(vals) && first <= last <= |vals|
    ensures DistinctKeys(RangeErased(vals, first, last))
  {
    forall i, j | 0 <= i < j < |vals| - (last - first)
      ensures RangeErased(vals, first, last)[i].0 != RangeErased(vals, first, last)[j].0
    {
      RangeSourceInjective(|vals|, first, last, i, j);
    }
  }

  /** Range erasure drops exactly the keys of the range. */
  lemma RangeErasedRefinesMap<K(!new), V>(vals: seq<(K, V)>, first: nat, last: nat)
    requires DistinctKeys(vals) && first <= last <= |vals|
    ensures DistinctKeys(RangeErased(vals, first, last))
    ensures AsMap(RangeErased(vals, first, last)) == AsMap(vals) - set i | first <= i < last :: vals[i].0
  {
    var vals', gone := RangeErased(vals, first, last), set i | first <= i < last :: vals[i].0;
    var m := AsMap(vals) - gone;
    RangeErasedDistinct(vals, first, last);
    forall i | 0 <= i < |vals'|
      ensures vals'[i].0 in m && m[vals'[i].0] == vals'[i].1
    {
      AsMapEntry(vals, RangeSource(|vals|, first, last, i));
    }
    forall x | x in m
      ensures exists i :: 0 <= i < |vals'| && vals'[i].0 == x
    {
      var j := FindIndex(vals, x);
      assert !(first <= j < last);
      var i := RangeSourceOnto(|vals|, first, last, j);
      assert vals'[i] == vals[j];
    }
    SameEntriesSameMap(vals', m);
  }
}
