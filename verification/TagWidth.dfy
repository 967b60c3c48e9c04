/**
  The width of a tag.  A bucket's tag has 32 bits, eight of them a fingerprint, so that distances from
  home up to 2^24 - 2 fit.  How far keys get from home depends on how many of them crowd into how few homes;
  this module says when every tag fits with one more increment, so that none wraps around.
 */
module TagWidth {
  import opened RobinHood

  const TAG_RANGE: nat := 0x1_0000_0000

  /** The number of distances whose tag fits. */
  const REACH: nat := 0xFF_FFFF

  /** dist_inc and dist_dec of the source, on 32 bits. */
  function DistInc(tag: nat): nat {
    (tag + DIST_INC) % TAG_RANGE
  }

  function DistDec(tag: nat): nat {
    (tag - DIST_INC) % TAG_RANGE
  }

  /** The tag of a bucket does not wrap, not even when the bucket is moved one slot up. */
  predicate TagFits(b: seq<Bucket>, q: nat)
    requires q < |b|
  {
    b[q].tag + DIST_INC < TAG_RANGE
  }

  ghost predicate TagsFit(b: seq<Bucket>) {
    forall q :: 0 <= q < |b| ==> TagFits(b, q)
  }

  lemma MovesOnWords(b: seq<Bucket>, q: nat)
    requires TagsFit(b) && q < |b|
    ensures Bucket(DistInc(b[q].tag), b[q].idx) == Farther(b[q])
    ensures b[q].tag >= 2 * DIST_INC ==> Bucket(DistDec(b[q].tag), b[q].idx) == Nearer(b[q])
  {
    assert TagFits(b, q);
  }

  lemma FitsUpToReach(s: nat, f: nat)
    requires f < DIST_INC
    ensures Tag(s, f) < TAG_RANGE <==> s < REACH
  {
  }

  ghost function KeysOf<K(!new), V>(vals: seq<(K, V)>): set<K> {
    set i | 0 <= i < |vals| :: vals[i].0
  }

  /** The keys whose home is one of the r + 1 slots from a on. */
  ghost function HomedUpTo<K(!new)>(lay: Layout<K>, n: nat, keys: set<K>, a: nat, r: nat): set<K>
    requires a < n
  {
    set k | k in keys && lay.Home(k) < n && Off(n, a, lay.Home(k)) <= r
  }

  /** Nowhere are r + 1 slots in a row home to r + REACH keys. */
  ghost predicate SpreadOver<K(!new)>(lay: Layout<K>, n: nat, keys: set<K>) {
    forall a, r :: 0 <= a < n && 0 <= r < n ==> |HomedUpTo(lay, n, keys, a, r)| < r + REACH
  }

  lemma SubsetIsSmaller<T>(a: set<T>, b: set<T>)
    requires a <= b
    ensures |a| <= |b|
  {
    assert b == a + (b - a);
  }

  lemma FewerKeysAreSpread<K(!new)>(lay: Layout<K>, n: nat, keys: set<K>, more: set<K>)
    requires keys <= more && SpreadOver(lay, n, more)
    ensures SpreadOver(lay, n, keys)
  {
    forall a, r | 0 <= a < n && 0 <= r < n
      ensures |HomedUpTo(lay, n, keys, a, r)| < r + REACH
    {
      SubsetIsSmaller(HomedUpTo(lay, n, keys, a, r), HomedUpTo(lay, n, more, a, r));
    }
  }

  /** Whatever the hash, fewer than REACH keys are spread. */
  lemma FewKeysAreSpread<K(!new)>(lay: Layout<K>, n: nat, keys: set<K>)
    requires |keys| < REACH
    ensures SpreadOver(lay, n, keys)
  {
    forall a, r | 0 <= a < n && 0 <= r < n
      ensures |HomedUpTo(lay, n, keys, a, r)| < r + REACH
    {
      SubsetIsSmaller(HomedUpTo(lay, n, keys, a, r), keys);
    }
  }

  lemma {:induction false} KeyCount<K(!new), V>(vals: seq<(K, V)>)
    ensures |KeysOf(vals)| <= |vals|
  {
    if vals != [] {
      var n := |vals| - 1;
      KeyCount(vals[..n]);
      assert KeysOf(vals) == KeysOf(vals[..n]) + {vals[n].0};
    }
  }

  // ---------------------------------------------------------------------------------------------
  // Runs of used buckets
  // ---------------------------------------------------------------------------------------------

  /** The s buckets from h on are used. */
  ghost predicate Run(b: seq<Bucket>, h: nat, s: nat)
    requires h < |b| && s <= |b|
  {
    forall t {:trigger Pos(|b|, h, t)} :: 0 <= t < s ==> b[Pos(|b|, h, t)].tag != 0
  }

  /** Going back from a used bucket to where its run begins. */
  lemma {:induction false} RunStart(b: seq<Bucket>, h: nat, e: nat) returns (a: nat, r: nat)
    requires h < |b| && e < |b| && b[e].tag == 0 && b[h].tag != 0
    ensures a < |b| && r < |b| && Pos(|b|, a, r) == h && Run(b, a, r) && b[Prev(|b|, a)].tag == 0
    decreases Off(|b|, e, h)
  {
    var n := |b|;
    if b[Prev(n, h)].tag == 0 {
      a, r := h, 0;
    } else {
      a, r := RunStart(b, Prev(n, h), e);
      assert Pos(n, a, Off(n, a, e)) == e;
      r := r + 1;
      forall t | 0 <= t < r
        ensures b[Pos(n, a, t)].tag != 0
      {
        if t == r - 1 {
          assert Pos(n, a, t) == Prev(n, h);
        }
      }
    }
  }

  /** An entry inside a run has its home there, at or before its bucket. */
  lemma HomeInRun<K, V>(
      lay: Layout<K>, b: seq<Bucket>, vals: seq<(K, V)>, pos: seq<nat>, hole: nat, a: nat, t: nat)
    requires Indexes(lay, b, vals, pos, hole) && a < |b| && t < |b|
    requires b[Prev(|b|, a)].tag == 0 && b[Pos(|b|, a, t)].tag != 0
    ensures var v := b[Pos(|b|, a, t)].idx;
            && v < |vals| && lay.Home(vals[v].0) < |b| && Off(|b|, a, lay.Home(vals[v].0)) <= t
            && b[Pos(|b|, a, t)].tag == Tag(t - Off(|b|, a, lay.Home(vals[v].0)), lay.Print(vals[v].0))
  {
    var n, q := |b|, Pos(|b|, a, t);
    var v := b[q].idx;
    assert Describes(lay, b, vals, q);
    var home := lay.Home(vals[v].0);
    if Off(n, a, home) > t {
      var back := Off(n, home, Prev(n, a));
      assert back <= Off(n, home, q) && Pos(n, home, back) == Prev(n, a);
      NoGapBeforeBucket(lay, b, vals, pos, hole, v, back);
    }
  }

  lemma {:induction false} AsManyInSet<T>(s: seq<T>, all: set<T>)
    requires forall i :: 0 <= i < |s| ==> s[i] in all
    requires forall i, j :: 0 <= i < j < |s| ==> s[i] != s[j]
    ensures |s| <= |all|
  {
    if s != [] {
      var n := |s| - 1;
      AsManyInSet(s[..n], all - {s[n]});
    }
  }

  /** The key in the bucket t places after a. */
  function KeyAt<K, V>(b: seq<Bucket>, vals: seq<(K, V)>, a: nat, t: nat): K
    requires a < |b| && t < |b| && b[Pos(|b|, a, t)].idx < |vals|
  {
    vals[b[Pos(|b|, a, t)].idx].0
  }

  lemma HomesStep<K, V>(lay: Layout<K>, b: seq<Bucket>, vals: seq<(K, V)>, pos: seq<nat>, hole: nat, a: nat, t: nat)
    requires Indexes(lay, b, vals, pos, hole) && a < |b| && t + 1 < |b| && b[Prev(|b|, a)].tag == 0
    requires b[Pos(|b|, a, t)].tag != 0 && b[Pos(|b|, a, t + 1)].tag != 0
    ensures b[Pos(|b|, a, t)].idx < |vals| && b[Pos(|b|, a, t + 1)].idx < |vals|
    ensures lay.Home(KeyAt(b, vals, a, t)) < |b| && lay.Home(KeyAt(b, vals, a, t + 1)) < |b|
    ensures Off(|b|, a, lay.Home(KeyAt(b, vals, a, t))) <= Off(|b|, a, lay.Home(KeyAt(b, vals, a, t + 1)))
  {
    HomeInRun(lay, b, vals, pos, hole, a, t);
    HomeInRun(lay, b, vals, pos, hole, a, t + 1);
    assert Next(|b|, Pos(|b|, a, t)) == Pos(|b|, a, t + 1);
    assert Ordered(b[Pos(|b|, a, t)], b[Pos(|b|, a, t + 1)]);
  }

  /** Along a run homes come in the order of the ring. */
  lemma {:induction false} HomesAlongRun<K, V>(
      lay: Layout<K>, b: seq<Bucket>, vals: seq<(K, V)>, pos: seq<nat>, hole: nat, a: nat, t: nat, u: nat)
    requires Indexes(lay, b, vals, pos, hole) && a < |b| && t <= u < |b|
    requires b[Prev(|b|, a)].tag == 0 && Run(b, a, u + 1)
    ensures b[Pos(|b|, a, t)].idx < |vals| && b[Pos(|b|, a, u)].idx < |vals|
    ensures lay.Home(KeyAt(b, vals, a, t)) < |b| && lay.Home(KeyAt(b, vals, a, u)) < |b|
    ensures Off(|b|, a, lay.Home(KeyAt(b, vals, a, t))) <= Off(|b|, a, lay.Home(KeyAt(b, vals, a, u)))
    decreases u
  {
    if t == u {
      HomeInRun(lay, b, vals, pos, hole, a, t);
    } else {
      HomesAlongRun(lay, b, vals, pos, hole, a, t, u - 1);
      HomesStep(lay, b, vals, pos, hole, a, u - 1);
    }
  }

  /** All keys of a run up to a bucket have their homes in the slots up to the home of that bucket's key. */
  lemma ManyHomed<K(!new), V>(
      lay: Layout<K>, b: seq<Bucket>, vals: seq<(K, V)>, pos: seq<nat>, hole: nat, a: nat, u: nat, home: nat)
    requires Indexes(lay, b, vals, pos, hole) && DistinctKeys(vals) && a < |b| && u < |b| && home < |b|
    requires b[Prev(|b|, a)].tag == 0 && Run(b, a, u + 1)
    requires b[Pos(|b|, a, u)].idx < |vals| && home == lay.Home(KeyAt(b, vals, a, u))
    ensures u + 1 <= |HomedUpTo(lay, |b|, KeysOf(vals), a, Off(|b|, a, home))|
  {
    var n, r := |b|, Off(|b|, a, home);
    forall t | 0 <= t <= u
      ensures b[Pos(n, a, t)].idx < |vals| && pos[b[Pos(n, a, t)].idx] == Pos(n, a, t)
      ensures KeyAt(b, vals, a, t) in HomedUpTo(lay, n, KeysOf(vals), a, r)
    {
      HomesAlongRun(lay, b, vals, pos, hole, a, t, u);
    }
    var keys := seq(u + 1, t requires 0 <= t < u + 1 => KeyAt(b, vals, a, t));
    forall t, s | 0 <= t < s < u + 1
      ensures keys[t] != keys[s]
    {
      assert Pos(n, a, t) != Pos(n, a, s);
    }
    AsManyInSet(keys, HomedUpTo(lay, n, KeysOf(vals), a, r));
  }

  /** Every tag fits, and so does the tag of a bucket that is moved one slot up. */
  lemma TagsFitIn32Bits<K(!new), V>(
      lay: Layout<K>, b: seq<Bucket>, vals: seq<(K, V)>, pos: seq<nat>, hole: nat, q: nat)
    requires Indexes(lay, b, vals, pos, hole) && DistinctKeys(vals) && SpreadOver(lay, |b|, KeysOf(vals))
    requires |vals| < |b| && q < |b|
    ensures b[q].tag + DIST_INC < TAG_RANGE
  {
    if b[q].tag != 0 {
      var e := HasEmptyBucket(lay, b, vals, pos, hole);
      var a, u := RunStart(b, q, e);
      HomeInRun(lay, b, vals, pos, hole, a, u);
      var key := KeyAt(b, vals, a, u);
      var r := Off(|b|, a, lay.Home(key));
      ManyHomed(lay, b, vals, pos, hole, a, u, lay.Home(key));
      assert |HomedUpTo(lay, |b|, KeysOf(vals), a, r)| < r + REACH;
      FitsUpToReach(u - r + 1, lay.Print(key));
    }
  }

  lemma AllTagsFit<K(!new), V>(lay: Layout<K>, b: seq<Bucket>, vals: seq<(K, V)>, pos: seq<nat>, hole: nat)
    requires Indexes(lay, b, vals, pos, hole) && DistinctKeys(vals) && SpreadOver(lay, |b|, KeysOf(vals))
    requires |vals| < |b|
    ensures TagsFit(b)
  {
    forall q | 0 <= q < |b|
      ensures TagFits(b, q)
    {
      TagsFitIn32Bits(lay, b, vals, pos, hole, q);
    }
  }
}

/** The condition is exact: when it is not met, a complete index holds a tag that one more increment wraps. */
module TagCondition {
  import opened RobinHood
  import opened TagWidth
  import opened DenseVector

  /** How far after a key k is found, counted without wrapping round the ring. */
  ghost function Reached<K(!new), V>(
      lay: Layout<K>, b: seq<Bucket>, vals: seq<(K, V)>, pos: seq<nat>, a: nat, k: K): nat
    requires Complete(lay, b, vals, pos) && a < |b|
  {
    var v := FindIndex(vals, k);
    if v < |vals| && lay.Home(k) < |b| then Off(|b|, a, lay.Home(k)) + Off(|b|, lay.Home(k), pos[v]) else 0
  }

  /** A set whose elements have different numbers below m has at most m elements. */
  lemma {:induction false} NumberedSet<T(!new)>(s: set<T>, number: T -> nat, m: nat)
    requires forall x :: x in s ==> number(x) < m
    requires forall x, y :: x in s && y in s && number(x) == number(y) ==> x == y
    ensures |s| <= m
    decreases m
  {
    if m > 0 {
      if x :| x in s && number(x) == m - 1 {
        NumberedSet(s - {x}, number, m - 1);
      } else {
        NumberedSet(s, number, m - 1);
      }
    }
  }

  /** If every tag fits, a key homed at most r slots after a is found fewer than r + REACH - 1 slots after a. */
  lemma ReachedEarly<K(!new), V>(
      lay: Layout<K>, b: seq<Bucket>, vals: seq<(K, V)>, pos: seq<nat>, a: nat, r: nat, k: K)
    requires Complete(lay, b, vals, pos) && DistinctKeys(vals) && TagsFit(b) && a < |b|
    requires k in HomedUpTo(lay, |b|, KeysOf(vals), a, r)
    ensures FindIndex(vals, k) < |vals| && Reached(lay, b, vals, pos, a, k) < r + REACH - 1
  {
    var v :| 0 <= v < |vals| && vals[v].0 == k;
    FindIndexIs(vals, k, v);
    BucketOf(lay, b, vals, pos, |vals|, v);
    assert TagFits(b, pos[v]);
    FitsUpToReach(Off(|b|, lay.Home(k), pos[v]) + 1, lay.Print(k));
  }

  /** Keys that are found equally far after a are one key. */
  lemma ReachedOnce<K(!new), V>(
      lay: Layout<K>, b: seq<Bucket>, vals: seq<(K, V)>, pos: seq<nat>, a: nat, k: K, k': K)
    requires Complete(lay, b, vals, pos) && a < |b|
    requires FindIndex(vals, k) < |vals| && FindIndex(vals, k') < |vals|
    requires Reached(lay, b, vals, pos, a, k) == Reached(lay, b, vals, pos, a, k')
    ensures k == k'
  {
    var v, v' := FindIndex(vals, k), FindIndex(vals, k');
    BucketOf(lay, b, vals, pos, |vals|, v);
    BucketOf(lay, b, vals, pos, |vals|, v');
    SamePlace(|b|, a, lay.Home(k), pos[v], lay.Home(k'), pos[v']);
  }

  lemma SamePlace(n: nat, a: nat, home: nat, q: nat, home': nat, q': nat)
    requires a < n && home < n && q < n && home' < n && q' < n
    requires Off(n, a, home) + Off(n, home, q) == Off(n, a, home') + Off(n, home', q')
    ensures q == q'
  {
  }

  /** In a complete index every tag has room for one more increment, exactly if the keys are spread. */
  lemma TagsFitIfSpread<K(!new), V>(lay: Layout<K>, b: seq<Bucket>, vals: seq<(K, V)>, pos: seq<nat>)
    requires Complete(lay, b, vals, pos) && DistinctKeys(vals) && |vals| < |b|
    ensures TagsFit(b) <==> SpreadOver(lay, |b|, KeysOf(vals))
  {
    if SpreadOver(lay, |b|, KeysOf(vals)) {
      AllTagsFit(lay, b, vals, pos, |vals|);
    }
    if TagsFit(b) {
      forall a, r | 0 <= a < |b| && 0 <= r < |b|
        ensures |HomedUpTo(lay, |b|, KeysOf(vals), a, r)| < r + REACH
      {
        FewHomed(lay, b, vals, pos, a, r);
      }
    }
  }

  lemma FewHomed<K(!new), V>(lay: Layout<K>, b: seq<Bucket>, vals: seq<(K, V)>, pos: seq<nat>, a: nat, r: nat)
    requires Complete(lay, b, vals, pos) && DistinctKeys(vals) && TagsFit(b) && a < |b|
    ensures |HomedUpTo(lay, |b|, KeysOf(vals), a, r)| < r + REACH
  {
    var homed := HomedUpTo(lay, |b|, KeysOf(vals), a, r);
    var number := k => Reached(lay, b, vals, pos, a, k);
    forall k | k in homed
      ensures FindIndex(vals, k) < |vals| && number(k) < r + REACH - 1
    {
      ReachedEarly(lay, b, vals, pos, a, r, k);
    }
    forall k, k' | k in homed && k' in homed && number(k) == number(k')
      ensures k == k'
    {
      ReachedOnce(lay, b, vals, pos, a, k, k');
    }
    NumberedSet(homed, number, r + REACH - 1);
  }
}
