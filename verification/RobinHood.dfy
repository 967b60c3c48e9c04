/**
  The bucket index of server/unordered_dense.h seen as a value: a circular array of tagged buckets
  laid over a dense vector of entries.

  A bucket's tag packs the distance from the key's home slot (counted from one, in steps of DIST_INC)
  with one byte of the key's hash; tag 0 marks an empty bucket.  The class in UnorderedDense.dfy updates
  such an array in place; this module says when an array is a correct index and why one insertion,
  one backward shift and one re-pointing keep it correct.
 */
module RobinHood {
  import opened TwoPowers

  const DIST_INC: nat := 256
  const HASH_RANGE: nat := 0x1_0000_0000_0000_0000

  type Hash64 = h: nat | h < HASH_RANGE witness 0

  datatype Bucket = Bucket(tag: nat, idx: nat)

  const EMPTY := Bucket(0, 0)

  /** How keys are spread over the ring: their 64-bit hash and the number of low bits that are dropped. */
  datatype Layout<!K> = Layout(hash: K -> Hash64, shifts: nat) {

    function Home(k: K): nat {
      Quotient(hash(k), Pow2(shifts))
    }

    function Print(k: K): nat {
      hash(k) % DIST_INC
    }
  }

  // ---------------------------------------------------------------------------------------------
  // Home slots
  // ---------------------------------------------------------------------------------------------

  lemma Pow2Of16()
    ensures Pow2(16) == 0x1_0000
  {
    assert Pow2(2) == 4;
    Pow2Sum(2, 2);
    Pow2Sum(4, 4);
    Pow2Sum(8, 8);
  }

  lemma Pow2Of64()
    ensures Pow2(64) == HASH_RANGE
  {
    Pow2Of16();
    Pow2Sum(16, 16);
    Pow2Sum(32, 32);
  }

  /** A home slot is made of the leading bits of the hash, so it lies inside an array of 2^(64 - shifts) buckets. */
  lemma HomeInRange<K>(lay: Layout<K>, k: K)
    requires lay.shifts <= 64
    ensures lay.Home(k) < Pow2(64 - lay.shifts)
    ensures lay.Home(k) * Pow2(lay.shifts) <= lay.hash(k) < (lay.Home(k) + 1) * Pow2(lay.shifts)
  {
    Pow2Sum(lay.shifts, 64 - lay.shifts);
    Pow2Of64();
    QuotientBelow(lay.hash(k), Pow2(lay.shifts), Pow2(64 - lay.shifts));
    QuotientCovers(lay.hash(k), Pow2(lay.shifts));
  }

  /** x lies in the section number q of the given width. */
  predicate Covers(q: nat, width: nat, x: nat) {
    q * width <= x < (q + 1) * width
  }

  lemma QuotientCovers(x: nat, width: nat)
    requires width > 0
    ensures Covers(Quotient(x, width), width, x)
  {
    assert x == Quotient(x, width) * width + x % width;
  }

  // ---------------------------------------------------------------------------------------------
  // Positions on the ring
  // ---------------------------------------------------------------------------------------------

  function Next(n: nat, i: nat): nat
    requires i < n
  {
    if i + 1 == n then 0 else i + 1
  }

  function Prev(n: nat, i: nat): nat
    requires i < n
  {
    if i == 0 then n - 1 else i - 1
  }

  /** The slot s places after i. */
  function Pos(n: nat, i: nat, s: nat): nat
    requires i < n && s <= n
  {
    if i + s < n then i + s else i + s - n
  }

  /** How many places q lies after i. */
  function Off(n: nat, i: nat, q: nat): nat
    requires i < n && q < n
  {
    if i <= q then q - i else q + n - i
  }

  // ---------------------------------------------------------------------------------------------
  // The index invariant
  // ---------------------------------------------------------------------------------------------

  /** The tag of a key with fingerprint f found s places after its home. */
  function Tag(s: nat, f: nat): nat {
    (s + 1) * DIST_INC + f
  }

  /** Neighbouring tags: a key away from home never has a poorer (nearer-to-home) left neighbour. */
  predicate Ordered(left: Bucket, right: Bucket) {
    right.tag < 2 * DIST_INC || right.tag <= left.tag + DIST_INC
  }

  ghost predicate RingOrdered(b: seq<Bucket>) {
    forall q :: 0 <= q < |b| ==> Ordered(b[q], b[Next(|b|, q)])
  }

  /** Bucket q describes the entry it points to: right distance, right fingerprint. */
  ghost predicate Describes<K, V>(lay: Layout<K>, b: seq<Bucket>, vals: seq<(K, V)>, q: nat)
    requires q < |b| && b[q].idx < |vals|
  {
    var k := vals[b[q].idx].0;
    lay.Home(k) < |b| && b[q].tag == Tag(Off(|b|, lay.Home(k), q), lay.Print(k))
  }

  /**
    b indexes every entry of vals except number `hole`; pos[v] is the bucket of entry v.
    Taking hole == |vals| says that every entry is indexed.
   */
  ghost predicate Indexes<K, V>(lay: Layout<K>, b: seq<Bucket>, vals: seq<(K, V)>, pos: seq<nat>, hole: nat) {
    && |pos| == |vals|
    && (forall v :: 0 <= v < |vals| && v != hole ==> pos[v] < |b| && b[pos[v]].tag != 0 && b[pos[v]].idx == v)
    && (forall q :: 0 <= q < |b| && b[q].tag != 0 ==>
          b[q].idx < |vals| && b[q].idx != hole && pos[b[q].idx] == q && Describes(lay, b, vals, q))
    && (forall q :: 0 <= q < |b| && b[q].tag == 0 ==> b[q].idx == 0)
    && RingOrdered(b)
  }

  /** The index is complete. */
  ghost predicate Complete<K, V>(lay: Layout<K>, b: seq<Bucket>, vals: seq<(K, V)>, pos: seq<nat>) {
    Indexes(lay, b, vals, pos, |vals|)
  }

  lemma NothingIndexed<K, V>(lay: Layout<K>, b: seq<Bucket>, vals: seq<(K, V)>)
    requires forall q :: 0 <= q < |b| ==> b[q] == EMPTY
    ensures Complete(lay, b, vals[..0], [])
  {
  }

  ghost predicate DistinctKeys<K, V>(vals: seq<(K, V)>) {
    forall i, j :: 0 <= i < j < |vals| ==> vals[i].0 != vals[j].0
  }

  // ---------------------------------------------------------------------------------------------
  // Searching
  // ---------------------------------------------------------------------------------------------

  /**
    The first s probes for key k have gone past buckets that are at least as rich as k would be there
    and that do not hold k.
   */
  ghost predicate Passed<K, V>(lay: Layout<K>, b: seq<Bucket>, vals: seq<(K, V)>, k: K, s: nat)
    requires s <= |b| && lay.Home(k) < |b|
  {
    forall t {:trigger Pos(|b|, lay.Home(k), t)} :: 0 <= t < s ==>
      var bucket := b[Pos(|b|, lay.Home(k), t)];
      Tag(t, lay.Print(k)) <= bucket.tag
      && (bucket.tag == Tag(t, lay.Print(k)) && bucket.idx < |vals| ==> vals[bucket.idx].0 != k)
  }

  /** Rich buckets come in unbroken runs: no probe before a rich one can stop early. */
  lemma {:induction false} RichRun(b: seq<Bucket>, h: nat, f: nat, s: nat, t: nat)
    requires RingOrdered(b) && h < |b| && f < DIST_INC && t <= s < |b|
    requires b[Pos(|b|, h, s)].tag >= Tag(s, f)
    ensures b[Pos(|b|, h, t)].tag >= Tag(t, f)
    decreases s
  {
    if t < s {
      var q := Pos(|b|, h, s - 1);
      assert Next(|b|, q) == Pos(|b|, h, s);
      assert Ordered(b[q], b[Next(|b|, q)]);
      RichRun(b, h, f, s - 1, t);
    }
  }

  /** The bucket of an indexed entry, seen from its key's home. */
  lemma BucketOf<K, V>(lay: Layout<K>, b: seq<Bucket>, vals: seq<(K, V)>, pos: seq<nat>, hole: nat, v: nat)
    requires Indexes(lay, b, vals, pos, hole) && v < |vals| && v != hole
    ensures pos[v] < |b| && lay.Home(vals[v].0) < |b|
    ensures var d := Off(|b|, lay.Home(vals[v].0), pos[v]);
            d < |b| && Pos(|b|, lay.Home(vals[v].0), d) == pos[v]
            && b[pos[v]] == Bucket(Tag(d, lay.Print(vals[v].0)), v)
  {
    var q := pos[v];
    assert b[q].tag != 0 && b[q].idx == v;
    assert Describes(lay, b, vals, q);
  }

  /** Between a key's home and its bucket there is no gap and no poorer bucket. */
  lemma NoGapBeforeBucket<K, V>(
      lay: Layout<K>, b: seq<Bucket>, vals: seq<(K, V)>, pos: seq<nat>, hole: nat, v: nat, t: nat)
    requires Indexes(lay, b, vals, pos, hole) && v < |vals| && v != hole
    requires pos[v] < |b| && lay.Home(vals[v].0) < |b| && t <= Off(|b|, lay.Home(vals[v].0), pos[v])
    ensures b[Pos(|b|, lay.Home(vals[v].0), t)].tag >= Tag(t, lay.Print(vals[v].0))
  {
    BucketOf(lay, b, vals, pos, hole, v);
    RichRun(b, lay.Home(vals[v].0), lay.Print(vals[v].0), Off(|b|, lay.Home(vals[v].0), pos[v]), t);
  }

  /** Stopping at a poorer bucket is sound: the key is nowhere in the table. */
  lemma StopMeansAbsent<K, V>(
      lay: Layout<K>, b: seq<Bucket>, vals: seq<(K, V)>, pos: seq<nat>, k: K, s: nat)
    requires Complete(lay, b, vals, pos) && lay.Home(k) < |b| && s < |b|
    requires Passed(lay, b, vals, k, s)
    requires Tag(s, lay.Print(k)) > b[Pos(|b|, lay.Home(k), s)].tag
    ensures forall v :: 0 <= v < |vals| ==> vals[v].0 != k
  {
    forall v | 0 <= v < |vals|
      ensures vals[v].0 != k
    {
      BucketOf(lay, b, vals, pos, |vals|, v);
      var d := Off(|b|, lay.Home(vals[v].0), pos[v]);
      if s <= d {
        NoGapBeforeBucket(lay, b, vals, pos, |vals|, v, s);
      }
    }
  }

  /** Every probe sequence meets an empty bucket; `Probe` bounds the loops by it. */
  lemma EmptyStopsProbe<K, V>(lay: Layout<K>, b: seq<Bucket>, vals: seq<(K, V)>, k: K, e: nat, s: nat)
    requires e < |b| && b[e].tag == 0 && lay.Home(k) < |b| && s <= |b|
    requires Passed(lay, b, vals, k, s)
    ensures s <= Off(|b|, lay.Home(k), e)
  {
    var d := Off(|b|, lay.Home(k), e);
    assert Pos(|b|, lay.Home(k), d) == e;
  }

  // ---------------------------------------------------------------------------------------------
  // Room
  // ---------------------------------------------------------------------------------------------

  /** Fewer than n numbers leave some slot below n unused. */
  lemma {:induction false} Pigeonhole(pos: seq<nat>, n: nat) returns (free: nat)
    requires |pos| < n
    ensures free < n && free !in pos
    decreases n
  {
    if n - 1 !in pos {
      free := n - 1;
    } else {
      free := Pigeonhole(Without(pos, n - 1), n - 1);
    }
  }

  /** pos without its occurrences of x. */
  function Without(pos: seq<nat>, x: nat): (r: seq<nat>)
    ensures x !in r && (forall y :: y != x ==> (y in r <==> y in pos))
    ensures |r| <= |pos| && (x in pos ==> |r| < |pos|)
  {
    if pos == [] then []
    else if pos[0] == x then Without(pos[1..], x)
    else
      [pos[0]] + Without(pos[1..], x)
  }

  /** A table with fewer entries than buckets has an empty bucket. */
  lemma HasEmptyBucket<K, V>(lay: Layout<K>, b: seq<Bucket>, vals: seq<(K, V)>, pos: seq<nat>, hole: nat)
    returns (e: nat)
    requires Indexes(lay, b, vals, pos, hole) && |vals| < |b|
    ensures e < |b| && b[e].tag == 0
  {
    e := Pigeonhole(pos, |b|);
  }

  // ---------------------------------------------------------------------------------------------
  // Insertion
  // ---------------------------------------------------------------------------------------------

  function Farther(bucket: Bucket): Bucket {
    bucket.(tag := bucket.tag + DIST_INC)
  }

  /** after is b with `added` put at `place` and the run of m used buckets found there moved one slot up. */
  ghost predicate ShiftedUp(b: seq<Bucket>, after: seq<Bucket>, added: Bucket, place: nat, m: nat) {
    && |after| == |b| && place < |b| && m < |b|
    && (forall t {:trigger Pos(|b|, place, t)} :: 0 <= t < m ==> b[Pos(|b|, place, t)].tag != 0)
    && b[Pos(|b|, place, m)].tag == 0
    && forall q :: 0 <= q < |b| ==>
         after[q] == if q == place then added
                     else if Off(|b|, place, q) <= m then Farther(b[Prev(|b|, q)])
                     else b[q]
  }

  /** now is b after the first m displacements; `carried` is in hand for the next slot. */
  ghost predicate HalfPlaced(b: seq<Bucket>, now: seq<Bucket>, added: Bucket, place: nat, m: nat, carried: Bucket) {
    && |now| == |b| && place < |b| && m < |b|
    && (forall t {:trigger Pos(|b|, place, t)} :: 0 <= t < m ==> b[Pos(|b|, place, t)].tag != 0)
    && carried == (if m == 0 then added else Farther(b[Prev(|b|, Pos(|b|, place, m))]))
    && forall q :: 0 <= q < |b| ==>
         now[q] == if Off(|b|, place, q) >= m then b[q]
                   else if q == place then added
                   else Farther(b[Prev(|b|, q)])
  }

  lemma HalfPlacedStep(
      b: seq<Bucket>, now: seq<Bucket>, added: Bucket, place: nat, m: nat, carried: Bucket, e: nat)
    requires HalfPlaced(b, now, added, place, m, carried) && now[Pos(|b|, place, m)].tag != 0
    requires e < |b| && b[e].tag == 0
    ensures var slot := Pos(|b|, place, m);
            HalfPlaced(b, now[slot := carried], added, place, m + 1, Farther(now[slot]))
            && now[slot] == b[slot] && Next(|b|, slot) == Pos(|b|, place, m + 1)
  {
    var n, slot := |b|, Pos(|b|, place, m);
    assert Off(n, place, slot) == m && now[slot] == b[slot];
    assert Pos(n, place, Off(n, place, e)) == e;
  }

  lemma HalfPlacedEnd(b: seq<Bucket>, now: seq<Bucket>, added: Bucket, place: nat, m: nat, carried: Bucket)
    requires HalfPlaced(b, now, added, place, m, carried) && now[Pos(|b|, place, m)].tag == 0
    ensures ShiftedUp(b, now[Pos(|b|, place, m) := carried], added, place, m)
  {
    assert Off(|b|, place, Pos(|b|, place, m)) == m;
  }

  /** Where the shifted entries end up. */
  function PosAfterInsert(n: nat, pos: seq<nat>, place: nat, m: nat): (r: seq<nat>)
    requires place < n && forall v :: 0 <= v < |pos| ==> pos[v] < n
  {
    seq(|pos|, v requires 0 <= v < |pos| => if Off(n, place, pos[v]) < m then Next(n, pos[v]) else pos[v]) + [place]
  }

  lemma InsertKeepsOrder(b: seq<Bucket>, after: seq<Bucket>, added: Bucket, h: nat, f: nat, s: nat, m: nat)
    requires RingOrdered(b) && h < |b| && f < DIST_INC && s < |b| && added.tag == Tag(s, f)
    requires ShiftedUp(b, after, added, Pos(|b|, h, s), m)
    requires forall t {:trigger Pos(|b|, h, t)} :: 0 <= t < s ==> b[Pos(|b|, h, t)].tag >= Tag(t, f)
    requires b[Pos(|b|, h, s)].tag <= Tag(s, f)
    requires forall q :: 0 <= q < |b| ==> b[q].tag == 0 || b[q].tag >= DIST_INC
    ensures RingOrdered(after)
  {
    var n, place := |b|, Pos(|b|, h, s);
    forall q | 0 <= q < n
      ensures Ordered(after[q], after[Next(n, q)])
    {
      var r := Next(n, q);
      assert Ordered(b[q], b[r]);
      assert Prev(n, r) == q;
      if r == place {
        if s > 0 {
          assert q == Pos(n, h, s - 1);
        }
      } else if Off(n, place, r) <= m {
        assert Off(n, place, r) == Off(n, place, q) + 1;
        assert Pos(n, place, Off(n, place, q)) == q;
        if q != place {
          var p := Prev(n, q);
          assert Next(n, p) == q;
          assert Ordered(b[p], b[q]);
          assert Pos(n, place, Off(n, place, p)) == p;
        }
      } else if Off(n, place, r) == m + 1 {
        assert Pos(n, place, m) == q;
      }
    }
  }

  lemma UsedTagsAreLarge<K, V>(lay: Layout<K>, b: seq<Bucket>, vals: seq<(K, V)>, pos: seq<nat>, hole: nat)
    requires Indexes(lay, b, vals, pos, hole)
    ensures forall q :: 0 <= q < |b| ==> b[q].tag == 0 || b[q].tag >= DIST_INC
  {
    forall q | 0 <= q < |b| && b[q].tag != 0
      ensures b[q].tag >= DIST_INC
    {
      assert Describes(lay, b, vals, q);
    }
  }

  /** An old entry is found at its new place. */
  lemma InsertMovesEntry(b: seq<Bucket>, after: seq<Bucket>, added: Bucket, place: nat, m: nat, q: nat)
    requires ShiftedUp(b, after, added, place, m) && q < |b| && b[q].tag != 0
    ensures var q' := if Off(|b|, place, q) < m then Next(|b|, q) else q;
            after[q'] == if Off(|b|, place, q) < m then Farther(b[q]) else b[q]
  {
    var n := |b|;
    assert Pos(n, place, Off(n, place, q)) == q;
    if Off(n, place, q) < m {
      assert Off(n, place, Next(n, q)) == Off(n, place, q) + 1;
      assert Prev(n, Next(n, q)) == q;
    }
  }

  /** A used bucket of the new array still describes its entry. */
  lemma InsertDescribes<K, V>(
      lay: Layout<K>, b: seq<Bucket>, after: seq<Bucket>, added: Bucket, vals: seq<(K, V)>, vals': seq<(K, V)>,
      pos: seq<nat>, place: nat, m: nat, q: nat)
    requires Complete(lay, b, vals, pos) && vals <= vals' && ShiftedUp(b, after, added, place, m)
    requires q < |b| && q != place && after[q].tag != 0
    requires forall v :: 0 <= v < |pos| ==> pos[v] < |b|
    ensures after[q].idx < |vals| && PosAfterInsert(|b|, pos, place, m)[after[q].idx] == q
    ensures Describes(lay, after, vals', q)
  {
    var n := |b|;
    if Off(n, place, q) <= m {
      var p := Prev(n, q);
      assert Off(n, place, p) == Off(n, place, q) - 1;
      assert Pos(n, place, Off(n, place, p)) == p;
      assert Next(n, p) == q;
      assert b[p].tag != 0 && Describes(lay, b, vals, p);
      var k := vals[b[p].idx].0;
      WrapFree(b, place, m, lay.Home(k), lay.Print(k), p);
    } else {
      assert Describes(lay, b, vals, q);
    }
  }

  lemma InsertKeepsRing<K, V>(
      lay: Layout<K>, b: seq<Bucket>, after: seq<Bucket>, vals: seq<(K, V)>, pos: seq<nat>, k: K, s: nat, m: nat, idx: nat)
    requires Complete(lay, b, vals, pos) && lay.Home(k) < |b| && s < |b|
    requires ShiftedUp(b, after, Bucket(Tag(s, lay.Print(k)), idx), Pos(|b|, lay.Home(k), s), m)
    requires forall t {:trigger Pos(|b|, lay.Home(k), t)} :: 0 <= t < s ==>
               b[Pos(|b|, lay.Home(k), t)].tag >= Tag(t, lay.Print(k))
    requires b[Pos(|b|, lay.Home(k), s)].tag <= Tag(s, lay.Print(k))
    ensures RingOrdered(after)
  {
    UsedTagsAreLarge(lay, b, vals, pos, |vals|);
    InsertKeepsOrder(b, after, Bucket(Tag(s, lay.Print(k)), idx), lay.Home(k), lay.Print(k), s, m);
  }

  /** Robin-hood insertion keeps the index complete, with the new entry at the end of the vector. */
  lemma InsertKeepsIndex<K, V>(
      lay: Layout<K>, b: seq<Bucket>, after: seq<Bucket>, vals: seq<(K, V)>, pos: seq<nat>, entry: (K, V), s: nat, m: nat)
    requires Complete(lay, b, vals, pos) && lay.Home(entry.0) < |b| && s < |b|
    requires ShiftedUp(b, after, Bucket(Tag(s, lay.Print(entry.0)), |vals|), Pos(|b|, lay.Home(entry.0), s), m)
    requires forall t {:trigger Pos(|b|, lay.Home(entry.0), t)} :: 0 <= t < s ==>
               b[Pos(|b|, lay.Home(entry.0), t)].tag >= Tag(t, lay.Print(entry.0))
    requires b[Pos(|b|, lay.Home(entry.0), s)].tag <= Tag(s, lay.Print(entry.0))
    ensures forall v :: 0 <= v < |pos| ==> pos[v] < |b|
    ensures Complete(lay, after, vals + [entry], PosAfterInsert(|b|, pos, Pos(|b|, lay.Home(entry.0), s), m))
  {
    var place, added := Pos(|b|, lay.Home(entry.0), s), Bucket(Tag(s, lay.Print(entry.0)), |vals|);
    InsertKeepsRing(lay, b, after, vals, pos, entry.0, s, m, |vals|);
    InsertIndexes(lay, b, after, added, vals, vals + [entry], pos, place, m);
    assert Describes(lay, after, vals + [entry], place) by {
      assert Off(|b|, lay.Home(entry.0), place) == s;
    }
    IsComplete(lay, after, vals + [entry], PosAfterInsert(|b|, pos, place, m));
  }

  /** Entries and used buckets still correspond, and the new bucket points to the new entry. */
  lemma InsertIndexes<K, V>(
      lay: Layout<K>, b: seq<Bucket>, after: seq<Bucket>, added: Bucket, vals: seq<(K, V)>, vals': seq<(K, V)>,
      pos: seq<nat>, place: nat, m: nat)
    requires Complete(lay, b, vals, pos) && vals <= vals' && |vals'| == |vals| + 1
    requires ShiftedUp(b, after, added, place, m) && added.idx == |vals| && added.tag != 0
    ensures forall v :: 0 <= v < |pos| ==> pos[v] < |b|
    ensures var pos' := PosAfterInsert(|b|, pos, place, m);
            && |pos'| == |vals'|
            && (forall v :: 0 <= v < |vals'| ==> pos'[v] < |b| && after[pos'[v]].tag != 0 && after[pos'[v]].idx == v)
            && (forall q :: 0 <= q < |b| && q != place && after[q].tag != 0 ==>
                  after[q].idx < |vals| && pos'[after[q].idx] == q && Describes(lay, after, vals', q))
            && (forall q :: 0 <= q < |b| && after[q].tag == 0 ==> after[q].idx == 0)
  {
    var pos' := PosAfterInsert(|b|, pos, place, m);
    forall v | 0 <= v < |vals|
      ensures pos'[v] < |b| && after[pos'[v]].tag != 0 && after[pos'[v]].idx == v
    {
      InsertMovesEntry(b, after, added, place, m, pos[v]);
    }
    forall q | 0 <= q < |b| && q != place && after[q].tag != 0
      ensures after[q].idx < |vals| && pos'[after[q].idx] == q && Describes(lay, after, vals', q)
    {
      InsertDescribes(lay, b, after, added, vals, vals', pos, place, m, q);
    }
    InsertKeepsEmpty(b, after, added, place, m);
  }

  /** An empty bucket of the new array was one before. */
  lemma InsertKeepsEmpty(b: seq<Bucket>, after: seq<Bucket>, added: Bucket, place: nat, m: nat)
    requires ShiftedUp(b, after, added, place, m) && added.tag != 0
    ensures forall q :: 0 <= q < |b| && after[q].tag == 0 ==> after[q] == b[q]
  {
  }

  lemma IsComplete<K, V>(lay: Layout<K>, b: seq<Bucket>, vals: seq<(K, V)>, pos: seq<nat>)
    requires |pos| == |vals| && RingOrdered(b)
    requires forall v :: 0 <= v < |vals| ==> pos[v] < |b| && b[pos[v]].tag != 0 && b[pos[v]].idx == v
    requires forall q :: 0 <= q < |b| && b[q].tag != 0 ==>
               b[q].idx < |vals| && pos[b[q].idx] == q && Describes(lay, b, vals, q)
    requires forall q :: 0 <= q < |b| && b[q].tag == 0 ==> b[q].idx == 0
    ensures Complete(lay, b, vals, pos)
  {
  }

  /** A bucket moved up one slot by an insertion does not come round to its own home. */
  lemma WrapFree(b: seq<Bucket>, place: nat, m: nat, home: nat, f: nat, p: nat)
    requires RingOrdered(b) && place < |b| && m < |b| && home < |b| && p < |b| && f < DIST_INC
    requires b[Pos(|b|, place, m)].tag == 0 && Off(|b|, place, p) < m
    requires b[p].tag == Tag(Off(|b|, home, p), f)
    ensures Off(|b|, home, Next(|b|, p)) == Off(|b|, home, p) + 1
  {
    var n, d := |b|, Off(|b|, home, p);
    if d == n - 1 {
      var e := Pos(n, place, m);
      assert Pos(n, home, d) == p && Pos(n, home, Off(n, home, e)) == e;
      RichRun(b, home, f, d, Off(n, home, e));
    }
  }

  // ---------------------------------------------------------------------------------------------
  // Removal
  // ---------------------------------------------------------------------------------------------

  function Nearer(bucket: Bucket): Bucket {
    bucket.(tag := if bucket.tag < DIST_INC then 0 else bucket.tag - DIST_INC)
  }

  /** after is b with bucket p vacated and the m away-from-home buckets behind it moved one slot down. */
  ghost predicate ShiftedDown(b: seq<Bucket>, after: seq<Bucket>, p: nat, m: nat) {
    && |after| == |b| && p < |b| && m < |b|
    && (forall t {:trigger Pos(|b|, p, t)} :: 1 <= t <= m ==> b[Pos(|b|, p, t)].tag >= 2 * DIST_INC)
    && b[Next(|b|, Pos(|b|, p, m))].tag < 2 * DIST_INC
    && forall q :: 0 <= q < |b| ==>
         after[q] == if Off(|b|, p, q) < m then Nearer(b[Next(|b|, q)])
                     else if Off(|b|, p, q) == m then EMPTY
                     else b[q]
  }

  /** now is b after the first m buckets behind p have been copied one slot down. */
  ghost predicate HalfShifted(b: seq<Bucket>, now: seq<Bucket>, p: nat, m: nat) {
    && |now| == |b| && p < |b| && m < |b|
    && (forall t {:trigger Pos(|b|, p, t)} :: 1 <= t <= m ==> b[Pos(|b|, p, t)].tag >= 2 * DIST_INC)
    && forall q :: 0 <= q < |b| ==> now[q] == if Off(|b|, p, q) < m then Nearer(b[Next(|b|, q)]) else b[q]
  }

  /** One more copy. */
  lemma HalfShiftedStep(b: seq<Bucket>, now: seq<Bucket>, p: nat, m: nat)
    requires HalfShifted(b, now, p, m) && m + 1 < |b|
    requires now[Next(|b|, Pos(|b|, p, m))].tag >= 2 * DIST_INC
    ensures var hollow := Pos(|b|, p, m);
            HalfShifted(b, now[hollow := Nearer(now[Next(|b|, hollow)])], p, m + 1)
            && now[Next(|b|, hollow)] == b[Next(|b|, hollow)] && Next(|b|, hollow) == Pos(|b|, p, m + 1)
  {
    assert Off(|b|, p, Next(|b|, Pos(|b|, p, m))) == m + 1;
  }

  /** The last slot of the run is emptied. */
  lemma HalfShiftedEnd(b: seq<Bucket>, now: seq<Bucket>, p: nat, m: nat)
    requires HalfShifted(b, now, p, m) && m + 1 < |b|
    requires now[Next(|b|, Pos(|b|, p, m))].tag < 2 * DIST_INC
    ensures ShiftedDown(b, now[Pos(|b|, p, m) := EMPTY], p, m)
  {
    assert Off(|b|, p, Next(|b|, Pos(|b|, p, m))) == m + 1;
  }

  /** The run behind p stops before the ring closes. */
  lemma RunEndsBefore(b: seq<Bucket>, p: nat, m: nat, e: nat)
    requires p < |b| && m < |b| && e < |b| && b[p].tag != 0 && b[e].tag == 0
    requires forall t {:trigger Pos(|b|, p, t)} :: 1 <= t <= m ==> b[Pos(|b|, p, t)].tag >= 2 * DIST_INC
    ensures m + 1 < |b|
  {
    assert Pos(|b|, p, Off(|b|, p, e)) == e;
  }

  function PosAfterErase(n: nat, pos: seq<nat>, p: nat, m: nat): (r: seq<nat>)
    requires p < n && forall v :: 0 <= v < |pos| ==> pos[v] < n
  {
    seq(|pos|, v requires 0 <= v < |pos| => if 1 <= Off(n, p, pos[v]) <= m then Prev(n, pos[v]) else pos[v])
  }

  lemma EraseKeepsOrder(b: seq<Bucket>, after: seq<Bucket>, p: nat, m: nat)
    requires RingOrdered(b) && ShiftedDown(b, after, p, m)
    ensures RingOrdered(after)
  {
    var n := |b|;
    forall q | 0 <= q < n
      ensures Ordered(after[q], after[Next(n, q)])
    {
      var r := Next(n, q);
      assert Ordered(b[q], b[r]);
      assert Ordered(b[r], b[Next(n, r)]);
      if Off(n, p, r) < m {
        assert Pos(n, p, Off(n, p, r) + 1) == Next(n, r);
        if r == p {
          if n > 1 {
            assert Off(n, p, q) == n - 1;
          }
        } else {
          assert Off(n, p, q) == Off(n, p, r) - 1;
          assert Pos(n, p, Off(n, p, r)) == r;
        }
      } else if Off(n, p, q) == m {
        assert Pos(n, p, m) == q;
      }
    }
  }

  lemma EraseMovesEntry(b: seq<Bucket>, after: seq<Bucket>, p: nat, m: nat, q: nat)
    requires ShiftedDown(b, after, p, m) && q < |b| && q != p
    ensures var moved := 1 <= Off(|b|, p, q) <= m;
            after[if moved then Prev(|b|, q) else q].idx == b[q].idx
            && (moved ==> b[q].tag >= 2 * DIST_INC)
            && after[if moved then Prev(|b|, q) else q].tag == if moved then b[q].tag - DIST_INC else b[q].tag
  {
    var n := |b|;
    assert Pos(n, p, Off(n, p, q)) == q;
    if Off(n, p, q) <= m {
      assert Off(n, p, Prev(n, q)) == Off(n, p, q) - 1;
      assert Next(n, Prev(n, q)) == q;
    }
  }

  /** Only the end of the run becomes empty. */
  lemma EraseVacates(b: seq<Bucket>, after: seq<Bucket>, p: nat, m: nat, q: nat)
    requires ShiftedDown(b, after, p, m) && q < |b| && after[q].tag == 0
    ensures after[q] == EMPTY || after[q] == b[q]
  {
    var n := |b|;
    assert Pos(n, p, Off(n, p, Next(n, q))) == Next(n, q);
  }

  lemma EraseDescribes<K, V>(
      lay: Layout<K>, b: seq<Bucket>, after: seq<Bucket>, vals: seq<(K, V)>, pos: seq<nat>, p: nat, m: nat, q: nat)
    requires Complete(lay, b, vals, pos) && ShiftedDown(b, after, p, m) && b[p].tag != 0
    requires forall v :: 0 <= v < |pos| ==> pos[v] < |b|
    requires q < |b| && after[q].tag != 0
    ensures after[q].idx < |vals| && after[q].idx != b[p].idx
    ensures PosAfterErase(|b|, pos, p, m)[after[q].idx] == q && Describes(lay, after, vals, q)
  {
    var n := |b|;
    if Off(n, p, q) < m {
      var x := Next(n, q);
      assert Off(n, p, x) == Off(n, p, q) + 1;
      assert Pos(n, p, Off(n, p, x)) == x;
      assert b[x].tag != 0 && Describes(lay, b, vals, x);
      assert Prev(n, x) == q;
    } else {
      assert b[q].tag != 0 && Describes(lay, b, vals, q);
    }
  }

  /** The backward shift removes exactly the entry of bucket p from the index. */
  lemma EraseKeepsIndex<K, V>(
      lay: Layout<K>, b: seq<Bucket>, after: seq<Bucket>, vals: seq<(K, V)>, pos: seq<nat>, p: nat, m: nat)
    requires Complete(lay, b, vals, pos) && ShiftedDown(b, after, p, m) && b[p].tag != 0
    ensures forall v :: 0 <= v < |pos| ==> pos[v] < |b|
    ensures b[p].idx < |vals| && Indexes(lay, after, vals, PosAfterErase(|b|, pos, p, m), b[p].idx)
  {
    var n, r := |b|, b[p].idx;
    var pos' := PosAfterErase(n, pos, p, m);
    EraseKeepsOrder(b, after, p, m);
    forall v | 0 <= v < |vals| && v != r
      ensures pos'[v] < n && after[pos'[v]].tag != 0 && after[pos'[v]].idx == v
    {
      EraseMovesEntry(b, after, p, m, pos[v]);
    }
    forall q | 0 <= q < n && after[q].tag != 0
      ensures after[q].idx < |vals| && after[q].idx != r && pos'[after[q].idx] == q && Describes(lay, after, vals, q)
    {
      EraseDescribes(lay, b, after, vals, pos, p, m, q);
    }
    forall q | 0 <= q < n && after[q].tag == 0
      ensures after[q].idx == 0
    {
      EraseVacates(b, after, p, m, q);
    }
  }

  /** vals with entry r overwritten by the last one and the last one dropped. */
  function SwapRemove<T>(vals: seq<T>, r: nat): (res: seq<T>)
    requires r < |vals|
    ensures |res| == |vals| - 1
  {
    if r == |vals| - 1 then vals[..r] else vals[r := vals[|vals| - 1]][..|vals| - 1]
  }

  /** The buckets once the last entry's bucket points to place r. */
  function Repointed<K, V>(b: seq<Bucket>, vals: seq<(K, V)>, pos: seq<nat>, r: nat): seq<Bucket>
    requires r < |vals| == |pos| && (r != |vals| - 1 ==> pos[|vals| - 1] < |b|)
  {
    if r == |vals| - 1 then b else b[pos[|vals| - 1] := b[pos[|vals| - 1]].(idx := r)]
  }

  lemma RepointedBucket<K, V>(
      lay: Layout<K>, b: seq<Bucket>, vals: seq<(K, V)>, pos: seq<nat>, r: nat, q: nat)
    requires r < |vals| && Indexes(lay, b, vals, pos, r) && q < |b| && b[q].tag != 0
    requires r != |vals| - 1 ==> pos[|vals| - 1] < |b|
    ensures var after := Repointed(b, vals, pos, r);
            && after[q].tag == b[q].tag
            && after[q].idx == (if b[q].idx == |vals| - 1 then r else b[q].idx) < |vals| - 1
            && SwapRemove(pos, r)[after[q].idx] == q
            && Describes(lay, after, SwapRemove(vals, r), q)
  {
    assert Describes(lay, b, vals, q);
  }

  lemma RepointedEntry<K, V>(
      lay: Layout<K>, b: seq<Bucket>, vals: seq<(K, V)>, pos: seq<nat>, r: nat, v: nat)
    requires r < |vals| && Indexes(lay, b, vals, pos, r) && v < |vals| - 1
    requires r != |vals| - 1 ==> pos[|vals| - 1] < |b|
    ensures var after, q := Repointed(b, vals, pos, r), SwapRemove(pos, r)[v];
            q < |b| && after[q].tag != 0 && after[q].idx == v
  {
    var w := if v == r then |vals| - 1 else v;
    assert SwapRemove(pos, r)[v] == pos[w];
    RepointedBucket(lay, b, vals, pos, r, pos[w]);
  }

  /** After the moved entry's bucket is re-pointed the index is complete again. */
  lemma RepointCompletes<K, V>(lay: Layout<K>, b: seq<Bucket>, vals: seq<(K, V)>, pos: seq<nat>, r: nat)
    requires r < |vals| && Indexes(lay, b, vals, pos, r)
    requires r != |vals| - 1 ==> pos[|vals| - 1] < |b|
    ensures Complete(lay, Repointed(b, vals, pos, r), SwapRemove(vals, r), SwapRemove(pos, r))
  {
    var last, after := |vals| - 1, Repointed(b, vals, pos, r);
    var vals', pos' := SwapRemove(vals, r), SwapRemove(pos, r);
    forall v | 0 <= v < last
      ensures pos'[v] < |b| && after[pos'[v]].tag != 0 && after[pos'[v]].idx == v
    {
      RepointedEntry(lay, b, vals, pos, r, v);
    }
    forall q | 0 <= q < |b| && after[q].tag != 0
      ensures after[q].idx < last && pos'[after[q].idx] == q && Describes(lay, after, vals', q)
    {
      RepointedBucket(lay, b, vals, pos, r, q);
    }
    SameTagsSameOrder(b, after);
  }

  lemma SameTagsSameOrder(b: seq<Bucket>, after: seq<Bucket>)
    requires RingOrdered(b) && |after| == |b| && forall q :: 0 <= q < |b| ==> after[q].tag == b[q].tag
    ensures RingOrdered(after)
  {
    forall q | 0 <= q < |b|
      ensures Ordered(after[q], after[Next(|b|, q)])
    {
      assert Ordered(b[q], b[Next(|b|, q)]);
    }
  }
}
