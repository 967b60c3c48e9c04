/**
  The table of server/unordered_dense.h: a dense vector of entries and, in a separate array, the
  robin-hood index that finds them.  A set is a table whose mapped component is the unit value.
 */
module UnorderedDense {
  import opened RobinHood
  import opened TwoPowers
  import opened DenseVector
  import opened TagWidth

  const INITIAL_SHIFTS: nat := 61

  /** Bucket count of the 32-bit bucket type at its maximum; tables that large are not modelled. */
  const MAX_BUCKETS: nat := 0x1_0000_0000

  /** Sizes up to this many entries keep the bucket count below its maximum. */
  const MAX_ENTRIES: nat := 0x4000_0000

  function NumBuckets(shifts: nat): nat
    requires shifts <= 64
  {
    if Pow2(64 - shifts) < MAX_BUCKETS then Pow2(64 - shifts) else MAX_BUCKETS
  }

  /** floor(n * 0.8F); 0.8F is exactly 13421773 / 2^24 and the product is exact for a power of two. */
  function MaxLoad(n: nat): nat {
    n * 13421773 / 16777216
  }

  lemma Pow2Of31()
    ensures Pow2(3) == 8 && Pow2(31) == 0x8000_0000
  {
    assert Pow2(15) == 0x8000;
    assert Pow2(16) == 2 * Pow2(15);
    Pow2Sum(15, 16);
  }

  lemma LoadBelowCount(n: nat)
    requires n >= 8
    ensures 0 < MaxLoad(n) < n
  {
  }

  /** The load limit is four fifths of the buckets; from 2^24 buckets on the rounding of 0.8F shows. */
  lemma LoadIsFourFifths(n: nat)
    ensures n < 0x100_0000 ==> MaxLoad(n) == 4 * n / 5
    ensures 4 * n / 5 <= MaxLoad(n) <= 4 * n / 5 + n / 0x500_0000 + 1
  {
  }

  lemma BucketCounts(shifts: nat)
    requires 33 <= shifts <= INITIAL_SHIFTS
    ensures 8 <= NumBuckets(shifts) == Pow2(64 - shifts) < MAX_BUCKETS
    ensures 0 < MaxLoad(NumBuckets(shifts)) < NumBuckets(shifts)
    ensures shifts == 33 ==> MaxLoad(NumBuckets(shifts)) > MAX_ENTRIES
  {
    Pow2Of31();
    Pow2Monotone(3, 64 - shifts);
    Pow2Monotone(64 - shifts, 31);
    LoadBelowCount(Pow2(64 - shifts));
  }

  /** The keys of vals are spread over the buckets of a table with these shifts. */
  ghost predicate SpreadAt<K(!new), V>(hash: K -> Hash64, shifts: nat, vals: seq<(K, V)>)
    requires shifts <= 64
  {
    SpreadOver(Layout(hash, shifts), NumBuckets(shifts), KeysOf(vals))
  }

  /** Fewer than 2^24 - 1 entries are spread by every hash function, however bad. */
  lemma FewEntriesAreSpread<K(!new), V>(hash: K -> Hash64, shifts: nat, vals: seq<(K, V)>)
    requires |vals| < REACH && shifts <= 64
    ensures SpreadAt(hash, shifts, vals)
  {
    KeyCount(vals);
    FewKeysAreSpread(Layout(hash, shifts), NumBuckets(shifts), KeysOf(vals));
  }

  /** Keys that are spread stay so when the bucket count is doubled. */
  lemma DoublingSpreads<K(!new), V>(hash: K -> Hash64, shifts: nat, vals: seq<(K, V)>)
    requires 33 < shifts <= INITIAL_SHIFTS && SpreadAt(hash, shifts, vals)
    ensures SpreadAt(hash, shifts - 1, vals)
  {
    BucketCounts(shifts);
    BucketCounts(shifts - 1);
    assert Pow2(64 - (shifts - 1)) == 2 * Pow2(64 - shifts);
    var lay, wide := Layout(hash, shifts), Layout(hash, shifts - 1);
    var n, keys := NumBuckets(shifts), KeysOf(vals);
    forall a, r | 0 <= a < 2 * n && 0 <= r < 2 * n
      ensures |HomedUpTo(wide, 2 * n, keys, a, r)| < r + REACH
    {
      var r' := if r < n then r else n - 1;
      forall k | k in HomedUpTo(wide, 2 * n, keys, a, r)
        ensures k in HomedUpTo(lay, n, keys, a / 2, r')
      {
        HalfQuotient(hash(k), shifts - 1);
        HalfOffset(n, a, wide.Home(k), r);
      }
      SubsetIsSmaller(HomedUpTo(wide, 2 * n, keys, a, r), HomedUpTo(lay, n, keys, a / 2, r'));
    }
  }

  lemma HalfOffset(n: nat, a: nat, q: nat, r: nat)
    requires a < 2 * n && q < 2 * n && Off(2 * n, a, q) <= r
    ensures a / 2 < n && q / 2 < n && Off(n, a / 2, q / 2) <= r
  {
  }

  /** Keys that are spread stay so in any larger table. */
  lemma {:induction false} LargerIsSpread<K(!new), V>(hash: K -> Hash64, shifts: nat, fewer: nat, vals: seq<(K, V)>)
    requires 33 <= fewer <= shifts <= INITIAL_SHIFTS && SpreadAt(hash, shifts, vals)
    ensures SpreadAt(hash, fewer, vals)
    decreases shifts
  {
    if fewer < shifts {
      DoublingSpreads(hash, shifts, vals);
      LargerIsSpread(hash, shifts - 1, fewer, vals);
    }
  }

  lemma PrefixIsSpread<K(!new), V>(hash: K -> Hash64, shifts: nat, vals: seq<(K, V)>, more: seq<(K, V)>)
    requires vals <= more && shifts <= 64 && SpreadAt(hash, shifts, more)
    ensures SpreadAt(hash, shifts, vals)
  {
    PrefixKeys(vals, more);
    FewerKeysAreSpread(Layout(hash, shifts), NumBuckets(shifts), KeysOf(vals), KeysOf(more));
  }

  lemma RemovedIsSpread<K(!new), V>(hash: K -> Hash64, shifts: nat, vals: seq<(K, V)>, r: nat)
    requires r < |vals| && shifts <= 64 && SpreadAt(hash, shifts, vals)
    ensures SpreadAt(hash, shifts, SwapRemove(vals, r))
  {
    SwapRemoveKeys(vals, r);
    FewerKeysAreSpread(Layout(hash, shifts), NumBuckets(shifts), KeysOf(SwapRemove(vals, r)), KeysOf(vals));
  }

  type Shifts = s: nat | 33 <= s <= INITIAL_SHIFTS witness INITIAL_SHIFTS

  /** The shifts of the smallest table for so many entries. */
  function Wanted(size: nat): Shifts {
    WantedFrom(INITIAL_SHIFTS, size)
  }

  function WantedFrom(shifts: Shifts, size: nat): Shifts {
    if shifts > 33 && MaxLoad(NumBuckets(shifts)) < size then WantedFrom(shifts - 1, size) else shifts
  }

  function Larger(a: nat, b: nat): nat {
    if a > b then a else b
  }

  /** What decides when a table grows: its shifts, and whether it has buckets at all. */
  datatype Room = Room(shifts: Shifts, bucketed: bool) {

    function Capacity(): nat {
      if bucketed then MaxLoad(NumBuckets(shifts)) else 0
    }

    /** The room in which a key is pushed to n entries; tables with more than 2^31 buckets are not modelled. */
    function ForPush(n: nat): Room {
      if n < Capacity() then this else Room(if shifts > 33 then shifts - 1 else shifts, true)
    }

    function Reserved(size: nat): Room {
      if !bucketed || Wanted(size) < shifts then Room(Wanted(size), true) else this
    }

    function Rehashed(size: nat): Room {
      if Wanted(size) != shifts then Room(Wanted(size), true) else this
    }
  }

  /** A bucket array of this size takes so many entries. */
  predicate Takes(shifts: Shifts, size: nat) {
    NumBuckets(shifts) * 13421773 / 16777216 >= size
  }

  /** The table wanted is the smallest one that takes the entries. */
  lemma {:induction false} WantedMeans(from: Shifts, size: nat)
    requires size <= MAX_ENTRIES
    ensures WantedFrom(from, size) <= from && Takes(WantedFrom(from, size), size)
    ensures forall s: Shifts :: WantedFrom(from, size) < s <= from ==> !Takes(s, size)
  {
    BucketCounts(from);
    if from > 33 && MaxLoad(NumBuckets(from)) < size {
      WantedMeans(from - 1, size);
    }
  }

  /**
    After rehashing, the table is the smallest one that takes the entries; after reserving it is that one, if the
    table had fewer buckets, and otherwise as it was.  Only a table without buckets may stay without, and only when it
    is rehashed for so few entries that the smallest array would do.
   */
  lemma RoomMeans(room: Room, size: nat, s: Shifts)
    requires size <= MAX_ENTRIES && Takes(s, size) && forall t: Shifts :: s < t ==> !Takes(t, size)
    ensures room.Rehashed(size).shifts == s
    ensures room.Rehashed(size).bucketed <==> room.bucketed || s != room.shifts
    ensures room.bucketed ==> room.Reserved(size) == if s < room.shifts then Room(s, true) else room
    ensures !room.bucketed ==> room.Reserved(size) == Room(s, true)
  {
    WantedMeans(INITIAL_SHIFTS, size);
    SmallestIsUnique(s, Wanted(size), size);
  }

  lemma SmallestIsUnique(a: Shifts, b: Shifts, size: nat)
    requires Takes(a, size) && forall t: Shifts :: a < t ==> !Takes(t, size)
    requires Takes(b, size) && forall t: Shifts :: b < t ==> !Takes(t, size)
    ensures a == b
  {
  }

  class Table<K(==,!new), V> {
    const hash: K -> Hash64
    var values: seq<(K, V)>
    var buckets: array<Bucket>
    var maxCapacity: nat
    var shifts: nat

    /** Bucket of each entry. */
    ghost var pos: seq<nat>

    ghost function Lay(): Layout<K>
      reads this
    {
      Layout(hash, shifts)
    }

    ghost predicate Valid()
      reads this, buckets
    {
      && 33 <= shifts <= INITIAL_SHIFTS
      && DistinctKeys(values) && |values| <= maxCapacity && SpreadAt(hash, shifts, values)
      && (buckets.Length == 0 ==> maxCapacity == 0 && shifts == INITIAL_SHIFTS)
      && (buckets.Length != 0 ==>
            buckets.Length == NumBuckets(shifts) && maxCapacity == MaxLoad(NumBuckets(shifts))
            && Complete(Lay(), buckets[..], values, pos))
    }

    ghost function TheRoom(): Room
      requires 33 <= shifts <= INITIAL_SHIFTS
      reads this
    {
      Room(shifts, buckets.Length != 0)
    }

    constructor (hash: K -> Hash64, bucketCount: nat)
      requires bucketCount <= MAX_ENTRIES
      ensures Valid() && values == [] && this.hash == hash && fresh(buckets)
      ensures maxCapacity >= bucketCount
      ensures TheRoom() == if bucketCount == 0 then Room(INITIAL_SHIFTS, false) else Room(Wanted(bucketCount), true)
    {
      this.hash := hash;
      values := [];
      buckets := new Bucket[0];
      maxCapacity := 0;
      shifts := INITIAL_SHIFTS;
      pos := [];
      new;
      FewEntriesAreSpread(hash, shifts, values);
      BucketCounts(INITIAL_SHIFTS);
      if bucketCount != 0 {
        Reserve(bucketCount);
      }
    }

    /** No stored tag exceeds 32 bits. */
    lemma StoredTagsFit()
      requires Valid()
      ensures TagsFit(buckets[..])
    {
      if buckets.Length != 0 {
        BucketCounts(shifts);
        AllTagsFit(Lay(), buckets[..], values, pos, |values|);
      }
    }

    // -------------------------------------------------------------------------------------------
    // Probing
    // -------------------------------------------------------------------------------------------

    function NextSlot(i: nat): nat
      reads this
      requires i < buckets.Length
    {
      if i + 1 == buckets.Length then 0 else i + 1
    }

    /** There is an index and room in it, so that every probe sequence ends. */
    ghost predicate Probing(b: seq<Bucket>, vals: seq<(K, V)>, where: seq<nat>)
      reads this
    {
      && 33 <= shifts <= INITIAL_SHIFTS
      && |b| == NumBuckets(shifts) && Searchable(Lay(), b, vals, where)
    }

    /** Where the search for a key begins. */
    method StartProbe(key: K, ghost indexed: seq<(K, V)>, ghost where: seq<nat>) returns (tag: nat, slot: nat)
      requires Probing(buckets[..], indexed, where)
      ensures ProbeAt(Lay(), buckets[..], indexed, key, 0, tag, slot)
    {
      BucketCounts(shifts);
      HomeInRange(Lay(), key);
      ProbeStarts(Lay(), buckets[..], indexed, key);
      var h := hash(key);
      tag, slot := DIST_INC + h % DIST_INC, h / Pow2(shifts);
    }

    /** The first slot, s places from home, whose tag does not exceed the probing tag. */
    method NextWhileLess(key: K, ghost indexed: seq<(K, V)>, ghost where: seq<nat>)
      returns (tag: nat, slot: nat, ghost s: nat)
      requires Probing(buckets[..], indexed, where)
      ensures ProbeAt(Lay(), buckets[..], indexed, key, s, tag, slot)
      ensures tag >= buckets[slot].tag
    {
      ghost var lay, b := Lay(), buckets[..];
      tag, slot := StartProbe(key, indexed, where);
      s := 0;
      while tag < buckets[slot].tag
        invariant ProbeAt(lay, b, indexed, key, s, tag, slot)
        decreases |b| - s
      {
        ProbeGoesOn(lay, b, indexed, where, key, s, tag, slot);
        tag, slot, s := DistInc(tag), NextSlot(slot), s + 1;
      }
    }

    /** Puts a bucket at `place` and moves the run of used buckets there one slot up. */
    method PlaceAndShiftUp(bucket: Bucket, place: nat) returns (ghost m: nat)
      requires place < buckets.Length && exists e :: 0 <= e < buckets.Length && buckets[e].tag == 0
      requires TagsFit(buckets[..])
      modifies buckets
      ensures ShiftedUp(old(buckets[..]), buckets[..], bucket, place, m)
    {
      var carried, slot := bucket, place;
      ghost var b := buckets[..];
      ghost var e :| 0 <= e < |b| && b[e].tag == 0;
      m := 0;
      while buckets[slot].tag != 0
        invariant HalfPlaced(b, buckets[..], bucket, place, m, carried)
        invariant slot == Pos(|b|, place, m)
        decreases |b| - m
      {
        ghost var now := buckets[..];
        HalfPlacedStep(b, now, bucket, place, m, carried, e);
        var displaced := buckets[slot];
        buckets[slot] := carried;
        assert buckets[..] == now[slot := carried];
        MovesOnWords(b, slot);
        carried := Bucket(DistInc(displaced.tag), displaced.idx);
        slot, m := NextSlot(slot), m + 1;
      }
      ghost var now := buckets[..];
      HalfPlacedEnd(b, now, bucket, place, m, carried);
      buckets[slot] := carried;
      assert buckets[..] == now[slot := carried];
    }

    /** Gives entry number v, which comes after vals, its bucket where the probe for its key stopped. */
    method IndexEntry(v: nat, tag: nat, slot: nat, ghost vals: seq<(K, V)>, ghost entry: (K, V), ghost s: nat)
      requires Probing(buckets[..], vals, pos) && v == |vals|
      requires ProbeAt(Lay(), buckets[..], vals, entry.0, s, tag, slot) && tag >= buckets[slot].tag
      modifies this`pos, buckets
      ensures Complete(Lay(), buckets[..], vals + [entry], pos)
    {
      ghost var b := buckets[..];
      ghost var e := HasEmptyBucket(Lay(), b, vals, pos, |vals|);
      assert buckets[e].tag == 0;
      AllTagsFit(Lay(), b, vals, pos, |vals|);
      ghost var m := PlaceAndShiftUp(Bucket(tag, v), slot);
      InsertKeepsIndex(Lay(), b, buckets[..], vals, pos, entry, s, m);
      pos := PosAfterInsert(buckets.Length, pos, slot, m);
    }

    // -------------------------------------------------------------------------------------------
    // Growing
    // -------------------------------------------------------------------------------------------

    method CalcShiftsForSize(size: nat) returns (r: nat)
      requires size <= MAX_ENTRIES
      ensures 33 <= r <= INITIAL_SHIFTS && MaxLoad(NumBuckets(r)) >= size && r == Wanted(size)
      ensures r < INITIAL_SHIFTS ==> MaxLoad(NumBuckets(r + 1)) < size
    {
      r := INITIAL_SHIFTS;
      while r > 0 && MaxLoad(NumBuckets(r)) < size
        invariant 33 <= r <= INITIAL_SHIFTS && WantedFrom(r, size) == Wanted(size)
        invariant r < INITIAL_SHIFTS ==> MaxLoad(NumBuckets(r + 1)) < size
      {
        BucketCounts(r);
        r := r - 1;
      }
      BucketCounts(r);
    }

    method AllocateBucketsFromShift()
      requires 33 <= shifts <= INITIAL_SHIFTS
      modifies this`buckets, this`maxCapacity
      ensures fresh(buckets) && buckets.Length == NumBuckets(shifts)
      ensures maxCapacity == MaxLoad(NumBuckets(shifts))
    {
      buckets := new Bucket[NumBuckets(shifts)];
      maxCapacity := MaxLoad(buckets.Length);
    }

    method ClearBuckets()
      modifies buckets
      ensures forall q :: 0 <= q < buckets.Length ==> buckets[q] == EMPTY
    {
      for q := 0 to buckets.Length
        invariant forall p :: 0 <= p < q ==> buckets[p] == EMPTY
      {
        buckets[q] := EMPTY;
      }
    }

    /** Rebuilds the index from the entries, whatever the buckets held before. */
    method ClearAndFillBucketsFromValues()
      requires 33 <= shifts <= INITIAL_SHIFTS && buckets.Length == NumBuckets(shifts)
      requires maxCapacity == MaxLoad(NumBuckets(shifts))
      requires DistinctKeys(values) && |values| <= maxCapacity && SpreadAt(hash, shifts, values)
      modifies buckets, this`pos
      ensures Valid()
    {
      BucketCounts(shifts);
      ClearBuckets();
      pos := [];
      NothingIndexed(Lay(), buckets[..], values);
      for i := 0 to |values|
        invariant buckets == old(buckets)
        invariant Complete(Lay(), buckets[..], values[..i], pos)
      {
        var key := values[i].0;
        ghost var vals := values[..i];
        PrefixIsSpread(hash, shifts, vals, values);
        var tag, slot, s := NextWhileLess(key, vals, pos);
        IndexEntry(i, tag, slot, vals, values[i], s);
        assert values[..i + 1] == vals + [values[i]];
      }
      assert values[..|values|] == values;
    }

    predicate IsFull()
      reads this
    {
      |values| >= maxCapacity
    }

    /** One doubling always makes room for another entry; no entry moves in the vector. */
    method IncreaseSize()
      requires Valid() && IsFull() && |values| < MAX_ENTRIES
      modifies this, buckets
      ensures Valid() && values == old(values) && !IsFull() && fresh(buckets) && buckets.Length > 0
      ensures shifts == old(shifts) - 1
    {
      BucketCounts(shifts);
      DoublingSpreads(hash, shifts, values);
      shifts := shifts - 1;
      BucketCounts(shifts);
      assert Pow2(64 - shifts) == 2 * Pow2(63 - shifts);
      AllocateBucketsFromShift();
      ClearAndFillBucketsFromValues();
    }

    method Reserve(count: nat)
      requires Valid() && count <= MAX_ENTRIES && |values| <= MAX_ENTRIES
      modifies this, buckets
      ensures Valid() && values == old(values)
      ensures TheRoom() == old(TheRoom()).Reserved(Larger(count, |values|))
      ensures maxCapacity >= count && maxCapacity > 0
      ensures buckets == old(buckets) || fresh(buckets)
    {
      var wanted := CalcShiftsForSize(Larger(count, |values|));
      BucketCounts(wanted);
      if buckets.Length == 0 || wanted < shifts {
        LargerIsSpread(hash, shifts, wanted, values);
        shifts := wanted;
        AllocateBucketsFromShift();
        ClearAndFillBucketsFromValues();
      } else {
        BucketCounts(shifts);
        Pow2Monotone(64 - wanted, 64 - shifts);
        LoadMonotone(Pow2(64 - wanted), Pow2(64 - shifts));
      }
    }

    lemma LoadMonotone(a: nat, b: nat)
      requires a <= b
      ensures MaxLoad(a) <= MaxLoad(b)
    {
    }

    /** Grows or shrinks the bucket array to fit; the entries and their positions stay. */
    method Rehash(count: nat)
      requires Valid() && count <= MAX_ENTRIES && |values| <= MAX_ENTRIES
      requires SpreadAt(hash, TheRoom().Rehashed(Larger(count, |values|)).shifts, values)
      modifies this, buckets
      ensures Valid() && values == old(values)
      ensures TheRoom() == old(TheRoom()).Rehashed(Larger(count, |values|))
      ensures buckets == old(buckets) || fresh(buckets)
    {
      var wanted := CalcShiftsForSize(Larger(count, |values|));
      if wanted != shifts {
        shifts := wanted;
        AllocateBucketsFromShift();
        ClearAndFillBucketsFromValues();
      }
    }

    method Clear()
      requires Valid()
      modifies this, buckets
      ensures Valid() && values == [] && buckets == old(buckets) && shifts == old(shifts)
    {
      PrefixIsSpread(hash, shifts, [], values);
      values := [];
      ClearBuckets();
      pos := [];
    }

    // -------------------------------------------------------------------------------------------
    // Insertion
    // -------------------------------------------------------------------------------------------

    /** Gives the entry just appended its bucket, where the probe for its key stopped. */
    method PlaceNewest(ghost vals: seq<(K, V)>, tag: nat, slot: nat, ghost s: nat)
      requires |vals| < |values| && values == vals + [values[|vals|]]
      requires Probing(buckets[..], vals, pos) && maxCapacity == MaxLoad(NumBuckets(shifts)) >= |values|
      requires SpreadAt(hash, shifts, values) && FindIndex(vals, values[|vals|].0) == |vals|
      requires ProbeAt(Lay(), buckets[..], vals, values[|vals|].0, s, tag, slot) && tag > buckets[slot].tag
      modifies this`pos, buckets
      ensures Valid()
    {
      BucketCounts(shifts);
      IndexEntry(|values| - 1, tag, slot, vals, values[|vals|], s);
    }

    /**
      The loop that hashtable_push and emplace share: the bucket that holds the key, or the place
      where its bucket belongs.
     */
    method ProbeForPush(key: K, ghost vals: seq<(K, V)>) returns (hit: bool, tag: nat, slot: nat, ghost s: nat)
      requires Probing(buckets[..], vals, pos) && vals <= values
      ensures slot < buckets.Length
      ensures hit ==> buckets[slot].idx == FindIndex(vals, key) < |vals|
      ensures !hit ==> FindIndex(vals, key) == |vals| && tag > buckets[slot].tag
                       && ProbeAt(Lay(), buckets[..], vals, key, s, tag, slot)
    {
      ghost var lay, b := Lay(), buckets[..];
      tag, slot := StartProbe(key, vals, pos);
      s := 0;
      while tag <= buckets[slot].tag
        invariant ProbeAt(lay, b, vals, key, s, tag, slot)
        decreases |b| - s
      {
        if tag == buckets[slot].tag && key == values[buckets[slot].idx].0 {
          ProbeHits(lay, b, vals, pos, key, slot);
          return true, tag, slot, s;
        }
        ProbeGoesOn(lay, b, vals, pos, key, s, tag, slot);
        tag, slot, s := DistInc(tag), NextSlot(slot), s + 1;
      }
      ProbeMisses(lay, b, vals, pos, key, s, tag, slot);
      hit := false;
    }

    /** The same search as try_emplace writes it. */
    method ProbeForTryEmplace(key: K) returns (hit: bool, tag: nat, slot: nat, ghost s: nat)
      requires Probing(buckets[..], values, pos)
      ensures slot < buckets.Length
      ensures hit ==> buckets[slot].idx == FindIndex(values, key) < |values|
      ensures !hit ==> FindIndex(values, key) == |values| && tag > buckets[slot].tag
                       && ProbeAt(Lay(), buckets[..], values, key, s, tag, slot)
    {
      ghost var lay, b, vals := Lay(), buckets[..], values;
      tag, slot := StartProbe(key, vals, pos);
      s := 0;
      while true
        invariant ProbeAt(lay, b, vals, key, s, tag, slot)
        decreases |b| - s
      {
        if tag == buckets[slot].tag {
          if key == values[buckets[slot].idx].0 {
            ProbeHits(lay, b, vals, pos, key, slot);
            return true, tag, slot, s;
          }
        } else if tag > buckets[slot].tag {
          ProbeMisses(lay, b, vals, pos, key, s, tag, slot);
          return false, tag, slot, s;
        }
        ProbeGoesOn(lay, b, vals, pos, key, s, tag, slot);
        tag, slot, s := DistInc(tag), NextSlot(slot), s + 1;
      }
    }

    /** Makes the bucket array large enough for one more entry. */
    method GrowIfFull()
      requires Valid() && |values| < MAX_ENTRIES
      modifies this, buckets
      ensures Valid() && values == old(values) && !IsFull() && Probing(buckets[..], values, pos)
      ensures TheRoom() == old(TheRoom()).ForPush(|values|)
      ensures buckets == old(buckets) || fresh(buckets)
    {
      if IsFull() {
        RoomAfterDoubling(shifts, |values|);
        IncreaseSize();
      }
      BucketCounts(shifts);
    }

    lemma RoomAfterDoubling(shifts: nat, size: nat)
      requires 33 <= shifts <= INITIAL_SHIFTS && size <= MaxLoad(NumBuckets(shifts)) && size < MAX_ENTRIES
      requires shifts == INITIAL_SHIFTS || size == MaxLoad(NumBuckets(shifts))
      ensures 33 < shifts && size < MaxLoad(NumBuckets(shifts - 1))
    {
      BucketCounts(shifts);
      BucketCounts(shifts - 1);
      assert Pow2(64 - (shifts - 1)) == 2 * Pow2(64 - shifts);
    }

    /** Returns the dense position of the key, adding it at the end when it is new. */
    method HashtablePush(key: K, mapped: V) returns (id: nat)
      requires Valid() && |values| < MAX_ENTRIES
      requires SpreadAt(hash, TheRoom().ForPush(|values|).shifts, Inserted(values, key, mapped))
      modifies this, buckets
      ensures Valid() && values == Inserted(old(values), key, mapped)
      ensures id == FindIndex(old(values), key)
      ensures TheRoom() == old(TheRoom()).ForPush(|old(values)|)
      ensures buckets == old(buckets) || fresh(buckets)
    {
      GrowIfFull();
      var hit, tag, slot, s := ProbeForPush(key, values);
      if hit {
        return buckets[slot].idx;
      }
      ghost var vals := values;
      values := values + [(key, mapped)];
      PlaceNewest(vals, tag, slot, s);
      return |values| - 1;
    }

    /** The general emplace: the entry is appended first and taken off again when its key is present. */
    method Emplace(key: K, mapped: V) returns (at: nat, inserted: bool)
      requires Valid() && |values| < MAX_ENTRIES
      requires SpreadAt(hash, TheRoom().ForPush(|values|).shifts, Inserted(values, key, mapped))
      modifies this, buckets
      ensures Valid() && values == Inserted(old(values), key, mapped)
      ensures at == FindIndex(old(values), key) && inserted == (at == |old(values)|)
      ensures TheRoom() == old(TheRoom()).ForPush(|old(values)|)
      ensures buckets == old(buckets) || fresh(buckets)
    {
      GrowIfFull();
      ghost var vals, lay := values, Lay();
      values := values + [(key, mapped)];
      assert Lay() == lay;
      var hit, tag, slot, s := ProbeForPush(key, vals);
      if hit {
        values := values[..|values| - 1];
        assert values == vals && Lay() == lay;
        return buckets[slot].idx, false;
      }
      PlaceNewest(vals, tag, slot, s);
      return |values| - 1, true;
    }

    method TryEmplace(key: K, mapped: V) returns (at: nat, inserted: bool)
      requires Valid() && |values| < MAX_ENTRIES
      requires SpreadAt(hash, TheRoom().ForPush(|values|).shifts, Inserted(values, key, mapped))
      modifies this, buckets
      ensures Valid() && values == Inserted(old(values), key, mapped)
      ensures at == FindIndex(old(values), key) && inserted == (at == |old(values)|)
      ensures TheRoom() == old(TheRoom()).ForPush(|old(values)|)
      ensures buckets == old(buckets) || fresh(buckets)
    {
      GrowIfFull();
      var hit, tag, slot, s := ProbeForTryEmplace(key);
      if hit {
        return buckets[slot].idx, false;
      }
      ghost var vals := values;
      values := values + [(key, mapped)];
      PlaceNewest(vals, tag, slot, s);
      return |values| - 1, true;
    }

    // -------------------------------------------------------------------------------------------
    // Lookup
    // -------------------------------------------------------------------------------------------

    /** The key's dense position, or |values| for the end iterator. */
    method Find(key: K) returns (at: nat)
      requires Valid()
      ensures at == FindIndex(values, key)
    {
      if |values| == 0 {
        return 0;
      }
      BucketCounts(shifts);
      var hit: bool;
      var tag: nat, slot: nat := StartProbe(key, values, pos);
      // the two unrolled probes go on past a poorer bucket; such a bucket already settles the matter
      ghost var settled := false;
      hit, tag, slot, settled := ProbeOnce(key, tag, slot, 0, settled);
      if hit {
        return buckets[slot].idx;
      }
      hit, tag, slot, settled := ProbeOnce(key, tag, slot, 1, settled);
      if hit {
        return buckets[slot].idx;
      }
      at := FindFrom(key, tag, slot, 2, settled);
    }

    /** One unrolled probe: the slot of the key, or the next slot. */
    method ProbeOnce(key: K, tag0: nat, slot0: nat, ghost s: nat, ghost settled0: bool)
      returns (hit: bool, tag: nat, slot: nat, ghost settled: bool)
      requires Probing(buckets[..], values, pos) && s < 2 && s + 1 < buckets.Length
      requires ProbeOrSettled(Lay(), buckets[..], values, key, s, tag0, slot0, settled0)
      ensures slot < buckets.Length
      ensures hit ==> buckets[slot].idx == FindIndex(values, key)
      ensures !hit ==> ProbeOrSettled(Lay(), buckets[..], values, key, s + 1, tag, slot, settled)
    {
      ghost var lay, b, vals := Lay(), buckets[..], values;
      hit, tag, slot, settled := false, tag0, slot0, settled0;
      if tag == buckets[slot].tag && key == values[buckets[slot].idx].0 {
        ProbeHits(lay, b, vals, pos, key, slot);
        hit := true;
      } else {
        settled := Unrolled(lay, b, vals, pos, key, s, tag, slot, settled);
        tag, slot := DistInc(tag), NextSlot(slot);
      }
    }

    /** The loop of the search, entered after the unrolled probes. */
    method FindFrom(key: K, tag0: nat, slot0: nat, ghost s0: nat, ghost settled: bool) returns (at: nat)
      requires Valid() && Probing(buckets[..], values, pos)
      requires ProbeOrSettled(Lay(), buckets[..], values, key, s0, tag0, slot0, settled)
      ensures at == FindIndex(values, key)
    {
      ghost var lay, b, vals := Lay(), buckets[..], values;
      ghost var s: nat := s0;
      var tag: nat, slot: nat := tag0, slot0;
      while true
        invariant ProbeOrSettled(lay, b, vals, key, s, tag, slot, settled)
        decreases |b| - s
      {
        if tag == buckets[slot].tag {
          if key == values[buckets[slot].idx].0 {
            ProbeHits(lay, b, vals, pos, key, slot);
            return buckets[slot].idx;
          }
        } else if tag > buckets[slot].tag {
          break;
        }
        ProbeGoesOn(lay, b, vals, pos, key, s, tag, slot);
        tag, slot, s := DistInc(tag), NextSlot(slot), s + 1;
      }
      if !settled {
        ProbeMisses(lay, b, vals, pos, key, s, tag, slot);
      }
      return |values|;
    }

    // -------------------------------------------------------------------------------------------
    // Removal
    // -------------------------------------------------------------------------------------------

    /** Vacates a bucket and closes the gap behind it. */
    method ShiftDown(slot: nat) returns (ghost m: nat)
      requires slot < buckets.Length && buckets[slot].tag != 0
      requires (exists e :: 0 <= e < buckets.Length && buckets[e].tag == 0) && TagsFit(buckets[..])
      modifies buckets
      ensures ShiftedDown(old(buckets[..]), buckets[..], slot, m)
    {
      ghost var b, n := buckets[..], buckets.Length;
      ghost var e :| 0 <= e < n && b[e].tag == 0;
      var hollow := slot;
      var next := NextSlot(hollow);
      m := 0;
      while buckets[next].tag >= 2 * DIST_INC
        invariant HalfShifted(b, buckets[..], slot, m)
        invariant hollow == Pos(n, slot, m) && next == Next(n, hollow)
        decreases n - m
      {
        ghost var now := buckets[..];
        RunEndsBefore(b, slot, m, e);
        HalfShiftedStep(b, now, slot, m);
        MovesOnWords(b, next);
        ghost var nearer := Nearer(now[next]);
        buckets[hollow] := Bucket(DistDec(buckets[next].tag), buckets[next].idx);
        assert buckets[hollow] == nearer;
        assert buckets[..] == now[hollow := nearer];
        hollow, next, m := next, NextSlot(next), m + 1;
      }
      ghost var now := buckets[..];
      RunEndsBefore(b, slot, m, e);
      HalfShiftedEnd(b, now, slot, m);
      buckets[hollow] := EMPTY;
      assert buckets[..] == now[hollow := EMPTY];
    }

    /** Walks from the home of entry v to the bucket that points to it. */
    method SlotOf(v: nat, ghost indexed: seq<(K, V)>, key: K, ghost where: seq<nat>, ghost hole: nat)
      returns (slot: nat)
      requires 33 <= shifts <= INITIAL_SHIFTS && buckets.Length == NumBuckets(shifts)
      requires Indexes(Lay(), buckets[..], indexed, where, hole)
      requires v < |indexed| && v != hole && indexed[v].0 == key
      ensures slot < buckets.Length && slot == where[v] && buckets[slot].tag != 0 && buckets[slot].idx == v
    {
      BucketCounts(shifts);
      ghost var b, n, home := buckets[..], buckets.Length, Lay().Home(key);
      BucketOf(Lay(), b, indexed, where, hole, v);
      ghost var d, s := Off(n, home, where[v]), 0;
      var h := hash(key);
      slot := h / Pow2(shifts);
      while buckets[slot].idx != v
        invariant s <= d && slot == Pos(n, home, s)
        decreases d - s
      {
        slot := NextSlot(slot);
        s := s + 1;
      }
      NoGapBeforeBucket(Lay(), b, indexed, where, hole, v, s);
    }

    /** Takes a bucket out of the index; its entry is still in the vector. */
    method Unlink(slot: nat)
      requires Valid() && slot < buckets.Length && buckets[slot].tag != 0
      modifies buckets, this`pos
      ensures old(buckets[slot].idx) < |values|
      ensures Indexes(Lay(), buckets[..], values, pos, old(buckets[slot].idx))
    {
      BucketCounts(shifts);
      ghost var b := buckets[..];
      ghost var e := HasEmptyBucket(Lay(), b, values, pos, |values|);
      assert buckets[e].tag == 0;
      AllTagsFit(Lay(), b, values, pos, |values|);
      ghost var m := ShiftDown(slot);
      EraseKeepsIndex(Lay(), b, buckets[..], values, pos, slot, m);
      pos := PosAfterErase(buckets.Length, pos, slot, m);
    }

    /** Lets the bucket of the last entry, whose key is given, point to place `removed`. */
    method Repoint(removed: nat, key: K, ghost vals: seq<(K, V)>)
      requires 33 <= shifts <= INITIAL_SHIFTS && buckets.Length == NumBuckets(shifts)
      requires |values| == |vals| && removed < |vals| - 1 && key == vals[|vals| - 1].0
      requires Indexes(Lay(), buckets[..], vals, pos, removed)
      modifies buckets
      ensures pos[|vals| - 1] < buckets.Length
      ensures buckets[..] == Repointed(old(buckets[..]), vals, pos, removed)
    {
      var at := SlotOf(|values| - 1, vals, key, pos, removed);
      buckets[at] := buckets[at].(idx := removed);
    }

    method DoErase(slot: nat)
      requires Valid() && slot < buckets.Length && buckets[slot].tag != 0
      modifies this, buckets
      ensures Valid() && buckets == old(buckets) && shifts == old(shifts)
      ensures old(buckets[slot].idx) < |old(values)|
      ensures values == SwapRemove(old(values), old(buckets[slot].idx))
    {
      var removed := buckets[slot].idx;
      Unlink(slot);
      ghost var lay, b, vals, was := Lay(), buckets[..], values, pos;
      var last := |values| - 1;
      if removed != last {
        values := values[removed := values[last]];
        Repoint(removed, values[removed].0, vals);
      }
      RepointCompletes(lay, b, vals, pos, removed);
      SwapRemoveDistinct(vals, removed);
      RemovedIsSpread(hash, shifts, vals, removed);
      values := values[..last];
      pos := SwapRemove(pos, removed);
      assert Lay() == lay && values == SwapRemove(vals, removed);
      assert buckets[..] == Repointed(b, vals, was, removed);
    }

    /** The search of the erasure: only equal tags are compared. */
    method ProbeForErase(key: K) returns (hit: bool, slot: nat)
      requires Probing(buckets[..], values, pos)
      ensures slot < buckets.Length
      ensures hit ==> buckets[slot].tag != 0 && buckets[slot].idx == FindIndex(values, key) < |values|
      ensures !hit ==> FindIndex(values, key) == |values|
    {
      ghost var lay, b, vals := Lay(), buckets[..], values;
      ghost var s: nat;
      var tag: nat;
      tag, slot, s := NextWhileLess(key, vals, pos);
      while tag == buckets[slot].tag && key != values[buckets[slot].idx].0
        invariant ProbeAt(lay, b, vals, key, s, tag, slot) && tag >= buckets[slot].tag
        decreases |b| - s
      {
        ProbeGoesOn(lay, b, vals, pos, key, s, tag, slot);
        assert Ordered(b[slot], b[NextSlot(slot)]);
        tag, slot, s := DistInc(tag), NextSlot(slot), s + 1;
      }
      hit := tag == buckets[slot].tag;
      if hit {
        ProbeHits(lay, b, vals, pos, key, slot);
      } else {
        ProbeMisses(lay, b, vals, pos, key, s, tag, slot);
      }
    }

    method EraseKey(key: K) returns (count: nat)
      requires Valid()
      modifies this, buckets
      ensures Valid() && buckets == old(buckets) && shifts == old(shifts)
      ensures values == Erased(old(values), key)
      ensures count == if FindIndex(old(values), key) < |old(values)| then 1 else 0
    {
      if |values| == 0 {
        return 0;
      }
      BucketCounts(shifts);
      var hit, slot := ProbeForErase(key);
      if !hit {
        return 0;
      }
      DoErase(slot);
      return 1;
    }

    method EraseAt(at: nat) returns (next: nat)
      requires Valid() && at < |values|
      modifies this, buckets
      ensures Valid() && buckets == old(buckets) && shifts == old(shifts)
      ensures values == SwapRemove(old(values), at) && next == at
    {
      BucketCounts(shifts);
      var slot := SlotOf(at, values, values[at].0, pos, |values|);
      DoErase(slot);
      return at;
    }

    /** Erases first .. last, from the left while the vector's end refills the gap, then from the right. */
    method EraseRange(first: nat, last: nat) returns (next: nat)
      requires Valid() && first <= last <= |values|
      modifies this, buckets
      ensures Valid() && buckets == old(buckets) && shifts == old(shifts)
      ensures values == RangeErased(old(values), first, last) && next == first
    {
      ghost var vals, n := values, |values|;
      var mid := first + if last - first < |values| - last then last - first else |values| - last;
      var i := first;
      while i != mid
        invariant first <= i <= mid && Valid() && buckets == old(buckets) && shifts == old(shifts)
        invariant values == Refilled(vals, first, i)
        decreases mid - i
      {
        RefilledStep(vals, first, i);
        var _ := EraseAt(i);
        i := i + 1;
      }
      i := last;
      while i != mid
        invariant mid <= i <= last && Valid() && buckets == old(buckets) && shifts == old(shifts)
        invariant i != mid ==> |values| == i
        invariant values == Refilled(vals, first, mid)[..n - (mid - first) - (last - i)]
        decreases i
      {
        i := i - 1;
        var _ := EraseAt(i);
      }
      RefilledIsRangeErased(vals, first, last);
      return first;
    }
  }
}
