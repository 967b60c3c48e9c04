/**
  Whole runs of a hash table.  Whatever the hash function, as long as it spreads the keys over the buckets
  that the table has or there are fewer than 2^24 - 1 of them, a sequence of calls leaves the vector that
  `RunVector` computes, and that vector always stands for the map that the same calls build.
 */
module TableRuns {
  import opened RobinHood
  import opened DenseVector
  import opened TagWidth
  import opened UnorderedDense

  datatype Call<K, V> =
    | Push(k: K, v: V)
    | Emplace(k: K, v: V)
    | TryEmplace(k: K, v: V)
    | EraseKey(k: K)
    | EraseAt(at: nat)
    | EraseRange(first: nat, last: nat)
    | Reserve(count: nat)
    | Rehash(count: nat)
    | Clear

  /** Iterators passed to an erasure must point into the vector; sizes must stay representable. */
  predicate Allowed<K, V>(size: nat, c: Call<K, V>) {
    match c
    case EraseAt(at) => at < size
    case EraseRange(first, last) => first <= last <= size
    case Reserve(count) => count <= MAX_ENTRIES
    case Rehash(count) => count <= MAX_ENTRIES
    case _ => true
  }

  function StepVector<K(==), V>(vals: seq<(K, V)>, c: Call<K, V>): seq<(K, V)>
    requires Allowed(|vals|, c)
  {
    match c
    case Push(k, v) => Inserted(vals, k, v)
    case Emplace(k, v) => Inserted(vals, k, v)
    case TryEmplace(k, v) => Inserted(vals, k, v)
    case EraseKey(k) => Erased(vals, k)
    case EraseAt(at) => SwapRemove(vals, at)
    case EraseRange(first, last) => RangeErased(vals, first, last)
    case Reserve(_) => vals
    case Rehash(_) => vals
    case Clear => []
  }

  /** The calls are allowed one after the other. */
  predicate AllAllowed<K(==), V>(vals: seq<(K, V)>, calls: seq<Call<K, V>>)
    decreases |calls|
  {
    calls != [] ==> Allowed(|vals|, calls[0]) && AllAllowed(StepVector(vals, calls[0]), calls[1..])
  }

  function RunVector<K(==), V>(vals: seq<(K, V)>, calls: seq<Call<K, V>>): seq<(K, V)>
    requires AllAllowed(vals, calls)
    decreases |calls|
  {
    if calls == [] then vals else RunVector(StepVector(vals, calls[0]), calls[1..])
  }

  /** What a call does to a map; erasures by position name the keys that stand there. */
  ghost function StepMap<K(!new), V>(m: map<K, V>, vals: seq<(K, V)>, c: Call<K, V>): map<K, V>
    requires Allowed(|vals|, c)
  {
    match c
    case Push(k, v) => if k in m then m else m[k := v]
    case Emplace(k, v) => if k in m then m else m[k := v]
    case TryEmplace(k, v) => if k in m then m else m[k := v]
    case EraseKey(k) => m - {k}
    case EraseAt(at) => m - {vals[at].0}
    case EraseRange(first, last) => m - set i | first <= i < last :: vals[i].0
    case Reserve(_) => m
    case Rehash(_) => m
    case Clear => map[]
  }

  ghost function RunMap<K(!new), V>(m: map<K, V>, vals: seq<(K, V)>, calls: seq<Call<K, V>>): map<K, V>
    requires AllAllowed(vals, calls)
    decreases |calls|
  {
    if calls == [] then m
    else
      RunMap(StepMap(m, vals, calls[0]), StepVector(vals, calls[0]), calls[1..])
  }

  lemma StepRefinesMap<K(!new), V>(vals: seq<(K, V)>, c: Call<K, V>)
    requires DistinctKeys(vals) && Allowed(|vals|, c)
    ensures DistinctKeys(StepVector(vals, c))
    ensures AsMap(StepVector(vals, c)) == StepMap(AsMap(vals), vals, c)
  {
    match c
    case Push(k, v) => InsertedRefinesMap(vals, k, v);
    case Emplace(k, v) => InsertedRefinesMap(vals, k, v);
    case TryEmplace(k, v) => InsertedRefinesMap(vals, k, v);
    case EraseKey(k) => ErasedRefinesMap(vals, k);
    case EraseAt(at) => SwapRemoveRefinesMap(vals, at);
    case EraseRange(first, last) => RangeErasedRefinesMap(vals, first, last);
    case Reserve(_) =>
    case Rehash(_) =>
    case Clear => assert AsMap(StepVector(vals, c)).Keys == {};
  }

  /** Every run of calls refines the run over the abstract map. */
  lemma {:induction false} RunRefinesMap<K(!new), V>(vals: seq<(K, V)>, calls: seq<Call<K, V>>)
    requires DistinctKeys(vals) && AllAllowed(vals, calls)
    ensures DistinctKeys(RunVector(vals, calls))
    ensures AsMap(RunVector(vals, calls)) == RunMap(AsMap(vals), vals, calls)
    decreases |calls|
  {
    if calls != [] {
      StepRefinesMap(vals, calls[0]);
      RunRefinesMap(StepVector(vals, calls[0]), calls[1..]);
    }
  }

  /** There are fewer than `bound` entries before, between and after the calls. */
  predicate AllBelow<K(==), V>(bound: nat, vals: seq<(K, V)>, calls: seq<Call<K, V>>)
    requires AllAllowed(vals, calls)
    decreases |calls|
  {
    |vals| < bound && (calls != [] ==> AllBelow(bound, StepVector(vals, calls[0]), calls[1..]))
  }

  /** What a call makes of the room of a table with n entries. */
  function StepRoom<K, V>(room: Room, n: nat, c: Call<K, V>): Room {
    match c
    case Push(_, _) => room.ForPush(n)
    case Emplace(_, _) => room.ForPush(n)
    case TryEmplace(_, _) => room.ForPush(n)
    case Reserve(count) => room.Reserved(Larger(count, n))
    case Rehash(count) => room.Rehashed(Larger(count, n))
    case _ => room
  }

  /** After each call the entries are spread over the buckets that the table then has. */
  ghost predicate StaySpread<K(!new), V>(
      hash: K -> Hash64, room: Room, vals: seq<(K, V)>, calls: seq<Call<K, V>>)
    requires AllAllowed(vals, calls)
    decreases |calls|
  {
    calls != [] ==>
      var room', vals' := StepRoom(room, |vals|, calls[0]), StepVector(vals, calls[0]);
      SpreadAt(hash, room'.shifts, vals') && StaySpread(hash, room', vals', calls[1..])
  }

  /** Runs that stay below 2^24 - 1 entries are spread by every hash function. */
  lemma {:induction false} FewEntriesStaySpread<K(!new), V>(
      hash: K -> Hash64, room: Room, vals: seq<(K, V)>, calls: seq<Call<K, V>>)
    requires AllAllowed(vals, calls) && AllBelow(REACH, vals, calls)
    ensures StaySpread(hash, room, vals, calls)
    decreases |calls|
  {
    if calls != [] {
      var room', vals' := StepRoom(room, |vals|, calls[0]), StepVector(vals, calls[0]);
      FewEntriesAreSpread(hash, room'.shifts, vals');
      FewEntriesStaySpread(hash, room', vals', calls[1..]);
    }
  }

  method Perform<K(==,!new), V>(t: Table<K, V>, c: Call<K, V>)
    requires t.Valid() && Allowed(|t.values|, c) && |t.values| < MAX_ENTRIES
    requires SpreadAt(t.hash, StepRoom(t.TheRoom(), |t.values|, c).shifts, StepVector(t.values, c))
    modifies t, t.buckets
    ensures t.Valid() && t.values == StepVector(old(t.values), c)
    ensures t.TheRoom() == StepRoom(old(t.TheRoom()), |old(t.values)|, c)
    ensures t.buckets == old(t.buckets) || fresh(t.buckets)
  {
    match c
    case Push(k, v) => var _ := t.HashtablePush(k, v);
    case Emplace(k, v) => var _, _ := t.Emplace(k, v);
    case TryEmplace(k, v) => var _, _ := t.TryEmplace(k, v);
    case EraseKey(k) => var _ := t.EraseKey(k);
    case EraseAt(at) => var _ := t.EraseAt(at);
    case EraseRange(first, last) => var _ := t.EraseRange(first, last);
    case Reserve(count) => t.Reserve(count);
    case Rehash(count) => t.Rehash(count);
    case Clear => t.Clear();
  }

  /** The table after a run holds exactly the map of that run, and lookups answer from it. */
  method PerformAll<K(==,!new), V>(t: Table<K, V>, calls: seq<Call<K, V>>, probe: K) returns (at: nat)
    requires t.Valid() && AllAllowed(t.values, calls) && AllBelow(MAX_ENTRIES, t.values, calls)
    requires StaySpread(t.hash, t.TheRoom(), t.values, calls)
    modifies t, t.buckets
    ensures t.Valid() && t.values == RunVector(old(t.values), calls)
    ensures AsMap(t.values) == RunMap(AsMap(old(t.values)), old(t.values), calls)
    ensures at <= |t.values|
    ensures at < |t.values| <==> probe in RunMap(AsMap(old(t.values)), old(t.values), calls)
    ensures at < |t.values| ==>
              t.values[at] == (probe, RunMap(AsMap(old(t.values)), old(t.values), calls)[probe])
    ensures t.buckets == old(t.buckets) || fresh(t.buckets)
    decreases |calls|
  {
    RunRefinesMap(t.values, calls);
    if calls == [] {
      at := t.Find(probe);
    } else {
      StepRefinesMap(t.values, calls[0]);
      Perform(t, calls[0]);
      at := PerformAll(t, calls[1..], probe);
    }
  }
}
