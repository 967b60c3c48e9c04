/**
  The scratch allocator (server/libaquery.cpp): it bumps an offset through one block, and moves on to a larger
  block when the current one is full.  Outgrown blocks are kept until the next release, so that what was
  allocated from them stays usable, and are then handed to the collector.

  Blocks are numbered in the order in which the system allocator returns them.
 */
module ScratchSpace {

  datatype Pointer = Null | At(block: nat, offset: nat)

  /** Bytes start up to end of a block, as returned by one call of Alloc. */
  datatype Region = Region(block: nat, start: nat, end: nat)

  predicate Disjoint(a: Region, b: Region) {
    a.block != b.block || a.end <= b.start || b.end <= a.start
  }

  ghost predicate AllDisjoint(regions: seq<Region>) {
    forall i, j :: 0 <= i < j < |regions| ==> Disjoint(regions[i], regions[j])
  }

  /** A region lies inside its block, which is the current one, filled up to cnt, or an outgrown one. */
  ghost predicate Placed(r: Region, sizes: seq<nat>, current: nat, cnt: nat, outgrown: seq<nat>) {
    && r.block < |sizes| && r.start <= r.end <= sizes[r.block]
    && (if r.block == current then r.end <= cnt else r.block in outgrown)
  }

  ghost predicate AllPlaced(regions: seq<Region>, sizes: seq<nat>, current: nat, cnt: nat, outgrown: seq<nat>) {
    forall i :: 0 <= i < |regions| ==> Placed(regions[i], sizes, current, cnt, outgrown)
  }

  /** How often block b is recorded among the blocks in use and those given away. */
  function Records(b: nat, outgrown: seq<nat>, handed: seq<nat>, freed: seq<nat>, current: nat): nat {
    multiset(outgrown)[b] + multiset(handed)[b] + multiset(freed)[b] + if b == current then 1 else 0
  }

  /** Every block that was ever allocated is in exactly one place. */
  ghost predicate Accounted(blocks: nat, outgrown: seq<nat>, handed: seq<nat>, freed: seq<nat>, current: nat) {
    forall b: nat :: Records(b, outgrown, handed, freed, current) == if b < blocks then 1 else 0
  }

  /** The current block has the recorded capacity and holds cnt bytes; regions and blocks are where they should be. */
  ghost predicate Sound(
      sizes: seq<nat>, current: nat, cnt: nat, capacity: nat, outgrown: seq<nat>, handed: seq<nat>, freed: seq<nat>,
      live: seq<Region>)
  {
    && current < |sizes| && sizes[current] == capacity && cnt <= capacity
    && Accounted(|sizes|, outgrown, handed, freed, current)
    && AllPlaced(live, sizes, current, cnt, outgrown) && AllDisjoint(live)
  }

  // ---------------------------------------------------------------------------------------------
  // Steps on values
  // ---------------------------------------------------------------------------------------------

  lemma BumpedRegions(live: seq<Region>, sizes: seq<nat>, current: nat, cnt: nat, outgrown: seq<nat>, end: nat)
    requires AllDisjoint(live) && AllPlaced(live, sizes, current, cnt, outgrown)
    requires current < |sizes| && cnt <= end <= sizes[current]
    ensures AllDisjoint(live + [Region(current, cnt, end)])
    ensures AllPlaced(live + [Region(current, cnt, end)], sizes, current, end, outgrown)
  {
    forall i | 0 <= i < |live|
      ensures Disjoint(live[i], Region(current, cnt, end)) && Placed(live[i], sizes, current, end, outgrown)
    {
      assert Placed(live[i], sizes, current, cnt, outgrown);
    }
  }

  lemma MovedRegions(live: seq<Region>, sizes: seq<nat>, current: nat, cnt: nat, outgrown: seq<nat>, size: nat, end: nat, cnt': nat)
    requires AllDisjoint(live) && AllPlaced(live, sizes, current, cnt, outgrown) && end <= cnt' && end <= size
    ensures AllDisjoint(live + [Region(|sizes|, 0, end)])
    ensures AllPlaced(live + [Region(|sizes|, 0, end)], sizes + [size], |sizes|, cnt', outgrown + [current])
  {
    forall i | 0 <= i < |live|
      ensures Disjoint(live[i], Region(|sizes|, 0, end))
      ensures Placed(live[i], sizes + [size], |sizes|, cnt', outgrown + [current])
    {
      assert Placed(live[i], sizes, current, cnt, outgrown);
    }
  }

  lemma Counted(s: seq<nat>, x: nat, b: nat)
    ensures multiset(s + [x])[b] == multiset(s)[b] + if b == x then 1 else 0
  {
    assert multiset(s + [x]) == multiset(s) + multiset{x};
  }

  lemma OutgrownIsAccounted(blocks: nat, outgrown: seq<nat>, handed: seq<nat>, freed: seq<nat>, current: nat)
    requires Accounted(blocks, outgrown, handed, freed, current)
    ensures Accounted(blocks + 1, outgrown + [current], handed, freed, blocks)
  {
    forall b: nat
      ensures Records(b, outgrown + [current], handed, freed, blocks) == if b < blocks + 1 then 1 else 0
    {
      Counted(outgrown, current, b);
      assert Records(b, outgrown, handed, freed, current) == if b < blocks then 1 else 0;
    }
  }

  lemma HandedIsAccounted(blocks: nat, outgrown: seq<nat>, handed: seq<nat>, freed: seq<nat>, current: nat)
    requires Accounted(blocks, outgrown, handed, freed, current)
    ensures Accounted(blocks, [], handed + outgrown, freed, current)
  {
    forall b: nat
      ensures Records(b, [], handed + outgrown, freed, current) == if b < blocks then 1 else 0
    {
      assert multiset(handed + outgrown) == multiset(handed) + multiset(outgrown);
      assert Records(b, outgrown, handed, freed, current) == if b < blocks then 1 else 0;
    }
  }

  lemma ReplacedIsAccounted(blocks: nat, outgrown: seq<nat>, handed: seq<nat>, freed: seq<nat>, current: nat)
    requires Accounted(blocks, outgrown, handed, freed, current)
    ensures Accounted(blocks + 1, outgrown, handed, freed + [current], blocks)
  {
    forall b: nat
      ensures Records(b, outgrown, handed, freed + [current], blocks) == if b < blocks + 1 then 1 else 0
    {
      Counted(freed, current, b);
      assert Records(b, outgrown, handed, freed, current) == if b < blocks then 1 else 0;
    }
  }

  /** A region at the end of the current block. */
  lemma Bumped(
      sizes: seq<nat>, current: nat, cnt: nat, capacity: nat, outgrown: seq<nat>, handed: seq<nat>, freed: seq<nat>,
      live: seq<Region>, sz: nat)
    requires Sound(sizes, current, cnt, capacity, outgrown, handed, freed, live) && cnt + sz <= capacity
    ensures Sound(sizes, current, cnt + sz, capacity, outgrown, handed, freed, live + [Region(current, cnt, cnt + sz)])
  {
    BumpedRegions(live, sizes, current, cnt, outgrown, cnt + sz);
  }

  /** A region at the start of a new block. */
  lemma Moved(
      sizes: seq<nat>, current: nat, cnt: nat, capacity: nat, outgrown: seq<nat>, handed: seq<nat>, freed: seq<nat>,
      live: seq<Region>, sz: nat, size: nat)
    requires Sound(sizes, current, cnt, capacity, outgrown, handed, freed, live) && cnt + sz <= size
    ensures Sound(sizes + [size], |sizes|, cnt + sz, size, outgrown + [current], handed, freed,
                  live + [Region(|sizes|, 0, sz)])
  {
    MovedRegions(live, sizes, current, cnt, outgrown, size, sz, cnt + sz);
    OutgrownIsAccounted(|sizes|, outgrown, handed, freed, current);
  }

  // ---------------------------------------------------------------------------------------------
  // The allocator
  // ---------------------------------------------------------------------------------------------

  class Space {
    var ret: Pointer
    var scratchspace: nat
    var ptr: nat
    var cnt: nat
    var capacity: nat
    var initialCapacity: nat
    var fractions: seq<nat>

    // The surroundings: blocks returned by the system allocator, passed to the collector, given back to the system.
    var blocks: nat
    var handed: seq<nat>
    var freed: seq<nat>

    /** Size of each block, and the regions returned since the last release. */
    ghost var sizes: seq<nat>
    ghost var live: seq<Region>

    ghost predicate Valid()
      reads this
    {
      && |sizes| == blocks && initialCapacity <= capacity
      && Sound(sizes, scratchspace, cnt, capacity, fractions, handed, freed, live)
    }

    constructor Init(initial: nat)
      ensures Valid() && capacity == initialCapacity == initial && cnt == 0 && ret == Null
      ensures fractions == handed == freed == [] && live == []
    {
      ret, scratchspace := Null, 0;
      ptr, cnt := 0, 0;
      capacity, initialCapacity := initial, initial;
      fractions := [];
      blocks, handed, freed := 1, [], [];
      sizes, live := [initial], [];
    }

    /** Room for sz bytes, apart from everything returned since the last release. */
    method Alloc(sz: nat) returns (p: Pointer)
      requires Valid()
      modifies this
      ensures Valid() && p.At?
      ensures live == old(live) + [Region(p.block, p.offset, p.offset + sz)]
      ensures cnt == old(cnt) + sz && initialCapacity == old(initialCapacity) && ret == old(ret)
      ensures handed == old(handed) && freed == old(freed)
      ensures if old(cnt) + sz <= old(capacity)
              then scratchspace == old(scratchspace) && capacity == old(capacity) && fractions == old(fractions)
              else scratchspace == old(blocks) && capacity == cnt + old(capacity) / 2
                   && fractions == old(fractions) + [old(scratchspace)]
    {
      ptr := cnt;
      if cnt + sz > capacity {
        Grow(sz);
      } else {
        Bumped(sizes, scratchspace, ptr, capacity, fractions, handed, freed, live, sz);
        live := live + [Region(scratchspace, ptr, ptr + sz)];
        cnt := cnt + sz;
      }
      p := At(scratchspace, ptr);
    }

    /** The unlikely branch of alloc: retires the full block and starts a larger one with the region. */
    method Grow(sz: nat)
      requires Valid() && cnt + sz > capacity
      modifies `ptr, `cnt, `capacity, `fractions, `scratchspace, `blocks, `sizes, `live
      ensures Valid() && ptr == 0 && scratchspace == old(blocks)
      ensures live == old(live) + [Region(scratchspace, 0, sz)]
      ensures cnt == old(cnt) + sz && capacity == cnt + old(capacity) / 2
      ensures fractions == old(fractions) + [old(scratchspace)]
    {
      Moved(sizes, scratchspace, cnt, capacity, fractions, handed, freed, live, sz, cnt + sz + capacity / 2);
      cnt := cnt + sz;
      capacity := cnt + capacity / 2;
      fractions := fractions + [scratchspace];
      scratchspace, blocks, sizes := blocks, blocks + 1, sizes + [capacity];
      ptr := 0;
      live := live + [Region(scratchspace, 0, sz)];
    }

    method RegisterRet(p: Pointer)
      requires Valid()
      modifies this`ret
      ensures Valid() && ret == p
    {
      ret := p;
    }

    /** Hands each block of fractions to the collector, in order, and forgets it. */
    method HandOver()
      requires Valid() && live == []
      modifies this`fractions, this`handed
      ensures Valid()
      ensures fractions == [] && handed == old(handed) + old(fractions)
    {
      HandedIsAccounted(blocks, fractions, handed, freed, scratchspace);
      if |fractions| > 0 {
        var i := 0;
        while i < |fractions|
          invariant 0 <= i <= |fractions| && fractions == old(fractions)
          invariant handed == old(handed) + fractions[..i]
        {
          handed := handed + [fractions[i]];
          i := i + 1;
        }
        assert fractions[..i] == fractions;
        fractions := [];
      } else {
        assert handed + fractions == handed;
      }
    }

    method Release()
      requires Valid()
      modifies this
      ensures Valid() && live == [] && ptr == cnt == 0 && fractions == []
      ensures handed == old(handed) + old(fractions)
      ensures freed == old(freed) && blocks == old(blocks) && ret == old(ret)
      ensures scratchspace == old(scratchspace) && capacity == old(capacity) && initialCapacity == old(initialCapacity)
    {
      ptr, cnt := 0, 0;
      live := [];
      HandOver();
    }

    /** Back to the initial capacity; a grown block goes back to the system, which returns one of that size. */
    method Reset()
      requires Valid()
      modifies this
      ensures Valid() && live == [] && cnt == 0 && fractions == [] && ret == Null
      ensures capacity == initialCapacity == old(initialCapacity)
      ensures handed == old(handed) + old(fractions)
      ensures if old(capacity) == initialCapacity
              then scratchspace == old(scratchspace) && freed == old(freed)
              else scratchspace == old(blocks) && freed == old(freed) + [old(scratchspace)]
    {
      Release();
      ret := Null;
      if capacity != initialCapacity {
        ReplacedIsAccounted(blocks, fractions, handed, freed, scratchspace);
        capacity := initialCapacity;
        freed := freed + [scratchspace];
        scratchspace, blocks, sizes := blocks, blocks + 1, sizes + [capacity];
      }
    }

    /** Gives everything away: afterwards each block ever allocated has been handed over or freed, exactly once. */
    method Cleanup()
      requires Valid()
      modifies this
      ensures blocks == old(blocks)
      ensures handed == old(handed) + old(fractions) && freed == old(freed) + [old(scratchspace)]
      ensures forall b: nat :: multiset(handed)[b] + multiset(freed)[b] == if b < blocks then 1 else 0
    {
      live := [];
      HandOver();
      forall b: nat
        ensures multiset(handed)[b] + multiset(freed + [scratchspace])[b] == if b < blocks then 1 else 0
      {
        Counted(freed, scratchspace, b);
        assert Records(b, fractions, handed, freed, scratchspace) == if b < blocks then 1 else 0;
      }
      freed := freed + [scratchspace];
    }
  }

  // ---------------------------------------------------------------------------------------------
  // Whole sessions
  // ---------------------------------------------------------------------------------------------

  datatype Request = Allocate(sz: nat) | DoRelease | DoReset

  /** Sizes of the regions that a run of requests leaves in use. */
  function InUse(requests: seq<Request>): seq<nat> {
    if requests == [] then []
    else
      match requests[|requests| - 1]
      case Allocate(sz) => InUse(requests[..|requests| - 1]) + [sz]
      case _ => []
  }

  function Size(r: Region): int {
    r.end - r.start
  }

  /** A whole session: at its end, exactly the regions asked for since the last release or reset are in use. */
  method Serve(requests: seq<Request>, initial: nat) returns (space: Space)
    ensures fresh(space) && space.Valid() && space.initialCapacity == initial
    ensures |space.live| == |InUse(requests)|
    ensures forall i :: 0 <= i < |space.live| ==> Size(space.live[i]) == InUse(requests)[i]
    ensures forall i, j :: 0 <= i < j < |space.live| ==>
              var a, b := space.live[i], space.live[j];
              a.block != b.block || a.end <= b.start || b.end <= a.start
  {
    space := new Space.Init(initial);
    var i := 0;
    while i < |requests|
      invariant 0 <= i <= |requests| && fresh(space) && space.Valid() && space.initialCapacity == initial
      invariant |space.live| == |InUse(requests[..i])|
      invariant forall j :: 0 <= j < |space.live| ==> Size(space.live[j]) == InUse(requests[..i])[j]
    {
      assert requests[..i + 1][..i] == requests[..i];
      match requests[i] {
        case Allocate(sz) =>
          var p := space.Alloc(sz);
        case DoRelease =>
          space.Release();
        case DoReset =>
          space.Reset();
      }
      i := i + 1;
    }
    assert requests[..i] == requests;
  }
}
