/**
  What a hash function that spreads nothing does to a table.  When 2^24 keys share one hash, the tag of
  the last one wraps to its bare fingerprint.  Erasing the first key then stops at that bucket and leaves
  a gap in front of it, and the last key, which is still in the vector, is not found any more.
 */
module CrowdedTable {
  import opened TwoPowers
  import opened RobinHood
  import opened TagWidth
  import opened DenseVector

  const CROWD: nat := REACH + 1

  /** All keys hash to the fingerprint f alone, so that their home is slot 0. */
  function OneHash(f: Hash64, shifts: nat): Layout<nat> {
    Layout(_ => f, shifts)
  }

  function Keys(v: nat): (vals: seq<(nat, ())>)
    ensures |vals| == v && DistinctKeys(vals)
  {
    seq(v, i => (i, ()))
  }

  /** The n buckets once the first v keys have been pushed, with tags of 32 bits. */
  function Crowded(n: nat, f: nat, v: nat): (b: seq<Bucket>)
    ensures |b| == n
  {
    seq(n, i requires 0 <= i < n => if i < v then Bucket(Tag(i, f) % TAG_RANGE, i) else EMPTY)
  }

  /** The n buckets once the first key has been erased: the run is one slot nearer, up to the wrapped tag. */
  function Erased0(n: nat, f: nat): (b: seq<Bucket>)
    ensures |b| == n
  {
    seq(n, i requires 0 <= i < n =>
      if i < REACH - 1 then Bucket(Tag(i, f), i + 1) else if i == REACH then Bucket(f, REACH) else EMPTY)
  }

  lemma AllAtHome(f: Hash64, shifts: nat, k: nat)
    requires f < DIST_INC && 8 <= shifts
    ensures OneHash(f, shifts).Home(k) == 0 && OneHash(f, shifts).Print(k) == f
  {
    assert Pow2(8) == DIST_INC;
    Pow2Monotone(8, shifts);
  }

  /** The tag of a probe after s increments on 32 bits. */
  function ProbingTag(s: nat, f: nat): nat {
    if s == 0 then DIST_INC + f else DistInc(ProbingTag(s - 1, f))
  }

  lemma {:induction false} ProbingTagWraps(s: nat, f: nat)
    requires f < DIST_INC
    ensures ProbingTag(s, f) == Tag(s, f) % TAG_RANGE
  {
    if s > 0 {
      ProbingTagWraps(s - 1, f);
      IncrementOfRemainder(Tag(s - 1, f));
    }
  }

  lemma IncrementOfRemainder(tag: nat)
    ensures DistInc(tag % TAG_RANGE) == DistInc(tag)
  {
  }

  /**
    Pushing key number v into a table that has been reserved, so that its n buckets stay: the probe meets all others,
    stops at the first empty bucket and takes it.
   */
  lemma PushedInLine(n: nat, f: Hash64, shifts: nat, v: nat)
    requires 0 < f < DIST_INC && 8 <= shifts && v < CROWD < n
    ensures var lay, b := OneHash(f, shifts), Crowded(n, f, v);
            && lay.Home(v) == 0 && Passed(lay, b, Keys(v), v, v)
            && ProbingTag(v, f) > b[v].tag
            && ShiftedUp(b, Crowded(n, f, v + 1), Bucket(ProbingTag(v, f), v), v, 0)
  {
    AllAtHome(f, shifts, v);
    ProbingTagWraps(v, f);
    forall t | 0 <= t < v
      ensures Tag(t, f) % TAG_RANGE == Tag(t, f)
    {
      FitsUpToReach(t, f);
    }
  }

  /** Erasing key 0 of the crowd, and looking for the last key afterwards. */
  lemma ErasureLosesAKey(n: nat, f: Hash64, shifts: nat)
    requires 0 < f < DIST_INC && 8 <= shifts && CROWD < n
    ensures ShiftedDown(Crowded(n, f, CROWD), Erased0(n, f), 0, REACH - 1)
    ensures var lay, rest := OneHash(f, shifts), SwapRemove(Keys(CROWD), 0);
            var b := Erased0(n, f)[REACH := Bucket(f, 0)];
            && FindIndex(rest, REACH) == 0
            && ProbeAt(lay, b, rest, REACH, REACH - 1, Tag(REACH - 1, f), REACH - 1)
            && Tag(REACH - 1, f) > b[REACH - 1].tag
  {
    AllAtHome(f, shifts, REACH);
    forall t | 0 <= t < REACH
      ensures Tag(t, f) % TAG_RANGE == Tag(t, f)
    {
      FitsUpToReach(t, f);
    }
    assert Tag(REACH, f) % TAG_RANGE == f;
    assert SwapRemove(Keys(CROWD), 0)[0].0 == REACH;
  }
}
