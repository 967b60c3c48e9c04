/** Sliding windows: the last min(w, i + 1) positions up to i. */
module Windows {

  /** First index of the window of width w that ends at i; a window of width 0 never expires. */
  function From(w: nat, i: nat): (lo: nat)
    ensures lo <= i
    ensures i + 1 - lo == if 1 <= w < i + 1 then w else i + 1
  {
    if w == 0 || i < w then 0 else i - w + 1
  }
}

/**
  Sliding minimum and maximum (server/aggregations.h): a deque of candidates, kept in index order, from which
  each step drops at most one expired candidate in front and every beaten one at the back.
 */
module SlidingExtremes {

  import opened Windows

  const WORD := 0x1_0000_0000

  /** i - w in uint32_t. */
  function Before(i: nat, w: nat): (r: nat)
    requires i < WORD && w < WORD
    ensures r == if i >= w then i - w else WORD + i - w
  {
    (i - w) % WORD
  }

  /** x loses against y: it is larger when the least element is wanted, smaller when the greatest is. */
  predicate Beaten(least: bool, x: int, y: int) {
    if least then x > y else x < y
  }

  /** m is the least, or greatest, of s[lo..hi]. */
  ghost predicate IsExtreme(least: bool, s: seq<int>, lo: nat, hi: nat, m: int)
    requires hi <= |s|
  {
    && (forall k :: lo <= k < hi ==> !Beaten(least, m, s[k]))
    && (exists k :: lo <= k < hi && s[k] == m)
  }

  lemma ExtremeIsUnique(least: bool, s: seq<int>, lo: nat, hi: nat, m: int, m': int)
    requires hi <= |s| && IsExtreme(least, s, lo, hi, m) && IsExtreme(least, s, lo, hi, m')
    ensures m == m'
  {
    var k :| lo <= k < hi && s[k] == m;
    var k' :| lo <= k' < hi && s[k'] == m';
  }

  datatype Candidate = Candidate(value: int, index: nat)

  /** c is an element of s[lo..hi]. */
  predicate Placed(s: seq<int>, lo: nat, hi: nat, c: Candidate)
    requires hi <= |s|
  {
    lo <= c.index < hi && s[c.index] == c.value
  }

  /** c comes before d, and is no worse. */
  predicate InOrder(least: bool, c: Candidate, d: Candidate) {
    c.index < d.index && !Beaten(least, c.value, d.value)
  }

  /** Candidates are elements of s[lo..hi], increasing in index and monotone in value. */
  ghost predicate Lined(least: bool, s: seq<int>, lo: nat, hi: nat, cache: seq<Candidate>)
    requires hi <= |s|
  {
    && (forall j :: 0 <= j < |cache| ==> Placed(s, lo, hi, cache[j]))
    && (forall j, l :: 0 <= j < l < |cache| ==> InOrder(least, cache[j], cache[l]))
  }

  /** Some candidate outlives s[k] and is no worse. */
  ghost predicate Covered(least: bool, s: seq<int>, cache: seq<Candidate>, k: nat)
    requires k < |s|
  {
    exists j :: 0 <= j < |cache| && k <= cache[j].index && !Beaten(least, cache[j].value, s[k])
  }

  ghost predicate Covers(least: bool, s: seq<int>, lo: nat, hi: nat, cache: seq<Candidate>)
    requires hi <= |s|
  {
    forall k :: lo <= k < hi ==> Covered(least, s, cache, k)
  }

  /** The candidates after the front one is dropped if it is lo. */
  function Unexpired(lo: nat, cache: seq<Candidate>): seq<Candidate> {
    if cache != [] && cache[0].index == lo then cache[1..] else cache
  }

  lemma UnexpiredLined(least: bool, s: seq<int>, lo: nat, hi: nat, cache: seq<Candidate>)
    requires hi <= |s| && Lined(least, s, lo, hi, cache)
    ensures Lined(least, s, lo + 1, hi, Unexpired(lo, cache))
  {
    var rest := Unexpired(lo, cache);
    forall j | 0 <= j < |rest|
      ensures Placed(s, lo + 1, hi, rest[j])
    {
      assert Placed(s, lo, hi, cache[0]);
      assert rest != cache ==> InOrder(least, cache[0], cache[j + 1]);
      assert rest == cache && j > 0 ==> InOrder(least, cache[0], cache[j]);
    }
  }

  lemma UnexpiredCovers(least: bool, s: seq<int>, lo: nat, cache: seq<Candidate>, k: nat)
    requires lo < k < |s| && Covered(least, s, cache, k)
    ensures Covered(least, s, Unexpired(lo, cache), k)
  {
    var rest := Unexpired(lo, cache);
    var j :| 0 <= j < |cache| && k <= cache[j].index && !Beaten(least, cache[j].value, s[k]);
    assert if rest == cache then rest[j] == cache[j] else rest[j - 1] == cache[j];
  }

  /** The candidates stay good for s[lo + 1..hi] when the front one, if it is lo, is dropped. */
  lemma DropFront(least: bool, s: seq<int>, lo: nat, hi: nat, cache: seq<Candidate>)
    requires hi <= |s| && Lined(least, s, lo, hi, cache) && Covers(least, s, lo, hi, cache)
    ensures Lined(least, s, lo + 1, hi, Unexpired(lo, cache)) && Covers(least, s, lo + 1, hi, Unexpired(lo, cache))
  {
    UnexpiredLined(least, s, lo, hi, cache);
    forall k | lo + 1 <= k < hi
      ensures Covered(least, s, Unexpired(lo, cache), k)
    {
      UnexpiredCovers(least, s, lo, cache, k);
    }
  }

  /** What a beaten last candidate covers is covered by the element that beats it. */
  lemma DropBack(least: bool, s: seq<int>, lo: nat, hi: nat, cache: seq<Candidate>, k: nat)
    requires hi < |s| && cache != [] && Lined(least, s, lo, hi, cache)
    requires Beaten(least, cache[|cache| - 1].value, s[hi])
    requires lo <= k < hi && (Covered(least, s, cache, k) || !Beaten(least, s[hi], s[k]))
    ensures Covered(least, s, cache[..|cache| - 1], k) || !Beaten(least, s[hi], s[k])
  {
    if Beaten(least, s[hi], s[k]) {
      var j :| 0 <= j < |cache| && k <= cache[j].index && !Beaten(least, cache[j].value, s[k]);
      assert cache[..|cache| - 1][j] == cache[j];
    }
  }

  lemma PushLined(least: bool, s: seq<int>, lo: nat, hi: nat, cache: seq<Candidate>)
    requires lo <= hi < |s| && Lined(least, s, lo, hi, cache)
    requires cache == [] || !Beaten(least, cache[|cache| - 1].value, s[hi])
    ensures Lined(least, s, lo, hi + 1, cache + [Candidate(s[hi], hi)])
  {
    forall j | 0 <= j < |cache|
      ensures !Beaten(least, cache[j].value, s[hi])
    {
      assert j < |cache| - 1 ==> InOrder(least, cache[j], cache[|cache| - 1]);
    }
  }

  lemma PushCovers(least: bool, s: seq<int>, hi: nat, cache: seq<Candidate>, k: nat)
    requires k <= hi < |s| && (Covered(least, s, cache, k) || !Beaten(least, s[hi], s[k]))
    ensures Covered(least, s, cache + [Candidate(s[hi], hi)], k)
  {
    var pushed := cache + [Candidate(s[hi], hi)];
    if Covered(least, s, cache, k) {
      var j :| 0 <= j < |cache| && k <= cache[j].index && !Beaten(least, cache[j].value, s[k]);
      assert pushed[j] == cache[j];
    } else {
      assert pushed[|cache|] == Candidate(s[hi], hi);
    }
  }

  lemma PushBack(least: bool, s: seq<int>, lo: nat, hi: nat, cache: seq<Candidate>)
    requires lo <= hi < |s| && Lined(least, s, lo, hi, cache)
    requires cache == [] || !Beaten(least, cache[|cache| - 1].value, s[hi])
    requires forall k :: lo <= k < hi ==> Covered(least, s, cache, k) || !Beaten(least, s[hi], s[k])
    ensures Lined(least, s, lo, hi + 1, cache + [Candidate(s[hi], hi)])
    ensures Covers(least, s, lo, hi + 1, cache + [Candidate(s[hi], hi)])
  {
    PushLined(least, s, lo, hi, cache);
    forall k | lo <= k < hi + 1
      ensures Covered(least, s, cache + [Candidate(s[hi], hi)], k)
    {
      PushCovers(least, s, hi, cache, k);
    }
  }

  lemma FrontIsExtreme(least: bool, s: seq<int>, lo: nat, hi: nat, cache: seq<Candidate>)
    requires hi <= |s| && cache != [] && Lined(least, s, lo, hi, cache) && Covers(least, s, lo, hi, cache)
    ensures IsExtreme(least, s, lo, hi, cache[0].value)
  {
    assert s[cache[0].index] == cache[0].value;
    forall k | lo <= k < hi
      ensures !Beaten(least, cache[0].value, s[k])
    {
      assert Covered(least, s, cache, k);
    }
  }

  /** Dropping the candidate at i - w, if it is in front, is all it takes to move the window on to i. */
  lemma Expires(least: bool, w: nat, s: seq<int>, i: nat, cache: seq<Candidate>)
    requires 1 <= i < |s| < WORD && w < WORD
    requires Lined(least, s, From(w, i - 1), i, cache) && Covers(least, s, From(w, i - 1), i, cache)
    ensures Lined(least, s, From(w, i), i, Unexpired(Before(i, w), cache))
    ensures Covers(least, s, From(w, i), i, Unexpired(Before(i, w), cache))
  {
    if 1 <= w <= i {
      DropFront(least, s, From(w, i - 1), i, cache);
    }
  }

  /** The inner loop: candidates beaten by the new element leave at the back. */
  method PopBeaten(least: bool, arr: array<int>, lo: nat, i: nat, cache: seq<Candidate>) returns (kept: seq<Candidate>)
    requires lo <= i < arr.Length && Lined(least, arr[..], lo, i, cache) && Covers(least, arr[..], lo, i, cache)
    ensures Lined(least, arr[..], lo, i, kept)
    ensures kept == [] || !Beaten(least, kept[|kept| - 1].value, arr[i])
    ensures forall k :: lo <= k < i ==> Covered(least, arr[..], kept, k) || !Beaten(least, arr[i], arr[k])
  {
    kept := cache;
    ghost var s := arr[..];
    while kept != [] && Beaten(least, kept[|kept| - 1].value, arr[i])
      invariant Lined(least, s, lo, i, kept)
      invariant forall k :: lo <= k < i ==> Covered(least, s, kept, k) || !Beaten(least, s[i], s[k])
      decreases |kept|
    {
      forall k | lo <= k < i
        ensures Covered(least, s, kept[..|kept| - 1], k) || !Beaten(least, s[i], s[k])
      {
        DropBack(least, s, lo, i, kept, k);
      }
      kept := kept[..|kept| - 1];
    }
  }

  /** One step: what the deque is good for moves from the window of i - 1 to the window of i. */
  method Advance(least: bool, w: nat, arr: array<int>, i: nat, cache: seq<Candidate>) returns (next: seq<Candidate>)
    requires w < WORD && i < arr.Length < WORD
    requires i == 0 ==> cache == []
    requires i > 0 ==> Lined(least, arr[..], From(w, i - 1), i, cache) && Covers(least, arr[..], From(w, i - 1), i, cache)
    ensures next != []
    ensures Lined(least, arr[..], From(w, i), i + 1, next) && Covers(least, arr[..], From(w, i), i + 1, next)
  {
    var kept := cache;
    if kept != [] && kept[0].index == Before(i, w) {
      kept := kept[1..];
    }
    if i > 0 {
      Expires(least, w, arr[..], i, cache);
    }
    kept := PopBeaten(least, arr, From(w, i), i, kept);
    PushBack(least, arr[..], From(w, i), i, kept);
    next := kept + [Candidate(arr[i], i)];
  }

  method ExtremeW(least: bool, w: nat, arr: array<int>, ret: array<int>)
    requires w < WORD && ret != arr && ret.Length == arr.Length < 0x8000_0000
    modifies ret
    ensures forall i :: 0 <= i < arr.Length ==> IsExtreme(least, arr[..], From(w, i), i + 1, ret[i])
  {
    var cache: seq<Candidate> := [];
    var i := 0;
    while i < arr.Length
      invariant 0 <= i <= arr.Length
      invariant i == 0 ==> cache == []
      invariant i > 0 ==> Lined(least, arr[..], From(w, i - 1), i, cache) && Covers(least, arr[..], From(w, i - 1), i, cache)
      invariant forall n: nat :: n < i ==> IsExtreme(least, arr[..], From(w, n), n + 1, ret[n])
      invariant arr[..] == old(arr[..])
    {
      cache := Advance(least, w, arr, i, cache);
      FrontIsExtreme(least, arr[..], From(w, i), i + 1, cache);
      ret[i] := cache[0].value;
      i := i + 1;
    }
  }

  lemma ExtremeOccurs(least: bool, w: nat, s: seq<int>, r: seq<int>)
    requires |r| == |s| && forall i :: 0 <= i < |s| ==> IsExtreme(least, s, From(w, i), i + 1, r[i])
    ensures forall i :: 0 <= i < |s| ==> r[i] in s[From(w, i)..i + 1]
  {
    forall i | 0 <= i < |s|
      ensures r[i] in s[From(w, i)..i + 1]
    {
      var k :| From(w, i) <= k < i + 1 && s[k] == r[i];
      assert s[From(w, i)..i + 1][k - From(w, i)] == r[i];
    }
  }

  /** For w >= 1, the minimum of the last min(w, i + 1) elements. */
  method MinW(w: nat, arr: array<int>, ret: array<int>)
    requires w < WORD && ret != arr && ret.Length == arr.Length < 0x8000_0000
    modifies ret
    ensures forall i :: 0 <= i < arr.Length ==> ret[i] in arr[From(w, i)..i + 1]
    ensures forall i, k :: 0 <= i < arr.Length && From(w, i) <= k <= i ==> ret[i] <= arr[k]
  {
    ExtremeW(true, w, arr, ret);
    ExtremeOccurs(true, w, arr[..], ret[..]);
  }

  /** For w >= 1, the maximum of the last min(w, i + 1) elements. */
  method MaxW(w: nat, arr: array<int>, ret: array<int>)
    requires w < WORD && ret != arr && ret.Length == arr.Length < 0x8000_0000
    modifies ret
    ensures forall i :: 0 <= i < arr.Length ==> ret[i] in arr[From(w, i)..i + 1]
    ensures forall i, k :: 0 <= i < arr.Length && From(w, i) <= k <= i ==> arr[k] <= ret[i]
  {
    ExtremeW(false, w, arr, ret);
    ExtremeOccurs(false, w, arr[..], ret[..]);
  }
}

/** Sliding sum and mean (server/aggregations.h), over real numbers. */
module RunningSums {

  import opened Fractions
  import opened Windows

  /** Sum of s[lo..hi]. */
  function Sum(s: seq<real>, lo: nat, hi: nat): real
    requires lo <= hi <= |s|
    decreases hi - lo
  {
    if lo == hi then 0.0 else Sum(s, lo, hi - 1) + s[hi - 1]
  }

  lemma {:induction false} SumDropsFirst(s: seq<real>, lo: nat, hi: nat)
    requires lo < hi <= |s|
    ensures Sum(s, lo, hi) == s[lo] + Sum(s, lo + 1, hi)
    decreases hi - lo
  {
    if lo + 1 < hi {
      SumDropsFirst(s, lo, hi - 1);
    }
  }

  function WindowSum(s: seq<real>, w: nat, i: nat): real
    requires w >= 1 && i < |s|
  {
    Sum(s, From(w, i), i + 1)
  }

  function WindowMean(s: seq<real>, w: nat, i: nat): real
    requires w >= 1 && i < |s|
  {
    WindowSum(s, w, i) / ((i + 1 - From(w, i)) as real)
  }

  /** The elements of s added up from the front. */
  function Total(s: seq<real>): real {
    if s == [] then 0.0 else s[0] + Total(s[1..])
  }

  lemma {:induction false} SumIsTotal(s: seq<real>, lo: nat, hi: nat)
    requires lo <= hi <= |s|
    ensures Sum(s, lo, hi) == Total(s[lo..hi])
    decreases hi - lo
  {
    if lo < hi {
      SumDropsFirst(s, lo, hi);
      SumIsTotal(s, lo + 1, hi);
      assert s[lo..hi][1..] == s[lo + 1..hi];
    }
  }

  /** What the sums and means of the windows are: those of the last min(w, i + 1) elements. */
  lemma WindowMeans(s: seq<real>, w: nat, i: nat)
    requires w >= 1 && i < |s|
    ensures var k := if w <= i then w else i + 1;
            var window := s[i + 1 - k..i + 1];
            WindowSum(s, w, i) == Total(window) && WindowMean(s, w, i) * (k as real) == Total(window)
  {
    SumIsTotal(s, From(w, i), i + 1);
    Multiplied(WindowSum(s, w, i), if w <= i then w else i + 1);
  }

  lemma Multiplied(x: real, k: nat)
    requires k >= 1
    ensures (x / (k as real)) * (k as real) == x
  {
  }

  /** The window slides by one: the new element enters, and a full window loses its oldest. */
  lemma WindowSlides(s: seq<real>, w: nat, i: nat)
    requires w >= 1 && 1 <= i < |s|
    ensures WindowSum(s, w, i) == WindowSum(s, w, i - 1) + s[i] - if i < w then 0.0 else s[i - w]
  {
    if i >= w {
      SumDropsFirst(s, i - w, i + 1);
    }
  }

  method SumW(w: nat, arr: array<real>, ret: array<real>)
    requires (w >= 1 || arr.Length == 0) && ret != arr && ret.Length == arr.Length
    modifies ret
    ensures forall i :: 0 <= i < arr.Length ==> ret[i] == WindowSum(arr[..], w, i)
  {
    var len := arr.Length;
    var width := if w > len then len else w;
    if len == 0 {
      return;
    }
    ret[0] := arr[0];
    ghost var s := arr[..];
    assert Sum(s, 0, 1) == Sum(s, 0, 0) + s[0];
    var i := 1;
    while i < width
      invariant 1 <= i <= width && arr[..] == s
      invariant forall n :: 0 <= n < i ==> ret[n] == WindowSum(s, width, n)
    {
      WindowSlides(s, width, i);
      ret[i] := ret[i - 1] + arr[i];
      i := i + 1;
    }
    i := width;
    while i < len
      invariant width <= i <= len && arr[..] == s
      invariant forall n :: 0 <= n < i ==> ret[n] == WindowSum(s, width, n)
    {
      WindowSlides(s, width, i);
      ret[i] := ret[i - 1] + arr[i] - arr[i - width];
      i := i + 1;
    }
  }

  method AvgW(w: nat, arr: array<real>, ret: array<real>)
    requires (w >= 1 || arr.Length == 0) && ret != arr && ret.Length == arr.Length
    modifies ret
    ensures forall i :: 0 <= i < arr.Length ==> ret[i] == WindowMean(arr[..], w, i)
  {
    var len := arr.Length;
    var width := if w > len then len else w;
    if len == 0 {
      return;
    }
    ret[0] := arr[0];
    var total := arr[0];
    ghost var s := arr[..];
    assert Sum(s, 0, 1) == Sum(s, 0, 0) + s[0];
    var i := 1;
    while i < width
      invariant 1 <= i <= width && arr[..] == s
      invariant total == WindowSum(s, width, i - 1)
      invariant forall n :: 0 <= n < i ==> ret[n] == WindowMean(s, width, n)
    {
      WindowSlides(s, width, i);
      total := total + arr[i];
      ret[i] := total / ((i + 1) as real);
      i := i + 1;
    }
    i := width;
    while i < len
      invariant width <= i <= len && arr[..] == s
      invariant forall n :: 0 <= n < i ==> ret[n] == WindowMean(s, width, n)
    {
      WindowSlides(s, width, i);
      Divided(WindowSum(s, width, i - 1), arr[i] - arr[i - width], width as real);
      ret[i] := ret[i - 1] + (arr[i] - arr[i - width]) / (width as real);
      i := i + 1;
    }
  }
}

/** Running variance (server/aggregations.h), over real numbers. */
module RunningVariance {

  import opened RunningSums

  function Times(x: real, y: real): real {
    x * y
  }

  function Ratio(x: real, n: nat): real
    requires n >= 1
  {
    x / (n as real)
  }

  /** Squared deviations of the first n elements from c. */
  function Deviations(s: seq<real>, n: nat, c: real): real
    requires n <= |s|
  {
    if n == 0 then 0.0 else Deviations(s, n - 1, c) + Times(s[n - 1] - c, s[n - 1] - c)
  }

  function Mean(s: seq<real>, n: nat): real
    requires 1 <= n <= |s|
  {
    Ratio(Sum(s, 0, n), n)
  }

  /** Population variance of the first n elements, in two passes. */
  function Variance(s: seq<real>, n: nat): real
    requires 1 <= n <= |s|
  {
    Ratio(Deviations(s, n, Mean(s, n)), n)
  }

  function SumOfSquares(s: seq<real>, n: nat): real
    requires n <= |s|
  {
    if n == 0 then 0.0 else SumOfSquares(s, n - 1) + s[n - 1] * s[n - 1]
  }

  /** v is the variance of n values with the given sum and sum of squares. */
  predicate IsVariance(v: real, n: nat, sum: real, squares: real) {
    (n as real) * (n as real) * v == (n as real) * squares - sum * sum
  }

  /** The variance in one pass: the mean of the squares less the square of the mean. */
  lemma VarianceFromSquares(s: seq<real>, n: nat)
    requires 1 <= n <= |s|
    ensures (n as real) * (n as real) * Variance(s, n) == (n as real) * SumOfSquares(s, n) - Sum(s, 0, n) * Sum(s, 0, n)
  {
    OnePass(s, n);
  }

  lemma OnePass(s: seq<real>, n: nat)
    requires 1 <= n <= |s|
    ensures IsVariance(Variance(s, n), n, Sum(s, 0, n), SumOfSquares(s, n))
  {
    DeviationsFromZero(s, n);
    Recentred(s, n, 0.0, Mean(s, n));
    assert 0.0 + Mean(s, n) == Mean(s, n);
    FromSquares(Deviations(s, n, Mean(s, n)), n, Sum(s, 0, n), SumOfSquares(s, n));
  }

  lemma {:induction false} DeviationsFromZero(s: seq<real>, n: nat)
    requires n <= |s|
    ensures Deviations(s, n, 0.0) == SumOfSquares(s, n)
  {
    if n > 0 {
      DeviationsFromZero(s, n - 1);
    }
  }

  lemma FromSquares(deviations: real, n: nat, sum: real, squares: real)
    requires n >= 1 && deviations == squares + Shift(sum, n as real, 0.0, Ratio(sum, n))
    ensures IsVariance(Ratio(deviations, n), n, sum, squares)
  {
    var k, m := n as real, Ratio(sum, n);
    assert k * m == sum;
    assert deviations == squares - m * sum;
    assert k * Ratio(deviations, n) == deviations;
    assert k * (m * sum) == sum * sum;
  }

  /** What moving the centre of n values with the given sum from c to c + d adds to their squared deviations. */
  function Shift(sum: real, n: real, c: real, d: real): real {
    n * d * d - 2.0 * d * (sum - n * c)
  }

  lemma {:induction false} Recentred(s: seq<real>, n: nat, c: real, d: real)
    requires n <= |s|
    ensures Deviations(s, n, c + d) == Deviations(s, n, c) + Shift(Sum(s, 0, n), n as real, c, d)
  {
    if n > 0 {
      Recentred(s, n - 1, c, d);
      assert n as real == (n - 1) as real + 1.0;
      ShiftGrows(Sum(s, 0, n - 1), (n - 1) as real, c, d, s[n - 1]);
    }
  }

  lemma ShiftGrows(sum: real, n: real, c: real, d: real, x: real)
    ensures Shift(sum + x, n + 1.0, c, d) + Times(x - c, x - c) == Shift(sum, n, c, d) + Times(x - (c + d), x - (c + d))
  {
  }

  lemma MeanTimesCount(s: seq<real>, n: nat)
    requires 1 <= n <= |s|
    ensures (n as real) * Mean(s, n) == Sum(s, 0, n)
  {
  }

  /** One step of the running update of the squared deviations, for the means m of n and m' of n + 1 elements. */
  lemma CentreMoves(s: seq<real>, n: nat, k: real, m: real, m': real)
    requires n < |s| && k == n as real && k * m == Sum(s, 0, n) && (k + 1.0) * m' == Sum(s, 0, n + 1)
    ensures Deviations(s, n + 1, m') == Deviations(s, n, m) + Times(s[n] - m, s[n] - m')
  {
    Moved(s, n, k, m, m');
    Balance(Sum(s, 0, n), k, m, m', s[n]);
  }

  lemma Moved(s: seq<real>, n: nat, k: real, m: real, m': real)
    requires n < |s| && k == n as real
    ensures Deviations(s, n + 1, m')
         == Deviations(s, n, m) + Shift(Sum(s, 0, n), k, m, m' - m) + Times(s[n] - m', s[n] - m')
  {
    Recentred(s, n, m, m' - m);
    assert m + (m' - m) == m';
  }

  lemma DeviationsGrow(s: seq<real>, n: nat)
    requires 1 <= n < |s|
    ensures Deviations(s, n + 1, Mean(s, n + 1))
         == Deviations(s, n, Mean(s, n)) + Times(s[n] - Mean(s, n), s[n] - Mean(s, n + 1))
  {
    MeanTimesCount(s, n);
    MeanTimesCount(s, n + 1);
    CentreMoves(s, n, n as real, Mean(s, n), Mean(s, n + 1));
  }

  lemma Balance(sum: real, n: real, m: real, m': real, x: real)
    requires sum == n * m && sum + x == (n + 1.0) * m'
    ensures Shift(sum, n, m, m' - m) + Times(x - m', x - m') == Times(x - m, x - m')
  {
    var d := m' - m;
    assert x - m == (n + 1.0) * d && x - m' == n * d;
    assert 2.0 * d * (sum - n * m) == 0.0;
    Factored(n, d);
  }

  lemma Factored(n: real, d: real)
    ensures n * d * d + Times(n * d, n * d) == Times((n + 1.0) * d, n * d)
  {
  }

  /** At each i, the population variance of the first i + 1 elements. */
  method Vars(arr: array<real>, ret: array<real>)
    requires ret != arr && ret.Length == arr.Length
    modifies ret
    ensures forall i :: 0 <= i < arr.Length ==> ret[i] == Variance(arr[..], i + 1)
  {
    var len := arr.Length;
    if len == 0 {
      return;
    }
    ghost var s := arr[..];
    var total, deviations, mean := arr[0], 0.0, arr[0];
    ret[0] := 0.0;
    OfOne(s);
    var i := 1;
    while i < len
      invariant 1 <= i <= len && arr[..] == s
      invariant total == Sum(s, 0, i) && mean == Mean(s, i)
      invariant deviations == Deviations(s, i, mean)
      invariant forall n :: 0 <= n < i ==> ret[n] == Variance(s, n + 1)
    {
      DeviationsGrow(s, i);
      total := total + arr[i];
      var mean' := Ratio(total, i + 1);
      deviations := deviations + Times(arr[i] - mean, arr[i] - mean');
      mean := mean';
      ret[i] := Ratio(deviations, i + 1);
      i := i + 1;
    }
  }

  lemma OfOne(s: seq<real>)
    requires |s| >= 1
    ensures Sum(s, 0, 1) == s[0] && Mean(s, 1) == s[0]
    ensures Deviations(s, 1, s[0]) == 0.0 && Variance(s, 1) == 0.0
  {
    assert Sum(s, 0, 1) == Sum(s, 0, 0) + s[0];
    assert Deviations(s, 1, s[0]) == Deviations(s, 0, s[0]) + Times(s[0] - s[0], s[0] - s[0]);
  }
}
