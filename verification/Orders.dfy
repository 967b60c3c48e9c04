/** Orders of positions, and sorting them: the contract of std::sort, which leaves the order of ties open. */
module Orders {

  function Identity(n: nat): (d: seq<nat>)
    ensures |d| == n
  {
    seq(n, i => i)
  }

  /** d lists each of 0..n once. */
  ghost predicate IsOrder(d: seq<nat>, n: nat) {
    multiset(d) == multiset(Identity(n))
  }

  lemma OrderInRange(d: seq<nat>, n: nat)
    requires IsOrder(d, n)
    ensures |d| == n && forall i :: 0 <= i < |d| ==> d[i] < n
  {
    assert |multiset(d)| == |d| && |multiset(Identity(n))| == n;
    forall i | 0 <= i < |d|
      ensures d[i] < n
    {
      assert d[i] in multiset(d);
      assert d[i] in Identity(n);
    }
  }

  /** The elements of s in the order d. */
  function Arranged<T>(s: seq<T>, d: seq<nat>): (r: seq<T>)
    requires forall i :: 0 <= i < |d| ==> d[i] < |s|
    ensures |r| == |d|
  {
    seq(|d|, i requires 0 <= i < |d| => s[d[i]])
  }

  lemma ArrangedWithout<T>(s: seq<T>, d: seq<nat>, k: nat)
    requires k < |d| && forall i :: 0 <= i < |d| ==> d[i] < |s|
    ensures multiset(Arranged(s, d)) == multiset(Arranged(s, d[..k] + d[k + 1..])) + multiset{s[d[k]]}
  {
    assert Arranged(s, d) == Arranged(s, d[..k]) + [s[d[k]]] + Arranged(s, d[k + 1..]);
    assert Arranged(s, d[..k] + d[k + 1..]) == Arranged(s, d[..k]) + Arranged(s, d[k + 1..]);
  }

  lemma Removed<T>(s: seq<T>, k: nat)
    requires k < |s|
    ensures multiset(s[..k] + s[k + 1..]) == multiset(s) - multiset{s[k]}
  {
    assert s == s[..k] + [s[k]] + s[k + 1..];
  }

  /** Where an element of one permutation stands in the other. */
  lemma Located<T>(a: seq<T>, b: seq<T>, x: T) returns (k: nat)
    requires multiset(a) == multiset(b) && x in a
    ensures k < |b| && b[k] == x
  {
    assert x in multiset(b);
    k :| k < |b| && b[k] == x;
  }

  lemma {:induction false} ArrangedTheSame<T>(s: seq<T>, d: seq<nat>, e: seq<nat>)
    requires multiset(d) == multiset(e)
    requires forall i :: 0 <= i < |d| ==> d[i] < |s|
    requires forall i :: 0 <= i < |e| ==> e[i] < |s|
    ensures multiset(Arranged(s, d)) == multiset(Arranged(s, e))
    decreases |d|
  {
    if d == [] {
      assert |multiset(e)| == |e|;
    } else {
      var n := |d| - 1;
      var k := Located(d, e, d[n]);
      Removed(e, k);
      Removed(d, n);
      assert d[..n] + d[n + 1..] == d[..n];
      ArrangedTheSame(s, d[..n], e[..k] + e[k + 1..]);
      ArrangedWithout(s, e, k);
      ArrangedWithout(s, d, n);
    }
  }

  /** Reordering keeps the elements. */
  lemma ArrangedIsPermutation<T>(s: seq<T>, d: seq<nat>)
    requires IsOrder(d, |s|)
    ensures |d| == |s| && forall i :: 0 <= i < |d| ==> d[i] < |s|
    ensures multiset(Arranged(s, d)) == multiset(s)
  {
    OrderInRange(d, |s|);
    ArrangedTheSame(s, d, Identity(|s|));
    assert Arranged(s, Identity(|s|)) == s;
  }

  predicate Ascending(values: seq<real>) {
    forall i, j :: 0 <= i < j < |values| ==> values[i] <= values[j]
  }

  /** The position at which value belongs. */
  method FindPlace(values: seq<real>, value: real) returns (p: nat)
    requires Ascending(values)
    ensures p <= |values|
    ensures forall i :: 0 <= i < p ==> values[i] <= value
    ensures forall i :: p <= i < |values| ==> value <= values[i]
  {
    p := |values|;
    while p > 0 && values[p - 1] > value
      invariant p <= |values|
      invariant forall i :: p <= i < |values| ==> value <= values[i]
    {
      p := p - 1;
    }
  }

  lemma InsertKeepsAscending(values: seq<real>, p: nat, value: real)
    requires Ascending(values) && p <= |values|
    requires forall i :: 0 <= i < p ==> values[i] <= value
    requires forall i :: p <= i < |values| ==> value <= values[i]
    ensures Ascending(values[..p] + [value] + values[p..])
  {
  }

  /** The positions before n stay in order when n is put at place p. */
  lemma InsertKeepsOrder(d: seq<nat>, n: nat, p: nat)
    requires IsOrder(d, n) && p <= |d|
    ensures IsOrder(d[..p] + [n] + d[p..], n + 1)
  {
    assert Identity(n + 1) == Identity(n) + [n];
    assert d == d[..p] + d[p..];
  }

  lemma ArrangedInsert<T>(s: seq<T>, d: seq<nat>, n: nat, p: nat)
    requires p <= |d| && n < |s| && forall i :: 0 <= i < |d| ==> d[i] < |s|
    ensures Arranged(s, d[..p] + [n] + d[p..]) == Arranged(s, d)[..p] + [s[n]] + Arranged(s, d)[p..]
  {
  }

  /** Positions in an order that makes the values ascending. */
  method SortPositions(values: seq<real>) returns (d: seq<nat>)
    ensures IsOrder(d, |values|) && |d| == |values| && forall i :: 0 <= i < |d| ==> d[i] < |values|
    ensures Ascending(Arranged(values, d))
  {
    d := [];
    var n: nat := 0;
    while n < |values|
      invariant 0 <= n <= |values| && IsOrder(d, n) && |d| == n
      invariant forall i :: 0 <= i < |d| ==> d[i] < |values|
      invariant Ascending(Arranged(values, d))
    {
      var p := FindPlace(Arranged(values, d), values[n]);
      InsertKeepsOrder(d, n, p);
      ArrangedInsert(values, d, n, p);
      InsertKeepsAscending(Arranged(values, d), p, values[n]);
      d := d[..p] + [n] + d[p..];
      n := n + 1;
    }
  }
}
