/**
  The clock of an interval trigger (server/threading.cpp): a countdown in 32-bit milliseconds that is advanced
  by whatever time the host slept, and that fires when it runs out.
 */
module IntervalTrigger {

  /** uint32_t arithmetic is modulo this. */
  const WORD := 0x1_0000_0000

  function Wrapped(x: int): (w: nat)
    ensures w < WORD && (0 <= x < WORD ==> w == x)
  {
    x % WORD
  }

  function Elapsed(deltas: seq<nat>): nat {
    if deltas == [] then 0 else deltas[0] + Elapsed(deltas[1..])
  }

  /** Number of multiples of t that a tick from `before` to before + delta reaches. */
  function Crossed(t: nat, before: nat, delta: nat): int
    requires t >= 1
  {
    (before + delta) / t - before / t
  }

  /** When the clock, aligned after `before` milliseconds, fires: at each tick that reaches a multiple. */
  function Firings(t: nat, before: nat, deltas: seq<nat>): (fired: seq<bool>)
    requires t >= 1
    ensures |fired| == |deltas|
    decreases deltas
  {
    if deltas == [] then []
    else [Crossed(t, before, deltas[0]) > 0] + Firings(t, before + deltas[0], deltas[1..])
  }

  function Count(fired: seq<bool>): nat {
    if fired == [] then 0 else (if fired[0] then 1 else 0) + Count(fired[1..])
  }

  // ---------------------------------------------------------------------------------------------
  // Division
  // ---------------------------------------------------------------------------------------------

  lemma {:induction false} MonotoneProduct(t: int, a: int, b: int)
    requires t >= 1 && a < b
    ensures t * a + t <= t * b
    decreases b - a
  {
    assert t * (a + 1) == t * a + t;
    if a + 1 < b {
      MonotoneProduct(t, a + 1, b);
    }
  }

  /** Quotient and remainder are unique. */
  lemma Divided(t: int, x: int, q: int, r: int)
    requires t >= 1 && x == t * q + r && 0 <= r < t
    ensures x / t == q && x % t == r
  {
    if x / t < q {
      MonotoneProduct(t, x / t, q);
    } else if q < x / t {
      MonotoneProduct(t, q, x / t);
    }
  }

  /** Advancing a clock that shows x by d: the remainder wraps at most once over what d leaves. */
  lemma Advance(t: int, x: int, d: int)
    requires t >= 1 && x >= 0 && d >= 0
    ensures (x + d) % t == if x % t + d % t < t then x % t + d % t else x % t + d % t - t
    ensures (x + d) / t == x / t + d / t + if x % t + d % t < t then 0 else 1
  {
    var carry := if x % t + d % t < t then 0 else 1;
    assert x + d == t * (x / t) + x % t + (t * (d / t) + d % t);
    assert t * (x / t + d / t + carry) == t * (x / t) + t * (d / t) + t * carry;
    assert t * carry == if carry == 0 then 0 else t;
    Divided(t, x + d, x / t + d / t + carry, x % t + d % t - t * carry);
  }

  lemma QuotientIsPositive(t: int, d: int)
    requires t >= 1 && d >= 0
    ensures d / t >= 0 && (d / t >= 1 <==> d >= t)
  {
    if d / t < 0 {
      MonotoneProduct(t, d / t, 0);
    }
    if d >= t {
      Advance(t, d - t, t);
      Divided(t, t, 1, 0);
      if (d - t) / t < 0 {
        MonotoneProduct(t, (d - t) / t, 0);
      }
    } else {
      Divided(t, d, 0, d);
    }
  }

  /** What a clock that starts again at every multiple of t shows. */
  function Shown(t: nat, x: nat): (r: nat)
    requires t >= 1
    ensures r < t
  {
    x % t
  }

  /** The two subtractions of a tick are one subtraction modulo the interval, and it borrows when a multiple is reached. */
  lemma LaterTick(t: nat, remaining: nat, before: nat, delta: nat)
    requires t >= 1 && remaining == t - Shown(t, before)
    ensures remaining <= delta <==> Crossed(t, before, delta) > 0
    ensures remaining <= Shown(t, delta) ==> t + remaining - Shown(t, delta) == t - Shown(t, before + delta)
    ensures remaining > Shown(t, delta) ==> remaining - Shown(t, delta) == t - Shown(t, before + delta)
  {
    Advance(t, before, delta);
    QuotientIsPositive(t, delta);
    if delta < t {
      Divided(t, delta, 0, delta);
    }
  }

  /** A sum that wraps around comes back when enough is subtracted. */
  lemma WrapsBack(sum: nat, c: nat)
    requires c <= sum < c + WORD
    ensures Wrapped(Wrapped(sum) - c) == sum - c
  {
  }

  /** What is left of the countdown after a tick that shows `current` on a clock of its own. */
  function Left(t: nat, remaining: nat, current: nat): (left: nat)
    requires current < t && remaining <= t
    ensures left <= t
  {
    if remaining <= current then t + remaining - current else remaining - current
  }

  /** A tick keeps the clock aligned, or aligns a new one, and finds out whether it fires. */
  lemma TickKeepsAlignment(t: nat, remaining: nat, before: nat, delta: nat)
    requires t >= 1 && remaining <= t && (remaining == 0 || remaining == t - Shown(t, before))
    ensures Left(t, remaining, Shown(t, delta)) == t - Shown(t, if remaining == 0 then delta else before + delta)
    ensures remaining <= delta <==> remaining == 0 || Crossed(t, before, delta) > 0
  {
    if remaining != 0 {
      LaterTick(t, remaining, before, delta);
    }
  }

  lemma FiringsGoOn(t: nat, now: nat, deltas: seq<nat>, fired: seq<bool>, all: seq<bool>)
    requires t >= 1 && deltas != [] && fired + Firings(t, now, deltas) == all
    ensures fired + [Crossed(t, now, deltas[0]) > 0] + Firings(t, now + deltas[0], deltas[1..]) == all
    ensures Elapsed(deltas) == deltas[0] + Elapsed(deltas[1..])
  {
    assert fired + ([Crossed(t, now, deltas[0]) > 0] + Firings(t, now + deltas[0], deltas[1..])) == all;
  }

  // ---------------------------------------------------------------------------------------------
  // The trigger
  // ---------------------------------------------------------------------------------------------

  class IntervalBasedTrigger {
    const interval: nat
    var timeRemaining: nat

    ghost predicate Valid()
      reads this
    {
      1 <= interval < WORD && timeRemaining <= interval
    }

    /** After `elapsed` milliseconds the countdown ends at the next multiple of the interval. */
    ghost predicate Aligned(elapsed: nat)
      reads this
      requires Valid()
    {
      timeRemaining == interval - Shown(interval, elapsed)
    }

    /** A trigger as the host adds it: due at once. */
    constructor (interval: nat)
      requires 1 <= interval < WORD
      ensures Valid() && timeRemaining == 0 && this.interval == interval
    {
      this.interval, timeRemaining := interval, 0;
    }

    method Reset()
      requires Valid()
      modifies this`timeRemaining
      ensures Valid() && Aligned(0)
    {
      timeRemaining := interval;
      Divided(interval, 0, 0, 0);
    }

    /** One tick.  A new trigger fires at once; an aligned one exactly when a multiple is reached. */
    method Tick(delta: nat, ghost before: nat) returns (fired: bool)
      requires Valid() && delta < WORD
      requires timeRemaining == 0 || Aligned(before)
      modifies this`timeRemaining
      ensures Valid()
      ensures Aligned(if old(timeRemaining) == 0 then delta else before + delta)
      ensures fired <==> old(timeRemaining) == 0 || Crossed(interval, before, delta) > 0
    {
      TickKeepsAlignment(interval, timeRemaining, before, delta);
      fired := false;
      if timeRemaining <= delta {
        fired := true;
      }
      CountDown(Shown(interval, delta));
    }

    /** Takes off what the tick leaves over after whole intervals, in 32-bit arithmetic. */
    method CountDown(current: nat)
      requires Valid() && current < interval
      modifies this`timeRemaining
      ensures timeRemaining == Left(interval, old(timeRemaining), current)
    {
      if timeRemaining <= current {
        WrapsBack(interval + timeRemaining, current);
        timeRemaining := Wrapped(Wrapped(interval + timeRemaining) - current);
      } else {
        timeRemaining := timeRemaining - current;
      }
    }

    /** Any run of an aligned clock keeps it aligned, so it never drifts. */
    method TickOn(deltas: seq<nat>, ghost before: nat) returns (fired: seq<bool>)
      requires Valid() && Aligned(before)
      requires forall i :: 0 <= i < |deltas| ==> deltas[i] < WORD
      modifies this`timeRemaining
      ensures Valid() && Aligned(before + Elapsed(deltas))
      ensures fired == Firings(interval, before, deltas)
    {
      fired := [];
      var i := 0;
      ghost var now: nat := before;
      while i < |deltas|
        invariant 0 <= i <= |deltas| && Valid() && Aligned(now)
        invariant now + Elapsed(deltas[i..]) == before + Elapsed(deltas)
        invariant fired + Firings(interval, now, deltas[i..]) == Firings(interval, before, deltas)
      {
        var f := Tick(deltas[i], now);
        FiringsGoOn(interval, now, deltas[i..], fired, Firings(interval, before, deltas));
        fired := fired + [f];
        assert deltas[i..][1..] == deltas[i + 1..];
        now := now + deltas[i];
        i := i + 1;
      }
    }

    /** A non-empty run of a newly added trigger: the first tick fires, later ones at the multiples. */
    method TickAll(deltas: seq<nat>) returns (fired: seq<bool>)
      requires Valid() && timeRemaining == 0 && |deltas| >= 1
      requires forall i :: 0 <= i < |deltas| ==> deltas[i] < WORD
      modifies this`timeRemaining
      ensures Valid() && 1 <= timeRemaining <= interval
      ensures (Elapsed(deltas) + timeRemaining) % interval == 0
      ensures fired == [true] + Firings(interval, deltas[0], deltas[1..])
    {
      var first := Tick(deltas[0], 0);
      var rest := TickOn(deltas[1..], deltas[0]);
      fired := [first] + rest;
      var d := Elapsed(deltas);
      assert d + timeRemaining == interval * (d / interval) + interval;
      Divided(interval, d + timeRemaining, d / interval + 1, 0);
    }
  }

  // ---------------------------------------------------------------------------------------------
  // Number of firings
  // ---------------------------------------------------------------------------------------------

  /** No tick of the run reaches two multiples. */
  ghost predicate Unhurried(t: nat, before: nat, deltas: seq<nat>)
    requires t >= 1
    decreases deltas
  {
    deltas == [] || (Crossed(t, before, deltas[0]) <= 1 && Unhurried(t, before + deltas[0], deltas[1..]))
  }

  /** An aligned clock fires at most once per multiple, and exactly once iff no tick reaches two. */
  lemma {:induction false} FiringsPerMultiple(t: nat, before: nat, deltas: seq<nat>)
    requires t >= 1
    ensures Count(Firings(t, before, deltas)) <= Crossed(t, before, Elapsed(deltas))
    ensures Count(Firings(t, before, deltas)) == Crossed(t, before, Elapsed(deltas)) <==> Unhurried(t, before, deltas)
    decreases deltas
  {
    if deltas != [] {
      FiringsPerMultiple(t, before + deltas[0], deltas[1..]);
      Advance(t, before, deltas[0]);
      QuotientIsPositive(t, deltas[0]);
    }
  }

  /** Firings of a newly added trigger over a non-empty run. */
  function Fired(t: nat, deltas: seq<nat>): nat
    requires t >= 1 && |deltas| >= 1
  {
    Count([true] + Firings(t, deltas[0], deltas[1..]))
  }

  /** The number of firings is one more than the multiples passed exactly when no time was skipped. */
  lemma FiringsOfARun(t: nat, deltas: seq<nat>)
    requires t >= 1 && |deltas| >= 1
    ensures Fired(t, deltas) <= Elapsed(deltas) / t + 1
    ensures Fired(t, deltas) == Elapsed(deltas) / t + 1 <==> deltas[0] < t && Unhurried(t, deltas[0], deltas[1..])
  {
    FiringsPerMultiple(t, deltas[0], deltas[1..]);
    QuotientIsPositive(t, deltas[0]);
  }

  lemma {:induction false} ShortTicksAreUnhurried(t: nat, before: nat, deltas: seq<nat>)
    requires t >= 1 && forall i :: 0 <= i < |deltas| ==> deltas[i] <= t
    ensures Unhurried(t, before, deltas)
    decreases deltas
  {
    if deltas != [] {
      var d := deltas[0];
      Advance(t, before, d);
      if d == t {
        Divided(t, d, 1, 0);
      } else {
        Divided(t, d, 0, d);
      }
      ShortTicksAreUnhurried(t, before + d, deltas[1..]);
    }
  }

  /** With no tick longer than the interval, the count is exact iff the first tick is shorter than it. */
  lemma ShortTicks(t: nat, deltas: seq<nat>)
    requires t >= 1 && |deltas| >= 1 && forall i :: 0 <= i < |deltas| ==> deltas[i] <= t
    ensures Fired(t, deltas) == Elapsed(deltas) / t + 1 <==> deltas[0] < t
  {
    ShortTicksAreUnhurried(t, deltas[0], deltas[1..]);
    FiringsOfARun(t, deltas);
  }

  /** A first tick of exactly one interval passes two due times and fires once. */
  lemma FirstTickOfAWholeInterval()
    ensures Fired(10, [10]) == 1 && Elapsed([10]) / 10 + 1 == 2
  {
    var none: seq<nat> := [];
    assert [10][1..] == none && Firings(10, 10, none) == [];
    assert [true] + [] == [true] && [true][1..] == [];
    assert Elapsed(none) == 0;
  }
}
