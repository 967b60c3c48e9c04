/**
  What the thread pool (server/threading.cpp) gets done.  While nothing new is submitted, the ticker and the daemons
  can run every task that has been submitted, unless the ticker is about to clear `ticking`, or has cleared it, with a
  task in the queue: such a task waits for the next one.
 */
module ThreadPoolProgress {
  import opened ThreadPool

  /** The state after some more steps. */
  function After(s: State, more: seq<Actor>): (r: State)
    requires Shaped(s)
    ensures Shaped(r) && Slots(r) == Slots(s)
    decreases |more|
  {
    if more == [] then s else After(Step(s, more[0]), more[1..])
  }

  lemma {:induction false} RunGoesOn(n: nat, schedule: seq<Actor>, more: seq<Actor>)
    ensures Run(n, schedule + more) == After(Run(n, schedule), more)
    decreases |more|
  {
    if more == [] {
      assert schedule + more == schedule;
    } else {
      RunGoesOn(n, schedule + [more[0]], more[1..]);
      RunOne(n, schedule, more[0]);
      assert schedule + [more[0]] + more[1..] == schedule + more;
    }
  }

  lemma RunOne(n: nat, schedule: seq<Actor>, a: Actor)
    ensures Run(n, schedule + [a]) == Step(Run(n, schedule), a)
  {
    assert (schedule + [a])[..|schedule|] == schedule;
  }

  lemma {:induction false} AfterAppend(s: State, a: seq<Actor>, b: seq<Actor>)
    requires Shaped(s)
    ensures After(s, a + b) == After(After(s, a), b)
    decreases |a|
  {
    if a == [] {
      assert a + b == b;
    } else {
      assert (a + b)[1..] == a[1..] + b;
      AfterAppend(Step(s, a[0]), a[1..], b);
    }
  }

  lemma AfterOne(s: State, a: Actor, rest: seq<Actor>)
    requires Shaped(s)
    ensures After(s, [a] + rest) == After(Step(s, a), rest)
  {
    assert ([a] + rest)[1..] == rest;
  }

  lemma {:induction false} AfterKeepsInvariant(s: State, more: seq<Actor>)
    requires Invariant(s)
    ensures Invariant(After(s, more))
    decreases |more|
  {
    if more != [] {
      StepKeepsInvariant(s, more[0]);
      AfterKeepsInvariant(Step(s, more[0]), more[1..]);
    }
  }

  /** Only the ticker and the daemons take steps. */
  predicate NoSubmitter(more: seq<Actor>) {
    forall i :: 0 <= i < |more| ==> more[i] != TheSubmitter
  }

  /** Every task submitted so far has been run, once. */
  ghost predicate AllRan(s: State) {
    multiset(s.log.ran) == Numbers(s.log.submitted)
  }

  /** Whatever is queued has a ticker that will look at the queue again. */
  predicate Attended(s: State) {
    s.queue == [] || (s.ticking && s.ticker != ClearTicking)
  }

  // ---------------------------------------------------------------------------------------------
  // The daemons finish what is in the slots
  // ---------------------------------------------------------------------------------------------

  /** The daemons' steps change nothing else. */
  predicate SameButSlots(s: State, r: State) {
    && r.queue == s.queue && r.ticking == s.ticking && r.size == s.size && r.lock == s.lock
    && r.submitter == s.submitter && r.ticker == s.ticker && r.log.submitted == s.log.submitted && Slots(r) == Slots(s)
  }

  /** The first k slots are free. */
  predicate Free(s: State, k: nat) {
    k <= Slots(s) && forall i :: 0 <= i < k ==> !s.flags[i]
  }

  function WorkLeft(s: State, i: nat): nat
    requires Shaped(s) && i < Slots(s)
  {
    if !s.flags[i] then 0
    else
      match s.workers[i]
      case Looking => 3
      case Running => 2
      case Clearing => 1
  }

  lemma OneWorkerStep(s: State, i: nat)
    requires SlotsGuarded(s) && i < Slots(s) && s.flags[i]
    ensures var r := WorkerStep(s, i);
            WorkLeft(r, i) < WorkLeft(s, i) && SameButSlots(s, r) && SlotsGuarded(r) && (Free(s, i) ==> Free(r, i))
  {
  }

  /** Steps of the daemons alone that free the first k slots. */
  ghost predicate Frees(s: State, more: seq<Actor>, k: nat)
    requires Shaped(s)
  {
    NoSubmitter(more) && SlotsGuarded(After(s, more)) && SameButSlots(s, After(s, more)) && Free(After(s, more), k)
  }

  lemma {:induction false} FreeOne(s: State, i: nat) returns (more: seq<Actor>)
    requires SlotsGuarded(s) && Free(s, i) && i < Slots(s)
    ensures Frees(s, more, i + 1)
    decreases WorkLeft(s, i)
  {
    more := [];
    if s.flags[i] {
      OneWorkerStep(s, i);
      var rest := FreeOne(Step(s, Worker(i)), i);
      FreesOneMore(s, i, rest, i + 1);
      more := [Worker(i)] + rest;
    }
  }

  lemma FreesOneMore(s: State, i: nat, rest: seq<Actor>, k: nat)
    requires Shaped(s) && i < Slots(s) && SameButSlots(s, Step(s, Worker(i))) && Frees(Step(s, Worker(i)), rest, k)
    ensures Frees(s, [Worker(i)] + rest, k)
  {
    AfterOne(s, Worker(i), rest);
  }

  lemma {:induction false} FreeAll(s: State, k: nat) returns (more: seq<Actor>)
    requires SlotsGuarded(s) && Free(s, k)
    ensures Frees(s, more, Slots(s))
    decreases Slots(s) - k
  {
    more := [];
    if k < Slots(s) {
      var one := FreeOne(s, k);
      var rest := FreeAll(After(s, one), k + 1);
      AfterAppend(s, one, rest);
      more := one + rest;
    }
  }

  // ---------------------------------------------------------------------------------------------
  // The ticker empties the queue
  // ---------------------------------------------------------------------------------------------

  /** Steps to the next dispatch, while all slots are free and the queue is not empty. */
  function Rank(t: Ticking, n: nat): nat {
    match t
    case Sleeping => 21
    case UnlockAll => 20
    case ReadSize => 19
    case WhileQueued => 18
    case Resize(_) => 17
    case Unlock(_) => 16
    case WhileFew => 14
    case Scan(i) => if i < n then 13 else 15
    case Lock(_) => 12
    case Fill(_) => 11
    case Raise(_) => 10
    case Pop(_) => 9
    case LockAll => 8
    case WhileLocked => 6
    case ScanLocked(i) => if i < n then 5 else 7
    case FillLocked(_) => 4
    case RaiseLocked(_) => 3
    case PopLocked(_) => 2
    case ClearTicking => 0
  }

  lemma TickerAdvances(s: State)
    requires Control(s) && Free(s, Slots(s)) && Slots(s) >= 1 && s.submitter == Resting
    requires s.queue != [] && Attended(s)
    ensures var r := TickerStep(s);
            && r.submitter == Resting && Attended(r) && r.log.submitted == s.log.submitted
            && (|r.queue| < |s.queue| || (r.queue == s.queue && Rank(r.ticker, Slots(s)) < Rank(s.ticker, Slots(s))))
  {
  }

  /** Nothing is left to be run. */
  lemma NothingLeft(s: State)
    requires Conserved(s) && Free(s, Slots(s)) && s.submitter == Resting && s.queue == []
    ensures AllRan(s)
  {
    NoPending(s, Slots(s));
  }

  lemma {:induction false} NoPending(s: State, k: nat)
    requires Shaped(s) && k <= Slots(s) && Free(s, Slots(s))
    ensures PendingTasks(s, k) == multiset{}
  {
    if k > 0 {
      NoPending(s, k - 1);
    }
  }

  /** Steps of the ticker and the daemons after which nothing is queued or in a slot. */
  ghost predicate Empties(s: State, more: seq<Actor>)
    requires Shaped(s)
  {
    var r := After(s, more);
    && NoSubmitter(more) && r.submitter == Resting && r.queue == [] && Free(r, Slots(r))
    && r.log.submitted == s.log.submitted
  }

  lemma EmptiesLater(s: State, work: seq<Actor>, rest: seq<Actor>)
    requires Shaped(s) && NoSubmitter(work) && After(s, work).log.submitted == s.log.submitted
    requires Empties(Step(After(s, work), TheTicker), rest)
    requires TickerStep(After(s, work)).log.submitted == s.log.submitted
    ensures Empties(s, work + ([TheTicker] + rest))
  {
    AfterOne(After(s, work), TheTicker, rest);
    AfterAppend(s, work, [TheTicker] + rest);
  }

  lemma {:induction false} Drains(s: State) returns (more: seq<Actor>)
    requires Invariant(s) && Slots(s) >= 1 && s.submitter == Resting && Attended(s)
    ensures Empties(s, more)
    decreases |s.queue|, Rank(s.ticker, Slots(s))
  {
    more := FreeAll(s, 0);
    var free := After(s, more);
    AfterKeepsInvariant(s, more);
    if s.queue != [] {
      TickerAdvances(free);
      StepKeepsInvariant(free, TheTicker);
      var rest := Drains(Step(free, TheTicker));
      EmptiesLater(s, more, rest);
      more := more + ([TheTicker] + rest);
    }
  }

  // ---------------------------------------------------------------------------------------------
  // A task that nobody attends to
  // ---------------------------------------------------------------------------------------------

  ghost predicate Unattended(s: State, queue: seq<nat>) {
    s.submitter == Resting && !Attended(s) && s.queue == queue
  }

  lemma StaysUnattended(s: State, a: Actor)
    requires Control(s) && Unattended(s, s.queue) && a != TheSubmitter
    ensures Unattended(Step(s, a), s.queue)
  {
  }

  lemma {:induction false} NeverAttended(s: State, more: seq<Actor>)
    requires Invariant(s) && Unattended(s, s.queue) && NoSubmitter(more)
    ensures Unattended(After(s, more), s.queue)
    decreases |more|
  {
    if more != [] {
      StaysUnattended(s, more[0]);
      StepKeepsInvariant(s, more[0]);
      NeverAttended(Step(s, more[0]), more[1..]);
    }
  }

  lemma FrontHasNotRun(s: State)
    requires Invariant(s) && Unattended(s, s.queue)
    ensures s.queue[0] !in s.log.ran && s.queue[0] < s.log.submitted
  {
    var t := s.queue[0];
    assert Waiting(s) == s.queue;
    assert t in multiset(Waiting(s));
    NumbersAreUnique(s.log.submitted, t);
    assert Everywhere(s)[t] >= multiset(Waiting(s))[t] + multiset(s.log.ran)[t];
  }

  lemma SomethingIsLeft(s: State)
    requires Invariant(s) && Unattended(s, s.queue)
    ensures !AllRan(s)
  {
    FrontHasNotRun(s);
    NumbersAreUnique(s.log.submitted, s.queue[0]);
  }

  /**
    After any run that leaves no call of enqueue_task open, the ticker and the daemons can run every submitted task
    exactly if the queue is attended to.
   */
  lemma CanFinish(n: nat, schedule: seq<Actor>)
    requires n >= 1 && Run(n, schedule).submitter == Resting
    ensures Attended(Run(n, schedule)) <==> exists more :: NoSubmitter(more) && AllRan(Run(n, schedule + more))
  {
    var s := Run(n, schedule);
    RunKeepsInvariant(n, schedule);
    if Attended(s) {
      var more := Drains(s);
      AfterKeepsInvariant(s, more);
      NothingLeft(After(s, more));
      RunGoesOn(n, schedule, more);
    } else {
      forall more | NoSubmitter(more)
        ensures !AllRan(Run(n, schedule + more))
      {
        NeverAttended(s, more);
        AfterKeepsInvariant(s, more);
        SomethingIsLeft(After(s, more));
        RunGoesOn(n, schedule, more);
      }
    }
  }

  // ---------------------------------------------------------------------------------------------
  // Two runs
  // ---------------------------------------------------------------------------------------------

  function Times(a: Actor, k: nat): (r: seq<Actor>)
    ensures |r| == k
  {
    if k == 0 then [] else [a] + Times(a, k - 1)
  }

  lemma OneOf(s: State, a: Actor, k: nat)
    requires Shaped(s) && k >= 1
    ensures After(s, Times(a, k)) == After(Step(s, a), Times(a, k - 1))
  {
    AfterOne(s, a, Times(a, k - 1));
  }

  /** Slot k is the first free one from i on; k is the number of slots if there is none. */
  predicate FirstFree(s: State, i: nat, k: nat) {
    i <= k <= Slots(s) && (forall j :: i <= j < k ==> s.flags[j]) && (k < Slots(s) ==> !s.flags[k])
  }

  /** enqueue_task, running alone, goes to the first free slot, or to the queue if there is none. */
  lemma {:induction false} TriesUpToFirstFree(s: State, t: nat, i: nat, k: nat)
    requires Shaped(s) && s.submitter == TrySlot(t, i) && FirstFree(s, i, k)
    ensures After(s, Times(TheSubmitter, k - i + 1)) == s.(submitter := if k < Slots(s) then FillSlot(t, k) else TakeLock(t))
    decreases k - i
  {
    OneOf(s, TheSubmitter, k - i + 1);
    if i < k {
      TriesUpToFirstFree(s.(submitter := TrySlot(t, i + 1)), t, i + 1, k);
    }
  }

  /** The ticker, running alone, goes to the first free slot, or starts again if there is none. */
  lemma {:induction false} ScansUpToFirstFree(s: State, i: nat, k: nat)
    requires Shaped(s) && s.ticker == Scan(i) && FirstFree(s, i, k)
    ensures After(s, Times(TheTicker, k - i + 1)) == s.(ticker := if k < Slots(s) then Lock(k) else WhileFew)
    decreases k - i
  {
    OneOf(s, TheTicker, k - i + 1);
    if i < k {
      ScansUpToFirstFree(s.(ticker := Scan(i + 1)), i + 1, k);
    }
  }

  /** The same in the loop that holds the lock. */
  lemma {:induction false} ScansLockedUpToFirstFree(s: State, i: nat, k: nat)
    requires Shaped(s) && s.ticker == ScanLocked(i) && FirstFree(s, i, k)
    ensures After(s, Times(TheTicker, k - i + 1)) == s.(ticker := if k < Slots(s) then FillLocked(k) else WhileLocked)
    decreases k - i
  {
    OneOf(s, TheTicker, k - i + 1);
    if i < k {
      ScansLockedUpToFirstFree(s.(ticker := ScanLocked(i + 1)), i + 1, k);
    }
  }

  /** The pool is at rest, with all slots free. */
  predicate Idle(s: State) {
    && s.submitter == Resting && s.ticker == Sleeping && !s.ticking && s.queue == []
    && Slots(s) >= 1 && Free(s, Slots(s))
  }

  lemma SubmitsDirectly(s: State)
    requires Shaped(s) && Idle(s)
    ensures var r := After(s, Times(TheSubmitter, 5));
            && r.submitter == Resting && r.ticker == Sleeping && !r.ticking && r.queue == []
            && r.log.submitted == s.log.submitted + 1
  {
    var s1 := Step(s, TheSubmitter);
    var s2 := Step(s1, TheSubmitter);
    var s3 := Step(s2, TheSubmitter);
    var s4 := Step(s3, TheSubmitter);
    OneOf(s, TheSubmitter, 5);
    OneOf(s1, TheSubmitter, 4);
    OneOf(s2, TheSubmitter, 3);
    OneOf(s3, TheSubmitter, 2);
    OneOf(s4, TheSubmitter, 1);
  }

  /** A pool with a slot can run any number of tasks. */
  lemma {:induction false} AnyTasksCanRun(n: nat, k: nat) returns (schedule: seq<Actor>)
    requires n >= 1
    ensures var s := Run(n, schedule); Idle(s) && s.log.submitted == k && AllRan(s)
  {
    schedule := [];
    if k == 0 {
      RunKeepsInvariant(n, []);
    } else {
      schedule := AnyTasksCanRun(n, k - 1);
      var more := OneMoreTask(n, schedule);
      schedule := schedule + more;
    }
    RunKeepsInvariant(n, schedule);
    NothingLeft(Run(n, schedule));
  }

  lemma OneMoreTask(n: nat, schedule: seq<Actor>) returns (more: seq<Actor>)
    requires n >= 1 && Idle(Run(n, schedule))
    ensures Idle(Run(n, schedule + more))
    ensures Run(n, schedule + more).log.submitted == Run(n, schedule).log.submitted + 1
  {
    var s := Run(n, schedule);
    RunKeepsInvariant(n, schedule);
    SubmitsDirectly(s);
    AfterKeepsInvariant(s, Times(TheSubmitter, 5));
    var work := FreeAll(After(s, Times(TheSubmitter, 5)), 0);
    more := Times(TheSubmitter, 5) + work;
    AfterAppend(s, Times(TheSubmitter, 5), work);
    RunGoesOn(n, schedule, more);
  }

  const DIRECT := State([true], [0], [], Nobody, false, 0, Resting, Sleeping, [Looking], Log(1, [], [], []))
  const BLOCKED := DIRECT.(submitter := TakeLock(1), log := Log(2, [], [], []))
  const QUEUED := DIRECT.(queue := [1], ticking := true, log := Log(2, [], [1], []))
  const FREED := QUEUED.(flags := [false], log := Log(2, [0], [1], []))
  const SCANNING := FREED.(size := 1, ticker := Scan(0))
  const RAISED := SCANNING.(slots := [1], lock := Ticker, ticker := Raise(0))
  const UNLOCKED := FREED.(flags := [true], slots := [1], queue := [], ticker := WhileFew, log := Log(2, [0], [1], [1]))
  const LOCKED := UNLOCKED.(lock := Ticker, ticker := WhileLocked)
  const EMPTIED := UNLOCKED.(ticker := ClearTicking)
  const LOST := EMPTIED.(queue := [2], log := Log(3, [0], [1, 2], [1]))

  lemma FirstGoesDirectly()
    ensures After(Initial(1), Times(TheSubmitter, 5)) == DIRECT
  {
    var s := Initial(1);
    var s1 := s.(log := Log(1, [], [], []), submitter := ReadTicking(0));
    var s2 := s1.(submitter := TrySlot(0, 0));
    var s3 := s2.(submitter := FillSlot(0, 0));
    var s4 := s3.(slots := [0], submitter := RaiseFlag(0, 0));
    OneOf(s, TheSubmitter, 5);
    OneOf(s1, TheSubmitter, 4);
    OneOf(s2, TheSubmitter, 3);
    OneOf(s3, TheSubmitter, 2);
    OneOf(s4, TheSubmitter, 1);
  }

  lemma SecondFindsNoSlot()
    ensures After(DIRECT, Times(TheSubmitter, 4)) == BLOCKED
  {
    var s := DIRECT;
    var s1 := s.(log := Log(2, [], [], []), submitter := ReadTicking(1));
    var s2 := s1.(submitter := TrySlot(1, 0));
    var s3 := s2.(submitter := TrySlot(1, 1));
    OneOf(s, TheSubmitter, 4);
    OneOf(s1, TheSubmitter, 3);
    OneOf(s2, TheSubmitter, 2);
    OneOf(s3, TheSubmitter, 1);
  }

  lemma SecondIsQueued()
    ensures After(BLOCKED, Times(TheSubmitter, 4)) == QUEUED
  {
    var s := BLOCKED;
    var s1 := s.(lock := Submitter, submitter := PushBack(1));
    var s2 := s1.(queue := [1], log := Log(2, [], [1], []), submitter := RaiseTicking);
    var s3 := s2.(ticking := true, submitter := DropLock);
    OneOf(s, TheSubmitter, 4);
    OneOf(s1, TheSubmitter, 3);
    OneOf(s2, TheSubmitter, 2);
    OneOf(s3, TheSubmitter, 1);
  }

  lemma FirstIsRun()
    ensures After(QUEUED, Times(Worker(0), 3)) == FREED
  {
    var s := QUEUED;
    var s1 := s.(workers := [Running]);
    var s2 := s1.(log := Log(2, [0], [1], []), workers := [Clearing]);
    OneOf(s, Worker(0), 3);
    OneOf(s1, Worker(0), 2);
    OneOf(s2, Worker(0), 1);
  }

  lemma TickerFindsSlot()
    ensures After(FREED, Times(TheTicker, 4)) == SCANNING
  {
    var s := FREED;
    var s1 := s.(ticker := ReadSize);
    var s2 := s1.(size := 1, ticker := WhileQueued);
    var s3 := s2.(ticker := WhileFew);
    OneOf(s, TheTicker, 4);
    OneOf(s1, TheTicker, 3);
    OneOf(s2, TheTicker, 2);
    OneOf(s3, TheTicker, 1);
  }

  lemma SecondIsDispatched()
    ensures After(SCANNING, Times(TheTicker, 3)) == RAISED
  {
    var s := SCANNING;
    var s1 := s.(ticker := Lock(0));
    var s2 := s1.(lock := Ticker, ticker := Fill(0));
    OneOf(s, TheTicker, 3);
    OneOf(s1, TheTicker, 2);
    OneOf(s2, TheTicker, 1);
  }

  lemma QueueIsEmptied()
    ensures After(RAISED, Times(TheTicker, 4)) == UNLOCKED
  {
    var s := RAISED;
    var s1 := s.(flags := [true], log := Log(2, [0], [1], [1]), ticker := Pop(0));
    var s2 := s1.(queue := [], ticker := Resize(0));
    var s3 := s2.(size := 0, ticker := Unlock(0));
    OneOf(s, TheTicker, 4);
    OneOf(s1, TheTicker, 3);
    OneOf(s2, TheTicker, 2);
    OneOf(s3, TheTicker, 1);
  }

  lemma QueueIsLocked()
    ensures After(UNLOCKED, Times(TheTicker, 2)) == LOCKED
  {
    var s := UNLOCKED;
    OneOf(s, TheTicker, 2);
    OneOf(s.(ticker := LockAll), TheTicker, 1);
  }

  lemma TickerIsDone()
    ensures After(LOCKED, Times(TheTicker, 3)) == EMPTIED
  {
    var s := LOCKED;
    var s1 := s.(ticker := UnlockAll);
    var s2 := s1.(lock := Nobody, ticker := WhileQueued);
    OneOf(s, TheTicker, 3);
    OneOf(s1, TheTicker, 2);
    OneOf(s2, TheTicker, 1);
  }

  lemma ThirdIsQueued()
    ensures After(EMPTIED, Times(TheSubmitter, 6)) == LOST
  {
    var s := EMPTIED;
    var s1 := s.(log := Log(3, [0], [1], [1]), submitter := ReadTicking(2));
    var s2 := s1.(submitter := TakeLock(2));
    var s3 := s2.(lock := Submitter, submitter := PushBack(2));
    var s4 := s3.(queue := [2], log := Log(3, [0], [1, 2], [1]), submitter := RaiseTicking);
    var s5 := s4.(submitter := DropLock);
    OneOf(s, TheSubmitter, 6);
    OneOf(s1, TheSubmitter, 5);
    OneOf(s2, TheSubmitter, 4);
    OneOf(s3, TheSubmitter, 3);
    OneOf(s4, TheSubmitter, 2);
    OneOf(s5, TheSubmitter, 1);
  }

  lemma Then(s: State, a: seq<Actor>, b: seq<Actor>, r: State)
    requires Shaped(s) && After(After(s, a), b) == r
    ensures After(s, a + b) == r
  {
    AfterAppend(s, a, b);
  }

  lemma Reaching() returns (schedule: seq<Actor>)
    ensures After(Initial(1), schedule) == LOST
  {
    FirstGoesDirectly();
    schedule := Times(TheSubmitter, 5);
    SecondFindsNoSlot();
    Then(Initial(1), schedule, Times(TheSubmitter, 4), BLOCKED);
    schedule := schedule + Times(TheSubmitter, 4);
    SecondIsQueued();
    Then(Initial(1), schedule, Times(TheSubmitter, 4), QUEUED);
    schedule := schedule + Times(TheSubmitter, 4);
    FirstIsRun();
    Then(Initial(1), schedule, Times(Worker(0), 3), FREED);
    schedule := schedule + Times(Worker(0), 3);
    TickerFindsSlot();
    Then(Initial(1), schedule, Times(TheTicker, 4), SCANNING);
    schedule := schedule + Times(TheTicker, 4);
    SecondIsDispatched();
    Then(Initial(1), schedule, Times(TheTicker, 3), RAISED);
    schedule := schedule + Times(TheTicker, 3);
    QueueIsEmptied();
    Then(Initial(1), schedule, Times(TheTicker, 4), UNLOCKED);
    schedule := schedule + Times(TheTicker, 4);
    QueueIsLocked();
    Then(Initial(1), schedule, Times(TheTicker, 2), LOCKED);
    schedule := schedule + Times(TheTicker, 2);
    TickerIsDone();
    Then(Initial(1), schedule, Times(TheTicker, 3), EMPTIED);
    schedule := schedule + Times(TheTicker, 3);
    ThirdIsQueued();
    Then(Initial(1), schedule, Times(TheSubmitter, 6), LOST);
    schedule := schedule + Times(TheSubmitter, 6);
  }

  /** Three tasks and one slot: the third is queued just before `ticking` is cleared, and never runs unless a fourth comes. */
  lemma TaskIsForgotten() returns (schedule: seq<Actor>)
    ensures Run(1, schedule).submitter == Resting && Run(1, schedule).log.submitted == 3
    ensures forall more :: NoSubmitter(more) ==> 2 !in Run(1, schedule + more).log.ran
  {
    schedule := Reaching();
    RunGoesOn(1, [], schedule);
    assert [] + schedule == schedule;
    RunKeepsInvariant(1, schedule);
    forall more | NoSubmitter(more)
      ensures 2 !in Run(1, schedule + more).log.ran
    {
      NeverAttended(LOST, more);
      RunGoesOn(1, schedule, more);
      RunKeepsInvariant(1, schedule + more);
      FrontHasNotRun(Run(1, schedule + more));
    }
  }
}
