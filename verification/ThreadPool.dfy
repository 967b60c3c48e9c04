/**
  The dispatch protocol of the thread pool (server/threading.cpp) as interleaved steps of three kinds of
  actors: the submitter inside enqueue_task, the ticker thread and one daemon thread per slot.

  Every step is one access to shared state: a flag, a slot, the queue, the mutex or `ticking`.  Tasks are
  numbered by submission; calls of enqueue_task do not overlap.
 */
module ThreadPool {

  /** Program counter of enqueue_task; t is the task being submitted. */
  datatype Submitting =
    | Resting
    | ReadTicking(t: nat)
    | TrySlot(t: nat, i: nat)
    | FillSlot(t: nat, i: nat)
    | RaiseFlag(t: nat, i: nat)
    | TakeLock(t: nat)
    | PushBack(t: nat)
    | RaiseTicking
    | DropLock

  /** Program counter of tick; the first loop locks around each dispatch, the second one around all of them. */
  datatype Ticking =
    | Sleeping
    | ReadSize
    | WhileQueued
    | WhileFew
    | Scan(i: nat)
    | Lock(i: nat)
    | Fill(i: nat)
    | Raise(i: nat)
    | Pop(i: nat)
    | Resize(i: nat)
    | Unlock(i: nat)
    | LockAll
    | WhileLocked
    | ScanLocked(i: nat)
    | FillLocked(i: nat)
    | RaiseLocked(i: nat)
    | PopLocked(i: nat)
    | UnlockAll
    | ClearTicking

  /** Program counter of a daemon: looking at its flag, about to run its slot, about to clear its flag. */
  datatype Working = Looking | Running | Clearing

  datatype Owner = Nobody | Submitter | Ticker

  datatype State = State(
    flags: seq<bool>,
    slots: seq<nat>,
    queue: seq<nat>,
    lock: Owner,
    ticking: bool,
    size: nat,
    submitter: Submitting,
    ticker: Ticking,
    workers: seq<Working>,
    log: Log)

  /** What has happened so far: tasks submitted, run, put into the queue, and handed to slots by the ticker. */
  datatype Log = Log(submitted: nat, ran: seq<nat>, queued: seq<nat>, dispatched: seq<nat>)

  datatype Actor = TheSubmitter | TheTicker | Worker(i: nat)

  function Initial(n: nat): State {
    State(seq(n, _ => false), seq(n, _ => 0), [], Nobody, false, 0, Resting, Sleeping, seq(n, _ => Looking), Log(0, [], [], []))
  }

  function Slots(s: State): nat {
    |s.flags|
  }

  /** Queue length from which the ticker stops handing out tasks one lock at a time. */
  function Few(s: State): nat {
    Slots(s) * 1024
  }

  // ---------------------------------------------------------------------------------------------
  // Steps
  // ---------------------------------------------------------------------------------------------

  predicate Shaped(s: State) {
    |s.slots| == |s.flags| == |s.workers|
  }

  function SubmitterStep(s: State): (r: State)
    requires Shaped(s)
    ensures Shaped(r) && Slots(r) == Slots(s)
  {
    match s.submitter
    case Resting => s.(log := s.log.(submitted := s.log.submitted + 1), submitter := ReadTicking(s.log.submitted))
    case ReadTicking(t) => s.(submitter := if s.ticking then TakeLock(t) else TrySlot(t, 0))
    case TrySlot(t, i) =>
      if i >= Slots(s) then s.(submitter := TakeLock(t))
      else if s.flags[i] then s.(submitter := TrySlot(t, i + 1))
      else s.(submitter := FillSlot(t, i))
    case FillSlot(t, i) => if i < Slots(s) then s.(slots := s.slots[i := t], submitter := RaiseFlag(t, i)) else s
    case RaiseFlag(t, i) => if i < Slots(s) then s.(flags := s.flags[i := true], submitter := Resting) else s
    case TakeLock(t) => if s.lock == Nobody then s.(lock := Submitter, submitter := PushBack(t)) else s
    case PushBack(t) => s.(queue := s.queue + [t], log := s.log.(queued := s.log.queued + [t]), submitter := RaiseTicking)
    case RaiseTicking => s.(ticking := true, submitter := DropLock)
    case DropLock => s.(lock := Nobody, submitter := Resting)
  }

  function TickerStep(s: State): (r: State)
    requires Shaped(s)
    ensures Shaped(r) && Slots(r) == Slots(s)
  {
    match s.ticker
    case Sleeping => if s.ticking then s.(ticker := ReadSize) else s
    case ReadSize => s.(size := |s.queue|, ticker := WhileQueued)
    case WhileQueued => s.(ticker := if s.queue == [] then ClearTicking else WhileFew)
    case WhileFew => s.(ticker := if s.queue != [] && s.size < Few(s) then Scan(0) else LockAll)
    case Scan(i) =>
      s.(ticker := if i >= Slots(s) then WhileFew else if s.flags[i] then Scan(i + 1) else Lock(i))
    case Lock(i) => if s.lock == Nobody then s.(lock := Ticker, ticker := Fill(i)) else s
    case Fill(i) =>
      if i < Slots(s) && s.queue != [] then s.(slots := s.slots[i := s.queue[0]], ticker := Raise(i)) else s
    case Raise(i) =>
      if i < Slots(s) then
        s.(flags := s.flags[i := true], log := s.log.(dispatched := s.log.dispatched + [s.slots[i]]), ticker := Pop(i))
      else s
    case Pop(i) => if s.queue != [] then s.(queue := s.queue[1..], ticker := Resize(i)) else s
    case Resize(i) => s.(size := |s.queue|, ticker := Unlock(i))
    case Unlock(i) => s.(lock := Nobody, ticker := if s.size >= Few(s) || s.size == 0 then WhileFew else Scan(i + 1))
    case LockAll => if s.lock == Nobody then s.(lock := Ticker, ticker := WhileLocked) else s
    case WhileLocked => s.(ticker := if s.queue == [] then UnlockAll else ScanLocked(0))
    case ScanLocked(i) =>
      s.(ticker := if i >= Slots(s) then WhileLocked else if s.flags[i] then ScanLocked(i + 1) else FillLocked(i))
    case FillLocked(i) =>
      if i < Slots(s) && s.queue != [] then s.(slots := s.slots[i := s.queue[0]], ticker := RaiseLocked(i)) else s
    case RaiseLocked(i) =>
      if i < Slots(s) then
        s.(flags := s.flags[i := true], log := s.log.(dispatched := s.log.dispatched + [s.slots[i]]), ticker := PopLocked(i))
      else s
    case PopLocked(i) =>
      if s.queue != [] then
        s.(queue := s.queue[1..], ticker := if |s.queue| == 1 then WhileLocked else ScanLocked(i + 1))
      else s
    case UnlockAll => s.(lock := Nobody, ticker := WhileQueued)
    case ClearTicking => s.(ticking := false, ticker := Sleeping)
  }

  function WorkerStep(s: State, i: nat): (r: State)
    requires Shaped(s) && i < Slots(s)
    ensures Shaped(r) && Slots(r) == Slots(s)
  {
    match s.workers[i]
    case Looking => if s.flags[i] then s.(workers := s.workers[i := Running]) else s
    case Running => s.(log := s.log.(ran := s.log.ran + [s.slots[i]]), workers := s.workers[i := Clearing])
    case Clearing => s.(flags := s.flags[i := false], workers := s.workers[i := Looking])
  }

  function Step(s: State, a: Actor): (r: State)
    requires Shaped(s)
    ensures Shaped(r) && Slots(r) == Slots(s)
  {
    match a
    case TheSubmitter => SubmitterStep(s)
    case TheTicker => TickerStep(s)
    case Worker(i) => if i < Slots(s) then WorkerStep(s, i) else s
  }

  /** The state after any interleaving of the actors. */
  function Run(n: nat, schedule: seq<Actor>): (s: State)
    ensures Shaped(s) && Slots(s) == n
  {
    if schedule == [] then Initial(n)
    else
      var before := Run(n, schedule[..|schedule| - 1]);
      Step(before, schedule[|schedule| - 1])
  }

  // ---------------------------------------------------------------------------------------------
  // Control: who may touch what
  // ---------------------------------------------------------------------------------------------

  /** The submitter is on the path that hands a task directly to a slot. */
  predicate Direct(p: Submitting) {
    p.TrySlot? || p.FillSlot? || p.RaiseFlag?
  }

  /** The slot that the ticker has chosen and whose flag it has not raised yet, or -1. */
  function ChosenSlot(t: Ticking): (i: int)
    ensures i >= -1
  {
    if t.Lock? || t.Fill? || t.Raise? || t.FillLocked? || t.RaiseLocked? then t.i else -1
  }

  /** The ticker has raised a flag for the task that is still in front of the queue. */
  predicate InWindow(t: Ticking) {
    t.Pop? || t.PopLocked?
  }

  predicate TickerHoldsLock(t: Ticking) {
    t.Fill? || t.Raise? || t.Pop? || t.Resize? || t.Unlock?
    || t.WhileLocked? || t.ScanLocked? || t.FillLocked? || t.RaiseLocked? || t.PopLocked? || t.UnlockAll?
  }

  predicate SubmitterHoldsLock(p: Submitting) {
    p.PushBack? || p.RaiseTicking? || p.DropLock?
  }

  /** Points at which the ticker relies on a non-empty queue. */
  predicate NeedsQueue(t: Ticking) {
    t.Scan? || t.Lock? || t.Fill? || t.Raise? || t.Pop? || t.ScanLocked? || t.FillLocked? || t.RaiseLocked? || t.PopLocked?
  }

  /** The mutex belongs to whoever is inside a locked region. */
  ghost predicate Locked(s: State) {
    && (s.lock == Ticker <==> TickerHoldsLock(s.ticker))
    && (s.lock == Submitter <==> SubmitterHoldsLock(s.submitter))
  }

  /** The ticker is awake only while `ticking` is set, and then no task goes to a slot directly. */
  ghost predicate Exclusive(s: State) {
    && (s.ticker != Sleeping ==> s.ticking)
    && (Direct(s.submitter) ==> s.ticker == Sleeping && !s.ticking)
  }

  ghost predicate QueueReady(s: State) {
    && (NeedsQueue(s.ticker) ==> s.queue != [])
    && (s.ticker.Unlock? && s.size != 0 ==> s.queue != [])
  }

  /** A slot chosen for a task keeps its flag down until the task is in it. */
  ghost predicate SlotsGuarded(s: State) {
    && Shaped(s)
    && ChosenSlot(s.ticker) < Slots(s) && (ChosenSlot(s.ticker) != -1 ==> !s.flags[ChosenSlot(s.ticker)])
    && (s.ticker.Raise? || s.ticker.RaiseLocked? ==>
          s.ticker.i < Slots(s) && s.queue != [] && s.slots[s.ticker.i] == s.queue[0])
    && (s.submitter.FillSlot? || s.submitter.RaiseFlag? ==> s.submitter.i < Slots(s) && !s.flags[s.submitter.i])
    && (s.submitter.RaiseFlag? ==> s.slots[s.submitter.i] == s.submitter.t)
    && (forall i :: 0 <= i < Slots(s) && s.workers[i] != Looking ==> s.flags[i])
  }

  ghost predicate Control(s: State) {
    Locked(s) && Exclusive(s) && QueueReady(s) && SlotsGuarded(s)
  }

  lemma SubmitterKeepsControl(s: State)
    requires Control(s)
    ensures Control(SubmitterStep(s))
  {
    SubmitterKeepsLocks(s);
    SubmitterKeepsGuards(s);
  }

  lemma SubmitterKeepsLocks(s: State)
    requires Control(s)
    ensures Locked(SubmitterStep(s)) && Exclusive(SubmitterStep(s)) && QueueReady(SubmitterStep(s))
  {
  }

  lemma SubmitterKeepsGuards(s: State)
    requires Control(s)
    ensures SlotsGuarded(SubmitterStep(s))
  {
  }

  lemma TickerKeepsControl(s: State)
    requires Control(s)
    ensures Control(TickerStep(s))
  {
    TickerKeepsLocks(s);
    TickerKeepsGuards(s);
  }

  lemma TickerKeepsLocks(s: State)
    requires Control(s)
    ensures Locked(TickerStep(s)) && Exclusive(TickerStep(s)) && QueueReady(TickerStep(s))
  {
  }

  lemma TickerKeepsGuards(s: State)
    requires Control(s)
    ensures SlotsGuarded(TickerStep(s))
  {
  }

  lemma WorkerKeepsControl(s: State, i: nat)
    requires Control(s) && i < Slots(s)
    ensures Control(WorkerStep(s, i))
  {
  }

  // ---------------------------------------------------------------------------------------------
  // First in, first out
  // ---------------------------------------------------------------------------------------------

  /** The queued tasks that no slot has received yet. */
  function Waiting(s: State): seq<nat> {
    if InWindow(s.ticker) && s.queue != [] then s.queue[1..] else s.queue
  }

  ghost predicate Fifo(s: State) {
    s.log.queued == s.log.dispatched + Waiting(s)
  }

  lemma SubmitterKeepsFifo(s: State)
    requires Control(s) && Fifo(s)
    ensures Fifo(SubmitterStep(s))
  {
  }

  lemma TickerKeepsFifo(s: State)
    requires Control(s) && Fifo(s)
    ensures Fifo(TickerStep(s))
  {
  }

  lemma WorkerKeepsFifo(s: State, i: nat)
    requires Shaped(s) && Fifo(s) && i < Slots(s)
    ensures Fifo(WorkerStep(s, i))
  {
  }

  // ---------------------------------------------------------------------------------------------
  // Conservation
  // ---------------------------------------------------------------------------------------------

  /** The task that enqueue_task has not handed over yet. */
  function InHand(p: Submitting): seq<nat> {
    match p
    case ReadTicking(t) => [t]
    case TrySlot(t, _) => [t]
    case FillSlot(t, _) => [t]
    case RaiseFlag(t, _) => [t]
    case TakeLock(t) => [t]
    case PushBack(t) => [t]
    case _ => []
  }

  /** Slot i holds a task that has been handed over and not been run yet. */
  predicate Pending(s: State, i: nat)
    requires Shaped(s) && i < Slots(s)
  {
    s.flags[i] && s.workers[i] != Clearing
  }

  /** The pending tasks of the first k slots. */
  function PendingTasks(s: State, k: nat): multiset<nat>
    requires Shaped(s) && k <= Slots(s)
  {
    if k == 0 then multiset{}
    else if Pending(s, k - 1) then PendingTasks(s, k - 1) + multiset{s.slots[k - 1]}
    else
      PendingTasks(s, k - 1)
  }

  function Everywhere(s: State): multiset<nat>
    requires Shaped(s)
  {
    multiset(InHand(s.submitter)) + multiset(Waiting(s)) + PendingTasks(s, Slots(s)) + multiset(s.log.ran)
  }

  /** The first k task numbers, each once. */
  function Numbers(k: nat): multiset<nat> {
    if k == 0 then multiset{} else Numbers(k - 1) + multiset{k - 1}
  }

  lemma {:induction false} NumbersAreUnique(k: nat, t: nat)
    ensures Numbers(k)[t] == if t < k then 1 else 0
  {
    if k > 0 {
      NumbersAreUnique(k - 1, t);
    }
  }

  /** Every submitted task is in exactly one place, once. */
  ghost predicate Conserved(s: State) {
    Shaped(s) && Everywhere(s) == Numbers(s.log.submitted)
  }

  predicate SameSlot(s: State, s': State, j: nat)
    requires Shaped(s) && Shaped(s') && j < Slots(s) && j < Slots(s')
  {
    Pending(s, j) == Pending(s', j) && (Pending(s, j) ==> s.slots[j] == s'.slots[j])
  }

  lemma {:induction false} SamePending(s: State, s': State, k: nat)
    requires Shaped(s) && Shaped(s') && k <= Slots(s) && k <= Slots(s')
    requires forall j :: 0 <= j < k ==> SameSlot(s, s', j)
    ensures PendingTasks(s, k) == PendingTasks(s', k)
  {
    if k > 0 {
      SamePending(s, s', k - 1);
      assert SameSlot(s, s', k - 1);
    }
  }

  /** One more slot becomes pending; read backwards, one slot's task has been run. */
  lemma {:induction false} OneMorePending(s: State, s': State, i: nat, k: nat)
    requires Shaped(s) && Shaped(s') && i < k <= Slots(s) && k <= Slots(s')
    requires !Pending(s, i) && Pending(s', i)
    requires forall j :: 0 <= j < k && j != i ==> SameSlot(s, s', j)
    ensures PendingTasks(s', k) == PendingTasks(s, k) + multiset{s'.slots[i]}
  {
    if i == k - 1 {
      SamePending(s, s', k - 1);
    } else {
      OneMorePending(s, s', i, k - 1);
      assert SameSlot(s, s', k - 1);
    }
  }

  lemma SubmitterPending(s: State)
    requires Control(s)
    ensures var s' := SubmitterStep(s);
            PendingTasks(s', Slots(s)) == PendingTasks(s, Slots(s))
              + if s.submitter.RaiseFlag? then multiset{s.submitter.t} else multiset{}
  {
    var s', n := SubmitterStep(s), Slots(s);
    if s.submitter.RaiseFlag? {
      OneMorePending(s, s', s.submitter.i, n);
    } else {
      SamePending(s, s', n);
    }
  }

  /** What the submitter has in hand after its step. */
  lemma HandMoves(s: State)
    requires Shaped(s)
    ensures InHand(SubmitterStep(s).submitter) == InHand(s.submitter)
            || (s.submitter == Resting && InHand(SubmitterStep(s).submitter) == [s.log.submitted])
            || ((s.submitter.RaiseFlag? || s.submitter.PushBack?) && InHand(SubmitterStep(s).submitter) == []
                && InHand(s.submitter) == [s.submitter.t])
    ensures s.submitter == Resting ==> InHand(SubmitterStep(s).submitter) == [s.log.submitted]
    ensures s.submitter.PushBack? ==> InHand(SubmitterStep(s).submitter) == []
  {
  }

  /** What waits in the queue after the submitter's step. */
  lemma WaitingMoves(s: State)
    requires Shaped(s) && QueueReady(s)
    ensures Waiting(SubmitterStep(s)) == Waiting(s) + if s.submitter.PushBack? then [s.submitter.t] else []
  {
  }

  lemma SubmittedMoves(s: State)
    requires Shaped(s)
    ensures SubmitterStep(s).log.ran == s.log.ran
    ensures SubmitterStep(s).log.submitted == s.log.submitted + if s.submitter == Resting then 1 else 0
  {
  }

  /** What the submitter's step takes from the hand and gives to the slots, as one balance. */
  lemma SubmitterMoves(s: State, s': State, handed: multiset<nat>, added: multiset<nat>)
    requires
      || (InHand(s'.submitter) + Waiting(s') == InHand(s.submitter) + Waiting(s) && handed == added == multiset{})
      || (InHand(s'.submitter) == [] && Waiting(s') == Waiting(s) + InHand(s.submitter) && handed == added == multiset{})
      || (InHand(s'.submitter) == [] && Waiting(s') == Waiting(s) && handed == multiset(InHand(s.submitter)) && added == multiset{})
      || (InHand(s.submitter) == [] && Waiting(s') == Waiting(s) && handed == multiset{} && added == multiset(InHand(s'.submitter)))
    ensures multiset(InHand(s'.submitter)) + multiset(Waiting(s')) + handed
         == multiset(InHand(s.submitter)) + multiset(Waiting(s)) + added
  {
    assert multiset(InHand(s'.submitter) + Waiting(s')) == multiset(InHand(s'.submitter)) + multiset(Waiting(s'));
    assert multiset(InHand(s.submitter) + Waiting(s)) == multiset(InHand(s.submitter)) + multiset(Waiting(s));
  }

  /** Bookkeeping of a submitter step: what becomes pending, and what is newly submitted. */
  lemma SubmitterBalance(s: State, s': State, handed: multiset<nat>)
    requires Shaped(s') && Slots(s') == Slots(s) && Conserved(s)
    requires PendingTasks(s', Slots(s)) == PendingTasks(s, Slots(s)) + handed && s'.log.ran == s.log.ran
    requires s'.log.submitted == s.log.submitted || s'.log.submitted == s.log.submitted + 1
    requires multiset(InHand(s'.submitter)) + multiset(Waiting(s')) + handed
          == multiset(InHand(s.submitter)) + multiset(Waiting(s))
               + (if s'.log.submitted == s.log.submitted then multiset{} else multiset{s.log.submitted})
    ensures Conserved(s')
  {
    var added := if s'.log.submitted == s.log.submitted then multiset{} else multiset{s.log.submitted};
    Rearranged(multiset(InHand(s.submitter)), multiset(Waiting(s)), PendingTasks(s, Slots(s)), multiset(s.log.ran),
               multiset(InHand(s'.submitter)), multiset(Waiting(s')), handed, added);
  }

  lemma Rearranged(
      a: multiset<nat>, b: multiset<nat>, p: multiset<nat>, r: multiset<nat>,
      a': multiset<nat>, b': multiset<nat>, handed: multiset<nat>, added: multiset<nat>)
    requires a' + b' + handed == a + b + added
    ensures a' + b' + (p + handed) + r == (a + b + p + r) + added
  {
    assert a' + b' + (p + handed) + r == (a' + b' + handed) + (p + r);
  }

  lemma SubmitterConserves(s: State)
    requires Control(s) && Conserved(s)
    ensures Conserved(SubmitterStep(s))
  {
    var s' := SubmitterStep(s);
    var handed := if s.submitter.RaiseFlag? then multiset{s.submitter.t} else multiset{};
    var added := if s.submitter == Resting then multiset{s.log.submitted} else multiset{};
    SubmitterPending(s);
    HandMoves(s);
    WaitingMoves(s);
    SubmittedMoves(s);
    SubmitterMoves(s, s', handed, added);
    SubmitterBalance(s, s', handed);
  }

  /** The ticker changes no slot that holds a pending task. */
  lemma TickerSlots(s: State, j: nat)
    requires SlotsGuarded(s) && j < Slots(s)
    ensures SameSlot(s, TickerStep(s), j) || (s.ticker == Raise(j) || s.ticker == RaiseLocked(j))
  {
  }

  lemma TickerRaises(s: State)
    requires SlotsGuarded(s) && (s.ticker.Raise? || s.ticker.RaiseLocked?)
    ensures s.ticker.i < Slots(s) && s.queue != [] && !Pending(s, s.ticker.i)
    ensures Pending(TickerStep(s), s.ticker.i) && TickerStep(s).slots[s.ticker.i] == s.queue[0]
  {
  }

  lemma TickerPending(s: State)
    requires SlotsGuarded(s)
    ensures PendingTasks(TickerStep(s), Slots(s)) == PendingTasks(s, Slots(s))
              + if s.ticker.Raise? || s.ticker.RaiseLocked? then multiset{s.queue[0]} else multiset{}
  {
    forall j | 0 <= j < Slots(s)
      ensures SameSlot(s, TickerStep(s), j) || (s.ticker == Raise(j) || s.ticker == RaiseLocked(j))
    {
      TickerSlots(s, j);
    }
    if s.ticker.Raise? || s.ticker.RaiseLocked? {
      TickerRaises(s);
      OneMorePending(s, TickerStep(s), s.ticker.i, Slots(s));
    } else {
      SamePending(s, TickerStep(s), Slots(s));
    }
  }

  lemma TickerMoves(s: State)
    requires Control(s)
    ensures var s' := TickerStep(s);
            && s'.log.ran == s.log.ran && s'.submitter == s.submitter && s'.log.submitted == s.log.submitted
            && Waiting(s) == (if s.ticker.Raise? || s.ticker.RaiseLocked? then [s.queue[0]] else []) + Waiting(s')
  {
  }

  lemma TickerConserves(s: State)
    requires Control(s) && Conserved(s)
    ensures Conserved(TickerStep(s))
  {
    TickerPending(s);
    TickerMoves(s);
  }

  lemma WorkerPending(s: State, i: nat)
    requires Control(s) && i < Slots(s)
    ensures var s' := WorkerStep(s, i);
            PendingTasks(s, Slots(s)) == PendingTasks(s', Slots(s))
              + if s.workers[i] == Running then multiset{s.slots[i]} else multiset{}
  {
    var s', n := WorkerStep(s, i), Slots(s);
    if s.workers[i] == Running {
      OneMorePending(s', s, i, n);
    } else {
      SamePending(s, s', n);
    }
  }

  lemma WorkerConserves(s: State, i: nat)
    requires Control(s) && Conserved(s) && i < Slots(s)
    ensures Conserved(WorkerStep(s, i))
  {
    WorkerPending(s, i);
  }

  // ---------------------------------------------------------------------------------------------
  // Whole runs
  // ---------------------------------------------------------------------------------------------

  ghost predicate Invariant(s: State) {
    Control(s) && Fifo(s) && Conserved(s)
  }

  lemma StepKeepsInvariant(s: State, a: Actor)
    requires Invariant(s)
    ensures Invariant(Step(s, a))
  {
    match a {
      case TheSubmitter =>
        SubmitterKeepsControl(s);
        SubmitterKeepsFifo(s);
        SubmitterConserves(s);
      case TheTicker =>
        TickerKeepsControl(s);
        TickerKeepsFifo(s);
        TickerConserves(s);
      case Worker(i) =>
        if i < Slots(s) {
          WorkerKeepsControl(s, i);
          WorkerKeepsFifo(s, i);
          WorkerConserves(s, i);
        }
    }
  }

  lemma InitialInvariant(n: nat)
    ensures Invariant(Initial(n))
  {
    NothingPending(n, n);
  }

  lemma {:induction false} NothingPending(n: nat, k: nat)
    requires k <= n
    ensures PendingTasks(Initial(n), k) == multiset{}
  {
    if k > 0 {
      NothingPending(n, k - 1);
    }
  }

  lemma {:induction false} RunKeepsInvariant(n: nat, schedule: seq<Actor>)
    ensures Invariant(Run(n, schedule))
    decreases |schedule|
  {
    if schedule == [] {
      InitialInvariant(n);
    } else {
      RunKeepsInvariant(n, schedule[..|schedule| - 1]);
      StepKeepsInvariant(Run(n, schedule[..|schedule| - 1]), schedule[|schedule| - 1]);
    }
  }

  /** The slot that an actor's next step writes, if any. */
  function WritesSlot(s: State, a: Actor): (r: int) {
    match a
    case TheSubmitter => if s.submitter.FillSlot? then s.submitter.i else -1
    case TheTicker => if s.ticker.Fill? || s.ticker.FillLocked? then s.ticker.i else -1
    case Worker(_) => -1
  }

  lemma OnlyWritesChangeSlots(s: State, a: Actor)
    requires Shaped(s)
    ensures forall i :: 0 <= i < Slots(s) && i != WritesSlot(s, a) ==> Step(s, a).slots[i] == s.slots[i]
  {
  }

  lemma WriteIsGuarded(s: State, a: Actor)
    requires Control(s) && WritesSlot(s, a) != -1
    ensures 0 <= WritesSlot(s, a) < Slots(s) && !s.flags[WritesSlot(s, a)]
  {
  }

  /** In every interleaving no slot is written while its payload flag is set, and front() has an element. */
  lemma NoSlotIsOverwritten(n: nat, schedule: seq<Actor>, a: Actor)
    ensures var s := Run(n, schedule);
            && (forall i :: 0 <= i < n && s.flags[i] ==> Step(s, a).slots[i] == s.slots[i])
            && (WritesSlot(s, a) != -1 ==> 0 <= WritesSlot(s, a) < n && !s.flags[WritesSlot(s, a)])
            && (NeedsQueue(s.ticker) ==> s.queue != [])
  {
    RunKeepsInvariant(n, schedule);
    var s := Run(n, schedule);
    if WritesSlot(s, a) != -1 {
      WriteIsGuarded(s, a);
    }
    OnlyWritesChangeSlots(s, a);
  }

  /** In every interleaving each submitted task is in exactly one place; in particular none runs twice. */
  lemma TasksAreConserved(n: nat, schedule: seq<Actor>, t: nat)
    ensures var s := Run(n, schedule);
            && Everywhere(s)[t] == (if t < s.log.submitted then 1 else 0)
            && multiset(s.log.ran)[t] <= 1
            && (t in s.log.ran ==> t < s.log.submitted)
  {
    RunKeepsInvariant(n, schedule);
    var s := Run(n, schedule);
    NumbersAreUnique(s.log.submitted, t);
    assert multiset(s.log.ran)[t] <= Everywhere(s)[t];
  }

  /** In every interleaving tasks leave the queue for a slot in the order in which they entered it. */
  lemma QueuedTasksAreFifo(n: nat, schedule: seq<Actor>)
    ensures var s := Run(n, schedule);
            s.log.dispatched <= s.log.queued && s.log.queued == s.log.dispatched + Waiting(s)
  {
    RunKeepsInvariant(n, schedule);
  }
}
