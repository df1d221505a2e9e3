/** The two semaphores that bound Markdown snapshots, and the lease that a caller, its worker thread and
    the returned items share (scripts/course_source_catalog.py), as a state machine over any number of
    requests. A step is one operation of one request on a semaphore, the lease, an event or the result. */
module SnapshotLease {

  import opened Options

  const SLOTS: nat := 4

  type Name = nat

  /** Where the calling thread is. `BackOut` and `GiveSlot` are the two releases of a worker that is not
      started, `Failing` the handler in `markdown_source_files`. */
  datatype Caller =
    | Asking | Leased | Slotted | Retained | BackOut | GiveSlot | Waiting | Abandoning | Received | Failing | Finished

  /** Where the worker thread is: each of the last five is what `bounded_worker` has just done. */
  datatype Worker = NotStarted | Working | Stored | Signalled | Tidied | Unleased | Gone

  /** What the worker left in the shared dictionary. */
  datatype Outcome = Nothing | Value | Error

  /** One request. `validating` calls have no lease. The four counters say how often the request took a
      slot of the two semaphores and how often it gave one back. */
  datatype Request = Request(
    validating: bool,
    caller: Caller,
    worker: Worker,
    references: int,
    done: bool,
    abandoned: bool,
    result: Outcome,
    items: nat,
    returned: bool,
    finalized: bool,
    memoryTaken: nat,
    memoryGiven: nat,
    slotTaken: nat,
    slotGiven: nat)

  datatype State = State(memory: int, acquisition: int, requests: map<Name, Request>)

  datatype Move =
    | TakeMemory
    | Refused
    | TakeSlot
    | Retain
    | TooLate
    | BackOutLease
    | BackOutSlot
    | StartThread
    | WaitDone
    | WaitTimeout
    | ClearIfDone
    | Fail
    | ReturnItems(count: nat)
    | ReleaseOnFailure
    | DropItem
    | Finalize
    | Store(outcome: Outcome)
    | SetDone
    | ClearIfAbandoned
    | WorkerRelease
    | WorkerGivesSlot

  datatype Step = Begin(name: Name, validating: bool) | Do(name: Name, move: Move)

  // ------------------------------------------------------------------------------- one request

  /** `_SnapshotMemoryLease.release` */
  function Release(r: Request): Request {
    if r.references <= 0 then r
    else if r.references == 1 then r.(references := 0, memoryGiven := r.memoryGiven + 1)
    else r.(references := r.references - 1)
  }

  /** `_SnapshotMemoryLease.retain`, where it does not raise */
  function WithOneMore(r: Request): Request {
    if r.validating then r else r.(references := r.references + 1)
  }

  /** The lease is garbage: nothing refers to it any more. */
  predicate Unreachable(r: Request) {
    r.caller == Finished && r.worker in {NotStarted, Gone} && r.items == 0
  }

  predicate CanDo(r: Request, move: Move) {
    match move
    case TakeMemory => r.caller == Asking
    case Refused => r.caller == Asking && !r.validating
    case TakeSlot => r.caller == Leased
    case Retain => r.caller == Slotted
    case TooLate => r.caller in {Leased, Retained}
    case BackOutLease => r.caller == BackOut
    case BackOutSlot => r.caller == GiveSlot
    case StartThread => r.caller == Retained
    case WaitDone => r.caller == Waiting && r.done
    case WaitTimeout => r.caller == Waiting
    case ClearIfDone => r.caller == Abandoning
    case Fail => r.caller in {Leased, Received}
    case ReturnItems(count) => r.caller == Received && (count > 0 ==> !r.validating)
    case ReleaseOnFailure => r.caller == Failing
    case DropItem => r.caller == Finished && r.items > 0
    case Finalize => Unreachable(r) && !r.finalized
    case Store(outcome) => r.worker == Working && outcome != Nothing
    case SetDone => r.worker == Stored
    case ClearIfAbandoned => r.worker == Signalled
    case WorkerRelease => r.worker == Tidied
    case WorkerGivesSlot => r.worker == Unleased
  }

  function Moved(r: Request, move: Move): Request
    requires CanDo(r, move)
  {
    match move
    case TakeMemory =>
      if r.validating then r.(caller := Leased)
      else r.(caller := Leased, references := 1, memoryTaken := r.memoryTaken + 1)
    case Refused => r.(caller := Finished)
    case TakeSlot => r.(caller := Slotted, slotTaken := r.slotTaken + 1)
    case Retain => WithOneMore(r).(caller := Retained)
    case TooLate => r.(caller := if r.caller == Retained then BackOut else Failing)
    case BackOutLease => Release(r).(caller := GiveSlot)
    case BackOutSlot => r.(caller := Failing, slotGiven := r.slotGiven + 1)
    case StartThread => r.(caller := Waiting, worker := Working)
    case WaitDone => r.(caller := if r.result == Error then Failing else Received)
    case WaitTimeout => r.(caller := Abandoning, abandoned := true)
    case ClearIfDone => r.(caller := Failing, result := if r.done then Nothing else r.result)
    case Fail => r.(caller := Failing)
    case ReturnItems(count) => if count == 0 then Release(r).(caller := Finished)
      else r.(caller := Finished, items := count, returned := true)
    case ReleaseOnFailure => Release(r).(caller := Finished)
    case DropItem => r.(items := r.items - 1)
    case Finalize => Release(r).(finalized := true)
    case Store(outcome) => r.(worker := Stored, result := outcome)
    case SetDone => r.(worker := Signalled, done := true)
    case ClearIfAbandoned => r.(worker := Tidied, result := if r.abandoned then Nothing else r.result)
    case WorkerRelease => Release(r).(worker := Unleased)
    case WorkerGivesSlot => r.(worker := Gone, slotGiven := r.slotGiven + 1)
  }

  /** The references the calling thread answers for, including the one it takes for the worker; after
      items were returned it is the finalizer of the lease that answers for its reference. */
  function CallerShare(r: Request): nat {
    match r.caller
    case Asking => 0
    case Retained => 2
    case BackOut => 2
    case Finished => if r.returned && !r.finalized then 1 else 0
    case _ => 1
  }

  function WorkerShare(r: Request): nat {
    if r.worker in {Working, Stored, Signalled, Tidied} then 1 else 0
  }

  predicate SlotInUse(r: Request) {
    r.caller in {Slotted, Retained, BackOut, GiveSlot} || r.worker !in {NotStarted, Gone}
  }

  /** What every request keeps. */
  predicate Fits(r: Request) {
    && (r.validating ==> r.references == 0 && r.memoryTaken == 0 && !r.returned)
    && (!r.validating ==> r.references == CallerShare(r) + WorkerShare(r))
    && (r.items > 0 ==> r.returned && !r.finalized)
    && (r.returned ==> r.caller == Finished && !r.abandoned)
    && (r.finalized ==> Unreachable(r))
    && (r.worker != NotStarted ==> r.caller in {Waiting, Abandoning, Received, Failing, Finished})
    && (r.caller in {Waiting, Abandoning, Received} ==> r.worker != NotStarted)
    && (r.done <==> r.worker in {Signalled, Tidied, Unleased, Gone})
    && r.memoryTaken == r.memoryGiven + (if r.references > 0 then 1 else 0) && r.memoryTaken <= 1
    && r.slotTaken == r.slotGiven + (if SlotInUse(r) then 1 else 0) && r.slotTaken <= 1
    && (r.caller in {Asking, Leased} ==> r.slotTaken == 0)
    && (r.caller == Asking ==> r.memoryTaken == 0)
    && (r.abandoned ==> r.caller in {Abandoning, Failing, Finished})
    && (r.caller == Abandoning ==> r.abandoned)
    && (r.abandoned && r.caller != Abandoning && r.worker in {Tidied, Unleased, Gone} ==> r.result == Nothing)
    && (r.result != Nothing ==> r.worker !in {NotStarted, Working})
    && (r.done && !r.abandoned ==> r.result != Nothing)
    && (r.worker == Stored ==> r.result != Nothing)
    && (r.caller in {Failing, Finished} && r.worker != NotStarted && !r.abandoned ==> r.done)
    && (r.caller == Received ==> r.done && r.result == Value) && (r.returned ==> r.result == Value)
  }

  /** The moves of the worker thread. */
  predicate IsWorkers(move: Move) {
    move.Store? || move.SetDone? || move.ClearIfAbandoned? || move.WorkerRelease? || move.WorkerGivesSlot?
  }

  /** The moves of the calling thread up to the start of the worker. */
  predicate IsPreparing(move: Move) {
    || move.TakeMemory? || move.Refused? || move.TakeSlot? || move.Retain? || move.TooLate?
    || move.BackOutLease? || move.BackOutSlot? || move.StartThread?
  }

  /** The moves of the calling thread while it waits for the worker. */
  predicate IsWaiting(move: Move) {
    move.WaitDone? || move.WaitTimeout? || move.ClearIfDone? || move.Fail?
  }

  lemma WorkerMoveKeeps(r: Request, move: Move)
    requires Fits(r) && CanDo(r, move) && IsWorkers(move)
    ensures Fits(Moved(r, move))
  {
  }

  lemma PreparingMoveKeeps(r: Request, move: Move)
    requires Fits(r) && CanDo(r, move) && IsPreparing(move)
    ensures Fits(Moved(r, move))
  {
  }

  lemma WaitingMoveKeeps(r: Request, move: Move)
    requires Fits(r) && CanDo(r, move) && IsWaiting(move)
    ensures Fits(Moved(r, move))
  {
  }

  lemma LettingGoKeeps(r: Request, move: Move)
    requires Fits(r) && CanDo(r, move) && !IsPreparing(move) && !IsWorkers(move) && !IsWaiting(move)
    ensures Fits(Moved(r, move))
  {
  }

  /** Every operation keeps what a request owes. */
  lemma MoveKeeps(r: Request, move: Move)
    requires Fits(r) && CanDo(r, move)
    ensures Fits(Moved(r, move))
  {
    if IsWorkers(move) {
      WorkerMoveKeeps(r, move);
    } else if IsPreparing(move) {
      PreparingMoveKeeps(r, move);
    } else if IsWaiting(move) {
      WaitingMoveKeeps(r, move);
    } else {
      LettingGoKeeps(r, move);
    }
  }

  /** The memory slot is given back last: the calling thread is through, the worker has let go, no item
      is left, and the result of an abandoned worker is gone. */
  lemma MemoryGivenLast(r: Request, move: Move)
    requires Fits(r) && CanDo(r, move) && Moved(r, move).memoryGiven != r.memoryGiven
    ensures
      var after := Moved(r, move);
      && after.memoryGiven == 1 && after.memoryTaken == 1 && after.references == 0
      && after.caller == Finished && after.worker in {NotStarted, Unleased, Gone} && after.items == 0
      && (after.abandoned ==> after.result == Nothing)
  {
    MoveKeeps(r, move);
  }

  /** Items are returned only where the worker was successful, and not after it was abandoned. */
  lemma ItemsNeedAValue(r: Request, move: Move)
    requires Fits(r) && CanDo(r, move) && !r.returned && Moved(r, move).returned
    ensures r.done && r.result == Value && !r.abandoned && Moved(r, move).items > 0
  {
    MoveKeeps(r, move);
  }

  /** A `retain` never meets a lease that has been released. */
  lemma RetainIsSafe(r: Request)
    requires Fits(r) && CanDo(r, Retain) && !r.validating
    ensures r.references > 0
  {
  }

  /** A request that is over gave back whatever it took, once; only where items were returned does that
      take the finalizer. */
  lemma OverGivesBack(r: Request)
    requires Fits(r) && Unreachable(r) && (r.finalized || !r.returned)
    ensures r.memoryGiven == r.memoryTaken && r.slotGiven == r.slotTaken
  {
  }

  /** A calling thread that goes on before its worker is done has abandoned it. */
  lemma NotDoneIsAbandoned(r: Request)
    requires Fits(r) && r.worker != NotStarted && !r.done && r.caller in {Received, Failing, Finished}
    ensures r.abandoned
  {
  }

  /** Once both sides are through, nothing is left of the result of an abandoned worker. */
  lemma AbandonedIsCleared(r: Request)
    requires Fits(r) && r.abandoned && r.caller in {Failing, Finished} && r.worker in {Tidied, Unleased, Gone}
    ensures r.result == Nothing
  {
  }

  // -------------------------------------------------------------------------------- all requests

  const FRESH: Request :=
    Request(false, Asking, NotStarted, 0, false, false, Nothing, 0, false, false, 0, 0, 0, 0)

  /** A request can move, and finds the slot that it wants. */
  predicate Enabled(s: State, step: Step) {
    match step
    case Begin(n, _) => n !in s.requests
    case Do(n, move) =>
      && n in s.requests && CanDo(s.requests[n], move)
      && (move == TakeMemory && !s.requests[n].validating ==> s.memory > 0)
      && (move == TakeSlot ==> s.acquisition > 0)
  }

  function Apply(s: State, step: Step): State
    requires Enabled(s, step)
  {
    match step
    case Begin(n, validating) => s.(requests := s.requests[n := FRESH.(validating := validating)])
    case Do(n, move) =>
      var r, r' := s.requests[n], Moved(s.requests[n], move);
      State(
        s.memory - (r'.memoryTaken - r.memoryTaken) + (r'.memoryGiven - r.memoryGiven),
        s.acquisition - (r'.slotTaken - r.slotTaken) + (r'.slotGiven - r.slotGiven),
        s.requests[n := r'])
  }

  /** The state after a sequence of steps, if each is enabled where it is taken. */
  function After(steps: seq<Step>): Option<State> {
    if steps == [] then Some(State(SLOTS, SLOTS, map[]))
    else
      var before, last := After(steps[..|steps| - 1]), steps[|steps| - 1];
      if before.Some? && Enabled(before.value, last) then Some(Apply(before.value, last)) else None
  }

  predicate HoldsMemory(r: Request) {
    r.references > 0
  }

  ghost function MemoryHolders(requests: map<Name, Request>): set<Name> {
    set n | n in requests && HoldsMemory(requests[n])
  }

  ghost function SlotHolders(requests: map<Name, Request>): set<Name> {
    set n | n in requests && SlotInUse(requests[n])
  }

  /** Free slots and slots in use are always all there are. */
  ghost predicate Invariant(s: State) {
    && (forall n :: n in s.requests ==> Fits(s.requests[n]))
    && s.memory + |MemoryHolders(s.requests)| == SLOTS && s.memory >= 0
    && s.acquisition + |SlotHolders(s.requests)| == SLOTS && s.acquisition >= 0
  }

  lemma HoldersChange(requests: map<Name, Request>, n: Name, r: Request)
    ensures
      |MemoryHolders(requests[n := r])| ==
        |MemoryHolders(requests)| + (if HoldsMemory(r) then 1 else 0) - if n in MemoryHolders(requests) then 1 else 0
  {
    var others := MemoryHolders(requests) - {n};
    assert n in MemoryHolders(requests) ==> MemoryHolders(requests) == others + {n};
    if HoldsMemory(r) {
      assert MemoryHolders(requests[n := r]) == others + {n};
    } else {
      assert MemoryHolders(requests[n := r]) == others;
    }
  }

  lemma SlotHoldersChange(requests: map<Name, Request>, n: Name, r: Request)
    ensures
      |SlotHolders(requests[n := r])| ==
        |SlotHolders(requests)| + (if SlotInUse(r) then 1 else 0) - if n in SlotHolders(requests) then 1 else 0
  {
    var others := SlotHolders(requests) - {n};
    assert n in SlotHolders(requests) ==> SlotHolders(requests) == others + {n};
    if SlotInUse(r) {
      assert SlotHolders(requests[n := r]) == others + {n};
    } else {
      assert SlotHolders(requests[n := r]) == others;
    }
  }

  /** The counters of a request change exactly with what it holds. */
  lemma CountersFollow(r: Request, move: Move)
    requires Fits(r) && CanDo(r, move)
    ensures
      var r' := Moved(r, move);
      && (r'.memoryTaken - r.memoryTaken) - (r'.memoryGiven - r.memoryGiven) ==
        (if HoldsMemory(r') then 1 else 0) - (if HoldsMemory(r) then 1 else 0)
      && (r'.slotTaken - r.slotTaken) - (r'.slotGiven - r.slotGiven) ==
        (if SlotInUse(r') then 1 else 0) - (if SlotInUse(r) then 1 else 0)
  {
    MoveKeeps(r, move);
  }

  lemma MemoryTaken(r: Request, move: Move)
    requires Fits(r) && CanDo(r, move)
    ensures Moved(r, move).memoryTaken == r.memoryTaken + if move == TakeMemory && !r.validating then 1 else 0
    ensures Moved(r, move).memoryGiven >= r.memoryGiven
  {
  }

  lemma SlotTaken(r: Request, move: Move)
    requires Fits(r) && CanDo(r, move)
    ensures Moved(r, move).slotTaken == r.slotTaken + if move == TakeSlot then 1 else 0
    ensures Moved(r, move).slotGiven >= r.slotGiven
  {
  }

  /** The slots that a move takes or gives back are those that the request then holds or no longer holds. */
  lemma MoveBalances(s: State, n: Name, move: Move)
    requires Invariant(s) && Enabled(s, Do(n, move))
    ensures
      var t := Apply(s, Do(n, move));
      && t.memory + |MemoryHolders(t.requests)| == SLOTS && t.memory >= 0
      && t.acquisition + |SlotHolders(t.requests)| == SLOTS && t.acquisition >= 0
  {
    var r := s.requests[n];
    CountersFollow(r, move);
    MemoryTaken(r, move);
    SlotTaken(r, move);
    HoldersChange(s.requests, n, Moved(r, move));
    SlotHoldersChange(s.requests, n, Moved(r, move));
  }

  lemma StepKeeps(s: State, step: Step)
    requires Invariant(s) && Enabled(s, step)
    ensures Invariant(Apply(s, step))
  {
    match step
    case Begin(n, validating) =>
      HoldersChange(s.requests, n, FRESH.(validating := validating));
      SlotHoldersChange(s.requests, n, FRESH.(validating := validating));
    case Do(n, move) =>
      MoveKeeps(s.requests[n], move);
      MoveBalances(s, n, move);
  }

  lemma {:induction false} ReachableInvariant(steps: seq<Step>)
    ensures After(steps).Some? ==> Invariant(After(steps).value)
  {
    if steps != [] {
      ReachableInvariant(steps[..|steps| - 1]);
      var before, last := After(steps[..|steps| - 1]), steps[|steps| - 1];
      if before.Some? && Enabled(before.value, last) {
        StepKeeps(before.value, last);
      }
    }
  }

  /** At no time are more than four snapshots in memory or four acquisitions under way, and a bounded
      semaphore is never released beyond its bound. */
  lemma BoundedAlways(steps: seq<Step>, s: State)
    requires After(steps) == Some(s)
    ensures |MemoryHolders(s.requests)| <= SLOTS && |SlotHolders(s.requests)| <= SLOTS
    ensures 0 <= s.memory <= SLOTS && 0 <= s.acquisition <= SLOTS
  {
    ReachableInvariant(steps);
  }

  /** When every request is over, all slots are free again. */
  lemma AllSlotsReturn(steps: seq<Step>, s: State)
    requires After(steps) == Some(s)
    requires forall n :: n in s.requests ==>
      Unreachable(s.requests[n]) && (s.requests[n].finalized || !s.requests[n].returned)
    ensures s.memory == SLOTS && s.acquisition == SLOTS
  {
    ReachableInvariant(steps);
    forall n | n in s.requests
      ensures !HoldsMemory(s.requests[n]) && !SlotInUse(s.requests[n])
    {
      OverGivesBack(s.requests[n]);
    }
    assert MemoryHolders(s.requests) == {} && SlotHolders(s.requests) == {};
  }

  /** No request is ever stuck: until it is over it can take a step, whatever the others do. */
  lemma NeverStuck(s: State, n: Name)
    requires n in s.requests && Fits(s.requests[n]) && !s.requests[n].finalized
    ensures exists move :: Enabled(s, Do(n, move))
  {
    var r := s.requests[n];
    if r.caller != Finished {
      var move := match r.caller
        case Asking => if r.validating then TakeMemory else Refused
        case Leased => TooLate
        case Slotted => Retain
        case Retained => TooLate
        case BackOut => BackOutLease
        case GiveSlot => BackOutSlot
        case Waiting => WaitTimeout
        case Abandoning => ClearIfDone
        case Received => Fail
        case _ => ReleaseOnFailure;
      assert Enabled(s, Do(n, move));
    } else if r.worker !in {NotStarted, Gone} {
      var move := match r.worker
        case Working => Store(Error)
        case Stored => SetDone
        case Signalled => ClearIfAbandoned
        case Tidied => WorkerRelease
        case _ => WorkerGivesSlot;
      assert Enabled(s, Do(n, move));
    } else {
      assert Enabled(s, Do(n, if r.items > 0 then DropItem else Finalize));
    }
  }
}
