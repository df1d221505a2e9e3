/** The registry of keyed locks behind `assignment_operation_lock` (scripts/course_board_server.py), as
    a state machine over any number of overlapping calls. One step is what a call does without giving
    up the guard, or one operation on the lock of its entry. */
module LockRegistry {

  import opened Options

  type Key(==, !new)

  type CallId = nat

  /** One entry of the registry; `holder` is the state of its `threading.Lock`. */
  datatype Entry = Entry(key: Key, users: int, holder: Option<CallId>)

  datatype Phase = Registered | Holding | Refused | Released | Done

  /** A call, and the entry that its local variable refers to (a position in the heap). */
  datatype Call = Call(key: Key, blocking: bool, entry: nat, phase: Phase)

  /** `heap` holds every entry ever created, `table` is `_ASSIGNMENT_OPERATION_LOCKS`. */
  datatype State = State(heap: seq<Entry>, table: map<Key, nat>, calls: map<CallId, Call>)

  datatype Step =
    | Register(call: CallId, key: Key, blocking: bool)
    | Acquire(call: CallId)
    | Refuse(call: CallId)
    | Release(call: CallId)
    | Leave(call: CallId)

  predicate IsIn(s: State, c: CallId, phase: Phase) {
    c in s.calls && s.calls[c].phase == phase && s.calls[c].entry < |s.heap|
  }

  /** Whether a step can happen. A blocking call waits where its lock is held; a call that does not
      block is refused there. */
  predicate Enabled(s: State, step: Step) {
    match step
    case Register(c, key, _) => c !in s.calls && (key in s.table ==> s.table[key] < |s.heap|)
    case Acquire(c) => IsIn(s, c, Registered) && s.heap[s.calls[c].entry].holder == None
    case Refuse(c) => IsIn(s, c, Registered) && s.heap[s.calls[c].entry].holder != None && !s.calls[c].blocking
    case Release(c) => IsIn(s, c, Holding)
    case Leave(c) => IsIn(s, c, Refused) || IsIn(s, c, Released)
  }

  function Move(s: State, c: CallId, phase: Phase): State
    requires c in s.calls
  {
    s.(calls := s.calls[c := s.calls[c].(phase := phase)])
  }

  function SetHolder(s: State, e: nat, holder: Option<CallId>): State
    requires e < |s.heap|
  {
    s.(heap := s.heap[e := s.heap[e].(holder := holder)])
  }

  /** The entry of a key, made if the table has none. */
  function SetDefault(s: State, key: Key): State {
    if key in s.table then s
    else s.(heap := s.heap + [Entry(key, 0, None)], table := s.table[key := |s.heap|])
  }

  function AddUser(s: State, e: nat, change: int): State
    requires e < |s.heap|
  {
    s.(heap := s.heap[e := s.heap[e].(users := s.heap[e].users + change)])
  }

  /** Pop the entry if it has no users and the table still refers to it. */
  function PopIfUnused(s: State, key: Key, e: nat): State
    requires e < |s.heap|
  {
    if s.heap[e].users == 0 && key in s.table && s.table[key] == e then s.(table := s.table - {key}) else s
  }

  function Apply(s: State, step: Step): State
    requires Enabled(s, step)
  {
    match step
    case Register(c, key, blocking) =>
      var made := SetDefault(s, key);
      var e := made.table[key];
      AddUser(made, e, 1).(calls := s.calls[c := Call(key, blocking, e, Registered)])
    case Acquire(c) => Move(SetHolder(s, s.calls[c].entry, Some(c)), c, Holding)
    case Refuse(c) => Move(s, c, Refused)
    case Release(c) => Move(SetHolder(s, s.calls[c].entry, None), c, Released)
    case Leave(c) =>
      var e := s.calls[c].entry;
      Move(PopIfUnused(AddUser(s, e, -1), s.calls[c].key, e), c, Done)
  }

  const START: State := State([], map[], map[])

  /** The state after a sequence of steps, if each is enabled where it is taken. */
  function After(steps: seq<Step>): Option<State> {
    if steps == [] then Some(START)
    else
      var before, last := After(steps[..|steps| - 1]), steps[|steps| - 1];
      if before.Some? && Enabled(before.value, last) then Some(Apply(before.value, last)) else None
  }

  predicate Reaches(steps: seq<Step>, s: State) {
    After(steps) == Some(s)
  }

  // --------------------------------------------------------------------------------- invariant

  /** The calls between their increment and their decrement of the users of entry `e`. */
  ghost function Users(s: State, e: nat): set<CallId> {
    set c | c in s.calls && s.calls[c].phase != Done && s.calls[c].entry == e
  }

  ghost predicate CallFits(s: State, c: CallId)
    requires c in s.calls
  {
    && s.calls[c].entry < |s.heap| && s.heap[s.calls[c].entry].key == s.calls[c].key
    && (s.calls[c].phase == Holding <==> s.heap[s.calls[c].entry].holder == Some(c))
    && (s.calls[c].phase == Refused ==> !s.calls[c].blocking)
  }

  ghost predicate EntryFits(s: State, e: nat)
    requires e < |s.heap|
  {
    && s.heap[e].users == |Users(s, e)|
    && (s.heap[e].users > 0 <==> s.heap[e].key in s.table && s.table[s.heap[e].key] == e)
    && (s.heap[e].holder.Some? ==>
      var c := s.heap[e].holder.value;
      c in s.calls && s.calls[c].entry == e && s.calls[c].phase == Holding)
  }

  ghost predicate Invariant(s: State) {
    && (forall c :: c in s.calls ==> CallFits(s, c))
    && (forall e :: 0 <= e < |s.heap| ==> EntryFits(s, e))
    && forall key :: key in s.table ==> s.table[key] < |s.heap| && s.heap[s.table[key]].key == key
  }

  lemma UsersGrow(s: State, t: State, c: CallId, e: nat)
    requires c !in s.calls && c in t.calls && t.calls == s.calls[c := t.calls[c]]
    ensures t.calls[c].phase != Done && t.calls[c].entry == e ==> |Users(t, e)| == |Users(s, e)| + 1
    ensures t.calls[c].phase == Done || t.calls[c].entry != e ==> |Users(t, e)| == |Users(s, e)|
  {
    if c in Users(t, e) {
      assert Users(t, e) == Users(s, e) + {c};
    } else {
      assert Users(t, e) == Users(s, e);
    }
  }

  lemma UsersShrink(s: State, t: State, c: CallId, e: nat)
    requires c in s.calls && s.calls[c].phase != Done && t.calls == s.calls[c := s.calls[c].(phase := Done)]
    ensures s.calls[c].entry == e ==> |Users(t, e)| == |Users(s, e)| - 1
    ensures s.calls[c].entry != e ==> |Users(t, e)| == |Users(s, e)|
  {
    assert Users(t, e) == Users(s, e) - {c};
  }

  lemma UsersStay(s: State, t: State, c: CallId, e: nat)
    requires c in s.calls && s.calls[c].phase != Done && t.calls.Keys == s.calls.Keys
    requires t.calls[c].phase != Done && t.calls[c].entry == s.calls[c].entry
    requires forall d :: d in s.calls && d != c ==> t.calls[d] == s.calls[d]
    ensures |Users(t, e)| == |Users(s, e)|
  {
    assert Users(t, e) == Users(s, e);
  }

  lemma RegisterKeeps(s: State, step: Step)
    requires Invariant(s) && Enabled(s, step) && step.Register?
    ensures Invariant(Apply(s, step))
  {
    var t, c, key := Apply(s, step), step.call, step.key;
    var made := SetDefault(s, key);
    forall e | 0 <= e < |t.heap|
      ensures EntryFits(t, e)
    {
      UsersGrow(s, t, c, e);
      if e < |s.heap| {
        assert EntryFits(s, e);
      } else {
        forall d | d in s.calls
          ensures s.calls[d].entry != e
        {
          assert CallFits(s, d);
        }
        assert Users(s, e) == {};
      }
    }
    forall d | d in t.calls
      ensures CallFits(t, d)
    {
      if d in s.calls {
        assert CallFits(s, d);
      } else {
        var e := t.calls[d].entry;
        assert e < |s.heap| ==> EntryFits(s, e);
      }
    }
  }

  lemma HolderKeeps(s: State, step: Step)
    requires Invariant(s) && Enabled(s, step) && (step.Acquire? || step.Refuse? || step.Release?)
    ensures Invariant(Apply(s, step))
  {
    var t, c := Apply(s, step), step.call;
    forall e | 0 <= e < |t.heap|
      ensures EntryFits(t, e)
    {
      UsersStay(s, t, c, e);
      assert EntryFits(s, e) && CallFits(s, c);
    }
    forall d | d in t.calls
      ensures CallFits(t, d)
    {
      assert CallFits(s, d) && CallFits(s, c);
    }
  }

  lemma LeaveKeeps(s: State, step: Step)
    requires Invariant(s) && Enabled(s, step) && step.Leave?
    ensures Invariant(Apply(s, step))
  {
    var t, c := Apply(s, step), step.call;
    assert CallFits(s, c);
    forall e | 0 <= e < |t.heap|
      ensures EntryFits(t, e)
    {
      UsersShrink(s, t, c, e);
      assert EntryFits(s, e) && EntryFits(s, s.calls[c].entry);
    }
    forall d | d in t.calls
      ensures CallFits(t, d)
    {
      assert CallFits(s, d);
    }
  }

  lemma {:induction false} ReachableInvariant(steps: seq<Step>, s: State)
    requires Reaches(steps, s)
    ensures Invariant(s)
  {
    if steps != [] {
      var step := steps[|steps| - 1];
      var before := After(steps[..|steps| - 1]).value;
      ReachableInvariant(steps[..|steps| - 1], before);
      if step.Register? {
        RegisterKeeps(before, step);
      } else if step.Leave? {
        LeaveKeeps(before, step);
      } else {
        HolderKeeps(before, step);
      }
    }
  }

  // ------------------------------------------------------------------------------ what it means

  /** At most one call is inside the body for a key. */
  lemma MutualExclusion(steps: seq<Step>, s: State, c: CallId, d: CallId)
    requires Reaches(steps, s) && IsIn(s, c, Holding) && IsIn(s, d, Holding) && s.calls[c].key == s.calls[d].key
    ensures c == d
  {
    ReachableInvariant(steps, s);
    assert CallFits(s, c) && CallFits(s, d);
    var e, f := s.calls[c].entry, s.calls[d].entry;
    assert EntryFits(s, e) && EntryFits(s, f);
    assert c in Users(s, e) && d in Users(s, f);
  }

  /** The entries in the table are exactly those in use, `users` counts the calls that are using them,
      and no key ever has two. */
  lemma OneLiveEntry(steps: seq<Step>, s: State, e: nat)
    requires Reaches(steps, s) && e < |s.heap|
    ensures s.heap[e].users == |Users(s, e)|
    ensures Users(s, e) != {} <==> s.heap[e].key in s.table && s.table[s.heap[e].key] == e
    ensures forall f ::
      0 <= f < |s.heap| && Users(s, e) != {} && Users(s, f) != {} && s.heap[f].key == s.heap[e].key ==> f == e
  {
    ReachableInvariant(steps, s);
    assert EntryFits(s, e);
    forall f | 0 <= f < |s.heap| && Users(s, e) != {} && Users(s, f) != {} && s.heap[f].key == s.heap[e].key
      ensures f == e
    {
      assert EntryFits(s, f);
    }
  }

  /** When no call is under way the registry is empty. */
  lemma QuietIsEmpty(steps: seq<Step>, s: State)
    requires Reaches(steps, s) && forall c :: c in s.calls ==> s.calls[c].phase == Done
    ensures s.table == map[]
  {
    ReachableInvariant(steps, s);
    forall e | 0 <= e < |s.heap|
      ensures s.heap[e].key in s.table ==> s.table[s.heap[e].key] != e
    {
      assert EntryFits(s, e);
      assert Users(s, e) == {};
    }
  }

  /** A call is turned away only while another call is inside the body for the same key. */
  lemma RefusedForAReason(steps: seq<Step>, s: State, c: CallId)
    requires Reaches(steps, s) && Enabled(s, Refuse(c))
    ensures exists d :: d != c && IsIn(s, d, Holding) && s.calls[d].key == s.calls[c].key
  {
    ReachableInvariant(steps, s);
    assert CallFits(s, c);
    assert EntryFits(s, s.calls[c].entry);
    var d := s.heap[s.calls[c].entry].holder.value;
    assert CallFits(s, d);
    assert IsIn(s, d, Holding);
  }

  ghost predicate Inside(s: State, key: Key) {
    exists d :: IsIn(s, d, Holding) && s.calls[d].key == key
  }

  /** A call that has registered goes in exactly when nobody is inside for its key, and is refused exactly
      when somebody is and it does not block; a blocking call waits. */
  lemma RegisteredGoesOn(steps: seq<Step>, s: State, c: CallId)
    requires Reaches(steps, s) && IsIn(s, c, Registered)
    ensures Enabled(s, Acquire(c)) <==> !Inside(s, s.calls[c].key)
    ensures Enabled(s, Refuse(c)) <==> Inside(s, s.calls[c].key) && !s.calls[c].blocking
  {
    ReachableInvariant(steps, s);
    var e := s.calls[c].entry;
    assert CallFits(s, c) && EntryFits(s, e) && c in Users(s, e);
    if s.heap[e].holder.Some? {
      var d := s.heap[e].holder.value;
      assert CallFits(s, d) && IsIn(s, d, Holding);
    }
    if d :| IsIn(s, d, Holding) && s.calls[d].key == s.calls[c].key {
      assert CallFits(s, d) && EntryFits(s, s.calls[d].entry) && d in Users(s, s.calls[d].entry);
    }
  }

  /** So a blocking call is never refused. */
  lemma BlockingIsNeverRefused(steps: seq<Step>, s: State, c: CallId)
    requires Reaches(steps, s) && c in s.calls && s.calls[c].blocking
    ensures s.calls[c].phase != Refused && !Enabled(s, Refuse(c))
  {
    ReachableInvariant(steps, s);
    assert CallFits(s, c);
  }

  /** When a call leaves with no other user, the entry it refers to is still the one in the table, so
      testing for that never keeps an unused entry alive. */
  lemma UnusedIsPopped(steps: seq<Step>, s: State, c: CallId)
    requires Reaches(steps, s) && Enabled(s, Leave(c))
    ensures s.calls[c].key in s.table && s.table[s.calls[c].key] == s.calls[c].entry
    ensures s.calls[c].key in Apply(s, Leave(c)).table <==> Users(s, s.calls[c].entry) != {c}
  {
    ReachableInvariant(steps, s);
    assert CallFits(s, c);
    var e := s.calls[c].entry;
    assert EntryFits(s, e);
    assert c in Users(s, e);
    assert |Users(s, e) - {c}| == |Users(s, e)| - 1;
    if |Users(s, e) - {c}| == 0 {
      assert Users(s, e) - {c} == {};
      assert Users(s, e) == {c};
    }
  }

  /** A new call is never kept from registering. */
  lemma AlwaysAdmits(steps: seq<Step>, s: State, c: CallId, key: Key, blocking: bool)
    requires Reaches(steps, s) && c !in s.calls
    ensures Enabled(s, Register(c, key, blocking))
  {
    ReachableInvariant(steps, s);
  }

  /** As long as a call is under way some step is possible that ends or advances one. */
  lemma NoDeadlock(steps: seq<Step>, s: State, c: CallId)
    requires Reaches(steps, s) && c in s.calls && s.calls[c].phase != Done
    ensures exists step: Step :: !step.Register? && Enabled(s, step)
  {
    ReachableInvariant(steps, s);
    assert CallFits(s, c);
    var e := s.calls[c].entry;
    assert EntryFits(s, e);
    match s.calls[c].phase
    case Registered =>
      if s.heap[e].holder == None {
        assert Enabled(s, Acquire(c));
      } else {
        assert Enabled(s, Release(s.heap[e].holder.value));
      }
    case Holding => assert Enabled(s, Release(c));
    case Refused => assert Enabled(s, Leave(c));
    case Released => assert Enabled(s, Leave(c));
  }

  /** The steps the calls still have before them. */
  function Remaining(phase: Phase): nat {
    match phase
    case Registered => 3
    case Holding => 2
    case Done => 0
    case _ => 1
  }

  ghost function Work(calls: map<CallId, Call>): nat
    decreases |calls|
  {
    if calls == map[] then 0
    else
      var c :| c in calls;
      Remaining(calls[c].phase) + Work(calls - {c})
  }

  lemma {:induction false} WorkSplits(calls: map<CallId, Call>, c: CallId)
    requires c in calls
    ensures Work(calls) == Remaining(calls[c].phase) + Work(calls - {c})
    decreases |calls|
  {
    var d :| d in calls && Work(calls) == Remaining(calls[d].phase) + Work(calls - {d});
    if d != c {
      WorkSplits(calls - {d}, c);
      WorkSplits(calls - {c}, d);
      assert calls - {d} - {c} == calls - {c} - {d};
    }
  }

  /** Every step but the start of a call brings the end nearer, so with finitely many calls every
      schedule ends, and by `NoDeadlock` and `QuietIsEmpty` it ends with an empty registry. */
  lemma StepsDecrease(s: State, step: Step)
    requires Enabled(s, step) && !step.Register?
    ensures Work(Apply(s, step).calls) < Work(s.calls)
  {
    var c, calls := step.call, Apply(s, step).calls;
    WorkSplits(s.calls, c);
    WorkSplits(calls, c);
    assert calls - {c} == s.calls - {c};
  }
}
