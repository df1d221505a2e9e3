/** The guard directory that lesson sessions share (installer/lesson_session.py), as a state machine
    over any number of session objects in any number of launcher processes. Every operation on the
    guard, on the child process and on the state of a session is one step. */
module LessonGuard {

  import opened Options

  type Sid(==, !new)

  /** A session object in some launcher process. */
  type Name = nat

  datatype Mode = Shared | Personal

  datatype LessonState = Idle | Running | Stopping | Verifying | RecoveryRequired | Closed

  /** The process a session launched, whether or not the session still holds a handle for it. */
  datatype Child = NoChild | Alive | Exited(code: int)

  datatype Evidence = Evidence(
    sid: Sid,
    workSaved: bool,
    writersClosed: bool,
    tuiRevoked: bool,
    webRevoked: bool,
    browserClosed: bool,
    temporaryDataRemoved: bool)

  /** How far `complete` has got in removing the guard. */
  datatype Stage = Confirmed | Listed | Checked | Unlinked

  /** Where the code of a session is: between calls, inside `start`, inside `complete`, or gone. */
  datatype Position = Ready | Claimed | Recorded | Removing(stage: Stage, evidence: Evidence) | Dead

  datatype Session = Session(mode: Mode, state: LessonState, sid: Option<Sid>, handle: bool, child: Child,
      position: Position)

  /** The bytes of `owner.json`: the whole record of a session, or anything else. */
  datatype Bytes = Record(sid: Sid, mode: Mode) | OtherBytes

  datatype Guard = Absent | Present(owner: Option<Bytes>, unexpected: bool)

  /** `creator` is the session whose `start` made the guard that is present, as far as it learned so. */
  datatype State = State(guard: Guard, creator: Option<Name>, sessions: map<Name, Session>)

  /** An operation happens, fails, or fails after it happened. */
  datatype Outcome = Happens | Fails | FailsLate

  datatype Step =
    | Construct(name: Name, mode: Mode)
    | Claim(name: Name, sid: Sid, outcome: Outcome)
    | WriteOwner(name: Name, owner: Option<Bytes>, ok: bool)
    | Launch(name: Name, spawned: bool, ok: bool)
    | Poll(name: Name, ok: bool)
    | RequestStop(name: Name, ok: bool)
    | Confirm(name: Name, evidence: Evidence)
    | ListGuard(name: Name, ok: bool)
    | ReadOwner(name: Name, ok: bool)
    | Unlink(name: Name, outcome: Outcome)
    | RemoveGuard(name: Name, outcome: Outcome)
    | Crash(name: Name)
    | ChildExits(name: Name, code: int)
    | Meddle(owner: Option<Bytes>, unexpected: bool)

  /** Everything that `complete` demands of the evidence. */
  predicate Suffices(evidence: Evidence, sid: Option<Sid>, mode: Mode) {
    && sid == Some(evidence.sid)
    && evidence.workSaved && evidence.writersClosed && evidence.tuiRevoked && evidence.webRevoked &&
      evidence.browserClosed
    && (mode == Shared ==> evidence.temporaryDataRemoved)
  }

  /** Work saved, writers closed, both access paths revoked, browser closed; on a shared computer the
      temporary data removed as well. */
  predicate AllConfirmed(evidence: Evidence, mode: Mode) {
    match evidence
    case Evidence(_, saved, closed, tui, web, browser, removed) =>
      saved && closed && tui && web && browser && (mode == Personal || removed)
  }

  predicate At(s: State, name: Name, position: Position) {
    name in s.sessions && s.sessions[name].position == position
  }

  predicate AtStage(s: State, name: Name, stage: Stage) {
    && name in s.sessions && s.sessions[name].position.Removing?
    && s.sessions[name].position.stage == stage
  }

  predicate Enabled(s: State, step: Step) {
    match step
    case Construct(n, _) => n !in s.sessions
    case Claim(n, _, outcome) =>
      At(s, n, Ready) && s.sessions[n].state in {Idle, Closed} && (outcome != Fails ==> s.guard.Absent?)
    case WriteOwner(n, owner, ok) =>
      && At(s, n, Claimed) && s.sessions[n].sid.Some?
      && (s.guard.Absent? || s.guard.owner.Some? ==> !ok)
      && (ok ==> owner == Some(Record(s.sessions[n].sid.value, s.sessions[n].mode)))
    case Launch(n, spawned, ok) => At(s, n, Recorded) && (ok ==> spawned)
    case Poll(n, _) => At(s, n, Ready) && s.sessions[n].handle
    case RequestStop(n, _) => At(s, n, Ready) && s.sessions[n].handle && s.sessions[n].state == Running
    case Confirm(n, evidence) => At(s, n, Ready) && s.sessions[n].state == Verifying &&
      Suffices(evidence, s.sessions[n].sid, s.sessions[n].mode)
    case ListGuard(n, ok) => AtStage(s, n, Confirmed) &&
      (ok ==> s.guard.Present? && s.guard.owner.Some? && !s.guard.unexpected)
    case ReadOwner(n, ok) =>
      && AtStage(s, n, Listed) && s.sessions[n].sid.Some?
      && (ok ==> s.guard.Present? && s.guard.owner == Some(Record(s.sessions[n].sid.value, s.sessions[n].mode)))
    case Unlink(n, outcome) => AtStage(s, n, Checked) && (outcome != Fails ==> s.guard.Present? && s.guard.owner.Some?)
    case RemoveGuard(n, outcome) =>
      AtStage(s, n, Unlinked) && (outcome != Fails ==> s.guard == Present(None, false))
    case Crash(n) => n in s.sessions
    case ChildExits(n, _) => n in s.sessions && s.sessions[n].child == Alive
    case Meddle(_, _) => s.guard.Present?
  }

  function Put(s: State, name: Name, session: Session): State {
    s.(sessions := s.sessions[name := session])
  }

  /** The attempt failed: the session waits for recovery from now on. */
  function GiveUp(s: State, name: Name): State
    requires name in s.sessions
  {
    Put(s, name, s.sessions[name].(state := RecoveryRequired, position := Ready))
  }

  function Advance(s: State, name: Name, stage: Stage): State
    requires name in s.sessions && s.sessions[name].position.Removing?
  {
    Put(s, name, s.sessions[name].(position := s.sessions[name].position.(stage := stage)))
  }

  /** What `poll` makes of the state once the child is known to have exited. */
  function AfterExit(state: LessonState, code: int): LessonState {
    if state == RecoveryRequired || code != 0 then RecoveryRequired else Verifying
  }

  function Apply(s: State, step: Step): State
    requires Enabled(s, step)
  {
    match step
    case Construct(n, mode) =>
      Put(s, n, Session(mode, if s.guard.Present? then RecoveryRequired else Idle, None, false, NoChild, Ready))
    case Claim(n, sid, outcome) =>
      (match outcome
       case Happens =>
         Put(s.(guard := Present(None, false), creator := Some(n)), n,
             s.sessions[n].(state := RecoveryRequired, sid := Some(sid), position := Claimed))
       case Fails => GiveUp(s, n)
       case FailsLate => GiveUp(s.(guard := Present(None, false), creator := None), n))
    case WriteOwner(n, owner, ok) =>
      var written := if s.guard.Present? && s.guard.owner.None? then s.(guard := s.guard.(owner := owner)) else s;
      if ok then Put(written, n, s.sessions[n].(position := Recorded)) else GiveUp(written, n)
    case Launch(n, spawned, ok) =>
      Put(s, n, s.sessions[n].(
        state := if ok then Running else RecoveryRequired,
        handle := ok,
        child := if spawned then Alive else NoChild,
        position := Ready))
    case Poll(n, ok) =>
      if !ok then GiveUp(s, n)
      else if s.sessions[n].child.Exited? then
        Put(s, n, s.sessions[n].(state := AfterExit(s.sessions[n].state, s.sessions[n].child.code), handle := false))
      else s
    case RequestStop(n, ok) => if ok then Put(s, n, s.sessions[n].(state := Stopping)) else s
    case Confirm(n, evidence) => Put(s, n, s.sessions[n].(position := Removing(Confirmed, evidence)))
    case ListGuard(n, ok) => if ok then Advance(s, n, Listed) else GiveUp(s, n)
    case ReadOwner(n, ok) => if ok then Advance(s, n, Checked) else GiveUp(s, n)
    case Unlink(n, outcome) =>
      (match outcome
       case Happens => Advance(s.(guard := s.guard.(owner := None)), n, Unlinked)
       case Fails => GiveUp(s, n)
       case FailsLate => GiveUp(s.(guard := s.guard.(owner := None)), n))
    case RemoveGuard(n, outcome) =>
      (match outcome
       case Happens =>
         Put(s.(guard := Absent, creator := None), n, s.sessions[n].(state := Closed, sid := None, position := Ready))
       case Fails => GiveUp(s, n)
       case FailsLate => GiveUp(s.(guard := Absent, creator := None), n))
    case Crash(n) => Put(s, n, s.sessions[n].(position := Dead))
    case ChildExits(n, code) => Put(s, n, s.sessions[n].(child := Exited(code)))
    case Meddle(owner, unexpected) => s.(guard := Present(owner, unexpected))
  }

  /** The state after a sequence of steps, if each is enabled where it is taken; `guard` is what the
      directory was when the first session appeared. */
  function After(guard: Guard, steps: seq<Step>): Option<State> {
    if steps == [] then Some(State(guard, None, map[]))
    else
      var before, last := After(guard, steps[..|steps| - 1]), steps[|steps| - 1];
      if before.Some? && Enabled(before.value, last) then Some(Apply(before.value, last)) else None
  }

  // --------------------------------------------------------------------------------- invariant

  /** The session has a lesson: its child runs, or its closure is being verified, or it is inside
      `start` or `complete` with the guard claimed. */
  predicate Busy(session: Session) {
    || session.child == Alive || session.state in {Running, Stopping, Verifying}
    || session.position in {Claimed, Recorded} || session.position.Removing?
  }

  predicate SessionFits(s: State, name: Name)
    requires name in s.sessions
  {
    var session := s.sessions[name];
    && (Busy(session) ==> s.guard.Present? && s.creator == Some(name))
    && (session.handle ==> session.child != NoChild && session.state in {Running, Stopping, RecoveryRequired})
    && (session.state in {Running, Stopping} ==> session.handle)
    && (session.state in {Idle, Closed} ==> session.child != Alive)
    && (session.state == Verifying ==> session.child == Exited(0))
    && (session.state in {Running, Stopping, Verifying} ==> session.sid.Some?)
    && (session.position in {Claimed, Recorded} ==>
      session.state == RecoveryRequired && session.child != Alive && !session.handle && session.sid.Some?)
    && (session.position.Removing? ==>
      session.state == Verifying && Suffices(session.position.evidence, session.sid, session.mode))
  }

  ghost predicate Invariant(s: State) {
    forall n :: n in s.sessions ==> SessionFits(s, n)
  }

  /** A step of session `n` concerns no other session, except that it may make or remove the guard. */
  lemma StepKeeps(s: State, step: Step)
    requires Invariant(s) && Enabled(s, step)
    ensures Invariant(Apply(s, step))
  {
    var t := Apply(s, step);
    forall m | m in t.sessions
      ensures SessionFits(t, m)
    {
      if !step.Meddle? {
        assert step.name in s.sessions ==> SessionFits(s, step.name);
      }
      assert m in s.sessions ==> SessionFits(s, m);
    }
  }

  lemma {:induction false} ReachableInvariant(guard: Guard, steps: seq<Step>)
    ensures After(guard, steps).Some? ==> Invariant(After(guard, steps).value)
  {
    if steps != [] {
      ReachableInvariant(guard, steps[..|steps| - 1]);
      var before, last := After(guard, steps[..|steps| - 1]), steps[|steps| - 1];
      if before.Some? && Enabled(before.value, last) {
        StepKeeps(before.value, last);
      }
    }
  }

  // ------------------------------------------------------------------------------ what it means

  /** At most one session owns a child or is verifying, and the guard is there while one does. */
  lemma OneLesson(guard: Guard, steps: seq<Step>, s: State, n: Name, m: Name)
    requires After(guard, steps) == Some(s) && n in s.sessions && m in s.sessions
    requires Busy(s.sessions[n]) && Busy(s.sessions[m])
    ensures n == m && s.guard.Present?
  {
    ReachableInvariant(guard, steps);
    assert SessionFits(s, n) && SessionFits(s, m);
  }

  /** The guard goes away in one way: the session that made it, verifying, with all its evidence and
      its child ended with code zero, removes it. */
  lemma OnlyCompleteRemoves(guard: Guard, steps: seq<Step>, s: State, step: Step)
    requires After(guard, steps) == Some(s) && Enabled(s, step)
    requires s.guard.Present? && Apply(s, step).guard.Absent?
    ensures step.RemoveGuard? && s.creator == Some(step.name)
    ensures
      var session := s.sessions[step.name];
      && session.state == Verifying && session.child == Exited(0)
      && session.position.Removing? && session.sid == Some(session.position.evidence.sid)
      && AllConfirmed(session.position.evidence, session.mode)
  {
    ReachableInvariant(guard, steps);
    assert SessionFits(s, step.name);
  }

  /** No child is started while another one runs or is being verified. */
  lemma LaunchIsAlone(guard: Guard, steps: seq<Step>, s: State, step: Step, m: Name)
    requires After(guard, steps) == Some(s) && Enabled(s, step) && step.Launch?
    requires m in s.sessions && m != step.name
    ensures s.guard.Present? && s.creator == Some(step.name)
    ensures s.sessions[m].child != Alive && s.sessions[m].state !in {Running, Stopping, Verifying}
  {
    ReachableInvariant(guard, steps);
    assert SessionFits(s, step.name) && SessionFits(s, m);
  }

  /** A session between calls that requires recovery. */
  predicate NeedsRecovery(s: State, name: Name) {
    name in s.sessions && s.sessions[name].state == RecoveryRequired && s.sessions[name].position in {Ready, Dead}
  }

  lemma RecoveryStep(s: State, step: Step, name: Name)
    requires Enabled(s, step) && NeedsRecovery(s, name)
    ensures NeedsRecovery(Apply(s, step), name)
  {
  }

  /** Nothing leads out of `RecoveryRequired`, over any continuation of a run. */
  lemma {:induction false} RecoveryIsAbsorbing(guard: Guard, steps: seq<Step>, more: seq<Step>, s: State, name: Name)
    requires After(guard, steps) == Some(s) && NeedsRecovery(s, name)
    requires After(guard, steps + more).Some?
    ensures NeedsRecovery(After(guard, steps + more).value, name)
  {
    if more == [] {
      assert steps + more == steps;
    } else {
      var shorter, last := more[..|more| - 1], more[|more| - 1];
      assert (steps + more)[..|steps + more| - 1] == steps + shorter;
      RecoveryIsAbsorbing(guard, steps, shorter, s, name);
      RecoveryStep(After(guard, steps + shorter).value, last, name);
    }
  }

  /** The guard was left behind: whoever made it is gone, waits for recovery, or never learned of it. */
  predicate LeftBehind(s: State) {
    && s.guard.Present?
    && (s.creator.Some? ==>
      At(s, s.creator.value, Dead) ||
        (At(s, s.creator.value, Ready) && s.sessions[s.creator.value].state == RecoveryRequired))
  }

  lemma LeftBehindStep(s: State, step: Step)
    requires Invariant(s) && Enabled(s, step) && LeftBehind(s)
    ensures LeftBehind(Apply(s, step)) && !step.Launch?
  {
  }

  /** A guard that was left behind is never reclaimed, and no lesson starts any more. */
  lemma {:induction false} LeftBehindForever(guard: Guard, steps: seq<Step>, more: seq<Step>, s: State)
    requires After(guard, steps) == Some(s) && LeftBehind(s)
    requires After(guard, steps + more).Some?
    ensures LeftBehind(After(guard, steps + more).value)
    ensures forall k :: 0 <= k < |more| ==> !more[k].Launch?
  {
    if more == [] {
      assert steps + more == steps;
    } else {
      var shorter, last := more[..|more| - 1], more[|more| - 1];
      assert (steps + more)[..|steps + more| - 1] == steps + shorter;
      LeftBehindForever(guard, steps, shorter, s);
      ReachableInvariant(guard, steps + shorter);
      LeftBehindStep(After(guard, steps + shorter).value, last);
      assert forall k :: 0 <= k < |shorter| ==> more[k] == shorter[k];
    }
  }
}
