/** `LessonSession` (installer/lesson_session.py) as a class. Its methods reach the shared guard and
    the child process only through steps of the state machine in `LessonGuard`, and before any of them
    other sessions, the child and the outside world may take any steps of their own. */
module LessonSessions {

  import opened Options
  import opened LessonGuard

  predicate IsOwn(step: Step, name: Name) {
    !step.Meddle? && !step.ChildExits? && step.name == name
  }

  /** What one session can see of the steps the others take: at most that its child exits. */
  predicate OnlyChildMoved(before: Session, after: Session) {
    && after == before.(child := after.child)
    && (after.child != before.child ==> before.child == Alive && after.child.Exited?)
  }

  /** The steps that session `name` took itself. */
  ghost function OwnSteps(steps: seq<Step>, name: Name): seq<Step> {
    if steps == [] then []
    else OwnSteps(steps[..|steps| - 1], name) + OwnStep(steps[|steps| - 1], name)
  }

  ghost function OwnStep(step: Step, name: Name): seq<Step> {
    if IsOwn(step, name) then [step] else []
  }

  class World {
    const initial: Guard
    /** What the others do before each turn of a session; anything that is not possible is skipped. */
    const schedule: nat -> seq<Step>
    var turn: nat
    var s: State
    ghost var steps: seq<Step>
    /** How often the others changed the guard. */
    ghost var disturbed: nat

    ghost predicate Valid()
      reads this
    {
      After(initial, steps) == Some(s)
    }

    /** What session `name` did so far. */
    ghost function Own(name: Name): seq<Step>
      reads this
    {
      OwnSteps(steps, name)
    }

    constructor (guard: Guard, schedule: nat -> seq<Step>)
      ensures Valid() && s == State(guard, None, map[]) && steps == []
    {
      this.initial, this.schedule, turn := guard, schedule, 0;
      s, steps, disturbed := State(guard, None, map[]), [], 0;
    }

    method Do(step: Step)
      requires Valid() && Enabled(s, step)
      modifies this
      ensures Valid() && s == Apply(old(s), step) && steps == old(steps) + [step]
      ensures forall n :: Own(n) == old(Own(n)) + OwnStep(step, n)
      ensures disturbed == old(disturbed)
    {
      s, steps := Apply(s, step), steps + [step];
      assert steps[..|steps| - 1] == old(steps);
    }

    method Others(name: Name)
      requires Valid() && name in s.sessions
      modifies this
      ensures Valid() && Own(name) == old(Own(name))
      ensures disturbed >= old(disturbed) && (disturbed == old(disturbed) ==> s.guard == old(s).guard)
      ensures name in s.sessions && OnlyChildMoved(old(s).sessions[name], s.sessions[name])
    {
      var others := schedule(turn);
      turn := turn + 1;
      for k := 0 to |others|
        invariant Valid() && Own(name) == old(Own(name))
        invariant disturbed >= old(disturbed) && (disturbed == old(disturbed) ==> s.guard == old(s).guard)
        invariant name in s.sessions && OnlyChildMoved(old(s).sessions[name], s.sessions[name])
      {
        if Enabled(s, others[k]) && !IsOwn(others[k], name) {
          OthersStep(s, others[k], name);
          ghost var guard := s.guard;
          Do(others[k]);
          disturbed := if s.guard == guard then disturbed else disturbed + 1;
        }
      }
    }
  }

  lemma OthersStep(s: State, step: Step, name: Name)
    requires Enabled(s, step) && !IsOwn(step, name) && name in s.sessions
    ensures name in Apply(s, step).sessions && OnlyChildMoved(s.sessions[name], Apply(s, step).sessions[name])
  {
  }

  class LessonSession {
    const world: World
    const name: Name
    const mode: Mode
    var state: LessonState
    var sid: Option<Sid>
    var handle: bool
    /** How many of its own operations failed. */
    ghost var faults: nat

    /** The session is at this position, and its fields are what the machine has for it. */
    ghost predicate In(position: Position)
      reads this, world
    {
      && world.Valid() && name in world.s.sessions
      && world.s.sessions[name] == Session(mode, state, sid, handle, world.s.sessions[name].child, position)
    }

    ghost predicate Valid()
      reads this, world
    {
      In(Ready)
    }

    lemma Fits(position: Position)
      requires In(position)
      ensures SessionFits(world.s, name)
    {
      ReachableInvariant(world.initial, world.steps);
    }

    constructor (world: World, name: Name, mode: Mode)
      requires world.Valid() && name !in world.s.sessions
      modifies world
      ensures Valid() && this.world == world && this.name == name && this.mode == mode
      ensures state == if old(world.s.guard).Present? then RecoveryRequired else Idle
    {
      this.world, this.name, this.mode := world, name, mode;
      state := if world.s.guard.Present? then RecoveryRequired else Idle;
      sid, handle, faults := None, false, 0;
      new;
      world.Do(Construct(name, mode));
    }

    /** Take a step, and take over what it makes of the fields. */
    method Take(step: Step)
      requires world.Valid() && Enabled(world.s, step) && IsOwn(step, name) && name in world.s.sessions
      requires world.s.sessions[name].mode == mode
      modifies this, world
      ensures world.Valid() && world.s == Apply(old(world.s), step) && name in world.s.sessions
      ensures world.Own(name) == old(world.Own(name)) + [step]
      ensures faults == old(faults) && world.disturbed == old(world.disturbed)
      ensures In(world.s.sessions[name].position)
    {
      world.Do(step);
      var session := world.s.sessions[name];
      state, sid, handle := session.state, session.sid, session.handle;
    }

    /** An operation on the guard or the child may fail. */
    method Attempt() returns (ok: bool)
      modifies this`faults
      ensures faults == if ok then old(faults) else old(faults) + 1
    {
      ok := *;
      faults := if ok then faults else faults + 1;
    }

    /** What the counters have come to since. */
    twostate predicate Later()
      reads this, world
    {
      faults >= old(faults) && world.disturbed >= old(world.disturbed)
    }

    /** No operation of this session failed since, and nobody else changed the guard. */
    twostate predicate Undisturbed()
      reads this, world
    {
      faults == old(faults) && world.disturbed == old(world.disturbed)
    }

    /** The guard holds exactly the record of this session. */
    ghost predicate Intact()
      reads this, world
    {
      sid.Some? && world.s.guard == Present(Some(Record(sid.value, mode)), false)
    }

    // ------------------------------------------------------------------------------------- start

    /** `start`: a lesson runs exactly when it returns true; if it was refused it did nothing, and if it
        failed the session needs recovery. */
    method Start(newSid: Sid) returns (ok: bool, ghost own: seq<Step>)
      requires Valid()
      modifies this, world
      ensures Later() && Valid() && world.Own(name) == old(world.Own(name)) + own
      ensures old(state) !in {Idle, Closed} ==> !ok && own == [] && state == old(state)
      ensures old(state) in {Idle, Closed} ==> state == if ok then Running else RecoveryRequired
      ensures ok ==> sid == Some(newSid) && handle && world.s.guard.Present? && world.s.creator == Some(name)
      ensures ok ==> own == Started(newSid)
      ensures !ok ==> Launch(name, true, true) !in own
      ensures old(state) in {Idle, Closed} && Undisturbed() && old(world.s.guard).Absent? ==> ok && Intact()
    {
      if state !in {Idle, Closed} {
        return false, [];
      }
      ok, own := MakeGuard(newSid);
      if ok {
        ghost var taken;
        ok, taken := Establish();
        own := own + taken;
      }
    }

    /** What `start` does behind the guard. */
    method Establish() returns (ok: bool, ghost own: seq<Step>)
      requires In(Claimed) && sid.Some? && state == RecoveryRequired
      modifies this, world
      ensures Later() && Valid() && sid == old(sid) && world.Own(name) == old(world.Own(name)) + own
      ensures if ok then state == Running && handle else state == RecoveryRequired
      ensures ok ==> world.s.guard.Present? && world.s.creator == Some(name)
      ensures ok ==> own == [WriteOwner(name, Some(Record(sid.value, mode)), true), Launch(name, true, true)]
      ensures !ok ==> Launch(name, true, true) !in own
      ensures Undisturbed() && old(world.s.guard) == Present(None, false) ==> ok && Intact()
    {
      ok, own := WriteRecord();
      if ok {
        ghost var taken;
        ok, taken := LaunchChild();
        own := own + taken;
      }
    }

    /** The steps of a `start` that succeeds. */
    ghost function Started(newSid: Sid): seq<Step> {
      [Claim(name, newSid, Happens), WriteOwner(name, Some(Record(newSid, mode)), true), Launch(name, true, true)]
    }

    method MakeGuard(newSid: Sid) returns (ok: bool, ghost own: seq<Step>)
      requires Valid() && state in {Idle, Closed}
      modifies this, world
      ensures Later()
      ensures state == RecoveryRequired && if ok then In(Claimed) && sid == Some(newSid) else Valid()
      ensures world.Own(name) == old(world.Own(name)) + own
      ensures |own| == 1 && own[0].Claim? && (ok <==> own[0] == Claim(name, newSid, Happens))
      ensures Undisturbed() && old(world.s.guard).Absent? ==> ok && world.s.guard == Present(None, false)
    {
      world.Others(name);
      var late: bool := *;
      ok := Attempt();
      ok := ok && world.s.guard.Absent?;
      var outcome := if ok then Happens else if late && world.s.guard.Absent? then FailsLate else Fails;
      Take(Claim(name, newSid, outcome));
      own := [Claim(name, newSid, outcome)];
    }

    method WriteRecord() returns (ok: bool, ghost own: seq<Step>)
      requires In(Claimed) && sid.Some? && state == RecoveryRequired
      modifies this, world
      ensures Later()
      ensures state == RecoveryRequired && sid == old(sid) && if ok then In(Recorded) else Valid()
      ensures world.Own(name) == old(world.Own(name)) + own
      ensures |own| == 1 && own[0].WriteOwner?
      ensures ok <==> own[0] == WriteOwner(name, Some(Record(sid.value, mode)), true)
      ensures Undisturbed() && old(world.s.guard) == Present(None, false) ==> ok && Intact()
    {
      world.Others(name);
      var partial: bool := *;
      ok := Attempt();
      ok := ok && world.s.guard.Present? && world.s.guard.owner.None?;
      var owner := if ok then Some(Record(sid.value, mode)) else if partial then Some(OtherBytes) else None;
      Take(WriteOwner(name, owner, ok));
      own := [WriteOwner(name, owner, ok)];
    }

    method LaunchChild() returns (ok: bool, ghost own: seq<Step>)
      requires In(Recorded)
      modifies this, world
      ensures Later() && Valid() && sid == old(sid)
      ensures if ok then state == Running && handle else state == RecoveryRequired
      ensures ok ==> world.s.guard.Present? && world.s.creator == Some(name)
      ensures world.Own(name) == old(world.Own(name)) + own
      ensures |own| == 1 && own[0].Launch? && (ok <==> own[0] == Launch(name, true, true))
      ensures Undisturbed() ==> ok && world.s.guard == old(world.s.guard)
    {
      world.Others(name);
      var spawned: bool := *;
      ok := Attempt();
      spawned := ok || spawned;
      Take(Launch(name, spawned, ok));
      own := [Launch(name, spawned, ok)];
      Fits(Ready);
    }

    // ---------------------------------------------------------------------------------- the child

    /** `poll`: the state changes only when the child is known to have exited, or cannot be asked. */
    method Poll() returns (ok: bool, ghost own: seq<Step>)
      requires Valid()
      modifies this, world
      ensures Later() && Valid() && sid == old(sid) && world.Own(name) == old(world.Own(name)) + own
      ensures own == if old(handle) then [LessonGuard.Poll(name, ok)] else []
      ensures !old(handle) ==> ok && state == old(state) && !handle
      ensures !ok ==> state == RecoveryRequired && handle
      ensures ok && handle ==> state == old(state) && !world.s.sessions[name].child.Exited?
      ensures ok && old(handle) && !handle ==>
        && world.s.sessions[name].child.Exited?
        && state == AfterExit(old(state), world.s.sessions[name].child.code)
      ensures faults == old(faults) ==> ok
      ensures Undisturbed() ==> world.s.guard == old(world.s.guard)
      ensures old(world.s.sessions[name].child).Exited? ==>
        world.s.sessions[name].child == old(world.s.sessions[name].child)
    {
      if !handle {
        return true, [];
      }
      world.Others(name);
      ok := Attempt();
      Take(LessonGuard.Poll(name, ok));
      own := [LessonGuard.Poll(name, ok)];
    }

    /** The state is what one look at the child makes of it. */
    ghost predicate Polled(was: LessonState, held: bool)
      reads this, world
    {
      if held && !handle then
        && name in world.s.sessions && world.s.sessions[name].child.Exited?
        && state == AfterExit(was, world.s.sessions[name].child.code)
      else state == was
    }

    /** `request_end`: true once the child has been asked to stop, which is asked once. */
    method RequestEnd() returns (ok: bool, ghost own: seq<Step>)
      requires Valid()
      modifies this, world
      ensures Later() && Valid() && sid == old(sid) && world.Own(name) == old(world.Own(name)) + own
      ensures ok <==> state == Stopping
      ensures !ok ==> Polled(old(state), old(handle)) || (state == RecoveryRequired && faults > old(faults))
      ensures ok ==> old(state) in {Running, Stopping} && handle
      ensures RequestStop(name, true) in own <==> ok && old(state) == Running
      ensures faults == old(faults) && state == Running ==> ok
    {
      Fits(Ready);
      ok, own := Poll();
      if !ok || state == Stopping {
        ok := ok && state == Stopping;
        return;
      }
      if state != Running || !handle {
        ok := false;
        return;
      }
      world.Others(name);
      ok := Attempt();
      Take(RequestStop(name, ok));
      own := own + [RequestStop(name, ok)];
    }

    // ----------------------------------------------------------------------------------- complete

    /** `complete`: it returns true only after removing the guard itself, on sufficient evidence. */
    method Complete(evidence: Evidence) returns (ok: bool, ghost own: seq<Step>)
      requires Valid()
      modifies this, world
      ensures Later() && Valid()
      ensures ok ==> state == Closed && sid == None && Suffices(evidence, old(sid), mode)
      ensures !ok ==> Polled(old(state), old(handle)) || state == RecoveryRequired
      ensures old(state) == RecoveryRequired ==> state == RecoveryRequired
      ensures world.Own(name) == old(world.Own(name)) + own && (ok ==> RemoveGuard(name, Happens) in own)
      ensures !Suffices(evidence, old(sid), mode) && faults == old(faults) ==> Polled(old(state), old(handle))
      ensures Undisturbed() && old(MayClose(evidence)) ==> ok
    {
      ok, own := CheckEvidence(evidence);
      if !ok {
        return;
      }
      ghost var checked := own;
      ok, own := Release(evidence);
      own := checked + own;
    }

    /** The child is known to have ended, or can be found to have ended, with code zero; the evidence
        suffices, and the guard is as this session left it. */
    ghost predicate MayClose(evidence: Evidence)
      reads this, world
    {
      && name in world.s.sessions && (state == Running || state == Stopping || state == Verifying)
      && world.s.sessions[name].child == Exited(0) && Suffices(evidence, sid, mode) && Intact()
    }

    /** The first part of `complete`: the session is verifying and the evidence suffices. */
    method CheckEvidence(evidence: Evidence) returns (ok: bool, ghost own: seq<Step>)
      requires Valid()
      modifies this, world
      ensures Later() && world.Own(name) == old(world.Own(name)) + own
      ensures if ok then In(Removing(Confirmed, evidence)) && old(state) != RecoveryRequired else Valid()
      ensures ok ==> Suffices(evidence, old(sid), mode)
      ensures !ok && old(state) == RecoveryRequired ==> state == RecoveryRequired
      ensures !ok ==> Polled(old(state), old(handle)) || (state == RecoveryRequired && faults > old(faults))
      ensures Undisturbed() && old(MayClose(evidence)) ==> ok && Intact()
      ensures ok ==> sid == old(sid)
    {
      Fits(Ready);
      ok, own := Poll();
      ok := ok && state == Verifying && Suffices(evidence, sid, mode);
      if ok {
        Take(Confirm(name, evidence));
        own := own + [Confirm(name, evidence)];
      }
    }

    /** The rest of it: check the guard and remove it. */
    method Release(evidence: Evidence) returns (ok: bool, ghost own: seq<Step>)
      requires In(Removing(Confirmed, evidence))
      modifies this, world
      ensures Later() && Valid() && world.Own(name) == old(world.Own(name)) + own
      ensures if ok then state == Closed && sid == None else state == RecoveryRequired
      ensures ok ==> RemoveGuard(name, Happens) in own
      ensures Undisturbed() && old(Intact()) ==> ok
    {
      ok, own := CheckGuard(evidence);
      if ok {
        ghost var taken;
        ok, taken := DropGuard(evidence);
        own := own + taken;
      }
    }

    /** The two looks at the guard: nothing unexpected in it, and the record is this session's. */
    method CheckGuard(evidence: Evidence) returns (ok: bool, ghost own: seq<Step>)
      requires In(Removing(Confirmed, evidence))
      modifies this, world
      ensures Later()
      ensures if ok then In(Removing(Checked, evidence)) else Valid() && state == RecoveryRequired
      ensures world.Own(name) == old(world.Own(name)) + own
      ensures ok ==> own == [ListGuard(name, true), ReadOwner(name, true)]
      ensures Undisturbed() && old(Intact()) ==> ok && Intact()
    {
      world.Others(name);
      ok := Attempt();
      ok := ok && world.s.guard.Present? && world.s.guard.owner.Some? && !world.s.guard.unexpected;
      Take(ListGuard(name, ok));
      own := [ListGuard(name, ok)];
      if ok {
        ghost var taken;
        ok, taken := CheckOwner(evidence);
        own := own + taken;
      }
    }

    method CheckOwner(evidence: Evidence) returns (ok: bool, ghost own: seq<Step>)
      requires In(Removing(Listed, evidence))
      modifies this, world
      ensures Later()
      ensures if ok then In(Removing(Checked, evidence)) else Valid() && state == RecoveryRequired
      ensures world.Own(name) == old(world.Own(name)) + own && own == [ReadOwner(name, ok)]
      ensures Undisturbed() && old(Intact()) ==> ok && Intact()
    {
      world.Others(name);
      Fits(Removing(Listed, evidence));
      ok := Attempt();
      ok := ok && world.s.guard.Present? && world.s.guard.owner == Some(Record(sid.value, mode));
      Take(ReadOwner(name, ok));
      own := [ReadOwner(name, ok)];
    }

    /** The two removals. */
    method DropGuard(evidence: Evidence) returns (ok: bool, ghost own: seq<Step>)
      requires In(Removing(Checked, evidence))
      modifies this, world
      ensures Later() && Valid() && if ok then state == Closed && sid == None else state == RecoveryRequired
      ensures world.Own(name) == old(world.Own(name)) + own
      ensures ok ==> own == [Unlink(name, Happens), RemoveGuard(name, Happens)]
      ensures Undisturbed() && old(Intact()) ==> ok
    {
      ghost var taken;
      ok, own := DropOwner(evidence);
      if ok {
        ok, taken := DropDirectory(evidence);
        own := own + taken;
      }
    }

    method DropOwner(evidence: Evidence) returns (ok: bool, ghost own: seq<Step>)
      requires In(Removing(Checked, evidence))
      modifies this, world
      ensures Later()
      ensures if ok then In(Removing(Unlinked, evidence)) else Valid() && state == RecoveryRequired
      ensures world.Own(name) == old(world.Own(name)) + own
      ensures |own| == 1 && own[0].Unlink? && (ok <==> own[0] == Unlink(name, Happens))
      ensures Undisturbed() && old(Intact()) ==> ok && world.s.guard == Present(None, false)
    {
      world.Others(name);
      var late: bool := *;
      ok := Attempt();
      var possible := world.s.guard.Present? && world.s.guard.owner.Some?;
      var outcome := if ok && possible then Happens else if late && possible then FailsLate else Fails;
      Take(Unlink(name, outcome));
      ok, own := outcome == Happens, [Unlink(name, outcome)];
    }

    method DropDirectory(evidence: Evidence) returns (ok: bool, ghost own: seq<Step>)
      requires In(Removing(Unlinked, evidence))
      modifies this, world
      ensures Later() && Valid() && if ok then state == Closed && sid == None else state == RecoveryRequired
      ensures world.Own(name) == old(world.Own(name)) + own
      ensures |own| == 1 && own[0].RemoveGuard? && (ok <==> own[0] == RemoveGuard(name, Happens))
      ensures Undisturbed() && old(world.s.guard) == Present(None, false) ==> ok
    {
      world.Others(name);
      var late: bool := *;
      ok := Attempt();
      var possible := world.s.guard == Present(None, false);
      var outcome := if ok && possible then Happens else if late && possible then FailsLate else Fails;
      Take(RemoveGuard(name, outcome));
      ok, own := outcome == Happens, [RemoveGuard(name, outcome)];
    }
  }
}
