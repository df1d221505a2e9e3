/** Executing an installation plan (installer/executor.py), and what repeated runs of it come to. */
module InstallExecutor {

  import opened Options

  type Key(==, !new)
  type Command(==, !new)

  datatype Step = Step(
    key: Key,
    command: Option<Command>,
    manual: bool,
    deferred: bool,
    alwaysRun: bool,
    restartAfterSuccess: bool)

  datatype Check = Check(key: Key, ok: bool, present: bool)

  datatype Status = Skipped | Blocked | Failed | Succeeded | Updated | RestartRequired

  datatype StepResult = StepResult(key: Key, status: Status)

  // ----------------------------------------------------------------------------- the dictionaries

  /** What the dictionary of checks has for a key: the last check with it. */
  function CheckOf(checks: seq<Check>, key: Key): (found: Option<Check>)
    ensures found.Some? <==> exists check :: check in checks && check.key == key
    ensures found.Some? ==> found.value in checks && found.value.key == key
  {
    if checks == [] then None
    else
      var last := checks[|checks| - 1];
      if last.key == key then Some(last) else CheckOf(checks[..|checks| - 1], key)
  }

  /** The same for the dictionary of steps. */
  function StepOf(steps: seq<Step>, key: Key): (found: Option<Step>)
    ensures found.Some? <==> exists step :: step in steps && step.key == key
    ensures found.Some? ==> found.value in steps && found.value.key == key
  {
    if steps == [] then None
    else
      var last := steps[|steps| - 1];
      if last.key == key then Some(last) else StepOf(steps[..|steps| - 1], key)
  }

  /** The keys of `check_by_key` in the order of the dictionary. */
  function Keys(checks: seq<Check>): (keys: seq<Key>)
    ensures forall key :: key in keys <==> CheckOf(checks, key).Some?
    ensures forall i, j :: 0 <= i < j < |keys| ==> keys[i] != keys[j]
  {
    if checks == [] then []
    else
      var before, key := Keys(checks[..|checks| - 1]), checks[|checks| - 1].key;
      if key in before then before else before + [key]
  }

  predicate Missing(checks: seq<Check>, key: Key) {
    CheckOf(checks, key).Some? && !CheckOf(checks, key).value.ok
  }

  /** Nothing in the plan installs this, or only a step by hand that cannot wait. */
  predicate Blocks(steps: seq<Step>, checks: seq<Check>, key: Key) {
    && Missing(checks, key)
    && (StepOf(steps, key).None? || (StepOf(steps, key).value.manual && !StepOf(steps, key).value.deferred))
  }

  function Blockers(steps: seq<Step>, checks: seq<Check>, keys: seq<Key>): (results: seq<StepResult>)
    ensures forall r :: r in results <==> r.key in keys && Blocks(steps, checks, r.key) && r.status == Blocked
  {
    if keys == [] then []
    else
      var before, key := Blockers(steps, checks, keys[..|keys| - 1]), keys[|keys| - 1];
      assert keys == keys[..|keys| - 1] + [key];
      if Blocks(steps, checks, key) then before + [StepResult(key, Blocked)] else before
  }

  /** Of several checks or steps with one key the last one counts. */
  lemma {:induction false} LastCheckCounts(checks: seq<Check>, key: Key, i: nat)
    requires i < |checks| && checks[i].key == key && forall j :: i < j < |checks| ==> checks[j].key != key
    ensures CheckOf(checks, key) == Some(checks[i])
  {
    if i < |checks| - 1 {
      LastCheckCounts(checks[..|checks| - 1], key, i);
    }
  }

  lemma {:induction false} LastStepCounts(steps: seq<Step>, key: Key, i: nat)
    requires i < |steps| && steps[i].key == key && forall j :: i < j < |steps| ==> steps[j].key != key
    ensures StepOf(steps, key) == Some(steps[i])
  {
    if i < |steps| - 1 {
      LastStepCounts(steps[..|steps| - 1], key, i);
    }
  }

  /** The first check with the one key comes before every check with the other one. */
  predicate ComesFirst(checks: seq<Check>, a: Key, b: Key) {
    exists i :: 0 <= i < |checks| && checks[i].key == a && forall j :: 0 <= j < |checks| && checks[j].key == b ==> i < j
  }

  lemma StillComesFirst(checks: seq<Check>, last: Check, a: Key, b: Key)
    requires ComesFirst(checks, a, b)
    ensures ComesFirst(checks + [last], a, b)
  {
    var i :| 0 <= i < |checks| && checks[i].key == a && forall j :: 0 <= j < |checks| && checks[j].key == b ==> i < j;
    assert (checks + [last])[i] == checks[i];
  }

  lemma NewComesLast(checks: seq<Check>, last: Check, a: Key)
    requires CheckOf(checks, a).Some? && CheckOf(checks, last.key).None?
    ensures ComesFirst(checks + [last], a, last.key)
  {
    var check :| check in checks && check.key == a;
    var i :| 0 <= i < |checks| && checks[i] == check;
    assert (checks + [last])[i] == check;
    assert forall j :: 0 <= j < |checks| ==> checks[j] in checks;
  }

  /** The keys come in the order of their first checks. */
  lemma {:induction false} KeysInOrder(checks: seq<Check>, i: nat, j: nat)
    requires i < j < |Keys(checks)|
    ensures ComesFirst(checks, Keys(checks)[i], Keys(checks)[j])
  {
    var before, last := checks[..|checks| - 1], checks[|checks| - 1];
    assert checks == before + [last];
    if j < |Keys(before)| {
      KeysInOrder(before, i, j);
      StillComesFirst(before, last, Keys(before)[i], Keys(before)[j]);
    } else {
      NewComesLast(before, last, Keys(before)[i]);
    }
  }

  lemma {:induction false} BlockersFollow(steps: seq<Step>, checks: seq<Check>, keys: seq<Key>, i: nat, j: nat)
    requires i < j < |Blockers(steps, checks, keys)|
    ensures
      var blockers := Blockers(steps, checks, keys);
      exists a, b :: 0 <= a < b < |keys| && keys[a] == blockers[i].key && keys[b] == blockers[j].key
  {
    var n := |keys| - 1;
    var before := Blockers(steps, checks, keys[..n]);
    if j < |before| {
      BlockersFollow(steps, checks, keys[..n], i, j);
    } else {
      assert before[i] in before;
      var a :| 0 <= a < n && keys[..n][a] == before[i].key;
      assert keys[a] == before[i].key && keys[n] == Blockers(steps, checks, keys)[j].key;
    }
  }

  /** What blocks the plan is reported once each, in the order of the first checks. */
  lemma BlockersInOrder(steps: seq<Step>, checks: seq<Check>, i: nat, j: nat)
    requires i < j < |Blockers(steps, checks, Keys(checks))|
    ensures
      var blockers := Blockers(steps, checks, Keys(checks));
      blockers[i].key != blockers[j].key && ComesFirst(checks, blockers[i].key, blockers[j].key)
  {
    var keys, blockers := Keys(checks), Blockers(steps, checks, Keys(checks));
    BlockersFollow(steps, checks, keys, i, j);
    var a, b :| 0 <= a < b < |keys| && keys[a] == blockers[i].key && keys[b] == blockers[j].key;
    KeysInOrder(checks, a, b);
  }

  // ------------------------------------------------------------------------------------ one run

  /** The step has something to do. */
  predicate Due(checks: seq<Check>, step: Step) {
    Missing(checks, step.key) || step.alwaysRun
  }

  /** The step runs its command. */
  predicate Runs(checks: seq<Check>, step: Step) {
    Due(checks, step) && step.command.Some?
  }

  predicate Stops(status: Status) {
    status in {Failed, Blocked, RestartRequired}
  }

  predicate Succeeds(status: Status) {
    status in {Succeeded, Updated, RestartRequired}
  }

  /** The status of a step whose command, if it ran, returned `code`. */
  predicate StatusFits(checks: seq<Check>, step: Step, code: int, status: Status) {
    && (status == Skipped <==> !Due(checks, step))
    && (status == Blocked <==> Due(checks, step) && step.command.None?)
    && (status == Failed <==> Runs(checks, step) && code != 0)
    && (status == RestartRequired <==> Runs(checks, step) && code == 0 && step.restartAfterSuccess)
    && (status == Updated ==> CheckOf(checks, step.key).Some? && CheckOf(checks, step.key).value.present)
    && (status == Succeeded ==> CheckOf(checks, step.key).Some? ==> !CheckOf(checks, step.key).value.present)
  }

  datatype Call = Call(command: Command, code: int)

  /** The calls of the steps that run, in order, when step `i` returns `codes[i]`. */
  function Calls(checks: seq<Check>, steps: seq<Step>, codes: seq<int>): seq<Call>
    requires |codes| == |steps|
  {
    if steps == [] then []
    else
      var n := |steps| - 1;
      Calls(checks, steps[..n], codes[..n]) +
        if Runs(checks, steps[n]) then [Call(steps[n].command.value, codes[n])] else []
  }

  /** One result per step, each fitting its code, and none after the first that stops the run. */
  ghost predicate InOrder(steps: seq<Step>, checks: seq<Check>, codes: seq<int>, applied: seq<StepResult>) {
    && |codes| == |applied| <= |steps|
    && (forall i :: 0 <= i < |applied| ==> ResultFits(steps[i], checks, codes[i], applied[i]))
    && forall i :: 0 <= i < |applied| - 1 ==> !Stops(applied[i].status)
  }

  predicate ResultFits(step: Step, checks: seq<Check>, code: int, result: StepResult) {
    result.key == step.key && StatusFits(checks, step, code, result.status)
  }

  predicate Stopped(applied: seq<StepResult>) {
    applied != [] && Stops(applied[|applied| - 1].status)
  }

  lemma InOrderMore(steps: seq<Step>, checks: seq<Check>, codes: seq<int>, applied: seq<StepResult>, code: int,
      result: StepResult)
    requires InOrder(steps, checks, codes, applied) && !Stopped(applied)
    requires |applied| < |steps| && ResultFits(steps[|applied|], checks, code, result)
    ensures InOrder(steps, checks, codes + [code], applied + [result])
  {
  }

  lemma CallsMore(steps: seq<Step>, checks: seq<Check>, codes: seq<int>, code: int)
    requires |codes| < |steps|
    ensures
      var step := steps[|codes|];
      Calls(checks, steps[..|codes| + 1], codes + [code]) ==
        Calls(checks, steps[..|codes|], codes) + if Runs(checks, step) then [Call(step.command.value, code)] else []
  {
    var n := |codes|;
    assert steps[..n + 1][..n] == steps[..n] && (codes + [code])[..n] == codes;
  }

  /** Everything that a run of the plan can come to. */
  ghost predicate IsRun(steps: seq<Step>, checks: seq<Check>, applied: seq<StepResult>) {
    var blockers := Blockers(steps, checks, Keys(checks));
    if blockers != [] then applied == blockers else exists codes :: InOrder(steps, checks, codes, applied)
  }

  /** The computer that the commands change. */
  class Host {
    var calls: seq<Call>

    method Run(command: Command) returns (code: int)
      modifies this
      ensures calls == old(calls) + [Call(command, code)]
    {
      code := *;
      calls := calls + [Call(command, code)];
    }
  }

  /** `execute_plan`: it changes nothing while something blocks, and otherwise runs exactly the commands
      that are due, in order, up to the first stop. `codes` is what the commands returned. */
  method ExecutePlan(steps: seq<Step>, checks: seq<Check>, cancelled: nat -> bool, host: Host)
    returns (applied: seq<StepResult>, ghost codes: seq<int>)
    modifies host
    ensures IsRun(steps, checks, applied)
    ensures Blockers(steps, checks, Keys(checks)) != [] ==> host.calls == old(host.calls)
    ensures Blockers(steps, checks, Keys(checks)) == [] ==>
      && InOrder(steps, checks, codes, applied)
      && host.calls == old(host.calls) + Calls(checks, steps[..|applied|], codes)
      && (|applied| == |steps| || cancelled(|applied|) || Stopped(applied))
  {
    var blockers := Blockers(steps, checks, Keys(checks));
    if blockers != [] {
      return blockers, [];
    }
    applied, codes := ExecuteSteps(steps, checks, cancelled, host);
  }

  /** Its loop. */
  method ExecuteSteps(steps: seq<Step>, checks: seq<Check>, cancelled: nat -> bool, host: Host)
    returns (applied: seq<StepResult>, ghost codes: seq<int>)
    modifies host
    ensures InOrder(steps, checks, codes, applied)
    ensures host.calls == old(host.calls) + Calls(checks, steps[..|applied|], codes)
    ensures |applied| == |steps| || cancelled(|applied|) || Stopped(applied)
  {
    applied, codes := [], [];
    while |applied| < |steps| && !cancelled(|applied|) && !Stopped(applied)
      invariant InOrder(steps, checks, codes, applied)
      invariant host.calls == old(host.calls) + Calls(checks, steps[..|applied|], codes)
      decreases |steps| - |applied|
    {
      var result, code := ExecuteStep(steps[|applied|], checks, host);
      InOrderMore(steps, checks, codes, applied, code, result);
      CallsMore(steps, checks, codes, code);
      applied, codes := applied + [result], codes + [code];
    }
  }

  /** The body of that loop. */
  method ExecuteStep(step: Step, checks: seq<Check>, host: Host) returns (result: StepResult, code: int)
    modifies host
    ensures ResultFits(step, checks, code, result)
    ensures host.calls == old(host.calls) + if Runs(checks, step) then [Call(step.command.value, code)] else []
  {
    code := 0;
    var status;
    if !Due(checks, step) {
      status := Skipped;
    } else if step.command.None? {
      status := Blocked;
    } else {
      code := host.Run(step.command.value);
      var check := CheckOf(checks, step.key);
      status :=
        if code == 0 && step.restartAfterSuccess then RestartRequired
        else if code == 0 && check.Some? && check.value.present then Updated
        else if code == 0 then Succeeded
        else Failed;
    }
    result := StepResult(step.key, status);
  }

  // ------------------------------------------------------------------------------- repeated runs

  /** A run after a fresh diagnosis. */
  datatype Run = Run(checks: seq<Check>, applied: seq<StepResult>)

  ghost predicate AllRuns(steps: seq<Step>, runs: seq<Run>) {
    forall r :: 0 <= r < |runs| ==> IsRun(steps, runs[r].checks, runs[r].applied)
  }

  /** What a step did stays done: its check passes in every later run. */
  ghost predicate Lasting(runs: seq<Run>) {
    forall r, q, i :: 0 <= r < q < |runs| && 0 <= i < |runs[r].applied| && Succeeds(runs[r].applied[i].status)
      ==> !Missing(runs[q].checks, runs[r].applied[i].key)
  }

  predicate AsksForRestart(run: Run) {
    run.applied != [] && run.applied[|run.applied| - 1].status == RestartRequired
  }

  ghost predicate AllRestart(runs: seq<Run>) {
    forall r :: 0 <= r < |runs| ==> AsksForRestart(runs[r])
  }

  /** Step `k` runs in every run that gets to it, and then asks for a restart if it succeeds; and no step
      before it is bound to block. */
  predicate Insists(steps: seq<Step>, k: nat)
    requires k < |steps|
  {
    && steps[k].alwaysRun && steps[k].restartAfterSuccess && steps[k].command.Some?
    && forall j :: 0 <= j < k ==> !(steps[j].alwaysRun && steps[j].command.None?)
  }

  predicate Endless(steps: seq<Step>) {
    exists k :: 0 <= k < |steps| && Insists(steps, k)
  }

  /** Otherwise the step of the plan that asked for a restart was missing before. */
  lemma RestartingStep(steps: seq<Step>, run: Run)
    requires IsRun(steps, run.checks, run.applied) && AsksForRestart(run) && !Endless(steps)
    ensures |run.applied| <= |steps| && run.applied[|run.applied| - 1].key == steps[|run.applied| - 1].key
    ensures Missing(run.checks, steps[|run.applied| - 1].key)
  {
    var i := |run.applied| - 1;
    assert run.applied[i] in run.applied;
    var codes :| InOrder(steps, run.checks, codes, run.applied);
    assert ResultFits(steps[i], run.checks, codes[i], run.applied[i]);
    forall j | 0 <= j < i
      ensures !(steps[j].alwaysRun && steps[j].command.None?)
    {
      assert ResultFits(steps[j], run.checks, codes[j], run.applied[j]);
    }
    assert !Insists(steps, i);
  }

  lemma Pigeonhole(positions: seq<nat>, bound: nat)
    requires forall r :: 0 <= r < |positions| ==> positions[r] < bound
    requires forall r, q :: 0 <= r < q < |positions| ==> positions[r] != positions[q]
    ensures |positions| <= bound
    decreases bound
  {
    if |positions| > 0 {
      assert positions[0] < bound;
      var last := bound - 1;
      if r :| 0 <= r < |positions| && positions[r] == last {
        Pigeonhole(positions[..r] + positions[r + 1..], last);
      } else {
        Pigeonhole(positions, last);
      }
    }
  }

  /** No two runs ask for a restart at the same step. */
  lemma RestartsDiffer(steps: seq<Step>, runs: seq<Run>, r: nat, q: nat)
    requires AllRuns(steps, runs) && Lasting(runs) && AllRestart(runs) && !Endless(steps) && r < q < |runs|
    ensures |runs[r].applied| != |runs[q].applied|
  {
    RestartingStep(steps, runs[r]);
    RestartingStep(steps, runs[q]);
    var i := |runs[r].applied| - 1;
    assert runs[r].applied[i].status == RestartRequired;
    assert Succeeds(runs[r].applied[i].status) && !Missing(runs[q].checks, runs[r].applied[i].key);
  }

  /** If what succeeded stays done, the plan asks for no more restarts than it has steps. */
  lemma RestartsAreBounded(steps: seq<Step>, runs: seq<Run>)
    requires AllRuns(steps, runs) && Lasting(runs) && AllRestart(runs) && !Endless(steps)
    ensures |runs| <= |steps|
  {
    forall r | 0 <= r < |runs|
      ensures runs[r].applied != [] && |runs[r].applied| <= |steps|
    {
      RestartingStep(steps, runs[r]);
    }
    var positions := seq(|runs|, r requires 0 <= r < |runs| => |runs[r].applied| - 1);
    forall r, q | 0 <= r < q < |runs|
      ensures positions[r] != positions[q]
    {
      RestartsDiffer(steps, runs, r, q);
    }
    Pigeonhole(positions, |steps|);
  }

  lemma {:induction false} NothingBlocks(steps: seq<Step>, checks: seq<Check>, keys: seq<Key>)
    requires forall key :: !Blocks(steps, checks, key)
    ensures Blockers(steps, checks, keys) == []
  {
    if keys != [] {
      NothingBlocks(steps, checks, keys[..|keys| - 1]);
    }
  }

  /** What a step comes to when nothing is missing and its command succeeds. */
  function Smooth(step: Step): StepResult {
    StepResult(step.key,
      if !step.alwaysRun then Skipped
      else if step.command.None? then Blocked
      else if step.restartAfterSuccess then RestartRequired
      else Succeeded)
  }

  /** The run up to the first step that insists. */
  lemma RunUpTo(steps: seq<Step>, k: nat) returns (run: Run)
    requires k < |steps| && Insists(steps, k) && forall j :: 0 <= j < k ==> !Insists(steps, j)
    ensures IsRun(steps, run.checks, run.applied) && AsksForRestart(run) && run.checks == []
  {
    run := Run([], seq(k + 1, i requires 0 <= i <= k => Smooth(steps[i])));
    var codes := seq(k + 1, _ => 0);
    NothingBlocks(steps, [], Keys([]));
    forall i | 0 <= i < k
      ensures !Stops(Smooth(steps[i]).status)
    {
      assert !Insists(steps, i);
    }
    assert InOrder(steps, [], codes, run.applied);
  }

  lemma FirstInsisting(steps: seq<Step>, n: nat) returns (k: nat)
    requires n < |steps| && Insists(steps, n)
    ensures k <= n && Insists(steps, k) && forall j :: 0 <= j < k ==> !Insists(steps, j)
  {
    if j :| 0 <= j < n && Insists(steps, j) {
      k := FirstInsisting(steps, j);
    } else {
      k := n;
    }
  }

  /** A plan with such a step can ask for any number of restarts, although what succeeded stays done. */
  lemma RestartsAreEndless(steps: seq<Step>, n: nat) returns (runs: seq<Run>)
    requires Endless(steps)
    ensures |runs| == n && AllRuns(steps, runs) && Lasting(runs) && AllRestart(runs)
  {
    var m :| 0 <= m < |steps| && Insists(steps, m);
    var k := FirstInsisting(steps, m);
    var run := RunUpTo(steps, k);
    runs := seq(n, _ => run);
  }

  /** So restarts are bounded by the number of steps exactly for the plans without such a step. */
  lemma RestartsAreBoundedExactly(steps: seq<Step>)
    ensures !Endless(steps) <==>
      forall runs :: AllRuns(steps, runs) && Lasting(runs) && AllRestart(runs) ==> |runs| <= |steps|
  {
    if Endless(steps) {
      var runs := RestartsAreEndless(steps, |steps| + 1);
    } else {
      forall runs | AllRuns(steps, runs) && Lasting(runs) && AllRestart(runs)
        ensures |runs| <= |steps|
      {
        RestartsAreBounded(steps, runs);
      }
    }
  }

  /** The smallest endless plan; and a plan in which a step by hand shields the same step. */
  lemma AlwaysRestarting(key: Key, command: Command)
    ensures
      var stubborn, byHand := Step(key, Some(command), false, false, true, true),
        Step(key, None, true, true, true, false);
      Endless([stubborn]) && !Endless([byHand, stubborn])
  {
    var stubborn, byHand := Step(key, Some(command), false, false, true, true),
      Step(key, None, true, true, true, false);
    assert Insists([stubborn], 0);
    assert [byHand, stubborn][0] == byHand;
    assert !Insists([byHand, stubborn], 0) && !Insists([byHand, stubborn], 1);
  }
}
