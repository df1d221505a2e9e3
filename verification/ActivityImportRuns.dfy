/** Whole histories of the activity registry: publications cut short by crashes anywhere, and local
    edits of the package files, in any order. Opening and forgetting previews changes nothing that is
    stored, so a publication may carry any preview. */
module ActivityImportRuns {

  import opened RevisionRegistry
  import opened ActivityImport

  datatype Event =
    | Publication(token: Token, preview: Preview, steps: seq<Stored>, applied: bool)
    | Tampering(packages: map<Path, Files>)

  function After(s: Stored, e: Event): Stored {
    match e
    case Publication(_, _, steps, _) => if steps == [] then s else steps[|steps| - 1]
    case Tampering(packages) => s.(packages := packages)
  }

  /** What `ImportService.Publish` ensures, cut anywhere by a crash. */
  ghost predicate Legal(s: Stored, e: Event) {
    e.Publication? ==>
      && (forall k :: 0 <= k < |e.steps| ==> PublishStep(s, e.steps[k], e.preview, e.token))
      && (e.applied ==> e.token !in s.registry.operations)
      && (e.applied ==> e.token in After(s, e).registry.operations && Published(After(s, e), e.preview))
  }

  /** Every call of `Publish` is a legal event. Where the token has no open preview, as on every retry, the
      event has no steps and may carry `any` preview. */
  method PublicationEvent(service: ImportService, token: Token, dir: Dir, local: seq<Local>, ghost any: Preview)
    returns (r: Response, ghost e: Event)
    requires service.Valid() && Unused(service.stored.registry, dir)
    modifies service
    ensures service.Valid() && e.Publication? && e.token == token
    ensures e.preview == if token in old(service.previews) then old(service.previews)[token] else any
    ensures token !in old(service.previews) ==> e.steps == []
    ensures service.trace == old(service.trace) + e.steps && e.applied == r.Applied?
    ensures Legal(old(service.stored), e) && After(old(service.stored), e) == service.stored
    ensures r.AlreadyApplied? <==> token in old(service.stored).registry.operations
    ensures r.AlreadyApplied? ==>
      service.stored == old(service.stored) && r.outcome == service.stored.registry.operations[token]
    ensures r.Applied? ==> r.outcome == service.stored.registry.operations[token]
  {
    ghost var p := if token in service.previews then service.previews[token] else any;
    r := service.Publish(token, dir, local);
    ghost var from := |old(service.trace)|;
    ghost var steps := service.trace[from..];
    assert forall k :: 0 <= k < |steps| ==> steps[k] == service.trace[from + k];
    e := Publication(token, p, steps, r.Applied?);
  }

  function StateAt(s: Stored, run: seq<Event>, n: nat): Stored
    requires n <= |run|
  {
    if n == 0 then s else After(StateAt(s, run, n - 1), run[n - 1])
  }

  ghost predicate LegalRun(s: Stored, run: seq<Event>) {
    WellFormed(s.registry) && forall n {:trigger Legal(StateAt(s, run, n), run[n])} :: 0 <= n < |run| ==>
      Legal(StateAt(s, run, n), run[n])
  }

  lemma EventExtends(s: Stored, e: Event)
    requires WellFormed(s.registry) && Legal(s, e)
    ensures WellFormed(After(s, e).registry) && Extends(s.registry, After(s, e).registry)
  {
    if e.Publication? && e.steps != [] {
      assert PublishStep(s, e.steps[|e.steps| - 1], e.preview, e.token);
    }
  }

  lemma StepExtends(s: Stored, run: seq<Event>, n: nat)
    requires LegalRun(s, run) && 0 < n <= |run| && WellFormed(StateAt(s, run, n - 1).registry)
    ensures WellFormed(StateAt(s, run, n).registry)
    ensures Extends(StateAt(s, run, n - 1).registry, StateAt(s, run, n).registry)
  {
    assert Legal(StateAt(s, run, n - 1), run[n - 1]);
    EventExtends(StateAt(s, run, n - 1), run[n - 1]);
  }

  lemma ExtendsOn(a: Registry, b: Registry, c: Registry)
    requires Extends(a, b) && Extends(b, c)
    ensures Extends(a, c)
  {
  }

  lemma {:induction false} StaysWellFormed(s: Stored, run: seq<Event>, n: nat)
    requires LegalRun(s, run) && n <= |run|
    ensures WellFormed(StateAt(s, run, n).registry)
  {
    if n > 0 {
      StaysWellFormed(s, run, n - 1);
      StepExtends(s, run, n);
    }
  }

  /** Along any run the registry stays well formed, history and operations only grow, and their entries
      never change. */
  lemma {:induction false} RegistryOnlyGrows(s: Stored, run: seq<Event>, i: nat, j: nat)
    requires LegalRun(s, run) && i <= j <= |run|
    ensures WellFormed(StateAt(s, run, j).registry)
    ensures Extends(StateAt(s, run, i).registry, StateAt(s, run, j).registry)
    decreases j
  {
    StaysWellFormed(s, run, j);
    if i < j {
      RegistryOnlyGrows(s, run, i, j - 1);
      StepExtends(s, run, j);
      ExtendsOn(StateAt(s, run, i).registry, StateAt(s, run, j - 1).registry, StateAt(s, run, j).registry);
    }
  }

  /** A publication that changed the registry, whether it was confirmed or crashed afterwards. */
  ghost predicate TookEffect(s: Stored, run: seq<Event>, n: nat)
    requires n < |run|
  {
    run[n].Publication? && StateAt(s, run, n).registry != StateAt(s, run, n + 1).registry
  }

  lemma EffectIsWhole(s: Stored, run: seq<Event>, n: nat)
    requires LegalRun(s, run) && n < |run| && TookEffect(s, run, n)
    ensures
      var before, after, e := StateAt(s, run, n), StateAt(s, run, n + 1), run[n];
      && before.registry == e.preview.snapshot && Published(after, e.preview)
      && e.token !in before.registry.operations && e.token in after.registry.operations
      && BatchOnly(before.registry, after.registry, e.preview, e.token)
  {
    var e := run[n];
    assert Legal(StateAt(s, run, n), e);
    assert PublishStep(StateAt(s, run, n), e.steps[|e.steps| - 1], e.preview, e.token);
  }

  /** A confirmed publication took effect. */
  lemma AppliedTookEffect(s: Stored, run: seq<Event>, n: nat)
    requires LegalRun(s, run) && n < |run| && run[n].Publication? && run[n].applied
    ensures TookEffect(s, run, n)
  {
    assert Legal(StateAt(s, run, n), run[n]);
  }

  /** The registry never comes back to what it was before a publication took effect. */
  lemma EffectIsForever(s: Stored, run: seq<Event>, i: nat, j: nat)
    requires LegalRun(s, run) && i < |run| && TookEffect(s, run, i) && i < j <= |run|
    ensures StateAt(s, run, j).registry != StateAt(s, run, i).registry
  {
    EffectIsWhole(s, run, i);
    RegistryOnlyGrows(s, run, i + 1, j);
  }

  /** Of all previews taken from one snapshot, at most one is ever published. */
  lemma OnePublicationPerSnapshot(s: Stored, run: seq<Event>, i: nat, j: nat)
    requires LegalRun(s, run) && i < j < |run| && TookEffect(s, run, i) && TookEffect(s, run, j)
    ensures run[i].preview.snapshot != run[j].preview.snapshot
  {
    EffectIsForever(s, run, i, j);
    EffectIsWhole(s, run, i);
    EffectIsWhole(s, run, j);
  }

  /** A token takes effect at most once, and the outcome recorded for it is its outcome for ever. */
  lemma TokenIsIdempotent(s: Stored, run: seq<Event>, i: nat, j: nat)
    requires LegalRun(s, run) && i < |run| && TookEffect(s, run, i) && i < j <= |run|
    ensures run[i].token in StateAt(s, run, j).registry.operations
    ensures run[i].token in StateAt(s, run, i + 1).registry.operations
    ensures StateAt(s, run, j).registry.operations[run[i].token] ==
      StateAt(s, run, i + 1).registry.operations[run[i].token]
    ensures j < |run| && run[j].Publication? && run[j].token == run[i].token ==> !TookEffect(s, run, j)
  {
    EffectIsWhole(s, run, i);
    RegistryOnlyGrows(s, run, i + 1, j);
    if j < |run| && run[j].Publication? && run[j].token == run[i].token && TookEffect(s, run, j) {
      EffectIsWhole(s, run, j);
    }
  }
}
