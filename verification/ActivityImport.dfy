/** Previewing and publishing imported activities (scripts/course_activity_import.py): an optimistic
    compare-and-swap on the registry, with one commit point for a whole batch. */
module ActivityImport {

  import opened Options
  import opened RevisionRegistry

  /** What survives a crash: the registry and the package directories. Until the registry file exists,
      `registered` is false and the registry is what the packages of the first format amount to. */
  datatype Stored = Stored(registered: bool, registry: Registry, packages: map<Path, Files>)

  datatype Preview = Preview(repository: Repository, commit: Commit, snapshot: Registry, items: seq<Item>)

  /** An activity of the local catalog; `None` for one that is not an imported revision. */
  datatype Local = Local(id: Id, path: Option<Path>)

  datatype Response = Applied(outcome: Outcome) | AlreadyApplied(outcome: Outcome) | Refused | Failed

  // ---------------------------------------------------------------------------------- comparing

  function Collisions(local: seq<Local>, id: Id): seq<Local> {
    if local == [] then []
    else (if local[0].id == id then [local[0]] else []) + Collisions(local[1..], id)
  }

  predicate Holds(files: Files, sha256: Files) {
    forall f | f in sha256 :: f in files && files[f] == sha256[f]
  }

  /** `verify`: every file that the revision lists is on disk as listed. */
  predicate Verifies(packages: map<Path, Files>, rev: Revision) {
    rev.path in packages && Holds(packages[rev.path], rev.sha256)
  }

  /** `_comparison`; None stands for its ValueErrors. */
  function Compare(packages: map<Path, Files>, repository: Repository, id: Id, files: Files, snapshot: Registry,
      local: seq<Local>): Option<Status> {
    var previous := ActiveRevision(snapshot, id);
    var collisions := Collisions(local, id);
    if collisions != [] && (|collisions| != 1 || previous.None? || collisions[0].path != Some(snapshot.active[id])) then
      None
    else if previous.None? then Some(New)
    else if previous.value.repository != repository || !Verifies(packages, previous.value) then None
    else Some(if previous.value.sha256 == files then Unchanged else Update)
  }

  /** The local catalog has activity `id` once at `path`, or not at all. */
  ghost predicate OnlyAt(local: seq<Local>, id: Id, path: Option<Path>) {
    && (forall i :: 0 <= i < |local| && local[i].id == id ==> path.Some? && local[i].path == path)
    && forall i, j :: 0 <= i < j < |local| ==> !(local[i].id == id && local[j].id == id)
  }

  lemma {:induction false} CollisionsExactly(local: seq<Local>, id: Id)
    ensures Collisions(local, id) == [] <==> forall i :: 0 <= i < |local| ==> local[i].id != id
    ensures |Collisions(local, id)| <= 1 <==>
      forall i, j :: 0 <= i < j < |local| ==> !(local[i].id == id && local[j].id == id)
    ensures forall c :: c in Collisions(local, id) <==> c in local && c.id == id
  {
    if local != [] {
      CollisionsExactly(local[1..], id);
      assert local == [local[0]] + local[1..];
    }
  }

  /** When a selected activity is new, unchanged or an update, and hence when it is a conflict. */
  lemma ComparisonExactly(packages: map<Path, Files>, repository: Repository, id: Id, files: Files, snapshot: Registry,
      local: seq<Local>)
    requires WellFormed(snapshot)
    ensures
      var verdict, previous := Compare(packages, repository, id, files, snapshot, local), ActiveRevision(snapshot, id);
      && (verdict == Some(New) <==> previous == None && OnlyAt(local, id, None))
      && (verdict == Some(Unchanged) || verdict == Some(Update) <==>
        previous.Some? && OnlyAt(local, id, Some(previous.value.path))
        && previous.value.repository == repository && Verifies(packages, previous.value))
      && (verdict == Some(Unchanged) ==> previous.value.sha256 == files)
      && (verdict == Some(Update) ==> previous.value.sha256 != files)
  {
    CollisionsExactly(local, id);
    var previous, collisions := ActiveRevision(snapshot, id), Collisions(local, id);
    if collisions != [] {
      assert collisions[0] in local;
      if |collisions| == 1 {
        forall i | 0 <= i < |local| && local[i].id == id
          ensures local[i] == collisions[0]
        {
          assert local[i] in collisions;
        }
      }
    }
  }

  // ---------------------------------------------------------------------------------- a preview

  /** Two items of a preview share their activity only if both are conflicts. */
  ghost predicate SoundPreview(p: Preview) {
    forall i, j :: 0 <= i < j < |p.items| && p.items[i].id == p.items[j].id ==> p.items[i].status == Conflict
  }

  predicate Ambiguous(candidates: map<Source, Id>, s: Source)
    requires s in candidates
  {
    exists t :: t in candidates && t != s && candidates[t] == candidates[s]
  }

  /** The item of source `s`: a conflict where its activity is ambiguous in the course or its comparison
      fails, and otherwise what the comparison says. */
  ghost predicate Selected(i: Item, s: Source, candidates: map<Source, Id>, content: map<Source, Files>,
                           packages: map<Path, Files>, repository: Repository, snapshot: Registry, local: seq<Local>) {
    && s in candidates && s in content && i.source == s && i.id == candidates[s] && i.files == content[s]
    && (Ambiguous(candidates, s) ==> i.status == Conflict)
    && (!Ambiguous(candidates, s) ==>
      var verdict := Compare(packages, repository, i.id, i.files, snapshot, local);
      if verdict == None then i.status == Conflict else verdict == Some(i.status))
  }

  /** The items of a preview of the sources `selection`, against a snapshot. */
  function PreviewItems(selection: seq<Source>, candidates: map<Source, Id>, content: map<Source, Files>,
      repository: Repository, packages: map<Path, Files>, snapshot: Registry, local: seq<Local>): (items: seq<Item>)
    requires forall s :: s in selection ==> s in candidates && s in content
    ensures |items| == |selection|
  {
    seq(|selection|, k requires 0 <= k < |selection| =>
      var s := selection[k];
      var verdict := Compare(packages, repository, candidates[s], content[s], snapshot, local);
      Item(candidates[s], s, if Ambiguous(candidates, s) || verdict.None? then Conflict else verdict.value, content[s]))
  }

  lemma PreviewIsSound(selection: seq<Source>, candidates: map<Source, Id>, content: map<Source, Files>,
      repository: Repository, commit: Commit, packages: map<Path, Files>, snapshot: Registry, local: seq<Local>)
    requires forall s :: s in selection ==> s in candidates && s in content
    requires forall i, j :: 0 <= i < j < |selection| ==> selection[i] != selection[j]
    ensures SoundPreview(Preview(repository, commit, snapshot,
      PreviewItems(selection, candidates, content, repository, packages, snapshot, local)))
  {
  }

  // -------------------------------------------------------------------------------- publication

  function Changed(items: seq<Item>): seq<Item> {
    if items == [] then []
    else Changed(items[..|items| - 1]) + if items[|items| - 1].status != Unchanged then [items[|items| - 1]] else []
  }

  function OutcomeOf(r: Registry, p: Preview): Outcome
    requires forall i :: i in p.items ==> i.id in r.active
  {
    Outcome(seq(|p.items|, k requires 0 <= k < |p.items| => (p.items[k], r.active[p.items[k].id])), p.commit)
  }

  /** The outcome names every item of the batch, changed or not, with its active path. */
  ghost predicate Reports(o: Outcome, r: Registry, p: Preview) {
    && o.commit == p.commit && |o.imported| == |p.items|
    && forall k :: 0 <= k < |p.items| ==>
         p.items[k].id in r.active && o.imported[k] == (p.items[k], r.active[p.items[k].id])
  }

  function NewPackages(items: seq<Item>, dir: Dir): map<Path, Files> {
    if items == [] then map[]
    else NewPackages(items[..|items| - 1], dir)[Path(dir, items[|items| - 1].id) := items[|items| - 1].files]
  }

  /** Every item of the batch, changed or not, has an active revision with the previewed digests, and
      the files of that revision are on disk. */
  ghost predicate Published(s: Stored, p: Preview) {
    forall k :: 0 <= k < |p.items| ==> ItemPublished(s, p.items[k])
  }

  /** Publication of `p` against the current registry may go ahead. */
  ghost predicate Agrees(s: Stored, p: Preview, local: seq<Local>) {
    && s.registry == p.snapshot
    && forall k :: 0 <= k < |p.items| ==> ItemAgrees(s, p, k, local)
  }

  predicate ItemAgrees(s: Stored, p: Preview, k: nat, local: seq<Local>)
    requires k < |p.items|
  {
    var i := p.items[k];
    i.status != Conflict && Compare(s.packages, p.repository, i.id, i.files, s.registry, local) == Some(i.status)
  }

  /** The registry that publication of `p` writes. */
  function Target(r: Registry, p: Preview, dir: Dir, token: Token): Registry {
    var after := EnrolledAll(r, Changed(p.items), dir, p.repository, p.commit);
    if forall i | i in p.items :: i.id in after.active then
      after.(operations := after.operations[token := OutcomeOf(after, p)])
    else after
  }

  lemma {:induction false} ChangedItems(items: seq<Item>)
    requires DistinctIds(items)
    ensures DistinctIds(Changed(items))
    ensures forall i :: i in Changed(items) <==> i in items && i.status != Unchanged
  {
    if items != [] {
      var before, last := items[..|items| - 1], items[|items| - 1];
      assert items == before + [last];
      ChangedItems(before);
      LastIsNew(items);
      assert forall k :: 0 <= k < |Changed(before)| ==> Changed(before)[k] in before;
    }
  }

  lemma LastIsNew(items: seq<Item>)
    requires DistinctIds(items) && items != []
    ensures forall i :: i in items[..|items| - 1] ==> i.id != items[|items| - 1].id
  {
  }

  lemma UnchangedNotNamed(items: seq<Item>, k: nat)
    requires DistinctIds(items) && k < |items| && items[k].status == Unchanged
    ensures !Names(Changed(items), items[k].id)
  {
    ChangedItems(items);
    var changed := Changed(items);
    forall i | i in changed
      ensures i.id != items[k].id
    {
      var j :| 0 <= j < |items| && items[j] == i;
      assert j != k;
    }
  }

  lemma {:induction false} PackagesHoldItems(items: seq<Item>, dir: Dir, k: nat)
    requires DistinctIds(items) && k < |items|
    ensures Path(dir, items[k].id) in NewPackages(items, dir) &&
      NewPackages(items, dir)[Path(dir, items[k].id)] == items[k].files
    ensures forall p :: p in NewPackages(items, dir) ==> p.dir == dir
  {
    PackagesInDir(items, dir);
    if k < |items| - 1 {
      PackagesHoldItems(items[..|items| - 1], dir, k);
    }
  }

  lemma {:induction false} PackagesInDir(items: seq<Item>, dir: Dir)
    ensures forall p :: p in NewPackages(items, dir) ==> p.dir == dir
  {
    if items != [] {
      PackagesInDir(items[..|items| - 1], dir);
    }
  }

  function Landed(s: Stored, p: Preview, dir: Dir): Stored {
    s.(packages := s.packages + NewPackages(Changed(p.items), dir))
  }

  lemma AgreeingIdsAreDistinct(s: Stored, p: Preview, local: seq<Local>)
    requires SoundPreview(p) && Agrees(s, p, local)
    ensures DistinctIds(p.items)
  {
    forall i, j | 0 <= i < j < |p.items|
      ensures p.items[i].id != p.items[j].id
    {
      assert ItemAgrees(s, p, i, local);
    }
  }

  /** The registry that an agreeing publication writes: it extends the old one, and with the packages
      in place it publishes the whole batch. */
  lemma TargetPublishes(s: Stored, p: Preview, dir: Dir, token: Token, local: seq<Local>)
    requires WellFormed(s.registry) && SoundPreview(p) && Agrees(s, p, local) && Unused(s.registry, dir) &&
      token !in s.registry.operations
    ensures
      var t := Landed(s, p, dir).(registry := Target(s.registry, p, dir, token));
      && WellFormed(t.registry) && Extends(s.registry, t.registry) && token in t.registry.operations && Published(t, p)
      && BatchOnly(s.registry, t.registry, p, token)
  {
    var after := EnrolledAll(s.registry, Changed(p.items), dir, p.repository, p.commit);
    var landed := Landed(s, p, dir).(registry := after);
    forall k | 0 <= k < |p.items|
      ensures ItemPublished(landed, p.items[k])
    {
      ItemIsPublished(s, p, dir, token, local, k);
    }
    AgreeingIdsAreDistinct(s, p, local);
    TargetIsBatchOnly(s.registry, p, dir, token);
    ChangedItems(p.items);
    EnrollingAll(s.registry, Changed(p.items), dir, p.repository, p.commit);
    OperationsApart(landed, p, Target(s.registry, p, dir, token));
  }

  /** Beside its changed items and its own operation, the publication of `p` leaves everything as it was:
      the active revision of every other activity, the history and the operations. A changed item gets a
      revision of its own source, at the repository and the commit of the preview. */
  ghost predicate BatchOnly(r: Registry, r': Registry, p: Preview, token: Token) {
    && (forall id :: !Names(Changed(p.items), id) ==> ActiveRevision(r', id) == ActiveRevision(r, id))
    && (forall q :: q in r'.history && q !in r.history ==> Names(Changed(p.items), q.id))
    && (forall t :: t != token ==> (t in r'.operations <==> t in r.operations))
    && forall i :: i in Changed(p.items) ==> Imported(ActiveRevision(r', i.id), i, p)
  }

  predicate Imported(rev: Option<Revision>, i: Item, p: Preview) {
    && rev.Some? && rev.value.id == i.id && rev.value.source == i.source && rev.value.sha256 == i.files
    && rev.value.repository == p.repository && rev.value.commit == p.commit
  }

  lemma TargetIsBatchOnly(r: Registry, p: Preview, dir: Dir, token: Token)
    requires WellFormed(r) && Unused(r, dir) && DistinctIds(p.items)
    ensures BatchOnly(r, Target(r, p, dir, token), p, token)
  {
    var changed, target := Changed(p.items), Target(r, p, dir, token);
    var after := EnrolledAll(r, changed, dir, p.repository, p.commit);
    ChangedItems(p.items);
    EnrollingAll(r, changed, dir, p.repository, p.commit);
    assert forall id :: ActiveRevision(target, id) == ActiveRevision(after, id);
    forall i | i in changed
      ensures Imported(ActiveRevision(target, i.id), i, p)
    {
      var k :| 0 <= k < |changed| && changed[k] == i;
      assert ActiveRevision(after, changed[k].id) == Some(RevisionOf(changed[k], dir, p.repository, p.commit));
    }
  }

  /** Whether a batch is published does not depend on the recorded operations. */
  lemma OperationsApart(s: Stored, p: Preview, r: Registry)
    requires Published(s, p) && r == s.registry.(operations := r.operations)
    ensures Published(s.(registry := r), p)
    ensures forall i :: i in p.items ==> i.id in s.registry.active
  {
  }

  ghost predicate ItemPublished(s: Stored, i: Item) {
    var rev := ActiveRevision(s.registry, i.id);
    rev.Some? && rev.value.sha256 == i.files && Verifies(s.packages, rev.value)
  }

  /** A batch in which `changed` are the items to enroll, after enrolling them. */
  ghost predicate Enrolling(s: Stored, t: Stored, changed: seq<Item>, dir: Dir, repository: Repository,
      commit: Commit) {
    && WellFormed(s.registry) && Unused(s.registry, dir) && DistinctIds(changed)
    && t.registered == s.registered && t.registry == EnrolledAll(s.registry, changed, dir, repository, commit)
    && t.packages == s.packages + NewPackages(changed, dir)
  }

  lemma ChangedItemPublished(s: Stored, t: Stored, changed: seq<Item>, dir: Dir, repository: Repository, commit: Commit,
      c: nat)
    requires Enrolling(s, t, changed, dir, repository, commit) && c < |changed|
    ensures ItemPublished(t, changed[c])
  {
    EnrollingAll(s.registry, changed, dir, repository, commit);
    PackagesHoldItems(changed, dir, c);
    assert ActiveRevision(t.registry, changed[c].id) == Some(RevisionOf(changed[c], dir, repository, commit));
  }

  lemma UnchangedItemPublished(s: Stored, t: Stored, changed: seq<Item>, dir: Dir, repository: Repository,
      commit: Commit, i: Item, local: seq<Local>)
    requires Enrolling(s, t, changed, dir, repository, commit) && !Names(changed, i.id)
    requires Compare(s.packages, repository, i.id, i.files, s.registry, local) == Some(Unchanged)
    ensures ItemPublished(t, i)
  {
    EnrollingAll(s.registry, changed, dir, repository, commit);
    PackagesInDir(changed, dir);
    var rev := ActiveRevision(s.registry, i.id).value;
    assert ActiveRevision(t.registry, i.id) == Some(rev);
    assert s.registry.history[s.registry.active[i.id]] == rev;
  }

  lemma ItemIsPublished(s: Stored, p: Preview, dir: Dir, token: Token, local: seq<Local>, k: nat)
    requires WellFormed(s.registry) && SoundPreview(p) && Agrees(s, p, local) && Unused(s.registry, dir) &&
      k < |p.items|
    ensures
      var after := EnrolledAll(s.registry, Changed(p.items), dir, p.repository, p.commit);
      ItemPublished(Landed(s, p, dir).(registry := after), p.items[k])
  {
    var i, changed := p.items[k], Changed(p.items);
    AgreeingIdsAreDistinct(s, p, local);
    ChangedItems(p.items);
    assert ItemAgrees(s, p, k, local);
    var t := Landed(s, p, dir).(registry := EnrolledAll(s.registry, changed, dir, p.repository, p.commit));
    if i.status == Unchanged {
      UnchangedNotNamed(p.items, k);
      UnchangedItemPublished(s, t, changed, dir, p.repository, p.commit, i, local);
    } else {
      var c :| 0 <= c < |changed| && changed[c] == i;
      ChangedItemPublished(s, t, changed, dir, p.repository, p.commit, c);
    }
  }

  // -------------------------------------------------------------------------------- the service

  /** One stored state of a publication that began at `s`: nothing is forgotten, and the registry is
      the old one or, with every package already in place, the one that publishes all of `p`. */
  ghost predicate PublishStep(s: Stored, t: Stored, p: Preview, token: Token) {
    && WellFormed(t.registry) && Extends(s.registry, t.registry) && SubMap(s.packages, t.packages)
    && (t.registry == s.registry ||
        (s.registry == p.snapshot && token !in s.registry.operations && token in t.registry.operations &&
          Published(t, p) && BatchOnly(s.registry, t.registry, p, token)))
  }

  /** No package lives in `dir` yet, if the preview needs one there. */
  ghost predicate HasRoom(s: Stored, p: Preview, dir: Dir) {
    Changed(p.items) == [] || forall q :: q in s.packages ==> q.dir != dir
  }

  /** The first registry file is only written over revisions that are on disk as listed. */
  predicate LegacyIntact(s: Stored) {
    s.registered || forall q | q in s.registry.history :: Verifies(s.packages, s.registry.history[q])
  }

  /** The smallest preview that agrees and is refused all the same: it adds a new activity, and a revision
      of the first format, of another one, was edited on disk. */
  lemma LegacyEditBlocks(edited: Revision, files: Files, added: Item, repository: Repository, commit: Commit, dir: Dir)
    requires edited.path.id == edited.id && edited.path.dir != dir && !Holds(files, edited.sha256)
    requires added.id != edited.id && added.status == New
    ensures
      var registry := Registry(map[edited.path := edited], map[edited.id := edited.path], map[]);
      var s, p := Stored(false, registry, map[edited.path := files]), Preview(repository, commit, registry, [added]);
      && WellFormed(registry) && SoundPreview(p) && Agrees(s, p, []) && HasRoom(s, p, dir) && Unused(registry, dir)
      && !LegacyIntact(s)
  {
    var registry := Registry(map[edited.path := edited], map[edited.id := edited.path], map[]);
    assert edited.path in registry.history && !Verifies(map[edited.path := files], registry.history[edited.path]);
  }

  class ImportService {
    var stored: Stored
    var previews: map<Token, Preview>
    ghost var trace: seq<Stored>
    ghost var faults: nat

    ghost predicate Valid()
      reads this
    {
      && trace != [] && trace[|trace| - 1] == stored && WellFormed(stored.registry)
      && forall token :: token in previews ==> SoundPreview(previews[token])
    }

    constructor (s: Stored)
      requires WellFormed(s.registry)
      ensures Valid() && stored == s && previews == map[] && trace == [s] && faults == 0
    {
      stored, previews, trace, faults := s, map[], [s], 0;
    }

    method Apply(next: Stored) returns (ok: bool)
      requires Valid() && WellFormed(next.registry)
      modifies this`stored, this`trace, this`faults
      ensures Valid()
      ensures ok ==> stored == next && trace == old(trace) + [next] && faults == old(faults)
      ensures !ok ==> stored == old(stored) && trace == old(trace) && faults > old(faults)
    {
      ok := *;
      if ok {
        stored, trace := next, trace + [next];
      } else {
        faults := faults + 1;
      }
    }

    /** An atomic rename with its flush: done, failed without effect, or failed after taking effect. */
    method Replace(next: Stored) returns (ok: bool)
      requires Valid() && WellFormed(next.registry)
      modifies this`stored, this`trace, this`faults
      ensures Valid()
      ensures if ok then stored == next && faults == old(faults) else faults > old(faults)
      ensures (!ok && stored == old(stored) && trace == old(trace)) || (stored == next && trace == old(trace) + [next])
    {
      ok := Apply(next);
      if ok {
        ok := *;
        faults := if ok then faults else faults + 1;
      }
    }

    /** `preview`: compare a selection with a snapshot that was read earlier, and keep the result
        under a fresh token. */
    method Open(token: Token, selection: seq<Source>, candidates: map<Source, Id>, content: map<Source, Files>,
                repository: Repository, commit: Commit, snapshot: Registry, local: seq<Local>)
      requires Valid() && token !in previews
      requires forall s :: s in selection ==> s in candidates && s in content
      requires forall i, j :: 0 <= i < j < |selection| ==> selection[i] != selection[j]
      modifies this`previews
      ensures Valid() && token in previews && previews == old(previews)[token := previews[token]]
      ensures
        var p := previews[token];
        && p.repository == repository && p.commit == commit && p.snapshot == snapshot && |p.items| == |selection|
        && forall k :: 0 <= k < |selection| ==>
             Selected(p.items[k], selection[k], candidates, content, stored.packages, repository, snapshot, local)
    {
      var items := PreviewItems(selection, candidates, content, repository, stored.packages, snapshot, local);
      PreviewIsSound(selection, candidates, content, repository, commit, stored.packages, snapshot, local);
      previews := previews[token := Preview(repository, commit, snapshot, items)];
    }

    /** The items whose status differs from `Unchanged`, unless an item no longer compares as it was
        previewed. */
    method Recheck(p: Preview, local: seq<Local>) returns (changed: Option<seq<Item>>)
      requires stored.registry == p.snapshot
      ensures changed.Some? <==> Agrees(stored, p, local)
      ensures changed.Some? ==> changed.value == Changed(p.items)
    {
      var kept: seq<Item> := [];
      for k := 0 to |p.items|
        invariant forall j :: 0 <= j < k ==> ItemAgrees(stored, p, j, local)
        invariant kept == Changed(p.items[..k])
      {
        assert p.items[..k + 1][..k] == p.items[..k];
        var i := p.items[k];
        if i.status == Conflict ||
          Compare(stored.packages, p.repository, i.id, i.files, stored.registry, local) != Some(i.status) {
          assert !ItemAgrees(stored, p, k, local);
          return None;
        }
        if i.status != Unchanged {
          kept := kept + [i];
        }
      }
      assert p.items[..|p.items|] == p.items;
      return Some(kept);
    }

    /** `publish`, with the fresh package directory `dir`. */
    method Publish(token: Token, dir: Dir, local: seq<Local>) returns (r: Response)
      requires Valid() && Unused(stored.registry, dir)
      modifies this
      ensures Valid() && old(trace) <= trace
      ensures token in old(previews) ==>
        forall k :: |old(trace)| <= k < |trace| ==> PublishStep(old(stored), trace[k], old(previews)[token], token)
      ensures token !in old(previews) ==> trace == old(trace)
      ensures token in old(stored).registry.operations <==> r.AlreadyApplied?
      ensures r.AlreadyApplied? ==> r.outcome == old(stored).registry.operations[token]
      ensures r.AlreadyApplied? || r.Refused? ==> stored == old(stored) && previews == old(previews)
      ensures r.Applied? <==> token !in old(stored).registry.operations && token in old(previews) && token !in previews
      ensures r.Applied? ==> Agrees(old(stored), old(previews)[token], local) && Published(stored, old(previews)[token])
      ensures r.Applied? ==> token in stored.registry.operations && stored.registry.operations[token] == r.outcome
      ensures r.Applied? ==> Reports(r.outcome, stored.registry, old(previews)[token])
      ensures r.Applied? ==> previews == old(previews) - {token}
      ensures token in old(previews) && token !in old(stored).registry.operations && faults == old(faults) ==>
        var p := old(previews)[token];
        (r.Applied? <==> Agrees(old(stored), p, local) && LegacyIntact(old(stored)) && HasRoom(old(stored), p, dir))
      ensures r.Applied? ==>
        LegacyIntact(old(stored)) && HasRoom(old(stored), old(previews)[token], dir) && stored.registered
      ensures r.Failed? ==> previews == old(previews) && token in previews
      ensures token in old(previews) && token !in old(stored).registry.operations ==>
        !Agrees(old(stored), old(previews)[token], local) ==> r.Refused?
    {
      if token in stored.registry.operations {
        return AlreadyApplied(stored.registry.operations[token]);
      }
      if token !in previews {
        return Refused;
      }
      var p := previews[token];
      if stored.registry != p.snapshot {
        return Refused;
      }
      var changed := Recheck(p, local);
      if changed.None? {
        return Refused;
      }
      if !LegacyIntact(stored) {
        return Refused;
      }
      if changed.value != [] && exists q :: q in stored.packages && q.dir == dir {
        assert !HasRoom(stored, p, dir);
        return Refused;
      }
      r := PublishAgreed(token, p, dir, local, changed.value);
    }

    /** What `publish` does once every item compares as previewed. */
    method PublishAgreed(token: Token, p: Preview, dir: Dir, local: seq<Local>, changed: seq<Item>)
      returns (r: Response)
      requires Valid() && token in previews && p == previews[token] && Agrees(stored, p, local)
      requires Unused(stored.registry, dir) && token !in stored.registry.operations && changed == Changed(p.items)
      requires changed == [] || forall q :: q in stored.packages ==> q.dir != dir
      modifies this
      ensures Valid() && old(trace) <= trace
      ensures forall k :: |old(trace)| <= k < |trace| ==> PublishStep(old(stored), trace[k], p, token)
      ensures r.Applied? || (r.Failed? && faults > old(faults))
      ensures r.Applied? ==> Published(stored, p) && previews == old(previews) - {token}
      ensures r.Applied? ==> token in stored.registry.operations && stored.registry.operations[token] == r.outcome
      ensures r.Applied? ==> Reports(r.outcome, stored.registry, p)
      ensures r.Failed? ==> previews == old(previews)
      ensures r.Applied? ==> stored.registered
    {
      ghost var s := stored;
      PackagesInDir(changed, dir);
      if changed != [] {
        var ok := Replace(Landed(stored, p, dir));
        if !ok {
          return Failed;
        }
      } else {
        assert s == Landed(s, p, dir);
      }
      r := WriteRegistry(token, p, dir, local, s);
    }

    /** `revisions.write`, the commit point, and what follows it. */
    method WriteRegistry(token: Token, p: Preview, dir: Dir, local: seq<Local>, ghost s: Stored) returns (r: Response)
      requires Valid() && token in previews && p == previews[token] && Agrees(s, p, local)
      requires Unused(s.registry, dir) && token !in s.registry.operations && stored == Landed(s, p, dir)
      requires SubMap(s.packages, stored.packages)
      modifies this
      ensures Valid() && old(trace) <= trace
      ensures forall k :: |old(trace)| <= k < |trace| ==> PublishStep(s, trace[k], p, token)
      ensures r.Applied? || (r.Failed? && faults > old(faults))
      ensures r.Applied? ==> Published(stored, p) && previews == old(previews) - {token}
      ensures r.Applied? ==> token in stored.registry.operations && stored.registry.operations[token] == r.outcome
      ensures r.Applied? ==> Reports(r.outcome, stored.registry, p)
      ensures r.Failed? ==> previews == old(previews)
      ensures r.Applied? ==> stored.registered
    {
      TargetPublishes(s, p, dir, token, local);
      var t := Target(stored.registry, p, dir, token);
      var ok := Replace(stored.(registered := true, registry := t));
      if !ok {
        return Failed;
      }
      previews := previews - {token};
      return Applied(t.operations[token]);
    }
  }
}
