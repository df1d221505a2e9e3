/** The registry of imported activity revisions (scripts/activity_revision_registry.py): an
    append-only history, one active revision for each activity, and the operations applied so far.
    Digests are taken to be injective, so a digest is written as the bytes it stands for. */
module RevisionRegistry {

  import opened Options

  type Id(==, !new)
  type Dir(==, !new)
  type Source(==, !new)
  type Repository(==, !new)
  type Commit(==, !new)
  type Token(==, !new)
  type File(==, !new)
  type Bytes(==, !new)
  type Files = map<File, Bytes>

  /** `<package>/<id>.json` */
  datatype Path = Path(dir: Dir, id: Id)

  datatype Revision = Revision(id: Id, path: Path, repository: Repository, commit: Commit, source: Source,
      sha256: Files)

  datatype Status = New | Unchanged | Update | Conflict

  /** One selected activity of a preview, with its files. */
  datatype Item = Item(id: Id, source: Source, status: Status, files: Files)

  datatype Outcome = Outcome(imported: seq<(Item, Path)>, commit: Commit)

  datatype Registry = Registry(history: map<Path, Revision>, active: map<Id, Path>, operations: map<Token, Outcome>)

  ghost predicate SubMap<K, V>(a: map<K, V>, b: map<K, V>) {
    forall k :: k in a ==> k in b && a[k] == b[k]
  }

  /** `_validate`, for the parts that are modelled. */
  ghost predicate WellFormed(r: Registry) {
    && (forall p :: p in r.history ==> r.history[p].path == p && p.id == r.history[p].id)
    && forall id :: id in r.active ==> r.active[id] in r.history && r.history[r.active[id]].id == id
  }

  /** Nothing that `before` remembers is changed or forgotten. */
  ghost predicate Extends(before: Registry, after: Registry) {
    && SubMap(before.history, after.history) && SubMap(before.operations, after.operations)
    && before.active.Keys <= after.active.Keys
  }

  function ActiveRevision(r: Registry, id: Id): Option<Revision> {
    if id in r.active && r.active[id] in r.history then Some(r.history[r.active[id]]) else None
  }

  /** `catalog_visible`, for a path that is in the history or below the directory of revisions. */
  predicate Visible(r: Registry, p: Path) {
    p in r.history && r.history[p].id in r.active && r.active[r.history[p].id] == p
  }

  /** Exactly one revision of each active activity is visible. */
  lemma OneVisibleRevision(r: Registry, id: Id)
    requires WellFormed(r) && id in r.active
    ensures forall p :: Visible(r, p) && r.history[p].id == id <==> p == r.active[id]
  {
  }

  // --------------------------------------------------------------------------- enrolling a batch

  function RevisionOf(i: Item, dir: Dir, repository: Repository, commit: Commit): Revision {
    Revision(i.id, Path(dir, i.id), repository, commit, i.source, i.files)
  }

  function Enrolled(r: Registry, i: Item, dir: Dir, repository: Repository, commit: Commit): Registry {
    var rev := RevisionOf(i, dir, repository, commit);
    r.(history := r.history[rev.path := rev], active := r.active[i.id := rev.path])
  }

  /** The registry after the loop over the changed items. */
  function EnrolledAll(r: Registry, items: seq<Item>, dir: Dir, repository: Repository, commit: Commit): Registry {
    if items == [] then r
    else Enrolled(EnrolledAll(r, items[..|items| - 1], dir, repository, commit), items[|items| - 1], dir, repository,
      commit)
  }

  ghost predicate DistinctIds(items: seq<Item>) {
    forall i, j :: 0 <= i < j < |items| ==> items[i].id != items[j].id
  }

  ghost predicate Names(items: seq<Item>, id: Id) {
    exists k :: 0 <= k < |items| && items[k].id == id
  }

  /** No revision lives in `dir` yet. */
  ghost predicate Unused(r: Registry, dir: Dir) {
    forall p :: p in r.history ==> p.dir != dir
  }

  lemma EnrollingOne(r: Registry, i: Item, dir: Dir, repository: Repository, commit: Commit)
    requires WellFormed(r) && Path(dir, i.id) !in r.history
    ensures
      var after := Enrolled(r, i, dir, repository, commit);
      && WellFormed(after) && Extends(r, after) && after.operations == r.operations
      && ActiveRevision(after, i.id) == Some(RevisionOf(i, dir, repository, commit))
      && forall id :: id != i.id ==> ActiveRevision(after, id) == ActiveRevision(r, id)
  {
  }

  /** The changed items and no others get a new active revision, and no history is touched. */
  lemma {:induction false} EnrollingAll(r: Registry, items: seq<Item>, dir: Dir, repository: Repository, commit: Commit)
    requires WellFormed(r) && Unused(r, dir) && DistinctIds(items)
    ensures
      var after := EnrolledAll(r, items, dir, repository, commit);
      && WellFormed(after) && Extends(r, after) && after.operations == r.operations
      && (forall k :: 0 <= k < |items| ==>
        ActiveRevision(after, items[k].id) == Some(RevisionOf(items[k], dir, repository, commit)))
      && (forall id :: !Names(items, id) ==> ActiveRevision(after, id) == ActiveRevision(r, id))
      && (forall p :: p in after.history && p !in r.history ==> p.dir == dir && Names(items, p.id))
  {
    if items != [] {
      var before, last := items[..|items| - 1], items[|items| - 1];
      EnrollingAll(r, before, dir, repository, commit);
      var mid := EnrolledAll(r, before, dir, repository, commit);
      forall id
        ensures Names(items, id) <==> Names(before, id) || id == last.id
      {
        assert items == before + [last];
        if k :| 0 <= k < |before| && before[k].id == id {
          assert items[k].id == id;
        }
      }
      assert !Names(before, last.id);
      EnrollingOne(mid, last, dir, repository, commit);
      var after := Enrolled(mid, last, dir, repository, commit);
      forall k | 0 <= k < |items|
        ensures ActiveRevision(after, items[k].id) == Some(RevisionOf(items[k], dir, repository, commit))
      {
        if k < |before| {
          assert before[k] == items[k] && items[k].id != last.id;
        }
      }
    }
  }
}
