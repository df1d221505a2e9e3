/** The breadth-first closure of the imports of a bundle (scripts/course_bundle_validation.py). */
module ImportClosure {

  import opened BundleManifests
  import opened ImportCycles

  datatype Reached = Reached(lineage: seq<string>, manifest: Manifest)

  datatype ClosureError = Unavailable(path: seq<string>) | InvalidSchema(path: seq<string>)

  /** The manifests that the closure may reach, and what stands for each of them. */
  function Available(root: Manifest, imported: Manifests): Manifests {
    if root.id in imported then imported else imported[root.id := root]
  }

  function ManifestOf(root: Manifest, imported: Manifests, id: string): Manifest
    requires id in Available(root, imported)
  {
    if id == root.id then root else Available(root, imported)[id]
  }

  predicate Imports(m: Manifest, id: string) {
    exists k :: 0 <= k < |m.imports| && m.imports[k].bundle == id
  }

  /** A path of import edges from the root over available manifests. */
  ghost predicate ImportPath(root: Manifest, imported: Manifests, p: seq<string>) {
    && p != [] && p[0] == root.id
    && (forall k :: 0 <= k < |p| ==> p[k] in Available(root, imported))
    && forall k :: 1 <= k < |p| ==> Imports(ManifestOf(root, imported, p[k - 1]), p[k])
  }

  function Tip(p: seq<string>): string {
    if p == [] then "" else p[|p| - 1]
  }

  lemma ExtendPath(root: Manifest, imported: Manifests, p: seq<string>, id: string)
    requires ImportPath(root, imported, p) && id in Available(root, imported)
    requires Imports(ManifestOf(root, imported, Tip(p)), id)
    ensures ImportPath(root, imported, p + [id])
  {
  }

  lemma PathPrefix(root: Manifest, imported: Manifests, p: seq<string>)
    requires ImportPath(root, imported, p) && |p| > 1
    ensures ImportPath(root, imported, p[..|p| - 1])
    ensures Imports(ManifestOf(root, imported, Tip(p[..|p| - 1])), Tip(p))
  {
  }

  /** The manifest at the end of a path gives the closure nothing to complain about. */
  ghost predicate Acceptable(root: Manifest, imported: Manifests, valid: Manifest -> bool, p: seq<string>)
    requires ImportPath(root, imported, p)
  {
    var m := ManifestOf(root, imported, Tip(p));
    && (Tip(p) != root.id ==> valid(m))
    && forall k :: 0 <= k < |m.imports| && m.imports[k].all ==> m.imports[k].bundle in Available(root, imported)
  }

  ghost predicate AllAcceptable(root: Manifest, imported: Manifests, valid: Manifest -> bool) {
    forall p :: ImportPath(root, imported, p) ==> Acceptable(root, imported, valid, p)
  }

  /** Entry `r` comes with a real and repetition-free import path. */
  ghost predicate Genuine(root: Manifest, imported: Manifests, r: Reached) {
    && ImportPath(root, imported, r.lineage) && Distinct(r.lineage)
    && r.manifest == ManifestOf(root, imported, Tip(r.lineage))
  }

  /** The list of entries, with the position `at[id]` of each manifest in it. */
  ghost predicate Listed(root: Manifest, imported: Manifests, list: seq<Reached>, at: map<string, nat>) {
    && list != [] && list[0] == Reached([root.id], root)
    && (forall k :: 0 <= k < |list| ==> Genuine(root, imported, list[k]))
    && (forall id :: id in at ==> at[id] < |list| && Tip(list[at[id]].lineage) == id)
    && (forall k :: 0 <= k < |list| ==> Tip(list[k].lineage) in at && at[Tip(list[k].lineage)] == k)
    && forall k, l :: 0 <= k <= l < |list| ==> |list[k].lineage| <= |list[l].lineage|
  }

  /** Import `j` of entry `k` is listed, at most one step further from the root. */
  ghost predicate Followed(root: Manifest, imported: Manifests, list: seq<Reached>, at: map<string, nat>, k: nat,
      j: nat)
    requires k < |list| && j < |list[k].manifest.imports|
  {
    var i := list[k].manifest.imports[j];
    if i.bundle in Available(root, imported) then
      i.bundle in at && at[i.bundle] < |list| && |list[at[i.bundle]].lineage| <= |list[k].lineage| + 1
    else !i.all
  }

  /** The first `n` entries are done, and the first `m` imports of the next one. */
  ghost predicate Done(root: Manifest, imported: Manifests, list: seq<Reached>, at: map<string, nat>, n: nat, m: nat) {
    && n <= |list|
    && (forall k, j :: 0 <= k < n && 0 <= j < |list[k].manifest.imports| ==> Followed(root, imported, list, at, k, j))
    && (n < |list| ==> forall j :: 0 <= j < m && j < |list[n].manifest.imports| ==>
      Followed(root, imported, list, at, n, j))
  }

  /** Every path is matched by a listed lineage that is no longer. */
  lemma {:induction false} ListedIsShortest(root: Manifest, imported: Manifests, list: seq<Reached>,
      at: map<string, nat>, p: seq<string>)
    requires Listed(root, imported, list, at) && Done(root, imported, list, at, |list|, 0)
    requires ImportPath(root, imported, p)
    ensures Tip(p) in at && |list[at[Tip(p)]].lineage| <= |p|
  {
    if |p| == 1 {
      assert Tip(list[0].lineage) == root.id;
    } else {
      PathPrefix(root, imported, p);
      var q := p[..|p| - 1];
      ListedIsShortest(root, imported, list, at, q);
      var k := at[Tip(q)];
      var j :| 0 <= j < |list[k].manifest.imports| && list[k].manifest.imports[j].bundle == Tip(p);
      assert Followed(root, imported, list, at, k, j);
    }
  }

  /** The manifests other than the root that import paths reach. */
  ghost function Reachable(root: Manifest, imported: Manifests): Manifests {
    map id | id in imported && id != root.id && Reaches(root, imported, id) :: imported[id]
  }

  ghost predicate Reaches(root: Manifest, imported: Manifests, id: string) {
    exists p :: ImportPath(root, imported, p) && Tip(p) == id
  }

  /** The list of an error-free closure: each reachable manifest once, by a shortest path. */
  ghost predicate IsClosure(root: Manifest, imported: Manifests, list: seq<Reached>) {
    && list != [] && list[0] == Reached([root.id], root)
    && (forall k :: 0 <= k < |list| ==> Genuine(root, imported, list[k]))
    && (forall k, l :: 0 <= k < l < |list| ==> Tip(list[k].lineage) != Tip(list[l].lineage))
    && forall p :: ImportPath(root, imported, p) ==> Lists(list, Tip(p), |p|)
  }

  /** `id` is listed, with a lineage of at most `length` steps. */
  ghost predicate Lists(list: seq<Reached>, id: string, length: nat) {
    exists k :: 0 <= k < |list| && Tip(list[k].lineage) == id && |list[k].lineage| <= length
  }

  datatype Progress = Progress(list: seq<Reached>, found: Manifests, errors: seq<ClosureError>, discovered: set<string>)

  /** What holds whenever entry `n` of the list is the one whose imports are followed. */
  ghost predicate Consistent(root: Manifest, imported: Manifests, valid: Manifest -> bool, s: Progress,
      at: map<string, nat>, n: nat) {
    && Listed(root, imported, s.list, at) && n <= |s.list|
    && (n < |s.list| ==> NoneFarther(s.list, n))
    && root.id in s.discovered && s.discovered <= Available(root, imported).Keys && at.Keys <= s.discovered
    && AllWithin(s.list, s.discovered) && AllValid(s.list, valid)
    && FoundFits(root, imported, s.found, at.Keys)
    && if s.errors == [] then s.discovered == at.Keys else !AllAcceptable(root, imported, valid)
  }

  /** What was found is what was supplied under the listed ids, but for the root. */
  ghost predicate FoundFits(root: Manifest, imported: Manifests, found: Manifests, ids: set<string>) {
    && found.Keys == ids - {root.id}
    && forall id :: id in found ==> id in imported && found[id] == imported[id]
  }

  lemma FoundGrows(root: Manifest, imported: Manifests, found: Manifests, ids: set<string>, id: string)
    requires FoundFits(root, imported, found, ids) && id != root.id && id in Available(root, imported)
    ensures FoundFits(root, imported, found[id := Available(root, imported)[id]], ids + {id})
  {
  }

  /** No lineage is longer than that of entry `n` by more than one. */
  ghost predicate NoneFarther(list: seq<Reached>, n: nat)
    requires n < |list|
  {
    forall l :: 0 <= l < |list| ==> |list[l].lineage| <= |list[n].lineage| + 1
  }

  ghost predicate AllWithin(list: seq<Reached>, ids: set<string>) {
    forall k :: 0 <= k < |list| ==> Within(list[k].lineage, ids)
  }

  ghost predicate AllValid(list: seq<Reached>, valid: Manifest -> bool) {
    forall k :: 1 <= k < |list| ==> valid(list[k].manifest)
  }

  ghost predicate Within(p: seq<string>, ids: set<string>) {
    forall x :: x in p ==> x in ids
  }

  /** The list with one more entry, found through import `j` of entry `n`. */
  lemma ListedGrows(root: Manifest, imported: Manifests, list: seq<Reached>, at: map<string, nat>, n: nat, id: string)
    requires Listed(root, imported, list, at) && n < |list| && id in Available(root, imported) && id !in at &&
      id != root.id
    requires NoneFarther(list, n)
    requires Imports(list[n].manifest, id) && id !in list[n].lineage
    ensures Listed(root, imported, list + [Reached(list[n].lineage + [id], Available(root, imported)[id])],
      at[id := |list|])
  {
    assert Genuine(root, imported, list[n]);
    ExtendPath(root, imported, list[n].lineage, id);
    var next := list + [Reached(list[n].lineage + [id], Available(root, imported)[id])];
    assert Genuine(root, imported, next[|list|]);
    assert forall k :: 0 <= k < |list| ==> Genuine(root, imported, next[k]);
  }

  lemma DoneGrows(root: Manifest, imported: Manifests, list: seq<Reached>, at: map<string, nat>, n: nat, j: nat,
      id: string, r: Reached)
    requires Listed(root, imported, list, at) && id !in at && n < |list| && Done(root, imported, list, at, n, j)
    ensures Done(root, imported, list + [r], at[id := |list|], n, j)
  {
    var next, at' := list + [r], at[id := |list|];
    forall k, i | 0 <= k < n && 0 <= i < |next[k].manifest.imports|
      ensures Followed(root, imported, next, at', k, i)
    {
      assert Followed(root, imported, list, at, k, i);
    }
    forall i | 0 <= i < j && i < |next[n].manifest.imports|
      ensures Followed(root, imported, next, at', n, i)
    {
      assert Followed(root, imported, list, at, n, i);
    }
  }

  lemma DoneStep(root: Manifest, imported: Manifests, list: seq<Reached>, at: map<string, nat>, n: nat, j: nat)
    requires n < |list| && j < |list[n].manifest.imports| && Done(root, imported, list, at, n, j)
    requires Followed(root, imported, list, at, n, j)
    ensures Done(root, imported, list, at, n, j + 1)
  {
  }

  lemma DoneEntry(root: Manifest, imported: Manifests, list: seq<Reached>, at: map<string, nat>, n: nat)
    requires n < |list| && Done(root, imported, list, at, n, |list[n].manifest.imports|)
    ensures Done(root, imported, list, at, n + 1, 0)
  {
  }

  function AfterImport(s: Progress, path: seq<string>, source: Manifest): Progress {
    Progress(s.list + [Reached(path, source)], s.found[Tip(path) := source], s.errors, s.discovered + {Tip(path)})
  }

  lemma ImportKeepsConsistent(root: Manifest, imported: Manifests, valid: Manifest -> bool, s: Progress,
      at: map<string, nat>, n: nat, id: string)
    requires Consistent(root, imported, valid, s, at, n) && n < |s.list|
    requires id in Available(root, imported) && id !in s.discovered && Imports(s.list[n].manifest, id)
    requires valid(Available(root, imported)[id])
    ensures Consistent(root, imported, valid, AfterImport(s, s.list[n].lineage + [id], Available(root, imported)[id]),
      at[id := |s.list|], n)
  {
    var path := s.list[n].lineage + [id];
    var t := AfterImport(s, path, Available(root, imported)[id]);
    ListedGrows(root, imported, s.list, at, n, id);
    WithinGrows(s.list, s.discovered, valid, n, id, t.list[|s.list|]);
    FoundGrows(root, imported, s.found, at.Keys, id);
    assert at[id := |s.list|].Keys == at.Keys + {id};
  }

  lemma WithinGrows(list: seq<Reached>, discovered: set<string>, valid: Manifest -> bool, n: nat, id: string,
      r: Reached)
    requires AllWithin(list, discovered) && AllValid(list, valid) && n < |list| && NoneFarther(list, n)
    requires r.lineage == list[n].lineage + [id] && valid(r.manifest)
    ensures AllWithin(list + [r], discovered + {id}) && AllValid(list + [r], valid) && NoneFarther(list + [r], n)
  {
  }

  /** The lineage of an error leads to what it says: a full import without a source, or a malformed manifest. */
  ghost predicate IsFault(root: Manifest, imported: Manifests, valid: Manifest -> bool, error: ClosureError) {
    match error
    case Unavailable(path) =>
      && |path| > 1 && ImportPath(root, imported, path[..|path| - 1]) && Tip(path) !in Available(root, imported)
      && ImportsAll(ManifestOf(root, imported, Tip(path[..|path| - 1])), Tip(path))
    case InvalidSchema(path) =>
      ImportPath(root, imported, path) && Tip(path) != root.id && !valid(ManifestOf(root, imported, Tip(path)))
  }

  predicate ImportsAll(m: Manifest, id: string) {
    exists j :: 0 <= j < |m.imports| && m.imports[j].all && m.imports[j].bundle == id
  }

  ghost predicate AllFaults(root: Manifest, imported: Manifests, valid: Manifest -> bool, errors: seq<ClosureError>) {
    forall e :: e in errors ==> IsFault(root, imported, valid, e)
  }

  lemma OneMoreFault(root: Manifest, imported: Manifests, valid: Manifest -> bool, errors: seq<ClosureError>,
      error: ClosureError)
    requires AllFaults(root, imported, valid, errors) && IsFault(root, imported, valid, error)
    ensures AllFaults(root, imported, valid, errors + [error])
  {
  }

  /** A missing source of a full import, or a malformed manifest, is a fault of the closure. */
  lemma FaultFound(root: Manifest, imported: Manifests, valid: Manifest -> bool, r: Reached, j: nat)
    requires Genuine(root, imported, r) && j < |r.manifest.imports|
    requires
      var i := r.manifest.imports[j];
      if i.bundle !in Available(root, imported) then i.all
      else i.bundle != root.id && !valid(Available(root, imported)[i.bundle])
    ensures !AllAcceptable(root, imported, valid)
    ensures
      var path := r.lineage + [r.manifest.imports[j].bundle];
      var fault := if Tip(path) in Available(root, imported) then InvalidSchema(path) else Unavailable(path);
      IsFault(root, imported, valid, fault)
  {
    var i := r.manifest.imports[j];
    assert (r.lineage + [i.bundle])[..|r.lineage|] == r.lineage;
    if i.bundle in Available(root, imported) {
      ExtendPath(root, imported, r.lineage, i.bundle);
      assert !Acceptable(root, imported, valid, r.lineage + [i.bundle]);
    } else {
      assert !Acceptable(root, imported, valid, r.lineage);
    }
  }

  /** Follow import `j` of entry `n`. */
  method Follow(root: Manifest, imported: Manifests, valid: Manifest -> bool, s: Progress, ghost at: map<string, nat>,
      n: nat, j: nat)
    returns (t: Progress, ghost at': map<string, nat>)
    requires Consistent(root, imported, valid, s, at, n) && n < |s.list| && j < |s.list[n].manifest.imports|
    requires s.errors == [] ==> Done(root, imported, s.list, at, n, j)
    ensures Consistent(root, imported, valid, t, at', n)
    ensures n < |t.list| && t.list[n] == s.list[n] && s.discovered <= t.discovered
    ensures t.errors == [] ==> Done(root, imported, t.list, at', n, j + 1)
    ensures t.list == s.list || s.discovered < t.discovered
    ensures AllFaults(root, imported, valid, s.errors) ==> AllFaults(root, imported, valid, t.errors)
  {
    var available := Available(root, imported);
    var i := s.list[n].manifest.imports[j];
    var path := s.list[n].lineage + [i.bundle];
    at' := at;
    if i.bundle !in available {
      t := s;
      if i.all {
        FaultFound(root, imported, valid, s.list[n], j);
        if AllFaults(root, imported, valid, s.errors) {
          OneMoreFault(root, imported, valid, s.errors, Unavailable(path));
        }
        t := s.(errors := s.errors + [Unavailable(path)]);
      } else if s.errors == [] {
        DoneStep(root, imported, s.list, at, n, j);
      }
    } else if i.bundle in s.discovered {
      t := s;
      if s.errors == [] {
        DoneStep(root, imported, s.list, at, n, j);
      }
    } else if !valid(available[i.bundle]) {
      FaultFound(root, imported, valid, s.list[n], j);
      if AllFaults(root, imported, valid, s.errors) {
        OneMoreFault(root, imported, valid, s.errors, InvalidSchema(path));
      }
      t := s.(discovered := s.discovered + {i.bundle}, errors := s.errors + [InvalidSchema(path)]);
    } else {
      ImportKeepsConsistent(root, imported, valid, s, at, n, i.bundle);
      t, at' := AfterImport(s, path, available[i.bundle]), at[i.bundle := |s.list|];
      if s.errors == [] {
        DoneGrows(root, imported, s.list, at, n, j, i.bundle, Reached(path, available[i.bundle]));
        DoneStep(root, imported, t.list, at', n, j);
      }
    }
  }

  method FollowAll(root: Manifest, imported: Manifests, valid: Manifest -> bool, s: Progress,
      ghost at: map<string, nat>, n: nat)
    returns (t: Progress, ghost at': map<string, nat>)
    requires Consistent(root, imported, valid, s, at, n) && n < |s.list|
    requires s.errors == [] ==> Done(root, imported, s.list, at, n, 0)
    ensures Consistent(root, imported, valid, t, at', n) && n < |t.list|
    ensures t.errors == [] ==> Done(root, imported, t.list, at', n + 1, 0)
    ensures t.list == s.list ||
      Available(root, imported).Keys - t.discovered < Available(root, imported).Keys - s.discovered
    ensures t.list == s.list ==>
      Available(root, imported).Keys - t.discovered <= Available(root, imported).Keys - s.discovered
    ensures AllFaults(root, imported, valid, s.errors) ==> AllFaults(root, imported, valid, t.errors)
  {
    t, at' := s, at;
    for j := 0 to |s.list[n].manifest.imports|
      invariant Consistent(root, imported, valid, t, at', n) && n < |t.list| && t.list[n] == s.list[n]
      invariant t.errors == [] ==> Done(root, imported, t.list, at', n, j)
      invariant s.discovered <= t.discovered && (t.list == s.list || s.discovered < t.discovered)
      invariant AllFaults(root, imported, valid, s.errors) ==> AllFaults(root, imported, valid, t.errors)
    {
      t, at' := Follow(root, imported, valid, t, at', n, j);
    }
    if t.errors == [] {
      DoneEntry(root, imported, t.list, at', n);
    }
  }

  lemma NextEntry(root: Manifest, imported: Manifests, valid: Manifest -> bool, s: Progress, at: map<string, nat>,
      n: nat)
    requires Consistent(root, imported, valid, s, at, n) && n < |s.list|
    ensures Consistent(root, imported, valid, s, at, n + 1)
  {
  }

  function Start(root: Manifest): Progress {
    Progress([Reached([root.id], root)], map[], [], {root.id})
  }

  lemma StartIsConsistent(root: Manifest, imported: Manifests, valid: Manifest -> bool)
    ensures Consistent(root, imported, valid, Start(root), map[root.id := 0], 0)
    ensures Done(root, imported, Start(root).list, map[root.id := 0], 0, 0)
  {
  }

  /** `_reachable_manifest_closure`: it reports nothing exactly when every manifest that import paths
      reach is acceptable, and then it lists each of them once; what it reports is real. */
  method Closure(root: Manifest, imported: Manifests, valid: Manifest -> bool)
    returns (list: seq<Reached>, found: Manifests, errors: seq<ClosureError>)
    ensures errors == [] <==> AllAcceptable(root, imported, valid)
    ensures errors == [] ==> IsClosure(root, imported, list) && found == Reachable(root, imported)
    ensures AllFaults(root, imported, valid, errors)
  {
    var s := Start(root);
    StartIsConsistent(root, imported, valid);
    ghost var at: map<string, nat> := map[root.id := 0];
    var n := 0;
    while n < |s.list|
      invariant Consistent(root, imported, valid, s, at, n)
      invariant s.errors == [] ==> Done(root, imported, s.list, at, n, 0)
      invariant AllFaults(root, imported, valid, s.errors)
      decreases Available(root, imported).Keys - s.discovered, |s.list| - n
    {
      s, at := FollowAll(root, imported, valid, s, at, n);
      NextEntry(root, imported, valid, s, at, n);
      n := n + 1;
    }
    if s.errors == [] {
      Finish(root, imported, valid, s, at);
    }
    list, found, errors := s.list, s.found, s.errors;
  }

  lemma Finish(root: Manifest, imported: Manifests, valid: Manifest -> bool, s: Progress, at: map<string, nat>)
    requires Consistent(root, imported, valid, s, at, |s.list|) && Done(root, imported, s.list, at, |s.list|, 0) &&
      s.errors == []
    ensures IsClosure(root, imported, s.list) && s.found == Reachable(root, imported)
    ensures AllAcceptable(root, imported, valid)
  {
    forall p | ImportPath(root, imported, p)
      ensures Lists(s.list, Tip(p), |p|) && Acceptable(root, imported, valid, p)
    {
      ListedIsShortest(root, imported, s.list, at, p);
      var k := at[Tip(p)];
      var m := s.list[k].manifest;
      assert Genuine(root, imported, s.list[k]);
      forall j | 0 <= j < |m.imports| && m.imports[j].all
        ensures m.imports[j].bundle in Available(root, imported)
      {
        assert Followed(root, imported, s.list, at, k, j);
      }
    }
    FoundIsReachable(root, imported, s.list, s.found, at);
  }

  lemma FoundIsReachable(root: Manifest, imported: Manifests, list: seq<Reached>, found: Manifests,
      at: map<string, nat>)
    requires Listed(root, imported, list, at) && FoundFits(root, imported, found, at.Keys)
    requires forall p :: ImportPath(root, imported, p) ==> Tip(p) in at
    ensures found == Reachable(root, imported)
  {
    var reachable := Reachable(root, imported);
    forall id | id in found
      ensures id in reachable
    {
      assert Genuine(root, imported, list[at[id]]);
      assert Reaches(root, imported, id);
    }
    assert found.Keys == reachable.Keys;
  }
}
