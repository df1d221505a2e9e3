/** A validated bundle (scripts/course_bundle_validation.py): the import closure, the cycle check and
    the collision checks combined, and what they guarantee of the generated index. */
module BundleValidation {

  import opened PathCollision
  import opened BundleManifests
  import opened ImportCycles
  import opened ImportClosure
  import opened BundleIndex
  import BundleCollisions

  /** The checks of a single manifest that are not part of this model. */
  datatype Checks = Checks(
    schema: Manifest -> bool,
    locals: Manifest -> bool,
    references: (Manifest, Manifests) -> bool,
    fold: string -> string)

  datatype BundleError =
    | SchemaError
    | ClosureFault(fault: ClosureError)
    | LocalFault(lineage: seq<string>)
    | ReferenceFault(lineage: seq<string>)
    | CollisionFault(lineage: seq<string>, collision: Collision)
    | ImportCycle(walk: seq<string>)
    | DuplicateUnitId

  // -------------------------------------------------------------------------------- the graph

  function KnownImports(imports: seq<Import>, known: set<string>): (ids: seq<string>)
    ensures forall id :: id in ids <==> id in known && exists k :: 0 <= k < |imports| && imports[k].bundle == id
  {
    if imports == [] then []
    else
      assert forall k :: 0 <= k < |imports| - 1 ==> imports[1..][k] == imports[k + 1];
      (if imports[0].bundle in known then [imports[0].bundle] else []) + KnownImports(imports[1..], known)
  }

  /** The nodes of the import graph: the root and every imported manifest. */
  function Nodes(root: Manifest, found: Manifests): Manifests {
    map[root.id := root] + found
  }

  function ImportGraph(root: Manifest, found: Manifests): (g: Graph)
    ensures Closed(g) && g.Keys == Nodes(root, found).Keys
    ensures forall a, b :: a in g ==> (b in g[a] <==> b in g && Imports(Nodes(root, found)[a], b))
  {
    map id | id in Nodes(root, found) :: KnownImports(Nodes(root, found)[id].imports, Nodes(root, found).Keys)
  }

  lemma NodeOf(root: Manifest, imported: Manifests, p: seq<string>)
    requires ImportPath(root, imported, p)
    ensures Tip(p) in Nodes(root, Reachable(root, imported))
    ensures Nodes(root, Reachable(root, imported))[Tip(p)] == ManifestOf(root, imported, Tip(p))
  {
  }

  lemma PrefixIsPath(root: Manifest, imported: Manifests, p: seq<string>, n: nat)
    requires ImportPath(root, imported, p) && 1 <= n <= |p|
    ensures ImportPath(root, imported, p[..n]) && Tip(p[..n]) == p[n - 1]
  {
  }

  lemma EdgeInGraph(root: Manifest, found: Manifests, a: string, b: string)
    requires a in Nodes(root, found) && b in Nodes(root, found) && Imports(Nodes(root, found)[a], b)
    ensures b in ImportGraph(root, found)[a]
  {
  }

  /** Step `i` of a path of imports is an edge of the graph. */
  lemma EdgeOf(root: Manifest, imported: Manifests, g: Graph, p: seq<string>, i: nat)
    requires ImportPath(root, imported, p) && i < |p| && g == ImportGraph(root, Reachable(root, imported))
    ensures p[i] in g && (i > 0 ==> p[i - 1] in g && p[i] in g[p[i - 1]])
  {
    PrefixIsPath(root, imported, p, i + 1);
    NodeOf(root, imported, p[..i + 1]);
    if i > 0 {
      PrefixIsPath(root, imported, p, i);
      NodeOf(root, imported, p[..i]);
      EdgeInGraph(root, Reachable(root, imported), p[i - 1], p[i]);
    }
  }

  /** A path of imports is a walk of the graph. */
  lemma PathInGraph(root: Manifest, imported: Manifests, g: Graph, p: seq<string>)
    requires ImportPath(root, imported, p) && g == ImportGraph(root, Reachable(root, imported))
    ensures Walk(g, p)
  {
    forall i | 0 <= i < |p|
      ensures p[i] in g && (i > 0 ==> p[i - 1] in g && p[i] in g[p[i - 1]])
    {
      EdgeOf(root, imported, g, p, i);
    }
  }

  /** When the graph is acyclic and the closure is complete, no lineage guard ever cuts a branch. */
  lemma NothingIsCut(root: Manifest, imported: Manifests, valid: Manifest -> bool, p: seq<string>, k: nat)
    requires AllAcceptable(root, imported, valid) && Acyclic(ImportGraph(root, Reachable(root, imported)))
    requires ImportPath(root, imported, p) && k < |ManifestOf(root, imported, Tip(p)).imports|
    requires ManifestOf(root, imported, Tip(p)).imports[k].all
    ensures Enters(ManifestOf(root, imported, Tip(p)), k, Reachable(root, imported), p)
  {
    var id := ManifestOf(root, imported, Tip(p)).imports[k].bundle;
    var g := ImportGraph(root, Reachable(root, imported));
    assert Acceptable(root, imported, valid, p);
    ExtendPath(root, imported, p, id);
    PathInGraph(root, imported, g, p + [id]);
    if id in p {
      var start :| 0 <= start < |p| && p[start] == id;
      CloseWalk(g, p, id, start);
    }
    NodeOf(root, imported, p + [id]);
  }

  // ---------------------------------------------------------- composing over the closure or all

  /** Composition never leaves the closure: the full map of imports gives the same units. */
  lemma {:induction false} ComposeOverClosure(root: Manifest, imported: Manifests, p: seq<string>)
    requires ImportPath(root, imported, p)
    ensures
      var m := ManifestOf(root, imported, Tip(p));
      Compose(m, imported, p) == Compose(m, Reachable(root, imported), p)
    decreases Fresh(imported, p), |ManifestOf(root, imported, Tip(p)).imports| + 1
  {
    ComposeImportsOverClosure(root, imported, p, 0);
  }

  lemma {:induction false} ComposeImportsOverClosure(root: Manifest, imported: Manifests, p: seq<string>, k: nat)
    requires ImportPath(root, imported, p)
    ensures
      var m := ManifestOf(root, imported, Tip(p));
      ComposeImports(m, k, imported, p) == ComposeImports(m, k, Reachable(root, imported), p)
    decreases Fresh(imported, p), |ManifestOf(root, imported, Tip(p)).imports| - k
  {
    var m := ManifestOf(root, imported, Tip(p));
    if k < |m.imports| {
      SameGuard(root, imported, p, k);
      if Enters(m, k, imported, p) {
        EnteringShrinks(imported, p, m.imports[k].bundle);
        ComposeOverClosure(root, imported, p + [m.imports[k].bundle]);
      }
      ComposeImportsOverClosure(root, imported, p, k + 1);
    }
  }

  lemma SameGuard(root: Manifest, imported: Manifests, p: seq<string>, k: nat)
    requires ImportPath(root, imported, p) && k < |ManifestOf(root, imported, Tip(p)).imports|
    ensures
      var m, found := ManifestOf(root, imported, Tip(p)), Reachable(root, imported);
      var id := m.imports[k].bundle;
      && (Enters(m, k, imported, p) <==> Enters(m, k, found, p))
      && (Enters(m, k, imported, p) ==>
        ImportPath(root, imported, p + [id]) && imported[id] == found[id] == ManifestOf(root, imported, id))
  {
    var m := ManifestOf(root, imported, Tip(p));
    var id := m.imports[k].bundle;
    if Enters(m, k, imported, p) {
      ExtendPath(root, imported, p, id);
      assert Tip(p + [id]) == id;
      assert Reaches(root, imported, id);
    }
  }

  lemma IndexOverClosure(root: Manifest, imported: Manifests)
    ensures GenerateIndex(root, imported) == GenerateIndex(root, Reachable(root, imported))
  {
    assert ImportPath(root, imported, [root.id]);
    ComposeOverClosure(root, imported, [root.id]);
  }

  // ------------------------------------------------------------------------------ _bundle_errors

  ghost predicate Passes(m: Manifest, found: Manifests, c: Checks) {
    c.locals(m) && RefersCleanly(m, found, c)
  }

  predicate UniqueIds(units: seq<Unit>) {
    forall i, j :: 0 <= i < j < |units| ==> units[i].id != units[j].id
  }

  /** What validation stands for, in terms of manifests and import paths alone. */
  ghost predicate Validated(root: Manifest, imported: Manifests, c: Checks) {
    c.schema(root) && AllAcceptable(root, imported, c.schema) && AllChecked(root, imported, c)
  }

  /** What is checked once the closure is known to have no faults. */
  ghost predicate AllChecked(root: Manifest, imported: Manifests, c: Checks) {
    var found := Reachable(root, imported);
    && (forall p :: ImportPath(root, imported, p) ==> Passes(ManifestOf(root, imported, Tip(p)), found, c))
    && Acyclic(ImportGraph(root, found))
    && UniqueIds(GenerateIndex(root, found))
  }

  ghost predicate AllPass(list: seq<Reached>, found: Manifests, c: Checks) {
    forall k :: 0 <= k < |list| ==> Passes(list[k].manifest, found, c)
  }

  /** Checking the listed manifests is checking every reachable one. */
  lemma ListedIsEverything(root: Manifest, imported: Manifests, list: seq<Reached>, c: Checks)
    requires IsClosure(root, imported, list)
    ensures AllPass(list, Reachable(root, imported), c) <==>
      forall p :: ImportPath(root, imported, p) ==>
        Passes(ManifestOf(root, imported, Tip(p)), Reachable(root, imported), c)
  {
  }

  /** Each error names something that is wrong: the manifest at the end of its lineage, two of the
      occurrences in that manifest, or a closed walk. */
  ghost predicate IsReal(root: Manifest, imported: Manifests, c: Checks, error: BundleError) {
    var found := Reachable(root, imported);
    match error
    case SchemaError => !c.schema(root)
    case ClosureFault(fault) => IsFault(root, imported, c.schema, fault)
    case LocalFault(lineage) =>
      ImportPath(root, imported, lineage) && !c.locals(ManifestOf(root, imported, Tip(lineage)))
    case ReferenceFault(lineage) =>
      ImportPath(root, imported, lineage) && !c.references(ManifestOf(root, imported, Tip(lineage)), found)
    case CollisionFault(lineage, collision) =>
      && ImportPath(root, imported, lineage)
      && BundleCollisions.IsCollision(ManifestOf(root, imported, Tip(lineage)), found, c.fold, collision)
    case ImportCycle(walk) => ClosedWalk(ImportGraph(root, found), walk)
    case DuplicateUnitId => !UniqueIds(GenerateIndex(root, found))
  }

  ghost predicate AllReal(root: Manifest, imported: Manifests, c: Checks, errors: seq<BundleError>) {
    forall e :: e in errors ==> IsReal(root, imported, c, e)
  }

  /** The errors of the root and those of the imports, one for each manifest that fails. */
  ghost predicate LocalsOf(list: seq<Reached>, c: Checks, n: nat, ofRoot: bool, errors: seq<BundleError>)
    requires n <= |list|
  {
    forall e :: e in errors <==> exists k :: 0 <= k < n && IsLocalFault(list[k], c, ofRoot, e)
  }

  predicate IsLocalFault(r: Reached, c: Checks, ofRoot: bool, e: BundleError) {
    !c.locals(r.manifest) && (ofRoot <==> |r.lineage| == 1) && e == LocalFault(r.lineage)
  }

  lemma LocalFaultsAreReal(root: Manifest, imported: Manifests, c: Checks, list: seq<Reached>, ofRoot: bool,
      errors: seq<BundleError>)
    requires IsClosure(root, imported, list) && LocalsOf(list, c, |list|, ofRoot, errors)
    ensures AllReal(root, imported, c, errors)
  {
  }

  method LocalErrors(list: seq<Reached>, c: Checks) returns (ofRoot: seq<BundleError>, ofImports: seq<BundleError>)
    ensures LocalsOf(list, c, |list|, true, ofRoot) && LocalsOf(list, c, |list|, false, ofImports)
  {
    ofRoot, ofImports := [], [];
    for k := 0 to |list|
      invariant LocalsOf(list, c, k, true, ofRoot) && LocalsOf(list, c, k, false, ofImports)
    {
      var fault := LocalFault(list[k].lineage);
      if !c.locals(list[k].manifest) {
        if |list[k].lineage| == 1 {
          MoreLocals(list, c, k, true, ofRoot, [fault]);
          MoreLocals(list, c, k, false, ofImports, []);
          ofRoot := ofRoot + [fault];
        } else {
          MoreLocals(list, c, k, true, ofRoot, []);
          MoreLocals(list, c, k, false, ofImports, [fault]);
          ofImports := ofImports + [fault];
        }
      } else {
        MoreLocals(list, c, k, true, ofRoot, []);
        MoreLocals(list, c, k, false, ofImports, []);
      }
    }
  }

  lemma MoreLocals(list: seq<Reached>, c: Checks, k: nat, ofRoot: bool, errors: seq<BundleError>,
      more: seq<BundleError>)
    requires k < |list| && LocalsOf(list, c, k, ofRoot, errors)
    requires forall e :: e in more <==> IsLocalFault(list[k], c, ofRoot, e)
    ensures LocalsOf(list, c, k + 1, ofRoot, errors + more)
  {
    forall e
      ensures e in errors + more <==> exists i :: 0 <= i < k + 1 && IsLocalFault(list[i], c, ofRoot, e)
    {
      if e in more {
        assert IsLocalFault(list[k], c, ofRoot, e);
      }
    }
  }

  ghost predicate AllLocallySound(list: seq<Reached>, c: Checks) {
    forall k :: 0 <= k < |list| ==> c.locals(list[k].manifest)
  }

  lemma LocalFaultIn(list: seq<Reached>, c: Checks, ofRoot: bool, errors: seq<BundleError>)
    requires LocalsOf(list, c, |list|, ofRoot, errors)
    ensures errors == [] <==>
      forall k :: 0 <= k < |list| && (ofRoot <==> |list[k].lineage| == 1) ==> c.locals(list[k].manifest)
  {
    if k :| 0 <= k < |list| && (ofRoot <==> |list[k].lineage| == 1) && !c.locals(list[k].manifest) {
      assert IsLocalFault(list[k], c, ofRoot, LocalFault(list[k].lineage));
      assert LocalFault(list[k].lineage) in errors;
    } else if errors != [] {
      assert errors[0] in errors;
    }
  }

  lemma AboutLocals(root: Manifest, imported: Manifests, c: Checks, list: seq<Reached>, ofRoot: seq<BundleError>,
      ofImports: seq<BundleError>)
    requires IsClosure(root, imported, list)
    requires LocalsOf(list, c, |list|, true, ofRoot) && LocalsOf(list, c, |list|, false, ofImports)
    ensures AllReal(root, imported, c, ofRoot) && AllReal(root, imported, c, ofImports)
    ensures ofRoot == [] && ofImports == [] <==> AllLocallySound(list, c)
  {
    LocalFaultsAreReal(root, imported, c, list, true, ofRoot);
    LocalFaultsAreReal(root, imported, c, list, false, ofImports);
    LocalFaultIn(list, c, true, ofRoot);
    LocalFaultIn(list, c, false, ofImports);
  }

  ghost predicate RefersCleanly(m: Manifest, found: Manifests, c: Checks) {
    c.references(m, found) && BundleCollisions.AllApart(m, found, c.fold)
  }

  ghost predicate AllReferCleanly(list: seq<Reached>, found: Manifests, c: Checks, n: nat)
    requires n <= |list|
  {
    forall k :: 0 <= k < n ==> RefersCleanly(list[k].manifest, found, c)
  }

  /** Errors of the reference and collision checks of one manifest. */
  ghost predicate FaultsOf(r: Reached, found: Manifests, c: Checks, errors: seq<BundleError>) {
    forall e :: e in errors ==> IsFaultOf(r, found, c, e)
  }

  ghost predicate IsFaultOf(r: Reached, found: Manifests, c: Checks, e: BundleError) {
    match e
    case ReferenceFault(lineage) => lineage == r.lineage && !c.references(r.manifest, found)
    case CollisionFault(lineage, collision) =>
      lineage == r.lineage && BundleCollisions.IsCollision(r.manifest, found, c.fold, collision)
    case _ => false
  }

  lemma FaultsAreReal(root: Manifest, imported: Manifests, c: Checks, r: Reached, errors: seq<BundleError>)
    requires Genuine(root, imported, r) && FaultsOf(r, Reachable(root, imported), c, errors)
    ensures AllReal(root, imported, c, errors)
  {
  }

  lemma OneMoreRefers(list: seq<Reached>, found: Manifests, c: Checks, n: nat)
    requires n < |list|
    ensures AllReferCleanly(list, found, c, n + 1) <==>
      AllReferCleanly(list, found, c, n) && RefersCleanly(list[n].manifest, found, c)
  {
  }

  ghost predicate AllGenuine(root: Manifest, imported: Manifests, list: seq<Reached>) {
    forall k :: 0 <= k < |list| ==> Genuine(root, imported, list[k])
  }

  method ManifestErrors(root: Manifest, imported: Manifests, list: seq<Reached>, found: Manifests, c: Checks)
    returns (errors: seq<BundleError>)
    requires AllGenuine(root, imported, list) && found == Reachable(root, imported)
    ensures errors == [] <==> AllReferCleanly(list, found, c, |list|)
    ensures AllReal(root, imported, c, errors)
  {
    errors := [];
    for k := 0 to |list|
      invariant errors == [] <==> AllReferCleanly(list, found, c, k)
      invariant AllReal(root, imported, c, errors)
    {
      var more := OneManifestErrors(list[k], found, c);
      FaultsAreReal(root, imported, c, list[k], more);
      RealTogether(root, imported, c, errors, more);
      OneMoreRefers(list, found, c, k);
      errors := errors + more;
    }
  }

  function CollisionFaults(lineage: seq<string>, collisions: seq<Collision>): (errors: seq<BundleError>)
    ensures |errors| == |collisions|
    ensures forall i :: 0 <= i < |errors| ==> errors[i] == CollisionFault(lineage, collisions[i])
  {
    seq(|collisions|, i requires 0 <= i < |collisions| => CollisionFault(lineage, collisions[i]))
  }

  lemma CollisionsAreFaults(r: Reached, found: Manifests, c: Checks, collisions: seq<Collision>)
    requires forall i :: 0 <= i < |collisions| ==>
      BundleCollisions.IsCollision(r.manifest, found, c.fold, collisions[i])
    ensures FaultsOf(r, found, c, CollisionFaults(r.lineage, collisions))
  {
  }

  /** The body of that loop. */
  method OneManifestErrors(r: Reached, found: Manifests, c: Checks) returns (errors: seq<BundleError>)
    ensures errors == [] <==> RefersCleanly(r.manifest, found, c)
    ensures FaultsOf(r, found, c, errors)
  {
    var collisions := CollisionErrors(CollisionEntries(r.manifest, found), c.fold);
    BundleCollisions.ApartExactly(r.manifest, found, c.fold);
    forall i | 0 <= i < |collisions|
      ensures BundleCollisions.IsCollision(r.manifest, found, c.fold, collisions[i])
    {
      BundleCollisions.ReportedIsCollision(r.manifest, found, c.fold, collisions, i);
    }
    CollisionsAreFaults(r, found, c, collisions);
    errors := CollisionFaults(r.lineage, collisions);
    if !c.references(r.manifest, found) {
      errors := [ReferenceFault(r.lineage)] + errors;
    }
  }

  function Tips(list: seq<Reached>): (ids: seq<string>)
    ensures |ids| == |list| && forall k :: 0 <= k < |list| ==> ids[k] == Tip(list[k].lineage)
  {
    seq(|list|, k requires 0 <= k < |list| => Tip(list[k].lineage))
  }

  lemma NodeIsListed(root: Manifest, imported: Manifests, list: seq<Reached>, id: string)
    requires IsClosure(root, imported, list) && id in Nodes(root, Reachable(root, imported))
    ensures id in Tips(list)
  {
    var p := [root.id];
    if id in Reachable(root, imported) {
      p :| ImportPath(root, imported, p) && Tip(p) == id;
    }
    assert ImportPath(root, imported, p);
    assert Lists(list, id, |p|);
    var k :| 0 <= k < |list| && Tip(list[k].lineage) == id;
    assert Tips(list)[k] == id;
  }

  lemma TipIsNode(root: Manifest, imported: Manifests, list: seq<Reached>, k: nat)
    requires IsClosure(root, imported, list) && k < |list|
    ensures Tips(list)[k] in Nodes(root, Reachable(root, imported))
  {
  }

  /** The listed ids are the nodes of the import graph. */
  lemma TipsAreNodes(root: Manifest, imported: Manifests, list: seq<Reached>)
    requires IsClosure(root, imported, list)
    ensures forall id :: id in Tips(list) <==> id in Nodes(root, Reachable(root, imported))
  {
    forall id | id in Tips(list)
      ensures id in Nodes(root, Reachable(root, imported))
    {
      var k :| 0 <= k < |list| && Tips(list)[k] == id;
      TipIsNode(root, imported, list, k);
    }
    forall id | id in Nodes(root, Reachable(root, imported))
      ensures id in Tips(list)
    {
      NodeIsListed(root, imported, list, id);
    }
  }

  function ClosureFaults(faults: seq<ClosureError>): (errors: seq<BundleError>)
    ensures |errors| == |faults| && forall i :: 0 <= i < |errors| ==> errors[i] == ClosureFault(faults[i])
  {
    seq(|faults|, i requires 0 <= i < |faults| => ClosureFault(faults[i]))
  }

  lemma ClosureFaultsAreReal(root: Manifest, imported: Manifests, c: Checks, faults: seq<ClosureError>)
    requires AllFaults(root, imported, c.schema, faults)
    ensures AllReal(root, imported, c, ClosureFaults(faults))
  {
    var errors := ClosureFaults(faults);
    forall e | e in errors
      ensures IsReal(root, imported, c, e)
    {
      var i :| 0 <= i < |errors| && errors[i] == e;
      assert faults[i] in faults;
    }
  }

  lemma SchemaIsReal(root: Manifest, imported: Manifests, c: Checks)
    requires !c.schema(root)
    ensures AllReal(root, imported, c, [SchemaError])
  {
  }

  /** `_bundle_errors`: it reports nothing exactly for a validated bundle, and whatever it reports is real. */
  method BundleErrors(root: Manifest, imported: Manifests, c: Checks) returns (errors: seq<BundleError>)
    ensures errors == [] <==> Validated(root, imported, c)
    ensures AllReal(root, imported, c, errors)
  {
    if !c.schema(root) {
      SchemaIsReal(root, imported, c);
      return [SchemaError];
    }
    var list, found, faults := Closure(root, imported, c.schema);
    if faults != [] {
      ClosureFaultsAreReal(root, imported, c, faults);
      return ClosureFaults(faults);
    }
    errors := ListedErrors(root, imported, c, list, found);
  }

  method CycleErrors(graph: Graph, order: seq<string>) returns (errors: seq<BundleError>)
    requires Closed(graph) && forall id :: id in order <==> id in graph
    ensures errors == [] <==> Acyclic(graph)
    ensures forall e :: e in errors ==> e.ImportCycle? && ClosedWalk(graph, e.walk)
  {
    var cycle := FindCycle(graph, order);
    errors := if cycle == [] then [] else [ImportCycle(cycle)];
  }

  lemma CyclesAreReal(root: Manifest, imported: Manifests, c: Checks, errors: seq<BundleError>)
    requires forall e :: e in errors ==>
      e.ImportCycle? && ClosedWalk(ImportGraph(root, Reachable(root, imported)), e.walk)
    ensures AllReal(root, imported, c, errors)
  {
  }

  lemma RealTogether(root: Manifest, imported: Manifests, c: Checks, a: seq<BundleError>, b: seq<BundleError>)
    requires AllReal(root, imported, c, a) && AllReal(root, imported, c, b)
    ensures AllReal(root, imported, c, a + b)
  {
  }

  /** The errors that take several manifests. */
  method LinkErrors(root: Manifest, imported: Manifests, c: Checks, list: seq<Reached>, found: Manifests)
    returns (errors: seq<BundleError>)
    requires IsClosure(root, imported, list) && found == Reachable(root, imported)
    ensures errors == [] <==> AllReferCleanly(list, found, c, |list|) && Acyclic(ImportGraph(root, found))
    ensures AllReal(root, imported, c, errors)
  {
    errors := ManifestErrors(root, imported, list, found, c);
    TipsAreNodes(root, imported, list);
    var cycles := CycleErrors(ImportGraph(root, found), Tips(list));
    CyclesAreReal(root, imported, c, cycles);
    RealTogether(root, imported, c, errors, cycles);
    errors := errors + cycles;
  }

  lemma DuplicateIsReal(root: Manifest, imported: Manifests, c: Checks)
    requires !UniqueIds(GenerateIndex(root, Reachable(root, imported)))
    ensures AllReal(root, imported, c, [DuplicateUnitId])
  {
  }

  lemma PassingIsBoth(list: seq<Reached>, found: Manifests, c: Checks)
    ensures AllPass(list, found, c) <==> AllLocallySound(list, c) && AllReferCleanly(list, found, c, |list|)
  {
  }

  /** What is checked once the closure is known. */
  method ListedErrors(root: Manifest, imported: Manifests, c: Checks, list: seq<Reached>, found: Manifests)
    returns (errors: seq<BundleError>)
    requires IsClosure(root, imported, list) && found == Reachable(root, imported)
    ensures errors == [] <==> AllChecked(root, imported, c)
    ensures AllReal(root, imported, c, errors)
  {
    ListedIsEverything(root, imported, list, c);
    PassingIsBoth(list, found, c);
    var ofRoot, ofImports := LocalErrors(list, c);
    AboutLocals(root, imported, c, list, ofRoot, ofImports);
    if ofImports != [] {
      RealTogether(root, imported, c, ofRoot, ofImports);
      return ofRoot + ofImports;
    }
    var more := LinkErrors(root, imported, c, list, found);
    RealTogether(root, imported, c, ofRoot, more);
    errors := ofRoot + more;
    if errors == [] && !UniqueIds(GenerateIndex(root, found)) {
      DuplicateIsReal(root, imported, c);
      return [DuplicateUnitId];
    }
  }

  /** The generated index of a validated bundle: composed over whatever imports were supplied, it has
      distinct unit ids, and two different item paths never collide on a portable file system. */
  lemma ValidatedIndex(root: Manifest, imported: Manifests, c: Checks)
    requires Validated(root, imported, c)
    ensures UniqueIds(GenerateIndex(root, imported))
    ensures forall p: Path, q: Path ::
      Mentions(GenerateIndex(root, imported), p) && Mentions(GenerateIndex(root, imported), q) && p != q ==>
        !Clash(Key(p, c.fold), Key(q, c.fold))
  {
    var found := Reachable(root, imported);
    IndexOverClosure(root, imported);
    assert ImportPath(root, imported, [root.id]);
    assert Passes(ManifestOf(root, imported, Tip([root.id])), found, c);
    forall p: Path, q: Path | Mentions(GenerateIndex(root, imported), p) &&
      Mentions(GenerateIndex(root, imported), q) && p != q
      ensures !Clash(Key(p, c.fold), Key(q, c.fold))
    {
      BundleCollisions.ApartExactly(root, found, c.fold);
      IndexPathsAreApart(root, found, c.fold, p, q);
    }
  }
}
