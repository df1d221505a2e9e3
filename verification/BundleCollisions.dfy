/** What the collision check of a manifest compares, in terms of manifests alone
    (scripts/course_bundle_validation.py): every occurrence of an import target, a dependency target and
    a local extension, every path of a full import, and every content path that none of the former names. */
module BundleCollisions {

  import opened PathCollision
  import opened BundleManifests
  import opened BundleIndex
  import opened BundleContents

  datatype Occurrence =
    | Target(import_: nat, item: nat)
    | Dependency(import_: nat, item: nat, dependency: nat)
    | Override(index: nat)
    | Imported(import_: nat, path: Path)
    | Content(path: Path)

  predicate IsItem(m: Manifest, i: nat, j: nat) {
    i < |m.imports| && j < |m.imports[i].items|
  }

  /** The occurrences that a manifest spells out one by one. */
  predicate IsSpelledOut(m: Manifest, o: Occurrence) {
    match o
    case Target(i, j) => IsItem(m, i, j)
    case Dependency(i, j, d) => IsItem(m, i, j) && d < |m.imports[i].items[j].dependencies|
    case Override(k) => k < |m.overrides|
    case Imported(_, _) => false
    case Content(_) => false
  }

  function SpelledPath(m: Manifest, o: Occurrence): Path
    requires IsSpelledOut(m, o)
  {
    match o
    case Target(i, j) => m.imports[i].items[j].target
    case Dependency(i, j, d) => m.imports[i].items[j].dependencies[d]
    case Override(k) => m.overrides[k]
  }

  ghost predicate Names(m: Manifest, p: Path) {
    exists o :: IsSpelledOut(m, o) && SpelledPath(m, o) == p
  }

  ghost predicate HasContent(m: Manifest, p: Path) {
    exists u, i :: 0 <= u < |m.units| && i in m.units[u].items && i.path == p
  }

  /** A path below a chain of full imports. */
  function Under(chain: seq<string>, p: Path): Path {
    if chain == [] then p else Prefixed(chain[0], Under(chain[1..], p))
  }

  /** `q` is a path that the manifest at the end of `chain` names or has as content, and `p` is `q` below
      that chain. */
  ghost predicate ComesFrom(m: Manifest, imported: Manifests, lineage: seq<string>, p: Path, chain: seq<string>,
      q: Path) {
    && FullPath(m, imported, lineage, chain) && p == Under(chain, q)
    && (HasContent(EndOf(m, imported, chain), q) || Names(EndOf(m, imported, chain), q))
  }

  ghost predicate Occurs(m: Manifest, imported: Manifests, o: Occurrence) {
    match o
    case Imported(i, p) =>
      && i < |m.imports| && Enters(m, i, imported, [m.id])
      && var id := m.imports[i].bundle;
         exists chain, q :: chain != [] && chain[0] == id && ComesFrom(m, imported, [m.id], p, chain, q)
    case Content(p) => HasContent(m, p) && !Names(m, p)
    case _ => IsSpelledOut(m, o)
  }

  function PathOf(m: Manifest, o: Occurrence): Path
    requires o.Imported? || o.Content? || IsSpelledOut(m, o)
  {
    match o
    case Imported(_, p) => p
    case Content(p) => p
    case _ => SpelledPath(m, o)
  }

  /** No two occurrences have equal keys, or keys of which one is a prefix of the other. */
  ghost predicate AllApart(m: Manifest, imported: Manifests, fold: string -> string) {
    forall o, q :: Occurs(m, imported, o) && Occurs(m, imported, q) && o != q ==> OccurrencesApart(m, fold, o, q)
  }

  predicate OccurrencesApart(m: Manifest, fold: string -> string, o: Occurrence, q: Occurrence)
    requires o.Imported? || o.Content? || IsSpelledOut(m, o)
    requires q.Imported? || q.Content? || IsSpelledOut(m, q)
  {
    !Clash(Key(PathOf(m, o), fold), Key(PathOf(m, q), fold))
  }

  /** The collision names the paths of two different occurrences that clash. */
  ghost predicate IsCollision(m: Manifest, imported: Manifests, fold: string -> string, collision: Collision) {
    exists o, q ::
      && Occurs(m, imported, o) && Occurs(m, imported, q) && o != q && !OccurrencesApart(m, fold, o, q)
      && collision.previous.path == PathOf(m, o) && collision.current.path == PathOf(m, q)
  }

  // ------------------------------------------------------------------------ lists of occurrences

  predicate Fit(m: Manifest, o: Occurrence) {
    o.Imported? || o.Content? || IsSpelledOut(m, o)
  }

  /** The entries are the paths of the occurrences, one by one. */
  ghost predicate Parallel(m: Manifest, occurrences: seq<Occurrence>, entries: seq<Entry>) {
    && |occurrences| == |entries|
    && forall k :: 0 <= k < |entries| ==> Fit(m, occurrences[k]) && PathOf(m, occurrences[k]) == entries[k].path
  }

  ghost predicate Distinct(occurrences: seq<Occurrence>) {
    forall i, j :: 0 <= i < j < |occurrences| ==> occurrences[i] != occurrences[j]
  }

  lemma DistinctSum(a: seq<Occurrence>, b: seq<Occurrence>)
    requires Distinct(a) && Distinct(b) && forall o :: o in a ==> o !in b
    ensures Distinct(a + b)
  {
    assert forall i :: 0 <= i < |a| ==> a[i] in a;
    assert forall i :: 0 <= i < |b| ==> b[i] in b;
  }

  lemma ParallelSum(m: Manifest, a: seq<Occurrence>, b: seq<Occurrence>, entries: seq<Entry>, more: seq<Entry>)
    requires Parallel(m, a, entries) && Parallel(m, b, more)
    ensures Parallel(m, a + b, entries + more)
  {
  }

  ghost function Dependencies(m: Manifest, i: nat, j: nat): (occurrences: seq<Occurrence>)
    requires IsItem(m, i, j)
    ensures |occurrences| == |m.imports[i].items[j].dependencies|
    ensures forall d :: 0 <= d < |occurrences| ==> occurrences[d] == Dependency(i, j, d)
  {
    seq(|m.imports[i].items[j].dependencies|, d requires 0 <= d => Dependency(i, j, d))
  }

  lemma DependenciesListed(m: Manifest, i: nat, j: nat, o: Occurrence)
    requires IsItem(m, i, j)
    ensures o in Dependencies(m, i, j) <==> IsSpelledOut(m, o) && o.Dependency? && o.import_ == i && o.item == j
  {
    if IsSpelledOut(m, o) && o.Dependency? && o.import_ == i && o.item == j {
      assert Dependencies(m, i, j)[o.dependency] == o;
    }
  }

  ghost function Overrides(m: Manifest): (occurrences: seq<Occurrence>)
    ensures |occurrences| == |m.overrides| && forall k :: 0 <= k < |occurrences| ==> occurrences[k] == Override(k)
  {
    seq(|m.overrides|, k requires 0 <= k => Override(k))
  }

  ghost function OfItems(m: Manifest, i: nat, j: nat): seq<Occurrence>
    requires i < |m.imports| && j <= |m.imports[i].items|
    decreases |m.imports[i].items| - j
  {
    if j == |m.imports[i].items| then []
    else [Target(i, j)] + Dependencies(m, i, j) + OfItems(m, i, j + 1)
  }

  ghost function OfImports(m: Manifest, i: nat): seq<Occurrence>
    requires i <= |m.imports|
    decreases |m.imports| - i
  {
    if i == |m.imports| then [] else OfItems(m, i, 0) + OfImports(m, i + 1)
  }

  lemma {:induction false} ItemsListed(m: Manifest, i: nat, j: nat)
    requires i < |m.imports| && j <= |m.imports[i].items|
    ensures Parallel(m, OfItems(m, i, j), ItemTargets(m.imports[i].items[j..])) && Distinct(OfItems(m, i, j))
    ensures forall o :: o in OfItems(m, i, j) <==>
      IsSpelledOut(m, o) && (o.Target? || o.Dependency?) && o.import_ == i && o.item >= j
    decreases |m.imports[i].items| - j
  {
    var items := m.imports[i].items;
    if j < |items| {
      ItemsListed(m, i, j + 1);
      var first, rest := [Target(i, j)] + Dependencies(m, i, j), OfItems(m, i, j + 1);
      var entries := [Entry("import target", items[j].target)] + Labelled("dependency target", items[j].dependencies);
      assert items[j..][1..] == items[j + 1..] && items[j..][0] == items[j];
      forall o
        ensures o in first <==> IsSpelledOut(m, o) && (o.Target? || o.Dependency?) && o.import_ == i && o.item == j
      {
        DependenciesListed(m, i, j, o);
      }
      DistinctSum(first, rest);
      ParallelSum(m, first, rest, entries, ItemTargets(items[j + 1..]));
      assert ItemTargets(items[j..]) == entries + ItemTargets(items[j + 1..]);
    }
  }

  lemma {:induction false} ImportsListed(m: Manifest, i: nat)
    requires i <= |m.imports|
    ensures Parallel(m, OfImports(m, i), TargetEntries(m.imports[i..])) && Distinct(OfImports(m, i))
    ensures forall o :: o in OfImports(m, i) <==> IsSpelledOut(m, o) && (o.Target? || o.Dependency?) && o.import_ >= i
    decreases |m.imports| - i
  {
    if i < |m.imports| {
      ItemsListed(m, i, 0);
      ImportsListed(m, i + 1);
      assert m.imports[i..][1..] == m.imports[i + 1..] && m.imports[i].items[0..] == m.imports[i].items;
      DistinctSum(OfItems(m, i, 0), OfImports(m, i + 1));
      ParallelSum(m, OfItems(m, i, 0), OfImports(m, i + 1), ItemTargets(m.imports[i].items),
        TargetEntries(m.imports[i + 1..]));
    }
  }

  /** The targets, their dependencies and the local extensions. */
  ghost function SpelledOut(m: Manifest): seq<Occurrence> {
    OfImports(m, 0) + Overrides(m)
  }

  function SpelledEntries(m: Manifest): seq<Entry> {
    TargetEntries(m.imports) + Labelled("local extension", m.overrides)
  }

  lemma SpelledOutListed(m: Manifest)
    ensures Parallel(m, SpelledOut(m), SpelledEntries(m)) && Distinct(SpelledOut(m))
    ensures forall o :: o in SpelledOut(m) <==> IsSpelledOut(m, o)
  {
    ImportsListed(m, 0);
    assert m.imports[0..] == m.imports;
    forall o | IsSpelledOut(m, o) && o.Override?
      ensures o in Overrides(m)
    {
      assert Overrides(m)[o.index] == o;
    }
    DistinctSum(OfImports(m, 0), Overrides(m));
    ParallelSum(m, OfImports(m, 0), Overrides(m), TargetEntries(m.imports), Labelled("local extension", m.overrides));
  }

  lemma NamesListed(m: Manifest, p: Path)
    ensures Names(m, p) <==> HasPath(SpelledEntries(m), p)
  {
    SpelledOutListed(m);
    if o :| IsSpelledOut(m, o) && SpelledPath(m, o) == p {
      var k :| 0 <= k < |SpelledOut(m)| && SpelledOut(m)[k] == o;
      assert SpelledEntries(m)[k].path == p;
    }
    if k :| 0 <= k < |SpelledEntries(m)| && SpelledEntries(m)[k].path == p {
      assert SpelledOut(m)[k] in SpelledOut(m);
      assert IsSpelledOut(m, SpelledOut(m)[k]);
    }
  }

  lemma {:induction false} ContentListed(units: seq<Unit>, p: Path)
    ensures p in ContentPaths(units) <==> exists u, i :: 0 <= u < |units| && i in units[u].items && i.path == p
  {
    if units != [] {
      ContentListed(units[1..], p);
      if u, i :| 0 <= u < |units| && i in units[u].items && i.path == p {
        assert u > 0 ==> units[1..][u - 1] == units[u];
      }
      if u, i :| 0 <= u < |units[1..]| && i in units[1..][u].items && i.path == p {
        assert units[u + 1] == units[1..][u];
      }
    }
  }

  lemma DestinationsAre(m: Manifest, p: Path)
    ensures p in DestinationPaths(m) <==> HasContent(m, p) || Names(m, p)
  {
    ContentListed(m.units, p);
    NamesListed(m, p);
    HasPathOfSum(TargetEntries(m.imports), Labelled("local extension", m.overrides), p);
  }

  // ------------------------------------------------------------------ the paths of full imports

  /** Every materialized path comes from the end of a chain of full imports. */
  lemma {:induction false} MaterializedComesFrom(m: Manifest, imported: Manifests, lineage: seq<string>, p: Path)
    returns (chain: seq<string>, q: Path)
    requires p in Materialized(m, imported, lineage)
    ensures ComesFrom(m, imported, lineage, p, chain, q)
    decreases Fresh(imported, lineage), |m.imports| + 1
  {
    DestinationsAre(m, p);
    if p in DestinationPaths(m) {
      chain, q := [], p;
    } else {
      var k;
      k, chain, q := ImportedComesFrom(m, 0, imported, lineage, p);
    }
  }

  lemma {:induction false} ImportedComesFrom(m: Manifest, from: nat, imported: Manifests, lineage: seq<string>, p: Path)
    returns (k: nat, chain: seq<string>, q: Path)
    requires HasPath(FullImports(m, from, imported, lineage), p)
    ensures ComesFrom(m, imported, lineage, p, chain, q) && k < |m.imports|
    ensures chain != [] && EntersAs(m, k, imported, lineage, chain[0])
    decreases Fresh(imported, lineage), |m.imports| - from
  {
    if !Enters(m, from, imported, lineage) {
      k, chain, q := ImportedComesFrom(m, from + 1, imported, lineage, p);
      return;
    }
    var id := m.imports[from].bundle;
    EnteringShrinks(imported, lineage, id);
    var paths := Materialized(imported[id], imported, lineage + [id]);
    HasPathOfSum(Labelled("full import " + id, AllPrefixed(id, paths)), FullImports(m, from + 1, imported, lineage), p);
    if w :| w in paths && p == Prefixed(id, w) {
      var rest;
      rest, q := MaterializedComesFrom(imported[id], imported, lineage + [id], w);
      k, chain := from, [id] + rest;
      assert chain[1..] == rest && EntersAs(m, k, imported, lineage, id);
    } else {
      k, chain, q := ImportedComesFrom(m, from + 1, imported, lineage, p);
    }
  }

  /** And nothing that does is missing. */
  lemma {:induction false} ComesFromIsMaterialized(m: Manifest, imported: Manifests, lineage: seq<string>, p: Path,
      chain: seq<string>, q: Path)
    requires ComesFrom(m, imported, lineage, p, chain, q)
    ensures p in Materialized(m, imported, lineage)
    decreases chain
  {
    if chain == [] {
      DestinationsAre(m, p);
    } else {
      var id, w := chain[0], Under(chain[1..], q);
      ComesFromIsMaterialized(imported[id], imported, lineage + [id], w, chain[1..], q);
      var k :| 0 <= k < |m.imports| && EntersAs(m, k, imported, lineage, id);
      EnteredIsImported(m, 0, k, imported, lineage, w);
    }
  }

  lemma {:induction false} EnteredIsImported(m: Manifest, from: nat, k: nat, imported: Manifests, lineage: seq<string>,
      w: Path)
    requires from <= k < |m.imports| && Enters(m, k, imported, lineage)
    requires
      var id := m.imports[k].bundle;
      w in Materialized(imported[id], imported, lineage + [id])
    ensures HasPath(FullImports(m, from, imported, lineage), Prefixed(m.imports[k].bundle, w))
    decreases k - from
  {
    var id := m.imports[from].bundle;
    if from < k {
      EnteredIsImported(m, from + 1, k, imported, lineage, w);
    }
    if Enters(m, from, imported, lineage) {
      var paths := AllPrefixed(id, Materialized(imported[id], imported, lineage + [id]));
      HasPathOfSum(Labelled("full import " + id, paths), FullImports(m, from + 1, imported, lineage),
        Prefixed(m.imports[k].bundle, w));
    }
  }

  /** The paths of one full import. */
  function PathsBelow(m: Manifest, i: nat, imported: Manifests): (paths: seq<Path>)
    requires i < |m.imports| && Enters(m, i, imported, [m.id])
    ensures forall a, b :: 0 <= a < b < |paths| ==> paths[a] != paths[b]
  {
    var id := m.imports[i].bundle;
    var inner := Materialized(imported[id], imported, [m.id] + [id]);
    assert forall k :: 0 <= k < |inner| ==> AllPrefixed(id, inner)[k][2..] == inner[k];
    AllPrefixed(id, inner)
  }

  lemma PathsBelowAre(m: Manifest, i: nat, imported: Manifests, p: Path)
    requires i < |m.imports| && Enters(m, i, imported, [m.id])
    ensures p in PathsBelow(m, i, imported) <==> Occurs(m, imported, Imported(i, p))
  {
    var id := m.imports[i].bundle;
    var paths := Materialized(imported[id], imported, [m.id] + [id]);
    if p in PathsBelow(m, i, imported) {
      var w :| w in paths && p == Prefixed(id, w);
      var rest, q := MaterializedComesFrom(imported[id], imported, [m.id] + [id], w);
      var chain := [id] + rest;
      assert chain[1..] == rest && EntersAs(m, i, imported, [m.id], id);
      assert ComesFrom(m, imported, [m.id], p, chain, q);
    }
    if chain, q :| chain != [] && chain[0] == id && ComesFrom(m, imported, [m.id], p, chain, q) {
      var w := Under(chain[1..], q);
      ComesFromIsMaterialized(imported[id], imported, [m.id] + [id], w, chain[1..], q);
      assert p == Prefixed(id, w);
    }
  }

  ghost function Below(m: Manifest, i: nat, imported: Manifests): (occurrences: seq<Occurrence>)
    requires i < |m.imports| && Enters(m, i, imported, [m.id])
    ensures |occurrences| == |PathsBelow(m, i, imported)|
    ensures forall k :: 0 <= k < |occurrences| ==> occurrences[k] == Imported(i, PathsBelow(m, i, imported)[k])
  {
    seq(|PathsBelow(m, i, imported)|,
      k requires 0 <= k < |PathsBelow(m, i, imported)| => Imported(i, PathsBelow(m, i, imported)[k]))
  }

  lemma BelowListed(m: Manifest, i: nat, imported: Manifests, o: Occurrence)
    requires i < |m.imports| && Enters(m, i, imported, [m.id])
    ensures o in Below(m, i, imported) <==> o.Imported? && o.import_ == i && Occurs(m, imported, o)
  {
    if o.Imported? && o.import_ == i {
      PathsBelowAre(m, i, imported, o.path);
      if o.path in PathsBelow(m, i, imported) {
        var k :| 0 <= k < |PathsBelow(m, i, imported)| && PathsBelow(m, i, imported)[k] == o.path;
        assert Below(m, i, imported)[k] == o;
      }
    }
  }

  ghost function OfFullImports(m: Manifest, i: nat, imported: Manifests): seq<Occurrence>
    requires i <= |m.imports|
    decreases |m.imports| - i
  {
    if i == |m.imports| then []
    else (if Enters(m, i, imported, [m.id]) then Below(m, i, imported) else []) + OfFullImports(m, i + 1, imported)
  }

  lemma {:induction false} FullImportsListed(m: Manifest, i: nat, imported: Manifests)
    requires i <= |m.imports|
    ensures Parallel(m, OfFullImports(m, i, imported), FullImports(m, i, imported, [m.id]))
    ensures Distinct(OfFullImports(m, i, imported))
    ensures forall o :: o in OfFullImports(m, i, imported) <==> o.Imported? && o.import_ >= i && Occurs(m, imported, o)
    decreases |m.imports| - i
  {
    if i < |m.imports| {
      FullImportsListed(m, i + 1, imported);
      if Enters(m, i, imported, [m.id]) {
        forall o
          ensures o in Below(m, i, imported) <==> o.Imported? && o.import_ == i && Occurs(m, imported, o)
        {
          BelowListed(m, i, imported, o);
        }
        DistinctSum(Below(m, i, imported), OfFullImports(m, i + 1, imported));
        ParallelSum(m, Below(m, i, imported), OfFullImports(m, i + 1, imported),
          Labelled("full import " + m.imports[i].bundle, PathsBelow(m, i, imported)),
          FullImports(m, i + 1, imported, [m.id]));
      } else {
        assert [] + OfFullImports(m, i + 1, imported) == OfFullImports(m, i + 1, imported);
      }
    }
  }

  // ---------------------------------------------------------------------------- the whole check

  /** The content paths that nothing else names, once each. */
  function OwnPaths(m: Manifest): (paths: seq<Path>)
    ensures forall a, b :: 0 <= a < b < |paths| ==> paths[a] != paths[b]
  {
    var referenceable := set p | p in PathsOf(SpelledEntries(m));
    Dedup(NotIn(ContentPaths(m.units), referenceable))
  }

  ghost function OwnContent(m: Manifest): (occurrences: seq<Occurrence>)
    ensures |occurrences| == |OwnPaths(m)|
    ensures forall k :: 0 <= k < |occurrences| ==> occurrences[k] == Content(OwnPaths(m)[k])
  {
    seq(|OwnPaths(m)|, k requires 0 <= k < |OwnPaths(m)| => Content(OwnPaths(m)[k]))
  }

  lemma OwnContentListed(m: Manifest, imported: Manifests, o: Occurrence)
    ensures o in OwnContent(m) <==> o.Content? && Occurs(m, imported, o)
  {
    if o.Content? {
      ContentListed(m.units, o.path);
      NamesListed(m, o.path);
      if o.path in OwnPaths(m) {
        var k :| 0 <= k < |OwnPaths(m)| && OwnPaths(m)[k] == o.path;
        assert OwnContent(m)[k] == o;
      }
    }
  }

  ghost function AllOccurrences(m: Manifest, imported: Manifests): seq<Occurrence> {
    SpelledOut(m) + OfFullImports(m, 0, imported) + OwnContent(m)
  }

  lemma AllListed(m: Manifest, imported: Manifests)
    ensures Parallel(m, AllOccurrences(m, imported), CollisionEntries(m, imported))
    ensures Distinct(AllOccurrences(m, imported))
    ensures forall o :: o in AllOccurrences(m, imported) <==> Occurs(m, imported, o)
  {
    SpelledOutListed(m);
    FullImportsListed(m, 0, imported);
    forall o
      ensures o in OwnContent(m) <==> o.Content? && Occurs(m, imported, o)
    {
      OwnContentListed(m, imported, o);
    }
    var some, full := SpelledOut(m) + OfFullImports(m, 0, imported), FullImports(m, 0, imported, [m.id]);
    ParallelSum(m, SpelledOut(m), OfFullImports(m, 0, imported), SpelledEntries(m), full);
    ParallelSum(m, some, OwnContent(m), SpelledEntries(m) + full, Labelled("local content", OwnPaths(m)));
    DistinctSum(SpelledOut(m), OfFullImports(m, 0, imported));
    DistinctSum(some, OwnContent(m));
  }

  /** The collision check of a manifest reports nothing if and only if no two of its occurrences clash. */
  lemma ApartExactly(m: Manifest, imported: Manifests, fold: string -> string)
    ensures Clashing(CollisionEntries(m, imported), fold, |CollisionEntries(m, imported)|) == []
      <==> AllApart(m, imported, fold)
  {
    var entries, occurrences := CollisionEntries(m, imported), AllOccurrences(m, imported);
    AllListed(m, imported);
    NoClashAtAll(entries, fold);
    if Clashing(entries, fold, |entries|) == [] {
      forall o, q | Occurs(m, imported, o) && Occurs(m, imported, q) && o != q
        ensures OccurrencesApart(m, fold, o, q)
      {
        var a :| 0 <= a < |occurrences| && occurrences[a] == o;
        var b :| 0 <= b < |occurrences| && occurrences[b] == q;
        EntriesApart(entries, fold, a, b);
      }
    }
    if AllApart(m, imported, fold) {
      forall a, b | 0 <= a < b < |entries|
        ensures !EntriesClash(entries, fold, a, b)
      {
        assert occurrences[a] in occurrences && occurrences[b] in occurrences;
        assert OccurrencesApart(m, fold, occurrences[a], occurrences[b]);
      }
    }
  }

  /** What the collision check reports are clashes between occurrences. */
  lemma ReportedIsCollision(m: Manifest, imported: Manifests, fold: string -> string, errors: seq<Collision>, e: nat)
    requires Reports(CollisionEntries(m, imported), fold, |CollisionEntries(m, imported)|, errors) && e < |errors|
    ensures IsCollision(m, imported, fold, errors[e])
  {
    var entries, occurrences := CollisionEntries(m, imported), AllOccurrences(m, imported);
    AllListed(m, imported);
    ClashingExactly(entries, fold, |entries|);
    var i := Clashing(entries, fold, |entries|)[e];
    assert i in Clashing(entries, fold, |entries|);
    var j :| 0 <= j < i && errors[e] == Collision(entries[j], entries[i]) && EntriesClash(entries, fold, j, i);
    assert occurrences[j] in occurrences && occurrences[i] in occurrences;
    assert !OccurrencesApart(m, fold, occurrences[j], occurrences[i]);
  }
}
