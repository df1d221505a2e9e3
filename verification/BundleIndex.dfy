/** Composition of a bundle with its full imports: the paths that are checked for collisions and the
    index that is generated (scripts/course_bundle_validation.py). */
module BundleIndex {

  import opened Options
  import opened PathCollision
  import opened BundleManifests

  // ------------------------------------------------------------------------- paths of a manifest

  function ContentPaths(units: seq<Unit>): seq<Path> {
    if units == [] then [] else ItemPaths(units[0].items) + ContentPaths(units[1..])
  }

  function ItemPaths(items: seq<Item>): (paths: seq<Path>)
    ensures forall p :: p in paths <==> exists i :: i in items && i.path == p
  {
    if items == [] then [] else [items[0].path] + ItemPaths(items[1..])
  }

  function TargetEntries(imports: seq<Import>): seq<Entry> {
    if imports == [] then [] else ItemTargets(imports[0].items) + TargetEntries(imports[1..])
  }

  function ItemTargets(items: seq<ImportItem>): seq<Entry> {
    if items == [] then []
    else [Entry("import target", items[0].target)]
         + Labelled("dependency target", items[0].dependencies)
         + ItemTargets(items[1..])
  }

  predicate HasPath(entries: seq<Entry>, p: Path) {
    exists k :: 0 <= k < |entries| && entries[k].path == p
  }

  lemma HasPathOfSum(a: seq<Entry>, b: seq<Entry>, p: Path)
    ensures HasPath(a + b, p) <==> HasPath(a, p) || HasPath(b, p)
  {
    var all := a + b;
    if k :| 0 <= k < |a| && a[k].path == p {
      assert all[k].path == p;
    } else if k :| 0 <= k < |b| && b[k].path == p {
      assert all[|a| + k].path == p;
    }
  }

  function Labelled(kind: string, paths: seq<Path>): (entries: seq<Entry>)
    ensures |entries| == |paths| && forall k :: 0 <= k < |paths| ==> entries[k] == Entry(kind, paths[k])
    ensures forall p :: p in paths ==> HasPath(entries, p)
  {
    var entries := seq(|paths|, k requires 0 <= k < |paths| => Entry(kind, paths[k]));
    assert forall k :: 0 <= k < |paths| ==> entries[k].path == paths[k];
    entries
  }

  function PathsOf(entries: seq<Entry>): (paths: seq<Path>)
    ensures |paths| == |entries| && forall k :: 0 <= k < |entries| ==> paths[k] == entries[k].path
    ensures forall p :: p in paths <==> HasPath(entries, p)
  {
    var paths := seq(|entries|, k requires 0 <= k < |entries| => entries[k].path);
    assert forall k :: 0 <= k < |entries| ==> paths[k] in paths;
    paths
  }

  /** `_final_destination_paths`, without the locations. */
  function DestinationPaths(m: Manifest): seq<Path> {
    ContentPaths(m.units) + PathsOf(TargetEntries(m.imports)) + m.overrides
  }

  /** The first occurrence of each path. */
  function Dedup(paths: seq<Path>): (unique: seq<Path>)
    ensures forall p :: p in unique <==> p in paths
    ensures forall i, j :: 0 <= i < j < |unique| ==> unique[i] != unique[j]
  {
    if paths == [] then []
    else
      var before, last := Dedup(paths[..|paths| - 1]), paths[|paths| - 1];
      if last in before then before else before + [last]
  }

  function Prefixed(id: string, path: Path): Path {
    [".imports", id] + path
  }

  function AllPrefixed(id: string, paths: seq<Path>): (prefixed: seq<Path>)
    ensures |prefixed| == |paths| && forall k :: 0 <= k < |paths| ==> prefixed[k] == Prefixed(id, paths[k])
    ensures forall p :: p in paths ==> Prefixed(id, p) in prefixed
  {
    var prefixed := seq(|paths|, k requires 0 <= k < |paths| => Prefixed(id, paths[k]));
    assert forall k :: 0 <= k < |paths| ==> prefixed[k] in prefixed;
    prefixed
  }

  // ----------------------------------------------------------------------- materialized content

  /** The guard that both recursions share: a full import whose source is known and not on the way. */
  predicate Enters(m: Manifest, k: nat, imported: Manifests, lineage: seq<string>)
    requires k < |m.imports|
  {
    m.imports[k].all && m.imports[k].bundle in imported && m.imports[k].bundle !in lineage
  }

  function Fresh(imported: Manifests, lineage: seq<string>): set<string> {
    imported.Keys - set id | id in lineage
  }

  lemma EnteringShrinks(imported: Manifests, lineage: seq<string>, id: string)
    requires id in imported && id !in lineage
    ensures Fresh(imported, lineage + [id]) < Fresh(imported, lineage)
  {
    assert id in Fresh(imported, lineage) && id !in Fresh(imported, lineage + [id]);
  }

  /** `_materialized_paths`. */
  function Materialized(m: Manifest, imported: Manifests, lineage: seq<string>): seq<Path>
    decreases Fresh(imported, lineage), |m.imports| + 1
  {
    Dedup(DestinationPaths(m) + PathsOf(FullImports(m, 0, imported, lineage)))
  }

  /** The paths of the full imports of `m` from import `k` on; with the lineage `[m.id]` this is
      `_full_import_entries`. */
  function FullImports(m: Manifest, k: nat, imported: Manifests, lineage: seq<string>): seq<Entry>
    decreases Fresh(imported, lineage), |m.imports| - k
  {
    if k >= |m.imports| then []
    else if Enters(m, k, imported, lineage) then
      var id := m.imports[k].bundle;
      EnteringShrinks(imported, lineage, id);
      Labelled("full import " + id, AllPrefixed(id, Materialized(imported[id], imported, lineage + [id])))
      + FullImports(m, k + 1, imported, lineage)
    else FullImports(m, k + 1, imported, lineage)
  }

  function NotIn(paths: seq<Path>, others: set<Path>): (kept: seq<Path>)
    ensures forall p :: p in kept <==> p in paths && p !in others
  {
    if paths == [] then []
    else if paths[0] in others then NotIn(paths[1..], others) else [paths[0]] + NotIn(paths[1..], others)
  }

  /** The entries that `_collision_errors` compares, in its order. */
  function CollisionEntries(m: Manifest, imported: Manifests): seq<Entry> {
    var targets := TargetEntries(m.imports) + Labelled("local extension", m.overrides);
    var referenceable := set p | p in PathsOf(targets);
    targets + FullImports(m, 0, imported, [m.id])
    + Labelled("local content", Dedup(NotIn(ContentPaths(m.units), referenceable)))
  }

  // ------------------------------------------------------------------------------- the index

  /** A unit moved below a full import: its id prefixed by the bundle id, its items below `.imports`. */
  function Relocated(id: string, u: Unit): Unit {
    u.(id := id + "-" + u.id, items := RelocatedItems(id, u.items))
  }

  function RelocatedItems(id: string, items: seq<Item>): (moved: seq<Item>)
    ensures |moved| == |items| && forall k :: 0 <= k < |items| ==>
      moved[k] == items[k].(path := Prefixed(id, items[k].path))
  {
    seq(|items|, k requires 0 <= k < |items| => items[k].(path := Prefixed(id, items[k].path)))
  }

  function AllRelocated(id: string, units: seq<Unit>): (moved: seq<Unit>)
    ensures |moved| == |units| && forall k :: 0 <= k < |units| ==> moved[k] == Relocated(id, units[k])
  {
    seq(|units|, k requires 0 <= k < |units| => Relocated(id, units[k]))
  }

  predicate TextBefore(a: string, b: string) {
    b != [] && (a == [] || a[0] < b[0] || (a[0] == b[0] && TextBefore(a[1..], b[1..])))
  }

  /** The sort key of local units: their order, then their id. */
  predicate UnitBefore(a: Unit, b: Unit) {
    a.order.Some? && b.order.Some? &&
    (a.order.value < b.order.value || (a.order == b.order && TextBefore(a.id, b.id)))
  }

  /** Insert behind every unit that does not come after `u`, as a stable sort does. */
  function Insert(u: Unit, sorted: seq<Unit>): (units: seq<Unit>)
    ensures multiset(units) == multiset(sorted) + multiset{u}
  {
    if sorted == [] || !UnitBefore(u, sorted[|sorted| - 1]) then sorted + [u]
    else
      assert sorted == sorted[..|sorted| - 1] + [sorted[|sorted| - 1]];
      Insert(u, sorted[..|sorted| - 1]) + [sorted[|sorted| - 1]]
  }

  function SortUnits(units: seq<Unit>): (sorted: seq<Unit>)
    ensures multiset(sorted) == multiset(units)
  {
    if units == [] then []
    else
      assert units == units[..|units| - 1] + [units[|units| - 1]];
      Insert(units[|units| - 1], SortUnits(units[..|units| - 1]))
  }

  /** The units of `m`, each with its declared order or its position. */
  function Numbered(m: Manifest): (units: seq<Unit>)
    ensures |units| == |m.units| && forall k :: 0 <= k < |units| ==> units[k].items == m.units[k].items
    ensures forall k :: 0 <= k < |units| ==> units[k].id == m.units[k].id && units[k].title == m.units[k].title
    ensures forall k :: 0 <= k < |units| && m.units[k].order.Some? ==> units[k].order == m.units[k].order
    ensures forall k :: 0 <= k < |units| && m.units[k].order.None? ==> units[k].order == Some(k + 1)
  {
    seq(|m.units|, k requires 0 <= k < |m.units| =>
      m.units[k].(order := if m.units[k].order.Some? then m.units[k].order else Some(k + 1)))
  }

  /** `compose`. */
  function Compose(m: Manifest, imported: Manifests, lineage: seq<string>): seq<Unit>
    decreases Fresh(imported, lineage), |m.imports| + 1
  {
    ComposeImports(m, 0, imported, lineage) + SortUnits(Numbered(m))
  }

  function ComposeImports(m: Manifest, k: nat, imported: Manifests, lineage: seq<string>): seq<Unit>
    decreases Fresh(imported, lineage), |m.imports| - k
  {
    if k >= |m.imports| then []
    else if Enters(m, k, imported, lineage) then
      var id := m.imports[k].bundle;
      EnteringShrinks(imported, lineage, id);
      AllRelocated(id, Compose(imported[id], imported, lineage + [id])) + ComposeImports(m, k + 1, imported, lineage)
    else ComposeImports(m, k + 1, imported, lineage)
  }

  /** `_generate_index`. */
  function GenerateIndex(root: Manifest, imported: Manifests): seq<Unit> {
    Compose(root, imported, [root.id])
  }

  // --------------------------------------------------- every composed path is a checked path

  ghost predicate Mentions(units: seq<Unit>, p: Path) {
    exists u, i :: u in units && i in u.items && i.path == p
  }

  lemma {:induction false} LocalUnitsMentionContent(m: Manifest, p: Path)
    requires Mentions(SortUnits(Numbered(m)), p)
    ensures p in ContentPaths(m.units)
  {
    var u, i :| u in SortUnits(Numbered(m)) && i in u.items && i.path == p;
    assert u in multiset(SortUnits(Numbered(m)));
    assert u in Numbered(m);
    var k :| 0 <= k < |m.units| && Numbered(m)[k] == u;
    InContent(m.units, k, p);
  }

  lemma {:induction false} InContent(units: seq<Unit>, k: nat, p: Path)
    requires k < |units| && exists i :: i in units[k].items && i.path == p
    ensures p in ContentPaths(units)
  {
    if k > 0 {
      InContent(units[1..], k - 1, p);
    }
  }

  /** Every path that `compose` emits is one that `_materialized_paths` returns. */
  lemma {:induction false} ComposedIsMaterialized(m: Manifest, imported: Manifests, lineage: seq<string>, p: Path)
    requires Mentions(Compose(m, imported, lineage), p)
    ensures p in Materialized(m, imported, lineage)
    decreases Fresh(imported, lineage), |m.imports| + 1
  {
    if Mentions(SortUnits(Numbered(m)), p) {
      LocalUnitsMentionContent(m, p);
    } else {
      assert Mentions(ComposeImports(m, 0, imported, lineage), p);
      ComposedIsImported(m, 0, imported, lineage, p);
    }
  }

  lemma {:induction false} ComposedIsImported(m: Manifest, k: nat, imported: Manifests, lineage: seq<string>, p: Path)
    requires Mentions(ComposeImports(m, k, imported, lineage), p)
    ensures HasPath(FullImports(m, k, imported, lineage), p)
    decreases Fresh(imported, lineage), |m.imports| - k
  {
    if !Enters(m, k, imported, lineage) {
      ComposedIsImported(m, k + 1, imported, lineage, p);
      return;
    }
    var id := m.imports[k].bundle;
    EnteringShrinks(imported, lineage, id);
    var inner := Compose(imported[id], imported, lineage + [id]);
    var paths := Materialized(imported[id], imported, lineage + [id]);
    if Mentions(AllRelocated(id, inner), p) {
      var q := Unrelocated(id, inner, p);
      ComposedIsMaterialized(imported[id], imported, lineage + [id], q);
    } else {
      assert Mentions(ComposeImports(m, k + 1, imported, lineage), p);
      ComposedIsImported(m, k + 1, imported, lineage, p);
    }
    HasPathOfSum(Labelled("full import " + id, AllPrefixed(id, paths)), FullImports(m, k + 1, imported, lineage), p);
  }

  lemma Unrelocated(id: string, units: seq<Unit>, p: Path) returns (q: Path)
    requires Mentions(AllRelocated(id, units), p)
    ensures Mentions(units, q) && p == Prefixed(id, q)
  {
    var u, i :| u in AllRelocated(id, units) && i in u.items && i.path == p;
    var a :| 0 <= a < |units| && Relocated(id, units[a]) == u;
    var b :| 0 <= b < |u.items| && u.items[b] == i;
    q := units[a].items[b].path;
    assert units[a] in units && units[a].items[b] in units[a].items;
  }

  /** Every path of the generated index is among the entries of the collision check of its root. */
  lemma IndexIsChecked(root: Manifest, imported: Manifests, p: Path)
    requires Mentions(GenerateIndex(root, imported), p)
    ensures HasPath(CollisionEntries(root, imported), p)
  {
    var targets := TargetEntries(root.imports) + Labelled("local extension", root.overrides);
    var full := FullImports(root, 0, imported, [root.id]);
    var referenceable := set q | q in PathsOf(targets);
    var local := Dedup(NotIn(ContentPaths(root.units), referenceable));
    HasPathOfSum(targets, full, p);
    HasPathOfSum(targets + full, Labelled("local content", local), p);
    if Mentions(SortUnits(Numbered(root)), p) {
      LocalUnitsMentionContent(root, p);
    } else {
      assert Mentions(ComposeImports(root, 0, imported, [root.id]), p);
      ComposedIsImported(root, 0, imported, [root.id], p);
    }
  }

  /** If the collision check of the root reports nothing, different paths of the index never clash. */
  lemma IndexPathsAreApart(root: Manifest, imported: Manifests, fold: string -> string, p: Path, q: Path)
    requires Clashing(CollisionEntries(root, imported), fold, |CollisionEntries(root, imported)|) == []
    requires Mentions(GenerateIndex(root, imported), p) && Mentions(GenerateIndex(root, imported), q) && p != q
    ensures !Clash(Key(p, fold), Key(q, fold))
  {
    var all := CollisionEntries(root, imported);
    IndexIsChecked(root, imported, p);
    IndexIsChecked(root, imported, q);
    var j :| 0 <= j < |all| && all[j].path == p;
    var k :| 0 <= k < |all| && all[k].path == q;
    EntriesApart(all, fold, j, k);
  }
}
