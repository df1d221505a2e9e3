/** What a generated index contains, and in which order (scripts/course_bundle_validation.py): the
    units of exactly the manifests that chains of full imports reach, moved below their chain. */
module BundleContents {

  import opened Options
  import opened BundleManifests
  import opened BundleIndex

  /** A chain of full imports that starts at `m` and never returns to its lineage. */
  ghost predicate FullPath(m: Manifest, imported: Manifests, lineage: seq<string>, chain: seq<string>)
    decreases chain
  {
    chain != [] ==>
      && chain[0] in imported && (exists k :: 0 <= k < |m.imports| && EntersAs(m, k, imported, lineage, chain[0]))
      && FullPath(imported[chain[0]], imported, lineage + [chain[0]], chain[1..])
  }

  predicate EntersAs(m: Manifest, k: nat, imported: Manifests, lineage: seq<string>, id: string)
    requires k < |m.imports|
  {
    m.imports[k].bundle == id && Enters(m, k, imported, lineage)
  }

  /** The manifest at the end of a chain. */
  function EndOf(m: Manifest, imported: Manifests, chain: seq<string>): Manifest
    decreases chain
  {
    if chain == [] || chain[0] !in imported then m else EndOf(imported[chain[0]], imported, chain[1..])
  }

  function RelocatedAlong(chain: seq<string>, u: Unit): Unit {
    if chain == [] then u else Relocated(chain[0], RelocatedAlong(chain[1..], u))
  }

  /** Unit `u` is unit `v` of the manifest at the end of `chain`, moved below the chain. */
  ghost predicate Origin(m: Manifest, imported: Manifests, lineage: seq<string>, u: Unit, chain: seq<string>, v: Unit) {
    && FullPath(m, imported, lineage, chain)
    && v in Numbered(EndOf(m, imported, chain)) && u == RelocatedAlong(chain, v)
  }

  lemma SortingKeepsUnits(units: seq<Unit>)
    ensures forall u :: u in SortUnits(units) <==> u in units
  {
    forall u
      ensures u in SortUnits(units) <==> u in units
    {
      assert u in multiset(SortUnits(units)) <==> u in multiset(units);
    }
  }

  lemma {:induction false} ComposedHasOrigin(m: Manifest, imported: Manifests, lineage: seq<string>, u: Unit)
    returns (chain: seq<string>, v: Unit)
    requires u in Compose(m, imported, lineage)
    ensures Origin(m, imported, lineage, u, chain, v)
    decreases Fresh(imported, lineage), |m.imports| + 1
  {
    SortingKeepsUnits(Numbered(m));
    if u in SortUnits(Numbered(m)) {
      chain, v := [], u;
    } else {
      chain, v := ImportedHasOrigin(m, 0, imported, lineage, u);
    }
  }

  lemma {:induction false} ImportedHasOrigin(m: Manifest, k: nat, imported: Manifests, lineage: seq<string>, u: Unit)
    returns (chain: seq<string>, v: Unit)
    requires u in ComposeImports(m, k, imported, lineage)
    ensures Origin(m, imported, lineage, u, chain, v)
    decreases Fresh(imported, lineage), |m.imports| - k
  {
    if !Enters(m, k, imported, lineage) {
      chain, v := ImportedHasOrigin(m, k + 1, imported, lineage, u);
      return;
    }
    var id := m.imports[k].bundle;
    EnteringShrinks(imported, lineage, id);
    var inner := Compose(imported[id], imported, lineage + [id]);
    if u in AllRelocated(id, inner) {
      var a :| 0 <= a < |inner| && Relocated(id, inner[a]) == u;
      var rest;
      rest, v := ComposedHasOrigin(imported[id], imported, lineage + [id], inner[a]);
      chain := [id] + rest;
      assert chain[1..] == rest && EntersAs(m, k, imported, lineage, id);
    } else {
      chain, v := ImportedHasOrigin(m, k + 1, imported, lineage, u);
    }
  }

  lemma {:induction false} OriginIsComposed(m: Manifest, imported: Manifests, lineage: seq<string>, chain: seq<string>,
      v: Unit)
    requires FullPath(m, imported, lineage, chain) && v in Numbered(EndOf(m, imported, chain))
    ensures RelocatedAlong(chain, v) in Compose(m, imported, lineage)
    decreases chain
  {
    if chain == [] {
      SortingKeepsUnits(Numbered(m));
    } else {
      var id, w := chain[0], RelocatedAlong(chain[1..], v);
      OriginIsComposed(imported[id], imported, lineage + [id], chain[1..], v);
      var k :| 0 <= k < |m.imports| && EntersAs(m, k, imported, lineage, id);
      EnteredIsComposed(m, 0, k, imported, lineage, w);
    }
  }

  lemma {:induction false} EnteredIsComposed(m: Manifest, from: nat, k: nat, imported: Manifests, lineage: seq<string>,
      w: Unit)
    requires from <= k < |m.imports| && Enters(m, k, imported, lineage)
    requires
      var id := m.imports[k].bundle;
      w in Compose(imported[id], imported, lineage + [id])
    ensures Relocated(m.imports[k].bundle, w) in ComposeImports(m, from, imported, lineage)
    decreases k - from
  {
    if from < k {
      EnteredIsComposed(m, from + 1, k, imported, lineage, w);
    } else {
      var id := m.imports[k].bundle;
      var inner := Compose(imported[id], imported, lineage + [id]);
      var a :| 0 <= a < |inner| && inner[a] == w;
      assert AllRelocated(id, inner)[a] == Relocated(id, w);
    }
  }

  /** The index holds a unit if and only if some chain of full imports ends at a manifest that has it,
      under an id and item paths that spell out the chain. */
  lemma IndexExactly(root: Manifest, imported: Manifests, u: Unit)
    ensures u in GenerateIndex(root, imported) <==> exists chain, v :: Origin(root, imported, [root.id], u, chain, v)
  {
    if u in GenerateIndex(root, imported) {
      var chain, v := ComposedHasOrigin(root, imported, [root.id], u);
    }
    if chain, v :| Origin(root, imported, [root.id], u, chain, v) {
      OriginIsComposed(root, imported, [root.id], chain, v);
    }
  }

  // -------------------------------------------------------------------------------- every place

  /** A place in a composed index: the positions of the full imports that lead to a manifest, and the
      position of a unit among its sorted ones. */
  datatype Place = Place(chain: seq<nat>, unit: nat)

  predicate IsPlace(m: Manifest, imported: Manifests, lineage: seq<string>, p: Place)
    decreases |p.chain|
  {
    if p.chain == [] then p.unit < |m.units|
    else
      && p.chain[0] < |m.imports| && Enters(m, p.chain[0], imported, lineage)
      && var id := m.imports[p.chain[0]].bundle;
         IsPlace(imported[id], imported, lineage + [id], Place(p.chain[1..], p.unit))
  }

  /** The unit at a place, moved below the imports that lead there. */
  function UnitAt(m: Manifest, imported: Manifests, lineage: seq<string>, p: Place): Unit
    requires IsPlace(m, imported, lineage, p)
    decreases |p.chain|
  {
    if p.chain == [] then
      SortingKeepsLength(Numbered(m));
      SortUnits(Numbered(m))[p.unit]
    else
      var id := m.imports[p.chain[0]].bundle;
      Relocated(id, UnitAt(imported[id], imported, lineage + [id], Place(p.chain[1..], p.unit)))
  }

  lemma SortingKeepsLength(units: seq<Unit>)
    ensures |SortUnits(units)| == |units|
  {
    assert |multiset(SortUnits(units))| == |SortUnits(units)| && |multiset(units)| == |units|;
  }

  /** Import by import, each with everything below it, and then the local units. */
  predicate Before(p: Place, q: Place)
    decreases |p.chain|
  {
    if p.chain == [] then q.chain == [] && p.unit < q.unit
    else if q.chain == [] || p.chain[0] != q.chain[0] then q.chain == [] || p.chain[0] < q.chain[0]
    else Before(Place(p.chain[1..], p.unit), Place(q.chain[1..], q.unit))
  }

  ghost predicate Rising(places: seq<Place>) {
    forall i, j :: 0 <= i < j < |places| ==> Before(places[i], places[j])
  }

  /** The units are those at the places, one by one. */
  ghost predicate LaidOut(m: Manifest, imported: Manifests, lineage: seq<string>, places: seq<Place>,
      units: seq<Unit>) {
    && |places| == |units|
    && forall k :: 0 <= k < |units| ==>
      IsPlace(m, imported, lineage, places[k]) && units[k] == UnitAt(m, imported, lineage, places[k])
  }

  ghost function Locals(m: Manifest): (places: seq<Place>)
    ensures |places| == |m.units| && forall k :: 0 <= k < |places| ==> places[k] == Place([], k)
  {
    seq(|m.units|, k requires 0 <= k => Place([], k))
  }

  ghost function Below(k: nat, inner: seq<Place>): (places: seq<Place>)
    ensures |places| == |inner|
    ensures forall i :: 0 <= i < |inner| ==> places[i] == Place([k] + inner[i].chain, inner[i].unit)
  {
    seq(|inner|, i requires 0 <= i < |inner| => Place([k] + inner[i].chain, inner[i].unit))
  }

  ghost function Places(m: Manifest, imported: Manifests, lineage: seq<string>): seq<Place>
    decreases Fresh(imported, lineage), |m.imports| + 1
  {
    PlacesFrom(m, 0, imported, lineage) + Locals(m)
  }

  ghost function PlacesFrom(m: Manifest, k: nat, imported: Manifests, lineage: seq<string>): seq<Place>
    decreases Fresh(imported, lineage), |m.imports| - k
  {
    if k >= |m.imports| then []
    else if Enters(m, k, imported, lineage) then
      var id := m.imports[k].bundle;
      EnteringShrinks(imported, lineage, id);
      Below(k, Places(imported[id], imported, lineage + [id])) + PlacesFrom(m, k + 1, imported, lineage)
    else PlacesFrom(m, k + 1, imported, lineage)
  }

  lemma RisingSum(a: seq<Place>, b: seq<Place>)
    requires Rising(a) && Rising(b) && forall p, q :: p in a && q in b ==> Before(p, q)
    ensures Rising(a + b)
  {
    assert forall i :: 0 <= i < |a| ==> a[i] in a;
    assert forall i :: 0 <= i < |b| ==> b[i] in b;
  }

  lemma LaidOutSum(m: Manifest, imported: Manifests, lineage: seq<string>, a: seq<Place>, b: seq<Place>,
      units: seq<Unit>,
      more: seq<Unit>)
    requires LaidOut(m, imported, lineage, a, units) && LaidOut(m, imported, lineage, b, more)
    ensures LaidOut(m, imported, lineage, a + b, units + more)
  {
  }

  lemma LocalsPlaced(m: Manifest, imported: Manifests, lineage: seq<string>)
    ensures LaidOut(m, imported, lineage, Locals(m), SortUnits(Numbered(m))) && Rising(Locals(m))
    ensures forall p :: p in Locals(m) <==> IsPlace(m, imported, lineage, p) && p.chain == []
  {
    SortingKeepsLength(Numbered(m));
    forall p | IsPlace(m, imported, lineage, p) && p.chain == []
      ensures p in Locals(m)
    {
      assert Locals(m)[p.unit] == p;
    }
  }

  lemma {:induction false} AllPlaced(m: Manifest, imported: Manifests, lineage: seq<string>)
    ensures LaidOut(m, imported, lineage, Places(m, imported, lineage), Compose(m, imported, lineage))
    ensures Rising(Places(m, imported, lineage))
    ensures forall p :: p in Places(m, imported, lineage) <==> IsPlace(m, imported, lineage, p)
    decreases Fresh(imported, lineage), |m.imports| + 1
  {
    var below := PlacesFrom(m, 0, imported, lineage);
    AllPlacedFrom(m, 0, imported, lineage);
    LocalsPlaced(m, imported, lineage);
    LaidOutSum(m, imported, lineage, below, Locals(m), ComposeImports(m, 0, imported, lineage), SortUnits(Numbered(m)));
    RisingSum(below, Locals(m));
  }

  lemma {:induction false} AllPlacedFrom(m: Manifest, k: nat, imported: Manifests, lineage: seq<string>)
    ensures LaidOut(m, imported, lineage, PlacesFrom(m, k, imported, lineage), ComposeImports(m, k, imported, lineage))
    ensures Rising(PlacesFrom(m, k, imported, lineage))
    ensures forall p :: p in PlacesFrom(m, k, imported, lineage) <==>
      IsPlace(m, imported, lineage, p) && p.chain != [] && p.chain[0] >= k
    decreases Fresh(imported, lineage), |m.imports| - k
  {
    if k < |m.imports| {
      AllPlacedFrom(m, k + 1, imported, lineage);
      if Enters(m, k, imported, lineage) {
        var id := m.imports[k].bundle;
        EnteringShrinks(imported, lineage, id);
        var inner, units := Places(imported[id], imported, lineage + [id]),
          Compose(imported[id], imported, lineage + [id]);
        AllPlaced(imported[id], imported, lineage + [id]);
        BelowLaidOut(m, k, imported, lineage, inner, units);
        BelowRising(k, inner);
        BelowComplete(m, k, imported, lineage, inner);
        LaidOutSum(m, imported, lineage, Below(k, inner), PlacesFrom(m, k + 1, imported, lineage),
          AllRelocated(id, units), ComposeImports(m, k + 1, imported, lineage));
        RisingSum(Below(k, inner), PlacesFrom(m, k + 1, imported, lineage));
      }
    }
  }

  lemma BelowTail(k: nat, inner: seq<Place>, i: nat)
    requires i < |inner|
    ensures Below(k, inner)[i].chain != [] && Below(k, inner)[i].chain[0] == k
    ensures Place(Below(k, inner)[i].chain[1..], Below(k, inner)[i].unit) == inner[i]
  {
    assert ([k] + inner[i].chain)[1..] == inner[i].chain;
  }

  lemma BelowLaidOut(m: Manifest, k: nat, imported: Manifests, lineage: seq<string>, inner: seq<Place>,
      units: seq<Unit>)
    requires k < |m.imports| && Enters(m, k, imported, lineage)
    requires
      var id := m.imports[k].bundle;
      LaidOut(imported[id], imported, lineage + [id], inner, units)
    ensures LaidOut(m, imported, lineage, Below(k, inner), AllRelocated(m.imports[k].bundle, units))
  {
    var id := m.imports[k].bundle;
    forall i | 0 <= i < |units|
      ensures IsPlace(m, imported, lineage, Below(k, inner)[i])
      ensures Relocated(id, units[i]) == UnitAt(m, imported, lineage, Below(k, inner)[i])
    {
      BelowTail(k, inner, i);
    }
  }

  lemma BelowRising(k: nat, inner: seq<Place>)
    requires Rising(inner)
    ensures Rising(Below(k, inner))
  {
    forall i, j | 0 <= i < j < |inner|
      ensures Before(Below(k, inner)[i], Below(k, inner)[j])
    {
      BelowTail(k, inner, i);
      BelowTail(k, inner, j);
    }
  }

  lemma BelowComplete(m: Manifest, k: nat, imported: Manifests, lineage: seq<string>, inner: seq<Place>)
    requires k < |m.imports| && Enters(m, k, imported, lineage)
    requires
      var id := m.imports[k].bundle;
      forall p :: p in inner <==> IsPlace(imported[id], imported, lineage + [id], p)
    ensures forall p :: p in Below(k, inner) <==>
      IsPlace(m, imported, lineage, p) && p.chain != [] && p.chain[0] == k
  {
    forall p | p in Below(k, inner)
      ensures IsPlace(m, imported, lineage, p) && p.chain != [] && p.chain[0] == k
    {
      var i :| 0 <= i < |inner| && Below(k, inner)[i] == p;
      BelowTail(k, inner, i);
      assert inner[i] in inner;
    }
    forall p | IsPlace(m, imported, lineage, p) && p.chain != [] && p.chain[0] == k
      ensures p in Below(k, inner)
    {
      var tail := Place(p.chain[1..], p.unit);
      assert tail in inner;
      var i :| 0 <= i < |inner| && inner[i] == tail;
      assert [k] + p.chain[1..] == p.chain;
      assert Below(k, inner)[i] == p;
    }
  }

  /** The index has the unit of every place once, import by import with everything below it, and then the
      local units. */
  lemma IndexInOrder(root: Manifest, imported: Manifests) returns (places: seq<Place>)
    ensures LaidOut(root, imported, [root.id], places, GenerateIndex(root, imported)) && Rising(places)
    ensures forall p :: p in places <==> IsPlace(root, imported, [root.id], p)
  {
    AllPlaced(root, imported, [root.id]);
    places := Places(root, imported, [root.id]);
  }

  // ------------------------------------------------------------------------------------- order

  lemma {:induction false} TextIsOrdered(a: string, b: string, c: string)
    ensures !TextBefore(a, a)
    ensures TextBefore(a, b) || a == b || TextBefore(b, a)
    ensures TextBefore(a, b) && TextBefore(b, c) ==> TextBefore(a, c)
  {
    if a != [] {
      TextIsOrdered(a[1..], if b == [] then [] else b[1..], if c == [] then [] else c[1..]);
    }
    if a != [] && b != [] && a[0] == b[0] && a[1..] == b[1..] {
      assert a == [a[0]] + a[1..] && b == [b[0]] + b[1..];
    }
  }

  /** All units have an order, and none comes before an earlier one. */
  ghost predicate Ordered(units: seq<Unit>) {
    && (forall i :: 0 <= i < |units| ==> units[i].order.Some?)
    && forall i, j :: 0 <= i < j < |units| ==> !UnitBefore(units[j], units[i])
  }

  lemma NotBefore(a: Unit, b: Unit, c: Unit)
    requires a.order.Some? && b.order.Some? && c.order.Some?
    requires !UnitBefore(b, a) && !UnitBefore(c, b)
    ensures !UnitBefore(c, a)
  {
    TextIsOrdered(c.id, a.id, b.id);
    TextIsOrdered(a.id, b.id, c.id);
    TextIsOrdered(b.id, c.id, a.id);
  }

  lemma BeforeIsOneWay(a: Unit, b: Unit)
    requires UnitBefore(a, b)
    ensures !UnitBefore(b, a)
  {
    TextIsOrdered(a.id, b.id, a.id);
  }

  lemma OrderedPrefix(units: seq<Unit>, n: nat)
    requires Ordered(units) && n <= |units|
    ensures Ordered(units[..n])
  {
  }

  lemma AddedLast(units: seq<Unit>, u: Unit)
    requires Ordered(units) && u.order.Some?
    requires forall i :: 0 <= i < |units| ==> !UnitBefore(u, units[i])
    ensures Ordered(units + [u])
  {
  }

  lemma {:induction false} InsertKeepsOrder(u: Unit, sorted: seq<Unit>)
    requires Ordered(sorted) && u.order.Some?
    ensures Ordered(Insert(u, sorted))
  {
    if sorted != [] {
      var n := |sorted| - 1;
      var before, last := sorted[..n], sorted[n];
      if UnitBefore(u, last) {
        OrderedPrefix(sorted, n);
        InsertKeepsOrder(u, before);
        BeforeIsOneWay(u, last);
        var all := Insert(u, before);
        forall i | 0 <= i < |all|
          ensures !UnitBefore(last, all[i])
        {
          assert all[i] in multiset(all);
          assert all[i] == u || all[i] in before;
        }
        AddedLast(all, last);
      } else {
        forall i | 0 <= i < |sorted|
          ensures !UnitBefore(u, sorted[i])
        {
          if i < n {
            NotBefore(sorted[i], last, u);
          }
        }
        AddedLast(sorted, u);
      }
    }
  }

  /** The local units of a manifest come by their order, then by their id. */
  lemma {:induction false} UnitsAreSorted(units: seq<Unit>)
    requires forall k :: 0 <= k < |units| ==> units[k].order.Some?
    ensures Ordered(SortUnits(units))
  {
    if units != [] {
      var n := |units| - 1;
      UnitsAreSorted(units[..n]);
      InsertKeepsOrder(units[n], SortUnits(units[..n]));
    }
  }

  /** A unit that does not come before the last one is inserted at the end. */
  lemma InsertedLast(units: seq<Unit>, n: nat)
    requires Ordered(units) && n < |units|
    ensures Insert(units[n], units[..n]) == units[..n] + [units[n]]
  {
    if n > 0 {
      assert units[..n][n - 1] == units[n - 1];
    }
  }

  /** Units that are in order already stay where they are. */
  lemma {:induction false} SortedStays(units: seq<Unit>)
    requires Ordered(units)
    ensures SortUnits(units) == units
  {
    if units != [] {
      var n := |units| - 1;
      OrderedPrefix(units, n);
      SortedStays(units[..n]);
      InsertedLast(units, n);
      assert units[..n] + [units[n]] == units;
    }
  }

  /** A manifest that gives its units no order has them in the index in the order in which it lists them. */
  lemma ListedOrderIsKept(m: Manifest)
    requires forall k :: 0 <= k < |m.units| ==> m.units[k].order.None?
    ensures SortUnits(Numbered(m)) == Numbered(m)
  {
    SortedStays(Numbered(m));
  }

  /** The local units end every index: the same units, in order, behind those of the imports. */
  lemma LocalUnitsComeLast(root: Manifest, imported: Manifests)
    ensures
      var index, local := GenerateIndex(root, imported), SortUnits(Numbered(root));
      && |local| <= |index| && index[|index| - |local|..] == local
      && Ordered(local) && multiset(local) == multiset(Numbered(root))
  {
    UnitsAreSorted(Numbered(root));
  }
}
