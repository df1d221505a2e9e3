/** Placing requested headings into a course plan (scripts/course_board_server.py): which requests are
    hydrated, how the hydrated subtrees lie to each other, and what the statistics count. */
module CoursePlan {

  import opened Options
  import opened HeadingForest
  import opened HeadingCatalog

  // --------------------------------------------------------------------------------- board items

  /** `collect_item_ids`. */
  function ItemIds(t: Tree): set<Id> {
    {t.heading.id} + AllIds(t.children)
  }

  function AllIds(trees: seq<Tree>): set<Id> {
    if trees == [] then {} else ItemIds(trees[0]) + AllIds(trees[1..])
  }

  /** `count_item_tree`. */
  function ItemCount(t: Tree): nat {
    1 + AllCounts(t.children)
  }

  function AllCounts(trees: seq<Tree>): nat {
    if trees == [] then 0 else ItemCount(trees[0]) + AllCounts(trees[1..])
  }

  function IdsIn(headings: seq<Heading>): set<Id> {
    set heading | heading in headings :: heading.id
  }

  lemma IdsInConcat(a: seq<Heading>, b: seq<Heading>)
    ensures IdsIn(a + b) == IdsIn(a) + IdsIn(b)
  {
  }

  /** Both recursions agree with the flattened list. */
  lemma {:induction false} CollectedIsFlattened(trees: seq<Tree>)
    ensures AllIds(trees) == IdsIn(Flatten(trees)) && AllCounts(trees) == |Flatten(trees)|
  {
    if trees != [] {
      var t, rest := trees[0], trees[1..];
      CollectedIsFlattened(t.children);
      CollectedIsFlattened(rest);
      IdsInConcat([t.heading] + Flatten(t.children), Flatten(rest));
      IdsInConcat([t.heading], Flatten(t.children));
      assert IdsIn([t.heading]) == {t.heading.id};
    }
  }

  /** The ids of heading `i` and of everything below it. */
  ghost function RunIds(h: seq<Heading>, i: nat): set<Id>
    requires i < |h|
  {
    IdsIn(h[i..End(h, i)])
  }

  /** A hydrated item carries the ids of its run of headings, and counts them. */
  lemma ItemIsItsRun(h: seq<Heading>, i: nat)
    requires i < |h|
    ensures ItemIds(Subtree(h, i)) == RunIds(h, i)
    ensures ItemCount(Subtree(h, i)) == End(h, i) - i
  {
    var t := Subtree(h, i);
    CollectedIsFlattened([t]);
    FlattenSubtree(h, i);
    assert [t][1..] == [];
    assert AllIds([t]) == ItemIds(t) + AllIds([]) && AllCounts([t]) == ItemCount(t) + AllCounts([]);
  }

  // ------------------------------------------------------------------------------------ placing

  /** Some hydrated subtree carries this id. */
  ghost predicate Covers(h: seq<Heading>, roots: seq<nat>, id: Id) {
    exists m :: 0 <= m < |roots| && RootHas(h, roots, m, id)
  }

  ghost predicate RootHas(h: seq<Heading>, roots: seq<nat>, m: nat, id: Id)
    requires m < |roots|
  {
    roots[m] < |h| && id in RunIds(h, roots[m])
  }

  /** What the hydrated `roots` are for the requests `asked`, `from[k]` being the request that root `k`
      answers: a request is hydrated exactly when its id names a heading and no subtree hydrated for an
      earlier request carries it. */
  ghost predicate Placement(h: seq<Heading>, asked: seq<Id>, roots: seq<nat>, from: seq<nat>) {
    && |from| == |roots|
    && (forall k :: 0 <= k < |roots| ==> Answers(h, asked, roots, from, k))
    && (forall k, m :: 0 <= k < m < |from| ==> from[k] < from[m])
    && forall q :: 0 <= q < |asked| ==> q in from || Skipped(h, asked, roots, from, q)
  }

  ghost predicate Answers(h: seq<Heading>, asked: seq<Id>, roots: seq<nat>, from: seq<nat>, k: nat)
    requires k < |roots| == |from|
  {
    && from[k] < |asked| && IndexOf(h, asked[from[k]], 0) == Some(roots[k])
    && !Covers(h, roots[..k], asked[from[k]])
  }

  ghost predicate Skipped(h: seq<Heading>, asked: seq<Id>, roots: seq<nat>, from: seq<nat>, q: nat)
    requires q < |asked| && |roots| == |from|
  {
    || IndexOf(h, asked[q], 0) == None
    || exists m :: 0 <= m < |roots| && from[m] < q && RootHas(h, roots, m, asked[q])
  }

  lemma KeepAnswers(h: seq<Heading>, asked: seq<Id>, roots: seq<nat>, from: seq<nat>, id: Id, root: seq<nat>,
      at: seq<nat>, k: nat)
    requires k < |roots| == |from| && |root| == |at| && Answers(h, asked, roots, from, k)
    ensures Answers(h, asked + [id], roots + root, from + at, k)
  {
    assert (roots + root)[..k] == roots[..k];
    assert (asked + [id])[from[k]] == asked[from[k]];
  }

  lemma KeepSkipped(h: seq<Heading>, asked: seq<Id>, roots: seq<nat>, from: seq<nat>, id: Id, root: seq<nat>,
      at: seq<nat>, q: nat)
    requires q < |asked| && |roots| == |from| && |root| == |at| && Skipped(h, asked, roots, from, q)
    ensures Skipped(h, asked + [id], roots + root, from + at, q)
  {
    if IndexOf(h, asked[q], 0) != None {
      var m :| 0 <= m < |roots| && from[m] < q && RootHas(h, roots, m, asked[q]);
      assert RootHas(h, roots + root, m, (asked + [id])[q]);
    }
  }

  /** One more request that is skipped. */
  lemma SkipOne(h: seq<Heading>, asked: seq<Id>, roots: seq<nat>, from: seq<nat>, id: Id)
    requires Placement(h, asked, roots, from)
    requires IndexOf(h, id, 0) == None || Covers(h, roots, id)
    ensures Placement(h, asked + [id], roots, from)
  {
    assert roots + [] == roots && from + [] == from;
    forall k | 0 <= k < |roots|
      ensures Answers(h, asked + [id], roots, from, k)
    {
      KeepAnswers(h, asked, roots, from, id, [], [], k);
    }
    forall q | 0 <= q < |asked + [id]|
      ensures q in from || Skipped(h, asked + [id], roots, from, q)
    {
      if q == |asked| {
        LastSkipped(h, asked, roots, from, id);
      } else if q !in from {
        KeepSkipped(h, asked, roots, from, id, [], [], q);
      }
    }
  }

  /** One more request that is hydrated. */
  lemma HydrateOne(h: seq<Heading>, asked: seq<Id>, roots: seq<nat>, from: seq<nat>, id: Id, root: nat)
    requires Placement(h, asked, roots, from)
    requires IndexOf(h, id, 0) == Some(root) && !Covers(h, roots, id)
    ensures Placement(h, asked + [id], roots + [root], from + [|asked|])
  {
    var asked', roots', from' := asked + [id], roots + [root], from + [|asked|];
    forall k | 0 <= k < |roots'|
      ensures Answers(h, asked', roots', from', k)
    {
      if k < |roots| {
        KeepAnswers(h, asked, roots, from, id, [root], [|asked|], k);
      } else {
        assert roots'[..k] == roots;
      }
    }
    forall k | 0 <= k < |from|
      ensures from[k] < |asked|
    {
      assert Answers(h, asked, roots, from, k);
    }
    forall q | 0 <= q < |asked'|
      ensures q in from' || Skipped(h, asked', roots', from', q)
    {
      if q == |asked| {
        assert from'[|from|] == q;
      } else if q !in from {
        KeepSkipped(h, asked, roots, from, id, [root], [|asked|], q);
      }
    }
  }

  lemma LastSkipped(h: seq<Heading>, asked: seq<Id>, roots: seq<nat>, from: seq<nat>, id: Id)
    requires Placement(h, asked, roots, from)
    requires IndexOf(h, id, 0) == None || Covers(h, roots, id)
    ensures Skipped(h, asked + [id], roots, from, |asked|)
  {
    if IndexOf(h, id, 0) != None {
      var m :| 0 <= m < |roots| && RootHas(h, roots, m, id);
      assert Answers(h, asked, roots, from, m);
    }
  }

  lemma CoversMore(h: seq<Heading>, roots: seq<nat>, root: nat, id: Id)
    requires root < |h|
    ensures Covers(h, roots + [root], id) <==> Covers(h, roots, id) || id in RunIds(h, root)
  {
    var more := roots + [root];
    if Covers(h, roots, id) {
      var m :| 0 <= m < |roots| && RootHas(h, roots, m, id);
      assert RootHas(h, more, m, id);
    }
    if id in RunIds(h, root) {
      assert RootHas(h, more, |roots|, id);
    }
    if Covers(h, more, id) {
      var m :| 0 <= m < |more| && RootHas(h, more, m, id);
      if m < |roots| {
        assert RootHas(h, roots, m, id);
      }
    }
  }

  /** `used` holds the ids of the hydrated subtrees. */
  ghost predicate UsedIs(h: seq<Heading>, roots: seq<nat>, used: set<Id>) {
    forall id :: id in used <==> Covers(h, roots, id)
  }

  /** One turn of the inner loop of `normalize_course_plan`. */
  method PlaceOne(h: seq<Heading>, id: Id, used: set<Id>, ghost asked: seq<Id>, ghost roots: seq<nat>,
      ghost from: seq<nat>)
    returns (root: seq<nat>, used': set<Id>, ghost from': seq<nat>)
    requires Placement(h, asked, roots, from) && UsedIs(h, roots, used)
    ensures |root| <= 1 && UsedIs(h, roots + root, used')
    ensures Placement(h, asked + [id], roots + root, from')
    ensures from' == from + if root == [] then [] else [|asked|]
  {
    root, used', from' := [], used, from;
    var index := IndexOf(h, id, 0);
    if index.Some? && id !in used {
      var item := Subtree(h, index.value);
      ItemIsItsRun(h, index.value);
      HydrateOne(h, asked, roots, from, id, index.value);
      root, used', from' := [index.value], used + ItemIds(item), from + [|asked|];
      forall x
        ensures x in used' <==> Covers(h, roots + root, x)
      {
        CoversMore(h, roots, index.value, x);
      }
    } else {
      assert roots + root == roots && from + [] == from;
      SkipOne(h, asked, roots, from, id);
    }
  }

  /** The inner loop: the items of one teaching unit. */
  method PlaceUnit(h: seq<Heading>, items: seq<Id>, used: set<Id>, ghost asked: seq<Id>, ghost roots: seq<nat>,
      ghost from: seq<nat>)
    returns (placed: seq<nat>, used': set<Id>, ghost from': seq<nat>)
    requires Placement(h, asked, roots, from) && UsedIs(h, roots, used)
    ensures UsedIs(h, roots + placed, used')
    ensures Placement(h, asked + items, roots + placed, from')
    ensures Continues(from, from', |asked|, |asked| + |items|)
  {
    placed, used', from' := [], used, from;
    assert roots + placed == roots && asked + items[..0] == asked;
    for k := 0 to |items|
      invariant UsedIs(h, roots + placed, used')
      invariant Placement(h, asked + items[..k], roots + placed, from')
      invariant Continues(from, from', |asked|, |asked| + k)
    {
      var root;
      root, used', from' := PlaceOne(h, items[k], used', asked + items[..k], roots + placed, from');
      assert roots + placed + root == roots + (placed + root);
      assert asked + items[..k] + [items[k]] == asked + items[..k + 1];
      placed := placed + root;
    }
    assert items[..|items|] == items;
  }

  /** `after` goes on from `before` with positions from `lo` up to `hi`. */
  ghost predicate Continues(before: seq<nat>, after: seq<nat>, lo: nat, hi: nat) {
    before <= after && forall k :: |before| <= k < |after| ==> lo <= after[k] < hi
  }

  function Joined<T>(lists: seq<seq<T>>): seq<T> {
    if lists == [] then [] else Joined(lists[..|lists| - 1]) + lists[|lists| - 1]
  }

  /** Where list `u` begins in the joined lists. */
  function StartOf<T>(lists: seq<seq<T>>, u: nat): nat
    requires u <= |lists|
  {
    |Joined(lists[..u])|
  }

  lemma {:induction false} JoinedAt<T>(lists: seq<seq<T>>, u: nat, k: nat)
    requires u < |lists| && k < |lists[u]|
    ensures StartOf(lists, u) + |lists[u]| == StartOf(lists, u + 1) <= |Joined(lists)|
    ensures Joined(lists)[StartOf(lists, u) + k] == lists[u][k]
  {
    var n := |lists| - 1;
    if u < n {
      JoinedAt(lists[..n], u, k);
      assert lists[..n][..u] == lists[..u] && lists[..n][..u + 1] == lists[..u + 1];
    } else {
      assert lists[..u + 1] == lists;
    }
    assert lists[..u + 1][..u] == lists[..u];
  }

  /** The items hydrated in unit `u` answer requests of that unit. */
  ghost predicate InItsUnit(units: seq<seq<Id>>, plan: seq<seq<nat>>, from: seq<nat>, u: nat)
    requires u < |plan| <= |units|
  {
    && StartOf(plan, u) + |plan[u]| <= |from|
    && forall k :: StartOf(plan, u) <= k < StartOf(plan, u) + |plan[u]| ==>
      StartOf(units, u) <= from[k] < StartOf(units, u) + |units[u]|
  }

  lemma StaysInItsUnit(units: seq<seq<Id>>, plan: seq<seq<nat>>, placed: seq<nat>, from: seq<nat>, from': seq<nat>,
      u: nat)
    requires u < |plan| < |units| && InItsUnit(units, plan, from, u) && from <= from'
    ensures InItsUnit(units, plan + [placed], from', u)
  {
    assert (plan + [placed])[..u] == plan[..u] && (plan + [placed])[u] == plan[u];
  }

  lemma LastInItsUnit(units: seq<seq<Id>>, plan: seq<seq<nat>>, placed: seq<nat>, from: seq<nat>, from': seq<nat>)
    requires |plan| < |units| && |from| == |Joined(plan)| && |from'| == |Joined(plan)| + |placed|
    requires
      var lo := StartOf(units, |plan|);
      Continues(from, from', lo, lo + |units[|plan|]|)
    ensures InItsUnit(units, plan + [placed], from', |plan|)
  {
    assert (plan + [placed])[..|plan|] == plan;
  }

  /** The number of topics in the hydrated items. */
  function Topics(h: seq<Heading>, roots: seq<nat>): nat {
    if roots == [] then 0
    else
      var root := roots[|roots| - 1];
      Topics(h, roots[..|roots| - 1]) + if root < |h| then ItemCount(Subtree(h, root)) else 0
  }

  /** The outer loop of `normalize_course_plan`: the hydrated roots of every teaching unit, and the
      statistics over them. */
  method NormalizePlan(h: seq<Heading>, units: seq<seq<Id>>)
    returns (plan: seq<seq<nat>>, topics: nat, ghost from: seq<nat>)
    ensures |plan| == |units|
    ensures Placement(h, Joined(units), Joined(plan), from)
    ensures forall u :: 0 <= u < |units| ==> InItsUnit(units, plan, from, u)
    ensures AllInside(h, Joined(plan)) && topics >= |Shown(h, Joined(plan))|
    ensures topics == |Shown(h, Joined(plan))| <==> NoLateAncestor(h, Joined(plan))
    ensures DistinctIds(h) ==> (topics == |Shown(h, Joined(plan))| <==> AncestorsInTime(h, Joined(units)))
  {
    plan, from := [], [];
    var used: set<Id> := {};
    for u := 0 to |units|
      invariant |plan| == u && UsedIs(h, Joined(plan), used)
      invariant Placement(h, Joined(units[..u]), Joined(plan), from)
      invariant forall v :: 0 <= v < u ==> InItsUnit(units, plan, from, v)
    {
      ghost var before := from;
      var placed;
      placed, used, from := PlaceUnit(h, units[u], used, Joined(units[..u]), Joined(plan), from);
      assert (plan + [placed])[..u] == plan && units[..u + 1][..u] == units[..u];
      forall v | 0 <= v < u
        ensures InItsUnit(units, plan + [placed], from, v)
      {
        StaysInItsUnit(units, plan, placed, before, from, v);
      }
      LastInItsUnit(units, plan, placed, before, from);
      plan := plan + [placed];
    }
    assert units[..|units|] == units;
    topics := Topics(h, Joined(plan));
    TopicsOfPlan(h, Joined(units), Joined(plan), from);
    if DistinctIds(h) {
      TopicsOfRequests(h, Joined(units), Joined(plan), from);
    }
  }

  // --------------------------------------------------------------------------- what it guarantees

  /** Item `k` of unit `u` is the heading of a request of that unit, and of which one. */
  lemma UnitItems(h: seq<Heading>, units: seq<seq<Id>>, plan: seq<seq<nat>>, from: seq<nat>, u: nat, k: nat)
    requires |plan| == |units| && Placement(h, Joined(units), Joined(plan), from)
    requires u < |units| && InItsUnit(units, plan, from, u) && k < |plan[u]|
    ensures StartOf(plan, u) + k < |from|
    ensures
      var q := from[StartOf(plan, u) + k];
      && StartOf(units, u) <= q < StartOf(units, u) + |units[u]|
      && IndexOf(h, units[u][q - StartOf(units, u)], 0) == Some(plan[u][k])
  {
    JoinedAt(plan, u, k);
    var at := StartOf(plan, u) + k;
    assert Answers(h, Joined(units), Joined(plan), from, at);
    JoinedAt(units, u, from[at] - StartOf(units, u));
  }

  /** Every request that names a heading is covered. */
  lemma RequestsAreCovered(h: seq<Heading>, asked: seq<Id>, roots: seq<nat>, from: seq<nat>, q: nat)
    requires Placement(h, asked, roots, from) && q < |asked| && IndexOf(h, asked[q], 0) != None
    ensures Covers(h, roots, asked[q])
  {
    if q in from {
      var k :| 0 <= k < |from| && from[k] == q;
      assert Answers(h, asked, roots, from, k);
      InOwnRun(h, roots[k], roots[k]);
      assert RootHas(h, roots, k, asked[q]);
    } else {
      assert Skipped(h, asked, roots, from, q);
    }
  }

  lemma InOwnRun(h: seq<Heading>, i: nat, k: nat)
    requires i < |h| && i <= k < End(h, i)
    ensures h[k].id in RunIds(h, i)
  {
  }

  ghost predicate Apart(h: seq<Heading>, i: nat, j: nat)
    requires i < |h| && j < |h|
  {
    End(h, i) <= j || End(h, j) <= i
  }

  /** A later root never lies in an earlier subtree, so the two runs are apart unless the later root
      is an ancestor of the earlier one, whose run it then contains. */
  lemma ApartUnlessAncestor(h: seq<Heading>, asked: seq<Id>, roots: seq<nat>, from: seq<nat>, k: nat, m: nat)
    requires Placement(h, asked, roots, from) && k < m < |roots|
    ensures roots[k] < |h| && roots[m] < |h| && !(roots[k] <= roots[m] < End(h, roots[k]))
    ensures !Apart(h, roots[k], roots[m]) <==> roots[m] < roots[k] < End(h, roots[m])
    ensures !Apart(h, roots[k], roots[m]) ==> End(h, roots[k]) <= End(h, roots[m])
  {
    assert Answers(h, asked, roots, from, k) && Answers(h, asked, roots, from, m);
    var i, j := roots[k], roots[m];
    if i <= j < End(h, i) {
      InOwnRun(h, i, j);
      assert RootHas(h, roots[..m], k, h[j].id);
    }
    if j < i < End(h, j) {
      Laminar(h, j, i);
    }
  }

  ghost predicate DistinctIds(h: seq<Heading>) {
    forall i, j :: 0 <= i < j < |h| ==> h[i].id != h[j].id
  }

  /** With distinct ids, two runs share an id exactly when they share a heading. */
  lemma SharedIds(h: seq<Heading>, i: nat, j: nat)
    requires DistinctIds(h) && i < |h| && j < |h|
    ensures Apart(h, i, j) <==> RunIds(h, i) !! RunIds(h, j)
  {
    if !Apart(h, i, j) {
      var k := if i < j then j else i;
      InOwnRun(h, i, k);
      InOwnRun(h, j, k);
    } else {
      forall x, y | x in h[i..End(h, i)] && y in h[j..End(h, j)]
        ensures x.id != y.id
      {
        var a :| i <= a < End(h, i) && h[a] == x;
        var b :| j <= b < End(h, j) && h[b] == y;
        assert a != b;
      }
    }
  }

  // ------------------------------------------------------------------------------- the statistics

  ghost function Run(lo: nat, hi: nat): (run: set<nat>)
    requires lo <= hi
    ensures |run| == hi - lo && forall k :: k in run <==> lo <= k < hi
    decreases hi
  {
    if lo == hi then {} else Run(lo, hi - 1) + {hi - 1}
  }

  /** The positions of all headings the hydrated items show. */
  ghost function Shown(h: seq<Heading>, roots: seq<nat>): set<nat>
    requires AllInside(h, roots)
  {
    if roots == [] then {}
    else
      var rest, root := roots[..|roots| - 1], roots[|roots| - 1];
      Shown(h, rest) + Run(root, End(h, root))
  }

  lemma {:induction false} ShownExactly(h: seq<Heading>, roots: seq<nat>)
    requires AllInside(h, roots)
    ensures forall k :: k in Shown(h, roots) <==> InSome(h, roots, k)
  {
    if roots != [] {
      var rest, root := roots[..|roots| - 1], roots[|roots| - 1];
      ShownExactly(h, rest);
      forall k: nat
        ensures InSome(h, roots, k) <==> InSome(h, rest, k) || Within(h, root, k)
      {
        InSomeSplits(h, rest, root, k);
        assert roots == rest + [root];
      }
    }
  }

  lemma InSomeSplits(h: seq<Heading>, rest: seq<nat>, root: nat, k: nat)
    ensures InSome(h, rest + [root], k) <==> InSome(h, rest, k) || Within(h, root, k)
  {
    var roots := rest + [root];
    assert roots[|rest|] == root;
    if Within(h, root, k) {
      assert Within(h, roots[|rest|], k);
    }
    if m :| 0 <= m < |rest| && Within(h, rest[m], k) {
      assert Within(h, roots[m], k);
    }
    if m :| 0 <= m < |roots| && Within(h, roots[m], k) && m < |rest| {
      assert Within(h, rest[m], k);
    }
  }

  ghost predicate Within(h: seq<Heading>, root: nat, k: nat) {
    root < |h| && root <= k < End(h, root)
  }

  ghost predicate InSome(h: seq<Heading>, roots: seq<nat>, k: nat) {
    exists m :: 0 <= m < |roots| && Within(h, roots[m], k)
  }

  ghost predicate AllApart(h: seq<Heading>, roots: seq<nat>) {
    forall k, m :: 0 <= k < m < |roots| ==> PairApart(h, roots, k, m)
  }

  ghost predicate PairApart(h: seq<Heading>, roots: seq<nat>, k: nat, m: nat)
    requires k < |roots| && m < |roots|
  {
    roots[k] < |h| && roots[m] < |h| ==> Apart(h, roots[k], roots[m])
  }

  lemma UnionSize(a: set<nat>, b: set<nat>)
    ensures |a + b| <= |a| + |b|
    ensures |a + b| == |a| + |b| <==> a !! b
  {
    assert |a + b| + |a * b| == |a| + |b|;
    assert |a * b| == 0 <==> a * b == {};
    assert a !! b <==> a * b == {} by {
      assert forall x :: x in a * b <==> x in a && x in b;
    }
  }

  ghost predicate AllInside(h: seq<Heading>, roots: seq<nat>) {
    forall k :: 0 <= k < |roots| ==> roots[k] < |h|
  }

  /** `assigned_topics` counts every shown heading once exactly when no two hydrated runs overlap. */
  lemma {:induction false} TopicsCounted(h: seq<Heading>, roots: seq<nat>)
    requires AllInside(h, roots)
    ensures Topics(h, roots) >= |Shown(h, roots)|
    ensures Topics(h, roots) == |Shown(h, roots)| <==> AllApart(h, roots)
  {
    if roots != [] {
      var rest, root := roots[..|roots| - 1], roots[|roots| - 1];
      assert roots == rest + [root];
      TopicsCounted(h, rest);
      AddOne(h, rest, root);
      ApartFromAll(h, rest, root);
    }
  }

  lemma AddOne(h: seq<Heading>, rest: seq<nat>, root: nat)
    requires AllInside(h, rest) && root < |h|
    ensures AllInside(h, rest + [root])
    ensures |Shown(h, rest + [root])| <= |Shown(h, rest)| + End(h, root) - root
    ensures |Shown(h, rest + [root])| == |Shown(h, rest)| + End(h, root) - root
      <==> Shown(h, rest) !! Run(root, End(h, root))
    ensures Topics(h, rest + [root]) == Topics(h, rest) + End(h, root) - root
  {
    var roots := rest + [root];
    assert roots[..|roots| - 1] == rest;
    ItemIsItsRun(h, root);
    UnionSize(Shown(h, rest), Run(root, End(h, root)));
  }

  lemma ApartFromAll(h: seq<Heading>, rest: seq<nat>, root: nat)
    requires AllInside(h, rest) && root < |h|
    ensures AllApart(h, rest + [root]) <==> AllApart(h, rest) && Shown(h, rest) !! Run(root, End(h, root))
  {
    ApartMeansDisjoint(h, rest, root);
    ApartOneMore(h, rest, root);
  }

  lemma ApartOneMore(h: seq<Heading>, rest: seq<nat>, root: nat)
    requires AllInside(h, rest) && root < |h|
    ensures AllApart(h, rest + [root]) <==> AllApart(h, rest) && forall k :: 0 <= k < |rest| ==> Apart(h, rest[k], root)
  {
    var roots := rest + [root];
    forall k | 0 <= k < |rest|
      ensures Apart(h, rest[k], root) <==> PairApart(h, roots, k, |rest|)
    {
    }
    forall k, m | 0 <= k < m < |rest|
      ensures PairApart(h, rest, k, m) <==> PairApart(h, roots, k, m)
    {
    }
  }

  lemma ApartMeansDisjoint(h: seq<Heading>, rest: seq<nat>, root: nat)
    requires AllInside(h, rest) && root < |h|
    ensures Shown(h, rest) !! Run(root, End(h, root)) <==> forall k :: 0 <= k < |rest| ==> Apart(h, rest[k], root)
  {
    ShownExactly(h, rest);
    if Shown(h, rest) !! Run(root, End(h, root)) {
      forall k | 0 <= k < |rest|
        ensures Apart(h, rest[k], root)
      {
        var x := if rest[k] < root then root else rest[k];
        assert Within(h, rest[k], x) ==> x in Shown(h, rest);
      }
    }
    if forall k :: 0 <= k < |rest| ==> Apart(h, rest[k], root) {
      forall x | x in Shown(h, rest)
        ensures x !in Run(root, End(h, root))
      {
        var m :| 0 <= m < |rest| && Within(h, rest[m], x);
        assert Apart(h, rest[m], root);
      }
    }
  }

  /** No root is listed after a root that lies in its run. */
  ghost predicate NoLateAncestor(h: seq<Heading>, roots: seq<nat>) {
    forall k, m :: 0 <= k < m < |roots| ==> !Within(h, roots[m], roots[k])
  }

  lemma ApartInOrder(h: seq<Heading>, asked: seq<Id>, roots: seq<nat>, from: seq<nat>)
    requires Placement(h, asked, roots, from)
    ensures AllApart(h, roots) <==> NoLateAncestor(h, roots)
  {
    forall k, m | 0 <= k < m < |roots|
      ensures PairApart(h, roots, k, m) <==> !Within(h, roots[m], roots[k])
    {
      ApartUnlessAncestor(h, asked, roots, from, k, m);
    }
  }

  lemma RootsAreHeadings(h: seq<Heading>, asked: seq<Id>, roots: seq<nat>, from: seq<nat>)
    requires Placement(h, asked, roots, from)
    ensures AllInside(h, roots)
  {
    forall k | 0 <= k < |roots|
      ensures roots[k] < |h|
    {
      assert Answers(h, asked, roots, from, k);
    }
  }

  /** So the statistics of a plan are exact if and only if no ancestor is listed after a descendant. */
  lemma TopicsOfPlan(h: seq<Heading>, asked: seq<Id>, roots: seq<nat>, from: seq<nat>)
    requires Placement(h, asked, roots, from)
    ensures AllInside(h, roots) && Topics(h, roots) >= |Shown(h, roots)|
    ensures Topics(h, roots) == |Shown(h, roots)| <==> NoLateAncestor(h, roots)
  {
    RootsAreHeadings(h, asked, roots, from);
    TopicsCounted(h, roots);
    ApartInOrder(h, asked, roots, from);
  }

  // --------------------------------------------------------------- the same in terms of requests

  /** The heading that request `q` names. */
  function At(h: seq<Heading>, asked: seq<Id>, q: nat): (at: Option<nat>)
    requires q < |asked|
    ensures at.Some? ==> at.value < |h| && h[at.value].id == asked[q]
  {
    IndexOf(h, asked[q], 0)
  }

  /** Request `r` names the heading of request `q`, or one above it. */
  ghost predicate AtOrAbove(h: seq<Heading>, asked: seq<Id>, r: nat, q: nat)
    requires r < |asked| && q < |asked|
  {
    At(h, asked, r).Some? && At(h, asked, q).Some? && Within(h, At(h, asked, r).value, At(h, asked, q).value)
  }

  ghost predicate ProperlyAbove(h: seq<Heading>, asked: seq<Id>, q: nat, p: nat)
    requires q < |asked| && p < |asked|
  {
    AtOrAbove(h, asked, q, p) && At(h, asked, q) != At(h, asked, p)
  }

  /** An ancestor is requested after a descendant only if it, or one above it, had been requested before
      that descendant. */
  ghost predicate AncestorsInTime(h: seq<Heading>, asked: seq<Id>) {
    forall p, q :: 0 <= p < q < |asked| && ProperlyAbove(h, asked, q, p) ==> ReachedBefore(h, asked, p, q)
  }

  ghost predicate ReachedBefore(h: seq<Heading>, asked: seq<Id>, p: nat, q: nat)
    requires p < |asked| && q < |asked|
  {
    exists r :: 0 <= r < p && AtOrAbove(h, asked, r, q)
  }

  lemma WithinByIds(h: seq<Heading>, i: nat, k: nat)
    requires DistinctIds(h) && i < |h| && k < |h|
    ensures h[k].id in RunIds(h, i) <==> Within(h, i, k)
  {
    if Within(h, i, k) {
      InOwnRun(h, i, k);
    }
    if h[k].id in RunIds(h, i) {
      var x :| x in h[i..End(h, i)] && x.id == h[k].id;
      var j :| i <= j < End(h, i) && h[j] == x;
      assert j == k;
    }
  }

  /** Two headings above a third one are above each other. */
  lemma WithinIsLinear(h: seq<Heading>, i: nat, j: nat, k: nat)
    ensures Within(h, i, j) && Within(h, j, k) ==> Within(h, i, k)
    ensures Within(h, i, k) && Within(h, j, k) && i <= j ==> Within(h, i, j)
  {
    if i < j < |h| && j < End(h, i) {
      Laminar(h, i, j);
    }
  }

  /** The subtree that shows what request `q` names was hydrated for this request or an earlier one. */
  lemma ShownFor(h: seq<Heading>, asked: seq<Id>, roots: seq<nat>, from: seq<nat>, q: nat) returns (m: nat)
    requires DistinctIds(h) && Placement(h, asked, roots, from) && q < |asked| && At(h, asked, q).Some?
    ensures m < |roots| && from[m] <= q && At(h, asked, from[m]) == Some(roots[m])
    ensures Within(h, roots[m], At(h, asked, q).value)
  {
    if q in from {
      m :| 0 <= m < |from| && from[m] == q;
      assert Answers(h, asked, roots, from, m);
    } else {
      assert Skipped(h, asked, roots, from, q);
      m :| 0 <= m < |roots| && from[m] < q && RootHas(h, roots, m, asked[q]);
      assert Answers(h, asked, roots, from, m);
      WithinByIds(h, roots[m], At(h, asked, q).value);
    }
  }

  lemma NotReachedBefore(h: seq<Heading>, asked: seq<Id>, roots: seq<nat>, from: seq<nat>, m: nat, r: nat)
    requires DistinctIds(h) && Placement(h, asked, roots, from) && m < |roots| && r < from[m]
    ensures from[m] < |asked| && !AtOrAbove(h, asked, r, from[m])
  {
    assert Answers(h, asked, roots, from, m);
    if At(h, asked, r).Some? {
      var n := ShownFor(h, asked, roots, from, r);
      assert n < m;
      assert !RootHas(h, roots[..m], n, asked[from[m]]);
      WithinByIds(h, roots[n], roots[m]);
      WithinIsLinear(h, roots[n], At(h, asked, r).value, roots[m]);
    }
  }

  lemma LateMeansRequestedLate(h: seq<Heading>, asked: seq<Id>, roots: seq<nat>, from: seq<nat>)
    requires DistinctIds(h) && Placement(h, asked, roots, from) && AncestorsInTime(h, asked)
    ensures NoLateAncestor(h, roots)
  {
    forall k, m | 0 <= k < m < |roots|
      ensures !Within(h, roots[m], roots[k])
    {
      assert Answers(h, asked, roots, from, k) && Answers(h, asked, roots, from, m);
      ApartUnlessAncestor(h, asked, roots, from, k, m);
      forall r | 0 <= r < from[k]
        ensures !AtOrAbove(h, asked, r, from[m])
      {
        NotReachedBefore(h, asked, roots, from, m, r);
      }
      assert !ReachedBefore(h, asked, from[k], from[m]);
      assert !ProperlyAbove(h, asked, from[m], from[k]);
    }
  }

  lemma RequestedLateMeansLate(h: seq<Heading>, asked: seq<Id>, roots: seq<nat>, from: seq<nat>, p: nat, q: nat)
    requires DistinctIds(h) && Placement(h, asked, roots, from) && NoLateAncestor(h, roots)
    requires p < q < |asked| && ProperlyAbove(h, asked, q, p)
    ensures ReachedBefore(h, asked, p, q)
  {
    var k := ShownFor(h, asked, roots, from, p);
    var ancestor, descendant := At(h, asked, q).value, At(h, asked, p).value;
    if roots[k] <= ancestor {
      WithinIsLinear(h, roots[k], ancestor, descendant);
      assert AtOrAbove(h, asked, from[k], q);
    } else {
      var m := ShownFor(h, asked, roots, from, q);
      WithinIsLinear(h, ancestor, roots[k], descendant);
      WithinIsLinear(h, roots[m], ancestor, roots[k]);
      assert !(k < m);
      assert AtOrAbove(h, asked, from[m], q);
    }
  }

  /** With distinct ids, the statistics are exact if and only if ancestors are requested in time. */
  lemma TopicsOfRequests(h: seq<Heading>, asked: seq<Id>, roots: seq<nat>, from: seq<nat>)
    requires DistinctIds(h) && Placement(h, asked, roots, from)
    ensures AllInside(h, roots) && (Topics(h, roots) == |Shown(h, roots)| <==> AncestorsInTime(h, asked))
  {
    TopicsOfPlan(h, asked, roots, from);
    if NoLateAncestor(h, roots) {
      forall p, q | 0 <= p < q < |asked| && ProperlyAbove(h, asked, q, p)
        ensures ReachedBefore(h, asked, p, q)
      {
        RequestedLateMeansLate(h, asked, roots, from, p, q);
      }
    }
    if AncestorsInTime(h, asked) {
      LateMeansRequestedLate(h, asked, roots, from);
    }
  }

  /** The smallest plan that counts a topic twice, a subsection requested before its section; asking for
      the section first makes the same requests harmless. */
  lemma SubsectionFirst(section: Heading, below: Heading, roots: seq<nat>, from: seq<nat>)
    requires section.source == below.source && section.level < below.level && section.id != below.id
    requires Placement([section, below], [below.id, section.id], roots, from)
    ensures
      var h := [section, below];
      && AllInside(h, roots) && Topics(h, roots) > |Shown(h, roots)|
      && AncestorsInTime(h, [section.id, below.id, section.id])
  {
    var h, asked, harmless := [section, below], [below.id, section.id], [section.id, below.id, section.id];
    assert h[0] == section && h[1] == below && Below(h, 0, 1);
    EndReaches(h, 0, 2);
    FoundById(h, 0, 0);
    FoundById(h, 1, 0);
    assert ProperlyAbove(h, asked, 1, 0) && !ReachedBefore(h, asked, 0, 1);
    TopicsOfRequests(h, asked, roots, from);
    TopicsOfPlan(h, asked, roots, from);
    assert AtOrAbove(h, harmless, 0, 2);
    assert !Within(h, 1, 0);
  }
}
