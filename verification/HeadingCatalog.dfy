/** The three stack algorithms over headings (scripts/course_board_server.py). A node is known by the
    position of its heading, and `children[j]` is the list of children of node `j`, which the
    algorithms extend in place while the node is already part of the tree. */
module HeadingCatalog {

  import opened Options
  import opened HeadingForest

  /** The stack holds, in order, the headings from `lo` up to `n` whose subtree reaches `bound`. */
  ghost predicate StackOf(h: seq<Heading>, lo: nat, n: nat, bound: nat, stack: seq<nat>) {
    && lo <= n <= |h|
    && (forall s :: 0 <= s < |stack| ==> lo <= stack[s] < n && End(h, stack[s]) >= bound)
    && (forall j {:trigger j in stack} :: lo <= j < n && End(h, j) >= bound ==> j in stack)
    && forall s, t :: 0 <= s < t < |stack| ==> stack[s] < stack[t]
  }

  /** `children[j]` lists the children of `j` among the first `n` headings, for `j` from `lo` on; the
      other lists are empty. */
  ghost predicate ChildrenUpTo(h: seq<Heading>, lo: nat, n: nat, children: seq<seq<nat>>) {
    && lo <= n <= |h| && |children| == |h|
    && (forall j :: lo <= j < n ==> ListUpTo(h, n, children, j))
    && forall j :: 0 <= j < lo || n <= j < |h| ==> children[j] == []
  }

  ghost predicate ListUpTo(h: seq<Heading>, n: nat, children: seq<seq<nat>>, j: nat)
    requires j < n <= |h| == |children|
  {
    children[j] == Roots(h, j + 1, Min(End(h, j), n))
  }

  /** On an open stack the levels rise. */
  lemma LevelsRise(h: seq<Heading>, lo: nat, i: nat, stack: seq<nat>, s: nat, t: nat)
    requires StackOf(h, lo, i, i, stack) && s < t < |stack|
    ensures h[stack[s]].level < h[stack[t]].level && h[stack[s]].source == h[stack[t]].source
  {
    EndReaches(h, stack[s], i);
    assert Below(h, stack[s], stack[t]);
  }

  lemma EndStep(h: seq<Heading>, j: nat, i: nat)
    requires j < i < |h| && End(h, j) >= i
    ensures End(h, j) > i <==> Below(h, j, i)
  {
    EndReaches(h, j, i);
    EndReaches(h, j, i + 1);
  }

  /** Popping down to position `kept` leaves exactly the headings that `i` falls below. */
  lemma PoppedStack(h: seq<Heading>, lo: nat, i: nat, stack: seq<nat>, kept: nat)
    requires StackOf(h, lo, i, i, stack) && i < |h| && kept <= |stack|
    requires forall s :: kept <= s < |stack| ==> !Below(h, stack[s], i)
    requires kept > 0 ==> Below(h, stack[kept - 1], i)
    ensures StackOf(h, lo, i, i + 1, stack[..kept])
  {
    forall s | 0 <= s < |stack|
      ensures End(h, stack[s]) > i <==> s < kept
    {
      EndStep(h, stack[s], i);
      if s < kept - 1 {
        LevelsRise(h, lo, i, stack, s, kept - 1);
      }
    }
    forall j | lo <= j < i && End(h, j) >= i + 1
      ensures j in stack[..kept]
    {
      assert j in stack;
      var s :| 0 <= s < |stack| && stack[s] == j;
      assert stack[..kept][s] == j;
    }
  }

  lemma PushedStack(h: seq<Heading>, lo: nat, i: nat, stack: seq<nat>)
    requires StackOf(h, lo, i, i + 1, stack) && i < |h|
    ensures StackOf(h, lo, i + 1, i + 1, stack + [i])
  {
  }

  /** Nothing above the top of the popped stack reaches past `i`. */
  lemma NothingAboveTop(h: seq<Heading>, lo: nat, i: nat, stack: seq<nat>, top: nat)
    requires StackOf(h, lo, i, i + 1, stack) && i < |h| && stack != [] && stack[|stack| - 1] == top
    ensures forall r :: top < r < i ==> End(h, r) <= i
  {
    forall r | top < r < i
      ensures End(h, r) <= i
    {
      assert End(h, r) > i ==> r in stack;
    }
  }

  lemma RootsAppend(h: seq<Heading>, lo: nat, i: nat)
    requires lo <= i < |h| && forall r :: lo <= r < i ==> End(h, r) <= i
    ensures Roots(h, lo, i + 1) == Roots(h, lo, i) + [i]
  {
    RootsExtend(h, lo, i);
  }

  lemma ChildOfTop(h: seq<Heading>, lo: nat, i: nat, stack: seq<nat>)
    requires StackOf(h, lo, i, i + 1, stack) && i < |h| && stack != []
    ensures Roots(h, stack[|stack| - 1] + 1, i + 1) == Roots(h, stack[|stack| - 1] + 1, i) + [i]
  {
    var top := stack[|stack| - 1];
    assert forall r :: top + 1 <= r < i ==> End(h, r) <= i by {
      NothingAboveTop(h, lo, i, stack, top);
    }
    RootsAppend(h, top + 1, i);
  }

  lemma NoChildOfOthers(h: seq<Heading>, i: nat, j: nat, r: nat)
    requires j < r < i < |h| && End(h, r) > i
    ensures Roots(h, j + 1, i + 1) == Roots(h, j + 1, i)
  {
    RootsExtend(h, j + 1, i);
  }

  /** Where heading `i` goes: below the top of the popped stack, or among the roots. */
  lemma NewChild(h: seq<Heading>, lo: nat, i: nat, stack: seq<nat>, j: nat)
    requires StackOf(h, lo, i, i + 1, stack) && lo <= j < i < |h|
    ensures Roots(h, j + 1, Min(End(h, j), i + 1)) ==
      Roots(h, j + 1, Min(End(h, j), i)) + if stack != [] && j == stack[|stack| - 1] then [i] else []
  {
    if End(h, j) > i {
      assert j in stack;
      var s :| 0 <= s < |stack| && stack[s] == j;
      if s == |stack| - 1 {
        ChildOfTop(h, lo, i, stack);
      } else {
        NoChildOfOthers(h, i, j, stack[|stack| - 1]);
      }
    }
  }

  lemma NewRoot(h: seq<Heading>, i: nat, stack: seq<nat>)
    requires StackOf(h, 0, i, i + 1, stack) && i < |h|
    ensures Roots(h, 0, i + 1) == Roots(h, 0, i) + if stack == [] then [i] else []
  {
    RootsExtend(h, 0, i);
    if stack == [] {
      assert forall r :: 0 <= r < i && End(h, r) > i ==> r in stack;
    } else {
      assert 0 <= stack[0] < i && End(h, stack[0]) > i;
    }
  }

  /** Popping the open headings of no smaller level, within one source. */
  method PopStack(h: seq<Heading>, ghost lo: nat, i: nat, stack: seq<nat>) returns (popped: seq<nat>)
    requires StackOf(h, lo, i, i, stack) && i < |h|
    requires forall s :: 0 <= s < |stack| ==> h[stack[s]].source == h[i].source
    ensures StackOf(h, lo, i, i + 1, popped)
  {
    var kept := |stack|;
    while kept > 0 && h[i].level <= h[stack[kept - 1]].level
      invariant 0 <= kept <= |stack|
      invariant forall s :: kept <= s < |stack| ==> h[i].level <= h[stack[s]].level
    {
      kept := kept - 1;
    }
    PoppedStack(h, lo, i, stack, kept);
    popped := stack[..kept];
  }

  lemma RunOfSource(h: seq<Heading>, lo: nat, i: nat, stack: seq<nat>, s: nat)
    requires StackOf(h, lo, i, i, stack) && s < |stack|
    ensures h[stack[s]].source == h[i - 1].source
  {
    EndReaches(h, stack[s], i);
    assert stack[s] < i - 1 ==> Below(h, stack[s], i - 1);
  }

  /** At a change of source nothing stays open. */
  lemma SourceChange(h: seq<Heading>, lo: nat, i: nat, stack: seq<nat>)
    requires StackOf(h, lo, i, i, stack) && i < |h| && (i == lo || h[i].source != h[i - 1].source)
    ensures StackOf(h, lo, i, i + 1, [])
  {
    forall s | 0 <= s < |stack|
      ensures !Below(h, stack[s], i)
    {
      RunOfSource(h, lo, i, stack, s);
    }
    PoppedStack(h, lo, i, stack, 0);
    assert stack[..0] == [];
  }

  /** Entering heading `i` in the list of its parent. */
  lemma ChildrenStep(h: seq<Heading>, lo: nat, i: nat, stack: seq<nat>, before: seq<seq<nat>>, after: seq<seq<nat>>)
    requires ChildrenUpTo(h, lo, i, before) && StackOf(h, lo, i, i + 1, stack) && i < |h|
    requires after == if stack == [] then before else before[stack[|stack| - 1] := before[stack[|stack| - 1]] + [i]]
    ensures ChildrenUpTo(h, lo, i + 1, after)
  {
    var n := i + 1;
    forall j | lo <= j < i
      ensures ListUpTo(h, n, after, j)
    {
      assert ListUpTo(h, i, before, j);
      NewChild(h, lo, i, stack, j);
    }
  }

  /** Appending a node to the children of the innermost open heading, if there is one. */
  method Enter(h: seq<Heading>, ghost lo: nat, i: nat, stack: seq<nat>, children: array<seq<nat>>)
    requires ChildrenUpTo(h, lo, i, children[..]) && StackOf(h, lo, i, i + 1, stack) && i < |h|
    modifies children
    ensures ChildrenUpTo(h, lo, i + 1, children[..])
  {
    ghost var before := children[..];
    if stack != [] {
      children[stack[|stack| - 1]] := children[stack[|stack| - 1]] + [i];
    }
    ChildrenStep(h, lo, i, stack, before, children[..]);
  }

  /** `heading_catalog_tree`, its second loop. */
  method BuildCatalog(h: seq<Heading>) returns (children: array<seq<nat>>, roots: seq<nat>)
    ensures fresh(children) && ChildrenUpTo(h, 0, |h|, children[..])
    ensures roots == Roots(h, 0, |h|)
  {
    children := new seq<nat>[|h|](i => []);
    roots := [];
    var stack: seq<nat> := [];
    for i := 0 to |h|
      invariant StackOf(h, 0, i, i, stack) && ChildrenUpTo(h, 0, i, children[..]) && roots == Roots(h, 0, i)
    {
      stack, roots := AddHeading(h, i, stack, roots, children);
    }
  }

  /** The body of that loop. */
  method AddHeading(h: seq<Heading>, i: nat, stack: seq<nat>, roots: seq<nat>, children: array<seq<nat>>)
    returns (stack': seq<nat>, roots': seq<nat>)
    requires i < |h| && StackOf(h, 0, i, i, stack) && ChildrenUpTo(h, 0, i, children[..]) && roots == Roots(h, 0, i)
    modifies children
    ensures StackOf(h, 0, i + 1, i + 1, stack') && ChildrenUpTo(h, 0, i + 1, children[..]) &&
      roots' == Roots(h, 0, i + 1)
  {
    var popped := FollowSource(h, i, stack);
    NewRoot(h, i, popped);
    Enter(h, 0, i, popped, children);
    roots' := if popped == [] then roots + [i] else roots;
    PushedStack(h, 0, i, popped);
    stack' := popped + [i];
  }

  /** Clear the stack when the source changes, pop it otherwise. */
  method FollowSource(h: seq<Heading>, i: nat, stack: seq<nat>) returns (popped: seq<nat>)
    requires StackOf(h, 0, i, i, stack) && i < |h|
    ensures StackOf(h, 0, i, i + 1, popped)
  {
    if i == 0 || h[i].source != h[i - 1].source {
      SourceChange(h, 0, i, stack);
      popped := [];
    } else {
      forall s | 0 <= s < |stack|
        ensures h[stack[s]].source == h[i].source
      {
        RunOfSource(h, 0, i, stack, s);
      }
      popped := PopStack(h, 0, i, stack);
    }
  }

  // --------------------------------------------------------------------------- reading the nodes

  /** `t` is the tree below node `i` that the lists of children describe. */
  ghost predicate Describes(h: seq<Heading>, children: seq<seq<nat>>, i: nat, t: Tree)
    decreases t
  {
    && i < |h| && i < |children| && t.heading == h[i]
    && DescribesAll(h, children, children[i], t.children)
  }

  ghost predicate DescribesAll(h: seq<Heading>, children: seq<seq<nat>>, nodes: seq<nat>, trees: seq<Tree>)
    decreases trees
  {
    |nodes| == |trees| && forall k :: 0 <= k < |trees| ==> Describes(h, children, nodes[k], trees[k])
  }

  lemma DescribesCons(h: seq<Heading>, children: seq<seq<nat>>, i: nat, t: Tree, nodes: seq<nat>, trees: seq<Tree>)
    requires Describes(h, children, i, t) && DescribesAll(h, children, nodes, trees)
    ensures DescribesAll(h, children, [i] + nodes, [t] + trees)
  {
  }

  lemma DescribesNode(h: seq<Heading>, children: seq<seq<nat>>, i: nat, trees: seq<Tree>)
    requires i < |h| && i < |children| && DescribesAll(h, children, children[i], trees)
    ensures Describes(h, children, i, Node(h[i], trees))
  {
  }

  /** The lists of the nodes from `first` up to `last` are complete. */
  ghost predicate ListsComplete(h: seq<Heading>, first: nat, last: nat, children: seq<seq<nat>>) {
    && first <= last <= |h| && |children| == |h|
    && forall j :: first <= j < last ==> children[j] == Roots(h, j + 1, End(h, j))
  }

  /** No subtree that begins in the range ends outside it. */
  ghost predicate WholeSubtrees(h: seq<Heading>, lo: nat, hi: nat) {
    lo <= hi <= |h| && forall r :: lo <= r < hi ==> End(h, r) <= hi
  }

  lemma SubtreeIsWhole(h: seq<Heading>, i: nat)
    requires i < |h|
    ensures WholeSubtrees(h, i + 1, End(h, i))
  {
    forall r | i < r < End(h, i)
      ensures End(h, r) <= End(h, i)
    {
      Laminar(h, i, r);
    }
  }

  /** The subtree of heading `i`. */
  function Subtree(h: seq<Heading>, i: nat): Tree
    requires i < |h|
  {
    Node(h[i], Forest(h, i + 1, End(h, i)))
  }

  /** The lists of children describe the reference forest. */
  lemma {:induction false} ListsDescribeForest(h: seq<Heading>, children: seq<seq<nat>>, first: nat, last: nat, lo: nat,
      hi: nat)
    requires first <= lo && hi <= last && WholeSubtrees(h, lo, hi) && ListsComplete(h, first, last, children)
    ensures DescribesAll(h, children, Roots(h, lo, hi), Forest(h, lo, hi))
    decreases hi - lo, 1
  {
    if lo < hi {
      ListsDescribeSubtree(h, children, first, last, lo);
      ListsDescribeForest(h, children, first, last, End(h, lo), hi);
      DescribesCons(h, children, lo, Subtree(h, lo), Roots(h, End(h, lo), hi), Forest(h, End(h, lo), hi));
    }
  }

  lemma {:induction false} ListsDescribeSubtree(h: seq<Heading>, children: seq<seq<nat>>, first: nat, last: nat, i: nat)
    requires first <= i < last && ListsComplete(h, first, last, children) && End(h, i) <= last
    ensures Describes(h, children, i, Subtree(h, i))
    decreases End(h, i) - i, 0
  {
    SubtreeIsWhole(h, i);
    ListsDescribeForest(h, children, first, last, i + 1, End(h, i));
    DescribesNode(h, children, i, Forest(h, i + 1, End(h, i)));
  }

  lemma CatalogLists(h: seq<Heading>, children: seq<seq<nat>>)
    requires ChildrenUpTo(h, 0, |h|, children)
    ensures ListsComplete(h, 0, |h|, children)
  {
    forall j | 0 <= j < |h|
      ensures children[j] == Roots(h, j + 1, End(h, j))
    {
      assert ListUpTo(h, |h|, children, j);
    }
  }

  /** The catalog describes the reference forest, and flattening that gives the headings back. */
  method CatalogTree(h: seq<Heading>) returns (children: array<seq<nat>>, roots: seq<nat>)
    ensures DescribesAll(h, children[..], roots, Forest(h, 0, |h|))
    ensures Flatten(Forest(h, 0, |h|)) == h
  {
    children, roots := BuildCatalog(h);
    CatalogLists(h, children[..]);
    ListsDescribeForest(h, children[..], 0, |h|, 0, |h|);
    FlattenForest(h, 0, |h|);
    assert h[0..|h|] == h;
  }

  // --------------------------------------------------------------------------- one subtree

  /** The first position from `from` on with this id. */
  function IndexOf(h: seq<Heading>, id: Id, from: nat): (index: Option<nat>)
    requires from <= |h|
    ensures index.Some? ==> from <= index.value < |h| && h[index.value].id == id
    ensures index.Some? ==> forall k :: from <= k < index.value ==> h[k].id != id
    ensures index.None? ==> forall k :: from <= k < |h| ==> h[k].id != id
    decreases |h| - from
  {
    if from == |h| then None else if h[from].id == id then Some(from) else IndexOf(h, id, from + 1)
  }

  /** The heading found by the id of heading `i` is heading `i`, unless an earlier one has the same id. */
  lemma {:induction false} FoundById(h: seq<Heading>, i: nat, from: nat)
    requires from <= i < |h|
    ensures IndexOf(h, h[i].id, from) == Some(i) <==> forall k :: from <= k < i ==> h[k].id != h[i].id
    decreases i - from
  {
  }

  /** `item_from_heading_id`: the node of the first heading with this id, over the same subtree that
      the catalog has there. */
  method ItemFromHeading(h: seq<Heading>, id: Id) returns (index: Option<nat>, children: array<seq<nat>>)
    ensures index == IndexOf(h, id, 0)
    ensures index.Some? ==> Describes(h, children[..], index.value, Subtree(h, index.value))
  {
    index := IndexOf(h, id, 0);
    if index.None? {
      children := new seq<nat>[0];
    } else {
      children := BuildSubtree(h, index.value);
      SubtreeLists(h, children[..], index.value);
      ListsDescribeSubtree(h, children[..], index.value, End(h, index.value), index.value);
    }
  }

  lemma SubtreeLists(h: seq<Heading>, children: seq<seq<nat>>, top: nat)
    requires top < |h| && ChildrenUpTo(h, top, End(h, top), children)
    ensures ListsComplete(h, top, End(h, top), children)
  {
    SubtreeIsWhole(h, top);
    forall j | top <= j < End(h, top)
      ensures children[j] == Roots(h, j + 1, End(h, j))
    {
      assert ListUpTo(h, End(h, top), children, j);
    }
  }

  lemma StartSubtree(h: seq<Heading>, top: nat, children: seq<seq<nat>>)
    requires top < |h| && |children| == |h| && forall j :: 0 <= j < |h| ==> children[j] == []
    ensures StackOf(h, top, top + 1, top + 1, [top]) && ChildrenUpTo(h, top, top + 1, children)
  {
  }

  /** Its loop over the headings that follow. */
  method BuildSubtree(h: seq<Heading>, top: nat) returns (children: array<seq<nat>>)
    requires top < |h|
    ensures fresh(children) && ChildrenUpTo(h, top, End(h, top), children[..])
  {
    children := new seq<nat>[|h|](i => []);
    StartSubtree(h, top, children[..]);
    var stack: seq<nat>, i := [top], top + 1;
    while i < |h| && Below(h, top, i)
      invariant top < i <= |h| && Spans(h, top, i)
      invariant StackOf(h, top, i, i, stack) && ChildrenUpTo(h, top, i, children[..])
    {
      stack := AddChild(h, top, i, stack, children);
      i := i + 1;
    }
    EndExactly(h, top, i);
  }

  /** The body of that loop. */
  method AddChild(h: seq<Heading>, top: nat, i: nat, stack: seq<nat>, children: array<seq<nat>>)
    returns (stack': seq<nat>)
    requires top < i < |h| && Spans(h, top, i) && Below(h, top, i)
    requires StackOf(h, top, i, i, stack) && ChildrenUpTo(h, top, i, children[..])
    modifies children
    ensures StackOf(h, top, i + 1, i + 1, stack') && ChildrenUpTo(h, top, i + 1, children[..])
  {
    OneSource(h, top, i, stack);
    var popped := PopStack(h, top, i, stack);
    Enter(h, top, i, popped, children);
    PushedStack(h, top, i, popped);
    stack' := popped + [i];
  }

  lemma OneSource(h: seq<Heading>, top: nat, i: nat, stack: seq<nat>)
    requires top < i < |h| && Spans(h, top, i) && Below(h, top, i) && StackOf(h, top, i, i, stack)
    ensures forall s :: 0 <= s < |stack| ==> h[stack[s]].source == h[i].source
  {
    forall s | 0 <= s < |stack|
      ensures h[stack[s]].source == h[i].source
    {
      assert stack[s] > top ==> Below(h, top, stack[s]);
    }
  }

  /** Flattening one subtree gives the contiguous run of its headings. */
  lemma FlattenSubtree(h: seq<Heading>, i: nat)
    requires i < |h|
    ensures Flatten([Subtree(h, i)]) == h[i..End(h, i)]
  {
    FlattenForest(h, i + 1, End(h, i));
    FlattenCons(Subtree(h, i), []);
    assert [Subtree(h, i)] + [] == [Subtree(h, i)];
    SplitRange(h, i, End(h, i), End(h, i));
  }
}
