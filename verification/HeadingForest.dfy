/** The catalog of headings as a forest (scripts/course_board_server.py): the stack that builds it, the
    recursion that flattens it, and the stack that extracts one subtree, all over the same intervals. */
module HeadingForest {

  type Id(==, !new)
  type SourceKey(==, !new)

  datatype Heading = Heading(id: Id, source: SourceKey, level: nat)

  datatype Tree = Node(heading: Heading, children: seq<Tree>)

  // ---------------------------------------------------------------------------------- intervals

  /** Heading `k` can be below heading `i`. */
  predicate Below(h: seq<Heading>, i: nat, k: nat)
    requires i < |h| && k < |h|
  {
    h[k].source == h[i].source && h[k].level > h[i].level
  }

  /** Every heading after `i` and before `k` belongs below `i`. */
  predicate Spans(h: seq<Heading>, i: nat, k: nat)
    requires i < |h| && k <= |h|
  {
    forall m :: i < m < k ==> Below(h, i, m)
  }

  /** The end of the subtree of heading `i`: the next heading of another source or of no greater
      level. `k` is where the search starts. */
  function EndFrom(h: seq<Heading>, i: nat, k: nat): (end: nat)
    requires i < k <= |h|
    ensures k <= end <= |h|
    decreases |h| - k
  {
    if k == |h| || !Below(h, i, k) then k else EndFrom(h, i, k + 1)
  }

  function End(h: seq<Heading>, i: nat): (end: nat)
    requires i < |h|
    ensures i < end <= |h|
  {
    EndFrom(h, i, i + 1)
  }

  lemma {:induction false} EndFromExactly(h: seq<Heading>, i: nat, k: nat, e: nat)
    requires i < k <= |h| && Spans(h, i, k) && i < e <= |h|
    ensures EndFrom(h, i, k) == e <==> k <= e && Spans(h, i, e) && (e < |h| ==> !Below(h, i, e))
    decreases |h| - k
  {
    if k < |h| && Below(h, i, k) {
      EndFromExactly(h, i, k + 1, e);
    }
  }

  /** `End` is the one place where the subtree of `i` can end. */
  lemma EndExactly(h: seq<Heading>, i: nat, e: nat)
    requires i < e <= |h|
    ensures End(h, i) == e <==> Spans(h, i, e) && (e < |h| ==> !Below(h, i, e))
  {
    EndFromExactly(h, i, i + 1, e);
  }

  lemma EndReaches(h: seq<Heading>, i: nat, k: nat)
    requires i < |h| && i < k <= |h|
    ensures End(h, i) >= k <==> Spans(h, i, k)
  {
    EndExactly(h, i, End(h, i));
  }

  /** Subtrees nest or are disjoint. */
  lemma Laminar(h: seq<Heading>, i: nat, j: nat)
    requires i < j < |h| && j < End(h, i)
    ensures End(h, j) <= End(h, i)
  {
    EndExactly(h, i, End(h, i));
    EndReaches(h, j, End(h, j));
    assert Below(h, i, j);
    assert End(h, i) < End(h, j) ==> Below(h, j, End(h, i));
  }

  // ----------------------------------------------------------------------------- the reference

  function Min(a: nat, b: nat): nat {
    if a < b then a else b
  }

  /** The forest of the headings from `lo` up to `hi`. */
  function Forest(h: seq<Heading>, lo: nat, hi: nat): seq<Tree>
    requires lo <= hi <= |h|
    decreases hi - lo
  {
    if lo == hi then []
    else
      var end := Min(End(h, lo), hi);
      [Node(h[lo], Forest(h, lo + 1, end))] + Forest(h, end, hi)
  }

  /** The positions of the roots of that forest. */
  function Roots(h: seq<Heading>, lo: nat, hi: nat): (roots: seq<nat>)
    requires lo <= hi <= |h|
    ensures forall r :: r in roots ==> lo <= r < hi
    decreases hi - lo
  {
    if lo == hi then [] else [lo] + Roots(h, Min(End(h, lo), hi), hi)
  }

  /** `flatten_heading_catalog`. */
  function Flatten(trees: seq<Tree>): seq<Heading> {
    if trees == [] then []
    else [trees[0].heading] + Flatten(trees[0].children) + Flatten(trees[1..])
  }

  lemma FlattenCons(t: Tree, rest: seq<Tree>)
    ensures Flatten([t] + rest) == [t.heading] + Flatten(t.children) + Flatten(rest)
  {
  }

  lemma SplitRange(h: seq<Heading>, lo: nat, mid: nat, hi: nat)
    requires lo < mid <= hi <= |h|
    ensures h[lo..hi] == [h[lo]] + h[lo + 1..mid] + h[mid..hi]
  {
  }

  lemma ForestCons(h: seq<Heading>, lo: nat, hi: nat)
    requires lo < hi <= |h|
    ensures
      var end := Min(End(h, lo), hi);
      Forest(h, lo, hi) == [Node(h[lo], Forest(h, lo + 1, end))] + Forest(h, end, hi)
  {
  }

  /** Flattening the forest gives the headings back, in source order. */
  lemma {:induction false} FlattenForest(h: seq<Heading>, lo: nat, hi: nat)
    requires lo <= hi <= |h|
    ensures Flatten(Forest(h, lo, hi)) == h[lo..hi]
    decreases hi - lo
  {
    if lo < hi {
      var end := Min(End(h, lo), hi);
      var below, rest := Forest(h, lo + 1, end), Forest(h, end, hi);
      FlattenForest(h, lo + 1, end);
      FlattenForest(h, end, hi);
      FlattenCons(Node(h[lo], below), rest);
      ForestCons(h, lo, hi);
      SplitRange(h, lo, end, hi);
    }
  }

  /** Appending one heading to the range adds a root, unless it falls below an earlier one. */
  lemma {:induction false} RootsExtend(h: seq<Heading>, lo: nat, i: nat)
    requires lo <= i < |h|
    ensures Roots(h, lo, i + 1) == Roots(h, lo, i) + if exists r :: lo <= r < i && End(h, r) > i then [] else [i]
    decreases i - lo
  {
    if lo < i {
      if End(h, lo) <= i {
        var e := End(h, lo);
        RootsExtend(h, e, i);
        forall r | lo < r < e
          ensures End(h, r) <= e
        {
          Laminar(h, lo, r);
        }
        assert (exists r :: lo <= r < i && End(h, r) > i) <==> (exists r :: e <= r < i && End(h, r) > i);
      } else {
        assert Min(End(h, lo), i) == i && Min(End(h, lo), i + 1) == i + 1;
      }
    }
  }

  // ---------------------------------------------------------------------------------- parents

  /** `j` is the nearest heading before `i` in the run of its source that has a smaller level. */
  ghost predicate IsParent(h: seq<Heading>, j: nat, i: nat)
    requires j < i < |h|
  {
    && h[j].level < h[i].level && (forall k :: j < k <= i ==> h[k].source == h[j].source)
    && forall k :: j < k < i ==> h[k].level >= h[i].level
  }

  lemma {:induction false} RootsMember(h: seq<Heading>, lo: nat, hi: nat, i: nat)
    requires lo <= i < hi <= |h|
    ensures i in Roots(h, lo, hi) <==> forall q :: lo <= q < i ==> End(h, q) <= i
    decreases hi - lo
  {
    var e := Min(End(h, lo), hi);
    if lo < i {
      if e <= i {
        RootsMember(h, e, hi, i);
        forall r | lo < r < e
          ensures End(h, r) <= e
        {
          Laminar(h, lo, r);
        }
      } else {
        assert End(h, lo) > i;
      }
    }
  }

  /** The children of a node are the headings that have it as their parent. */
  lemma ChildrenAreByParent(h: seq<Heading>, j: nat, i: nat)
    requires j < i < |h|
    ensures i in Roots(h, j + 1, End(h, j)) <==> IsParent(h, j, i)
  {
    EndReaches(h, j, i + 1);
    if i < End(h, j) {
      RootsMember(h, j + 1, End(h, j), i);
      forall k | j < k <= i
        ensures h[k].source == h[j].source && h[k].level > h[j].level
      {
        assert Below(h, j, k);
      }
      if i in Roots(h, j + 1, End(h, j)) {
        NoneBetween(h, j, i, i - 1);
      } else {
        var q :| j + 1 <= q < i && End(h, q) > i;
        EndReaches(h, q, i + 1);
        assert Below(h, q, i);
      }
    } else if IsParent(h, j, i) {
      assert Spans(h, j, i + 1);
    }
  }

  lemma {:induction false} NoneBetween(h: seq<Heading>, j: nat, i: nat, k: nat)
    requires j <= k < i < |h| && Spans(h, j, i + 1) && forall q :: j < q < i ==> End(h, q) <= i
    requires forall m :: k < m < i ==> h[m].level >= h[i].level
    ensures forall m :: j < m < i ==> h[m].level >= h[i].level
    decreases k
  {
    if j < k {
      EndReaches(h, k, i + 1);
      if h[k].level < h[i].level {
        forall m | k < m <= i
          ensures Below(h, k, m)
        {
          assert Below(h, j, m) && Below(h, j, k);
        }
      }
      NoneBetween(h, j, i, k - 1);
    }
  }
}
