/** Section ends of Markdown headings (scripts/course_board_server.py): the one-pass stack against the
    line-by-line scan. */
module HeadingSections {

  /** A line as the heading pattern sees it; `kept` is false for a heading-shaped line whose title the
      index refuses. */
  datatype Line = Plain | Shaped(level: nat, kept: bool)

  /** A heading of the index; lines are numbered from 1. */
  datatype Heading = Heading(level: nat, line: nat)

  predicate Indexed(l: Line) {
    l.Shaped? && l.kept
  }

  /** The headings among the first `n` lines. */
  function HeadingsOf(lines: seq<Line>, n: nat): (headings: seq<Heading>)
    requires n <= |lines|
    ensures |headings| <= n
  {
    if n == 0 then []
    else HeadingsOf(lines, n - 1) + if Indexed(lines[n - 1]) then [Heading(lines[n - 1].level, n)] else []
  }

  ghost predicate Fits(lines: seq<Line>, h: Heading) {
    1 <= h.line <= |lines| && Indexed(lines[h.line - 1]) && lines[h.line - 1].level == h.level
  }

  lemma {:induction false} HeadingsFit(lines: seq<Line>, n: nat)
    requires n <= |lines|
    ensures forall i :: 0 <= i < |HeadingsOf(lines, n)| ==>
      Fits(lines, HeadingsOf(lines, n)[i]) && HeadingsOf(lines, n)[i].line <= n
    ensures forall i, j :: 0 <= i < j < |HeadingsOf(lines, n)| ==>
      HeadingsOf(lines, n)[i].line < HeadingsOf(lines, n)[j].line
  {
    if n > 0 {
      HeadingsFit(lines, n - 1);
    }
  }

  lemma {:induction false} IndexedLineIsHeading(lines: seq<Line>, n: nat, k: nat) returns (i: nat)
    requires k < n <= |lines| && Indexed(lines[k])
    ensures i < |HeadingsOf(lines, n)| && HeadingsOf(lines, n)[i].line == k + 1
  {
    if k < n - 1 {
      i := IndexedLineIsHeading(lines, n - 1, k);
    } else {
      i := |HeadingsOf(lines, n - 1)|;
    }
  }

  ghost predicate IsHeadingLine(headings: seq<Heading>, line: nat, level: nat) {
    exists i :: 0 <= i < |headings| && headings[i] == Heading(level, line)
  }

  /** The first loop of `headings_from_source_snapshot`: the headings are the lines that the index takes,
      each with its level and number, in their order. */
  method CollectHeadings(lines: seq<Line>) returns (headings: seq<Heading>)
    ensures headings == HeadingsOf(lines, |lines|)
    ensures forall i, j :: 0 <= i < j < |headings| ==> headings[i].line < headings[j].line
    ensures forall line: nat, level: nat :: IsHeadingLine(headings, line, level) <==>
      1 <= line <= |lines| && lines[line - 1] == Shaped(level, true)
  {
    headings := [];
    for n := 0 to |lines|
      invariant headings == HeadingsOf(lines, n)
    {
      if Indexed(lines[n]) {
        headings := headings + [Heading(lines[n].level, n + 1)];
      }
    }
    HeadingsFit(lines, |lines|);
    forall line: nat, level: nat | 1 <= line <= |lines| && lines[line - 1] == Shaped(level, true)
      ensures IsHeadingLine(headings, line, level)
    {
      var i := IndexedLineIsHeading(lines, |lines|, line - 1);
      assert Fits(lines, headings[i]);
    }
  }

  // --------------------------------------------------------------------------------- the stack

  /** The first heading from `j` on that ends the section of heading `i`, or `|h|`. */
  function Closer(h: seq<Heading>, i: nat, j: nat): (k: nat)
    requires i < |h| && j <= |h|
    ensures j <= k <= |h|
    decreases |h| - j
  {
    if j == |h| || h[j].level <= h[i].level then j else Closer(h, i, j + 1)
  }

  /** The line at which the section of heading `i` ends; `count` is the number of lines. */
  function EndLine(h: seq<Heading>, i: nat, count: nat): nat
    requires i < |h|
  {
    var k := Closer(h, i, i + 1);
    if k == |h| then count + 1 else h[k].line
  }

  /** Heading `j` is still open before heading `i`. */
  predicate OpenAt(h: seq<Heading>, j: nat, i: nat)
    requires j < i <= |h|
  {
    forall m :: j < m < i ==> h[m].level > h[j].level
  }

  lemma {:induction false} CloserExactly(h: seq<Heading>, i: nat, j: nat, k: nat)
    requires i < j <= |h| && OpenAt(h, i, j) && i < k <= |h|
    ensures Closer(h, i, j) == k <==> j <= k && OpenAt(h, i, k) && (k < |h| ==> h[k].level <= h[i].level)
    decreases |h| - j
  {
    if j < |h| && h[j].level > h[i].level {
      CloserExactly(h, i, j + 1, k);
    }
  }

  /** The stack holds the headings that are open before heading `i`, at rising levels. */
  ghost predicate StackAt(h: seq<Heading>, i: nat, open: seq<nat>) {
    && i <= |h|
    && (forall s :: 0 <= s < |open| ==> open[s] < i && OpenAt(h, open[s], i))
    && (forall j :: 0 <= j < i && OpenAt(h, j, i) ==> j in open)
    && forall s, t :: 0 <= s < t < |open| ==> open[s] < open[t] && h[open[s]].level < h[open[t]].level
  }

  /** Heading `i` closes the top of the stack from position `kept` on, and is then open itself. */
  ghost predicate Closes(h: seq<Heading>, i: nat, stack: seq<nat>, kept: nat) {
    && StackAt(h, i, stack) && i < |h| && kept <= |stack|
    && (forall s :: kept <= s < |stack| ==> h[i].level <= h[stack[s]].level)
    && (kept > 0 ==> h[stack[kept - 1]].level < h[i].level)
  }

  predicate Popped(stack: seq<nat>, kept: nat, j: nat) {
    exists s :: kept <= s < |stack| && stack[s] == j
  }

  lemma PoppedMore(stack: seq<nat>, kept: nat)
    requires 0 < kept <= |stack|
    ensures forall j :: Popped(stack, kept - 1, j) <==> Popped(stack, kept, j) || j == stack[kept - 1]
  {
  }

  lemma PoppedAreClosed(h: seq<Heading>, i: nat, stack: seq<nat>, kept: nat, j: nat)
    requires Closes(h, i, stack, kept) && j < i
    ensures Popped(stack, kept, j) <==> OpenAt(h, j, i) && !OpenAt(h, j, i + 1)
  {
  }

  lemma StackStep(h: seq<Heading>, i: nat, stack: seq<nat>, kept: nat)
    requires Closes(h, i, stack, kept)
    ensures StackAt(h, i + 1, stack[..kept] + [i])
  {
    var next := stack[..kept] + [i];
    forall s | 0 <= s < kept
      ensures OpenAt(h, next[s], i + 1) && h[next[s]].level < h[i].level
    {
      assert s < kept - 1 ==> h[stack[s]].level < h[stack[kept - 1]].level;
    }
    forall j | 0 <= j < i && OpenAt(h, j, i + 1)
      ensures j in next
    {
      assert OpenAt(h, j, i);
      var s :| 0 <= s < |stack| && stack[s] == j;
      assert s < kept && next[s] == j;
    }
    assert next[kept] == i;
  }

  /** The entry of heading `j` in `end_lines` once the first `i` headings are done. */
  function EndSoFar(h: seq<Heading>, j: nat, i: nat, count: nat): nat
    requires j < |h| && i <= |h|
  {
    if j < i && !OpenAt(h, j, i) then EndLine(h, j, count) else count + 1
  }

  lemma EndIsSettled(h: seq<Heading>, j: nat, i: nat, count: nat)
    requires j < i < |h| && OpenAt(h, j, i) && !OpenAt(h, j, i + 1)
    ensures EndLine(h, j, count) == h[i].line
  {
    CloserExactly(h, j, j + 1, i);
  }

  lemma EndIsOpen(h: seq<Heading>, j: nat, count: nat)
    requires j < |h|
    ensures EndLine(h, j, count) == EndSoFar(h, j, |h|, count)
  {
    if OpenAt(h, j, |h|) {
      CloserExactly(h, j, j + 1, |h|);
    }
  }

  /** `headings_from_source_snapshot`, its computation of `end_lines`. */
  method SectionEnds(h: seq<Heading>, count: nat) returns (ends: array<nat>)
    ensures fresh(ends) && ends.Length == |h|
    ensures forall i :: 0 <= i < |h| ==> ends[i] == EndLine(h, i, count)
  {
    ends := new nat[|h|](i => count + 1);
    var open: seq<nat> := [];
    for i := 0 to |h|
      invariant StackAt(h, i, open)
      invariant forall j :: 0 <= j < |h| ==> ends[j] == EndSoFar(h, j, i, count)
    {
      ghost var stack := open;
      open := CloseSections(h, i, open, ends);
      StackStep(h, i, stack, |open|);
      forall j | 0 <= j < |h|
        ensures ends[j] == EndSoFar(h, j, i + 1, count)
      {
        EndStep(h, i, stack, |open|, j, count);
      }
      open := open + [i];
    }
    forall i | 0 <= i < |h|
      ensures ends[i] == EndLine(h, i, count)
    {
      EndIsOpen(h, i, count);
    }
  }

  /** The inner loop for heading `i`: pop what it closes, and settle where those sections end. */
  method CloseSections(h: seq<Heading>, i: nat, stack: seq<nat>, ends: array<nat>) returns (open: seq<nat>)
    requires StackAt(h, i, stack) && i < |h| && ends.Length == |h|
    modifies ends
    ensures |open| <= |stack| && open == stack[..|open|] && Closes(h, i, stack, |open|)
    ensures forall j :: 0 <= j < |h| ==> ends[j] == if Popped(stack, |open|, j) then h[i].line else old(ends[j])
  {
    var kept := |stack|;
    while kept > 0 && h[i].level <= h[stack[kept - 1]].level
      invariant 0 <= kept <= |stack|
      invariant forall s :: kept <= s < |stack| ==> h[i].level <= h[stack[s]].level
      invariant forall j :: 0 <= j < |h| ==> ends[j] == if Popped(stack, kept, j) then h[i].line else old(ends[j])
    {
      PoppedMore(stack, kept);
      ends[stack[kept - 1]] := h[i].line;
      kept := kept - 1;
    }
    open := stack[..kept];
  }

  lemma EndStep(h: seq<Heading>, i: nat, stack: seq<nat>, kept: nat, j: nat, count: nat)
    requires Closes(h, i, stack, kept) && j < |h|
    ensures EndSoFar(h, j, i + 1, count) == if Popped(stack, kept, j) then h[i].line else EndSoFar(h, j, i, count)
  {
    if j < i {
      PoppedAreClosed(h, i, stack, kept, j);
      if Popped(stack, kept, j) {
        EndIsSettled(h, j, i, count);
      }
    }
  }

  // ---------------------------------------------------------------------------- the plain scan

  /** The first line from `k` on (counted from 0) where the scan for a section of `level` stops. */
  function ScanStop(lines: seq<Line>, k: nat, level: nat): (stop: nat)
    requires k <= |lines|
    ensures k <= stop <= |lines| && (stop < |lines| ==> lines[stop].Shaped? && lines[stop].level <= level)
    ensures forall m :: k <= m < stop ==> !(lines[m].Shaped? && lines[m].level <= level)
    decreases |lines| - k
  {
    if k == |lines| || (lines[k].Shaped? && lines[k].level <= level) then k else ScanStop(lines, k + 1, level)
  }

  /** `section_text_from_lines`, without the joining of the lines. */
  method ScanSection(lines: seq<Line>, startLine: nat, level: nat) returns (section: seq<Line>)
    ensures section ==
      if startLine < 1 || startLine > |lines| then [] else lines[startLine..ScanStop(lines, startLine, level)]
  {
    section := [];
    if startLine < 1 || startLine > |lines| {
      return;
    }
    for k := startLine to |lines|
      invariant section == lines[startLine..k] && ScanStop(lines, startLine, level) == ScanStop(lines, k, level)
    {
      if lines[k].Shaped? && lines[k].level <= level {
        return;
      }
      section := section + [lines[k]];
    }
  }

  /** A refused heading-shaped line that would end the section of heading `i`, inside that section. */
  ghost predicate Intruder(lines: seq<Line>, h: seq<Heading>, i: nat, k: nat)
    requires i < |h|
  {
    h[i].line <= k < |lines| && k + 1 < EndLine(h, i, |lines|) && lines[k].Shaped? && !lines[k].kept &&
      lines[k].level <= h[i].level
  }

  /** The two section ends of heading `i` agree exactly when no refused heading-shaped line intrudes. */
  lemma SectionEndsAgree(lines: seq<Line>, i: nat)
    requires i < |HeadingsOf(lines, |lines|)|
    ensures
      var h := HeadingsOf(lines, |lines|);
      h[i].line <= |lines| &&
      (ScanStop(lines, h[i].line, h[i].level) + 1 == EndLine(h, i, |lines|) <==> forall k :: !Intruder(lines, h, i, k))
  {
    var h := HeadingsOf(lines, |lines|);
    HeadingsFit(lines, |lines|);
    var stop, end, c := ScanStop(lines, h[i].line, h[i].level), EndLine(h, i, |lines|), Closer(h, i, i + 1);
    CloserExactly(h, i, i + 1, c);
    assert c < |h| ==> Fits(lines, h[c]) && h[c].line > h[i].line;
    if stop + 1 < end {
      if lines[stop].kept {
        var m := IndexedLineIsHeading(lines, |lines|, stop);
      }
      assert Intruder(lines, h, i, stop);
    }
  }

  /** The smallest source where they do not: a heading-shaped line of the same level whose title the index
      refuses ends the section for the scan only. */
  lemma RefusedTitleExtendsSection(level: nat)
    ensures
      var lines := [Shaped(level, true), Shaped(level, false)];
      var h := HeadingsOf(lines, 2);
      h == [Heading(level, 1)] && ScanStop(lines, 1, level) + 1 == 2 && EndLine(h, 0, 2) == 3
  {
    var lines := [Shaped(level, true), Shaped(level, false)];
    assert HeadingsOf(lines, 1) == [Heading(level, 1)] && HeadingsOf(lines, 2) == HeadingsOf(lines, 1);
    CloserExactly([Heading(level, 1)], 0, 1, 1);
  }
}
