// The exact resolver `calculate2` (index.js:116-162): start from the sum of
// the areas, and while two rectangles overlap, subtract the overlap and
// replace the first of the pair by the parts of it outside the overlap.

module Resolver {
  import opened Geometry

  // ---------------------------------------------------------------------
  // The sort at index.js:129: `rectangles.sort((a, b) => a[0] - b[0])`,
  // a stable sort by left edge.

  predicate SortedByX0(list: seq<Rect>) {
    forall a, b :: 0 <= a < b < |list| ==> list[a].x0 <= list[b].x0
  }

  /** Puts r in front of the first element whose left edge is not smaller. */
  function InsertByX0(r: Rect, sorted: seq<Rect>): (s: seq<Rect>)
    ensures multiset(s) == multiset(sorted) + multiset{r}
    ensures SortedByX0(sorted) ==> SortedByX0(s)
  {
    if sorted == [] || r.x0 <= sorted[0].x0 then [r] + sorted
    else
      var rest := InsertByX0(r, sorted[1..]);
      InsertKeepsBound(r, sorted, rest);
      [sorted[0]] + rest
  }

  lemma InsertKeepsBound(r: Rect, sorted: seq<Rect>, rest: seq<Rect>)
    requires sorted != [] && sorted[0].x0 < r.x0
    requires multiset(rest) == multiset(sorted[1..]) + multiset{r}
    requires SortedByX0(sorted) ==> SortedByX0(rest)
    ensures multiset([sorted[0]] + rest) == multiset(sorted) + multiset{r}
    ensures SortedByX0(sorted) ==> SortedByX0([sorted[0]] + rest)
  {
    assert sorted == [sorted[0]] + sorted[1..];
    if SortedByX0(sorted) {
      forall k | 0 <= k < |rest| ensures sorted[0].x0 <= rest[k].x0 {
        assert rest[k] in multiset(rest);
        if rest[k] != r {
          assert rest[k] in multiset(sorted[1..]);
          var m :| 0 <= m < |sorted[1..]| && sorted[1..][m] == rest[k];
          assert sorted[m + 1] == rest[k];
        }
      }
    }
  }

  function SortByX0(list: seq<Rect>): (s: seq<Rect>)
    ensures multiset(s) == multiset(list)
    ensures SortedByX0(s)
  {
    if list == [] then []
    else
      assert list == [list[0]] + list[1..];
      InsertByX0(list[0], SortByX0(list[1..]))
  }

  lemma {:induction false} InsertByX0Sum(r: Rect, sorted: seq<Rect>, w: Rect -> int)
    ensures Sum(InsertByX0(r, sorted), w) == w(r) + Sum(sorted, w)
  {
    if sorted == [] || r.x0 <= sorted[0].x0 {
      assert ([r] + sorted)[1..] == sorted;
    } else {
      var rest := InsertByX0(r, sorted[1..]);
      assert ([sorted[0]] + rest)[1..] == rest;
      InsertByX0Sum(r, sorted[1..], w);
    }
  }

  /** Sorting keeps every weighted sum, and only permutes the list. */
  lemma {:induction false} SortByX0Sum(list: seq<Rect>, w: Rect -> int)
    ensures Sum(SortByX0(list), w) == Sum(list, w)
  {
    if list != [] {
      SortByX0Sum(list[1..], w);
      InsertByX0Sum(list[0], SortByX0(list[1..]), w);
    }
  }

  lemma SortByX0Covered(list: seq<Rect>)
    ensures Covered(SortByX0(list)) == Covered(list)
  {
    var s := SortByX0(list);
    forall r ensures r in s <==> r in list {
      assert r in s <==> r in multiset(s);
      assert r in list <==> r in multiset(list);
    }
    CoveredByMembers(s, list);
  }

  // ---------------------------------------------------------------------
  // One resolution step (index.js:138-149)

  /**
   * The list after resolving the overlap of entries i and j: entry i is
   * removed and its parts outside the overlap are appended.
   */
  function ResolveStep(list: seq<Rect>, i: nat, j: nat): (s: seq<Rect>)
    requires i < j < |list| && Intersect(list[i], list[j]).Some?
    ensures |s| == |list| - 1 + |SplitRectangle(list[i], Intersect(list[i], list[j]).value)|
    ensures s[|list| - 1..] == SplitRectangle(list[i], Intersect(list[i], list[j]).value)
  {
    list[..i] + list[i + 1..] + SplitRectangle(list[i], Intersect(list[i], list[j]).value)
  }

  /** A step keeps every entry other than i, in order, ahead of the pieces. */
  lemma ResolveStepKeeps(list: seq<Rect>, i: nat, j: nat)
    requires i < j < |list| && Intersect(list[i], list[j]).Some?
    ensures forall k :: 0 <= k < i ==> ResolveStep(list, i, j)[k] == list[k]
    ensures forall k :: i < k < |list| ==> ResolveStep(list, i, j)[k - 1] == list[k]
  {
  }

  /**
   * A step lowers the sum of the areas by exactly the overlap, keeps the
   * degenerate boxes, and lowers the area of the positive boxes by at
   * least 1.
   */
  lemma StepSums(list: seq<Rect>, i: nat, j: nat)
    requires i < j < |list| && Intersect(list[i], list[j]).Some?
    ensures SumArea(ResolveStep(list, i, j)) == SumArea(list) - Area(Intersect(list[i], list[j]).value)
    ensures DegenerateArea(ResolveStep(list, i, j)) == DegenerateArea(list)
    ensures PositiveArea(ResolveStep(list, i, j)) < PositiveArea(list)
  {
    var r, x := list[i], Intersect(list[i], list[j]).value;
    var pieces := SplitRectangle(r, x);
    var kept := list[..i] + list[i + 1..];
    SplitArea(r, x);
    PositivesNoDegenerateArea(pieces);
    StepSum(list, i, pieces, Area);
    StepSum(list, i, pieces, DegenerateWeight);
    StepSum(list, i, pieces, PositiveWeight);
  }

  lemma StepSum(list: seq<Rect>, i: nat, pieces: seq<Rect>, w: Rect -> int)
    requires i < |list|
    ensures Sum(list[..i] + list[i + 1..] + pieces, w) == Sum(list, w) - w(list[i]) + Sum(pieces, w)
  {
    SumAt(list, i, w);
    SumConcat(list[..i], list[i + 1..], w);
    SumConcat(list[..i] + list[i + 1..], pieces, w);
  }

  /** A step keeps the covered cells: the overlap stays covered by entry j. */
  lemma StepCovered(list: seq<Rect>, i: nat, j: nat)
    requires i < j < |list| && Intersect(list[i], list[j]).Some?
    ensures Covered(ResolveStep(list, i, j)) == Covered(list)
  {
    var r, x := list[i], Intersect(list[i], list[j]).value;
    var pieces := SplitRectangle(r, x);
    var front, back := list[..i], list[i + 1..];
    calc {
      Covered(ResolveStep(list, i, j));
      { assert ResolveStep(list, i, j) == front + back + pieces; }
      Covered(front + back + pieces);
      { CoveredConcat3(front, back, pieces); }
      Covered(front) + Covered(back) + Covered(pieces);
      { PiecesRegroup(list, i, j); }
      Covered(front) + Cells(r) + Covered(back);
      { CoveredAt(list, i); }
      Covered(list);
    }
  }

  /** The pieces of entry i, together with the rest after it, cover what entry i and the rest covered. */
  lemma PiecesRegroup(list: seq<Rect>, i: nat, j: nat)
    requires i < j < |list| && Intersect(list[i], list[j]).Some?
    ensures var x := Intersect(list[i], list[j]).value;
      Covered(list[..i]) + Covered(list[i + 1..]) + Covered(SplitRectangle(list[i], x))
      == Covered(list[..i]) + Cells(list[i]) + Covered(list[i + 1..])
  {
    var r, x := list[i], Intersect(list[i], list[j]).value;
    var back := list[i + 1..];
    SplitCells(r, x);
    OverlapCells(r, list[j]);
    assert list[j] == back[j - i - 1];
    CoveredContains(back, j - i - 1);
    RegroupCells(Covered(list[..i]), Covered(back), Covered(SplitRectangle(r, x)), Cells(x), Cells(r), Cells(list[j]));
  }

  lemma OverlapCells(a: Rect, b: Rect)
    requires Intersect(a, b).Some?
    ensures Cells(Intersect(a, b).value) <= Cells(a)
    ensures Cells(Intersect(a, b).value) <= Cells(b)
  {
    IntersectCells(a, b);
  }

  lemma RegroupCells<T>(before: set<T>, after: set<T>, pieces: set<T>, overlap: set<T>, whole: set<T>, other: set<T>)
    requires pieces == whole - overlap && overlap <= whole && overlap <= other && other <= after
    ensures before + after + pieces == before + whole + after
  {
  }

  lemma CoveredAt(list: seq<Rect>, i: nat)
    requires i < |list|
    ensures Covered(list) == Covered(list[..i]) + Cells(list[i]) + Covered(list[i + 1..])
  {
    SplitAt(list, i);
    CoveredConcat3(list[..i], [list[i]], list[i + 1..]);
    CoveredSingle(list[i]);
  }

  lemma SplitAt(list: seq<Rect>, i: nat)
    requires i < |list|
    ensures list == list[..i] + [list[i]] + list[i + 1..]
  {
  }

  lemma CoveredConcat3(a: seq<Rect>, b: seq<Rect>, c: seq<Rect>)
    ensures Covered(a + b + c) == Covered(a) + Covered(b) + Covered(c)
  {
    CoveredConcat(a + b, c);
    CoveredConcat(a, b);
  }

  /** `rectangles.concat(pieces)` followed by `splice(i, 1)`. */
  lemma ConcatThenSplice(list: seq<Rect>, pieces: seq<Rect>, i: nat)
    requires i < |list|
    ensures (list + pieces)[..i] + (list + pieces)[i + 1..] == list[..i] + list[i + 1..] + pieces
  {
  }

  /** (i, j) is the first overlapping pair in the order the two loops of index.js:136-137 visit pairs. */
  predicate FirstOverlap(list: seq<Rect>, i: nat, j: nat)
    ensures FirstOverlap(list, i, j) ==> !Disjoint(list)
  {
    i < j < |list| && Intersect(list[i], list[j]).Some? &&
    (forall a, b :: 0 <= a < i && a < b < |list| ==> Intersect(list[a], list[b]).None?) &&
    (forall b :: i < b < j ==> Intersect(list[i], list[b]).None?)
  }

  /** There is at most one first overlapping pair. */
  lemma FirstOverlapUnique(list: seq<Rect>, i: nat, j: nat, i': nat, j': nat)
    requires FirstOverlap(list, i, j) && FirstOverlap(list, i', j')
    ensures i == i' && j == j'
  {
  }

  /** What the update at index.js:141-149 does to the list and to the running sum. */
  lemma StepFacts(list: seq<Rect>, i: nat, j: nat)
    requires i < j < |list| && Intersect(list[i], list[j]).Some?
    ensures var x := Intersect(list[i], list[j]).value;
      var spliced := list + SplitRectangle(list[i], x);
      spliced[..i] + spliced[i + 1..] == ResolveStep(list, i, j)
    ensures SumArea(ResolveStep(list, i, j)) == SumArea(list) - Area(Intersect(list[i], list[j]).value)
    ensures Covered(ResolveStep(list, i, j)) == Covered(list)
    ensures DegenerateArea(ResolveStep(list, i, j)) == DegenerateArea(list)
    ensures PositiveArea(ResolveStep(list, i, j)) < PositiveArea(list)
  {
    ConcatThenSplice(list, SplitRectangle(list[i], Intersect(list[i], list[j]).value), i);
    StepSums(list, i, j);
    StepCovered(list, i, j);
  }

  // ---------------------------------------------------------------------
  // calculate2 (index.js:116-162)

  /**
   * One pass of the body of the while loop (index.js:133-159): look for
   * the first overlapping pair; if there is one, subtract the overlap from
   * the running sum and resolve it, and otherwise report that the list has
   * no overlap left.
   */
  method ResolvePass(list: seq<Rect>, totalArea: int) returns (next: seq<Rect>, nextArea: int, found: bool)
    requires totalArea == SumArea(list)
    ensures nextArea == SumArea(next)
    ensures Covered(next) == Covered(list)
    ensures DegenerateArea(next) == DegenerateArea(list)
    ensures found ==> PositiveArea(next) < PositiveArea(list)
    ensures found ==> exists i: nat, j: nat :: FirstOverlap(list, i, j) && next == ResolveStep(list, i, j)
    ensures !found ==> next == list && Disjoint(list)
  {
    next, nextArea, found := list, totalArea, false;
    var i := 0;
    while i < |next|
      invariant 0 <= i <= |list|
      invariant !found && next == list && nextArea == totalArea
      invariant forall a, b :: 0 <= a < i && a < b < |list| ==> Intersect(list[a], list[b]).None?
    {
      var j := i + 1;
      while j < |next|
        invariant i + 1 <= j <= |list|
        invariant !found && next == list && nextArea == totalArea
        invariant forall b :: i < b < j ==> Intersect(list[i], list[b]).None?
      {
        var intersection := Intersect(next[i], next[j]);
        if intersection.Some? {
          var x := intersection.value;
          nextArea := nextArea - Area(x);
          found := true;
          next := next + SplitRectangle(next[i], x);
          next := next[..i] + next[i + 1..];
          StepFacts(list, i, j);
          assert FirstOverlap(list, i, j);
          break;
        }
        j := j + 1;
      }
      if found {
        break;
      }
      i := i + 1;
    }
  }

  /**
   * The union area of the rectangles, plus the raw (x1 - x0) * (y1 - y0)
   * of the ones without positive area, which the source adds into its sum
   * and never removes; for well-formed input that part is 0.
   */
  method Calculate2(rectangles: seq<Rect>) returns (area: int)
    ensures area == UnionArea(rectangles) + DegenerateArea(rectangles)
    ensures AllWellFormed(rectangles) ==> area == UnionArea(rectangles)
  {
    if AllWellFormed(rectangles) {
      WellFormedNoDegenerateArea(rectangles);
    }
    if |rectangles| == 0 {
      return 0;
    }
    if |rectangles| == 1 {
      SingleUnionArea(rectangles[0]);
      assert rectangles == [rectangles[0]];
      return Area(rectangles[0]);
    }

    var totalArea := SumArea(rectangles);
    var list := SortByX0(rectangles);
    SortByX0Sum(rectangles, Area);
    SortByX0Sum(rectangles, DegenerateWeight);
    SortByX0Covered(rectangles);

    var foundIntersection := true;
    while foundIntersection
      invariant totalArea == SumArea(list)
      invariant Covered(list) == Covered(rectangles)
      invariant DegenerateArea(list) == DegenerateArea(rectangles)
      invariant !foundIntersection ==> Disjoint(list)
      decreases PositiveArea(list), foundIntersection
    {
      PositiveAreaNonNegative(list);
      list, totalArea, foundIntersection := ResolvePass(list, totalArea);
    }
    DisjointUnionArea(list);
    return totalArea;
  }
}
