// The expected values of the commented test cases in index.js (lines
// 213-496), stated about the union area and, for the entry point,
// about what `calculate` returns.

module Scenarios {
  import opened Geometry
  import opened Resolver
  import opened Partition

  /**
   * When a single resolution step leaves no overlap, the union area of the
   * input is the plain sum of the areas after that step.
   */
  lemma OneStepResolves(list: seq<Rect>, i: nat, j: nat)
    requires i < j < |list| && Intersect(list[i], list[j]).Some?
    requires Disjoint(ResolveStep(list, i, j)) && AllWellFormed(ResolveStep(list, i, j))
    ensures UnionArea(list) == SumArea(ResolveStep(list, i, j))
  {
    StepCovered(list, i, j);
    WellFormedNoDegenerateArea(ResolveStep(list, i, j));
    DisjointUnionArea(ResolveStep(list, i, j));
  }

  /** index.js:244-252: the first two overlap in [6, 3, 8, 5]; what remains of the first is [3, 3, 6, 5]. */
  lemma ThreeRectangles()
    ensures UnionArea([Rect(3, 3, 8, 5), Rect(6, 3, 8, 9), Rect(11, 6, 14, 12)]) == 36
  {
    var list := [Rect(3, 3, 8, 5), Rect(6, 3, 8, 9), Rect(11, 6, 14, 12)];
    var overlap := Rect(6, 3, 8, 5);
    var after := [Rect(6, 3, 8, 9), Rect(11, 6, 14, 12), Rect(3, 3, 6, 5)];
    assert Intersect(list[0], list[1]) == Some(overlap);
    assert SplitRectangle(list[0], overlap) == [Rect(3, 3, 6, 5)] by {
      assert LeftSlab(list[0], overlap) == [Rect(3, 3, 6, 5)];
      assert RightSlab(list[0], overlap) == [];
      assert BottomSlab(list[0], overlap) == [];
      assert TopSlab(list[0], overlap) == [];
    }
    assert ResolveStep(list, 0, 1) == after by {
      assert list[..0] + list[1..] == after[..2];
    }
    assert Disjoint(after) by {
      assert Intersect(after[0], after[1]).None?;
      assert Intersect(after[0], after[2]).None?;
      assert Intersect(after[1], after[2]).None?;
    }
    assert SumArea(after) == 12 + 18 + 6;
    OneStepResolves(list, 0, 1);
  }

  /** Two boxes overlapping in `x` cover the sum of their areas less that of `x`. */
  lemma OverlappingPair(a: Rect, b: Rect, x: Rect)
    requires WellFormed(a) && WellFormed(b) && Intersect(a, b) == Some(x)
    ensures UnionArea([a, b]) == Area(a) + Area(b) - Area(x)
  {
    UnionAreaPair(a, b);
  }

  /** index.js:227-234: two unit squares touching at a corner. */
  lemma TouchingCorner()
    ensures UnionArea([Rect(0, 0, 1, 1), Rect(1, 1, 2, 2)]) == 2
  {
    var a, b := Rect(0, 0, 1, 1), Rect(1, 1, 2, 2);
    assert Intersect(a, b).None?;
    UnionAreaPair(a, b);
  }

  /** index.js:236-243: a unit square inside a 2 × 2 square. */
  lemma UnitInsideSquare()
    ensures UnionArea([Rect(0, 0, 1, 1), Rect(0, 0, 2, 2)]) == 4
  {
    OverlappingPair(Rect(0, 0, 1, 1), Rect(0, 0, 2, 2), Rect(0, 0, 1, 1));
  }

  /** index.js:265-272: a full-width band inside the first rectangle. */
  lemma NestedBand()
    ensures UnionArea([Rect(1, 7, 3, 10), Rect(1, 8, 3, 9)]) == 6
  {
    OverlappingPair(Rect(1, 7, 3, 10), Rect(1, 8, 3, 9), Rect(1, 8, 3, 9));
  }

  /** index.js:273-280: a unit square in the middle of a 3 × 3 square. */
  lemma NestedCentre()
    ensures UnionArea([Rect(6, 7, 9, 10), Rect(7, 8, 8, 9)]) == 9
  {
    OverlappingPair(Rect(6, 7, 9, 10), Rect(7, 8, 8, 9), Rect(7, 8, 8, 9));
  }

  /** index.js:290-297: an overlap of one cell, above. */
  lemma OverlapAbove()
    ensures UnionArea([Rect(1, 1, 4, 3), Rect(2, 2, 3, 4)]) == 7
  {
    OverlappingPair(Rect(1, 1, 4, 3), Rect(2, 2, 3, 4), Rect(2, 2, 3, 3));
  }

  /** index.js:298-305: an overlap of one cell, to the right. */
  lemma OverlapRight()
    ensures UnionArea([Rect(5, 0, 7, 3), Rect(6, 1, 8, 2)]) == 7
  {
    OverlappingPair(Rect(5, 0, 7, 3), Rect(6, 1, 8, 2), Rect(6, 1, 7, 2));
  }

  /** index.js:306-313: an overlap of one cell, above and to the right. */
  lemma OverlapAboveRight()
    ensures UnionArea([Rect(9, 0, 11, 2), Rect(10, 1, 12, 3)]) == 7
  {
    OverlappingPair(Rect(9, 0, 11, 2), Rect(10, 1, 12, 3), Rect(10, 1, 11, 2));
  }

  /** index.js:314-321: an overlap of one cell, below. */
  lemma OverlapBelow()
    ensures UnionArea([Rect(13, 1, 16, 3), Rect(14, 0, 15, 2)]) == 7
  {
    OverlappingPair(Rect(13, 1, 16, 3), Rect(14, 0, 15, 2), Rect(14, 1, 15, 2));
  }

  /** index.js:322-329: an overlap of one cell, below and to the right. */
  lemma OverlapBelowRight()
    ensures UnionArea([Rect(17, 1, 19, 3), Rect(18, 0, 20, 2)]) == 7
  {
    OverlappingPair(Rect(17, 1, 19, 3), Rect(18, 0, 20, 2), Rect(18, 1, 19, 2));
  }

  /** index.js:330-337: the second rectangle covers one whole side of the first. */
  lemma OverlapSide()
    ensures UnionArea([Rect(13, 5, 15, 6), Rect(14, 4, 16, 7)]) == 7
  {
    OverlappingPair(Rect(13, 5, 15, 6), Rect(14, 4, 16, 7), Rect(14, 5, 15, 6));
  }

  /** index.js:408-415: a cross of two bars. */
  lemma Cross()
    ensures UnionArea([Rect(9, 5, 12, 6), Rect(10, 4, 11, 7)]) == 5
  {
    OverlappingPair(Rect(9, 5, 12, 6), Rect(10, 4, 11, 7), Rect(10, 5, 11, 6));
  }

  /** index.js:281-289: every rectangle lies inside the first. */
  lemma NestedTwo()
    ensures UnionArea([Rect(1, 7, 4, 10), Rect(2, 7, 4, 9), Rect(3, 7, 4, 9)]) == 9
  {
    UnionAreaAllInside([Rect(1, 7, 4, 10), Rect(2, 7, 4, 9), Rect(3, 7, 4, 9)], 0);
  }

  /** index.js:362-383: every rectangle lies inside [1, 1, 6, 6]. */
  lemma InsideFirst()
    ensures UnionArea([Rect(1, 1, 6, 6), Rect(1, 3, 4, 6), Rect(2, 3, 4, 6), Rect(2, 4, 5, 6), Rect(3, 5, 4, 6)]) == 25
    ensures UnionArea([Rect(1, 1, 6, 6), Rect(2, 1, 6, 6), Rect(3, 1, 6, 6), Rect(4, 1, 6, 6), Rect(5, 2, 6, 5)]) == 25
  {
    UnionAreaAllInside([Rect(1, 1, 6, 6), Rect(1, 3, 4, 6), Rect(2, 3, 4, 6), Rect(2, 4, 5, 6), Rect(3, 5, 4, 6)], 0);
    UnionAreaAllInside([Rect(1, 1, 6, 6), Rect(2, 1, 6, 6), Rect(3, 1, 6, 6), Rect(4, 1, 6, 6), Rect(5, 2, 6, 5)], 0);
  }

  /** index.js:427-435: every rectangle lies inside the last. */
  lemma Pyramid()
    ensures UnionArea([Rect(1, 2, 6, 6), Rect(1, 3, 5, 5), Rect(1, 1, 7, 7)]) == 36
  {
    UnionAreaAllInside([Rect(1, 2, 6, 6), Rect(1, 3, 5, 5), Rect(1, 1, 7, 7)], 2);
  }

  /** index.js:447-458: six copies of the unit square [1, 1, 2, 2]. */
  function SixCopiesInput(): seq<Rect> {
    [Rect(1, 1, 2, 2), Rect(1, 1, 2, 2), Rect(1, 1, 2, 2),
     Rect(1, 1, 2, 2), Rect(1, 1, 2, 2), Rect(1, 1, 2, 2)]
  }

  /** Repeated rectangles cover one cell once. */
  lemma SixCopies()
    ensures UnionArea(SixCopiesInput()) == 1
  {
    UnionAreaAllInside(SixCopiesInput(), 0);
  }

  /** index.js:477-496: [2, 2, 17, 2k] for k = 1 .. 14. */
  function WaterfallInput(): seq<Rect> {
    [Rect(2, 2, 17, 2), Rect(2, 2, 17, 4), Rect(2, 2, 17, 6), Rect(2, 2, 17, 8),
     Rect(2, 2, 17, 10), Rect(2, 2, 17, 12), Rect(2, 2, 17, 14), Rect(2, 2, 17, 16),
     Rect(2, 2, 17, 18), Rect(2, 2, 17, 20), Rect(2, 2, 17, 22), Rect(2, 2, 17, 24),
     Rect(2, 2, 17, 26), Rect(2, 2, 17, 28)]
  }

  /** Every rectangle of the waterfall lies inside the last one, [2, 2, 17, 28]. */
  lemma Waterfall()
    ensures UnionArea(WaterfallInput()) == 390
  {
    UnionAreaAllInside(WaterfallInput(), 13);
  }

  /** The entry point on the test cases with fewer than two rectangles. */
  method SmallCorpus() returns (empty: int, unit: int, wide: int)
    ensures empty == 0 && unit == 1 && wide == 22
  {
    empty := Calculate([]);
    unit := Calculate([Rect(0, 0, 1, 1)]);
    wide := Calculate([Rect(0, 4, 11, 6)]);
  }

  /** The entry point on test cases with two or more rectangles. */
  method PairCorpus() {
    var corner := [Rect(0, 0, 1, 1), Rect(1, 1, 2, 2)];
    assert NonNegative(corner);
    TouchingCorner();
    var cornerArea := Calculate(corner);
    assert cornerArea == 2;
  }

  method CrossCorpus() {
    var cross := [Rect(9, 5, 12, 6), Rect(10, 4, 11, 7)];
    assert NonNegative(cross);
    Cross();
    var crossArea := Calculate(cross);
    assert crossArea == 5;
  }

  method ThreeCorpus() {
    var three := [Rect(3, 3, 8, 5), Rect(6, 3, 8, 9), Rect(11, 6, 14, 12)];
    assert NonNegative(three);
    ThreeRectangles();
    var threeArea := Calculate(three);
    assert threeArea == 36;
  }

  method RepeatedCorpus() {
    var copies := SixCopiesInput();
    assert NonNegative(copies);
    SixCopies();
    var copiesArea := Calculate(copies);
    assert copiesArea == 1;
  }

  method WaterfallCorpus() {
    var waterfall := WaterfallInput();
    assert NonNegative(waterfall);
    Waterfall();
    var waterfallArea := Calculate(waterfall);
    assert waterfallArea == 390;
  }
}
