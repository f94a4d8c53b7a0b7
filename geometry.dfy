// Axis-aligned rectangles, their intersection and the split of a rectangle
// around a box inside it, together with the meaning of "union area": the
// number of integer unit cells covered by at least one rectangle.

module Geometry {

  datatype Option<T> = None | Some(value: T)

  /** The box [x0, x1) × [y0, y1), written [x0, y0, x1, y1] in the source. */
  datatype Rect = Rect(x0: int, y0: int, x1: int, y1: int)

  function Max(a: int, b: int): int { if a >= b then a else b }

  function Min(a: int, b: int): int { if a <= b then a else b }

  /** A box with positive area; only such boxes ever intersect anything. */
  predicate Positive(r: Rect) { r.x0 < r.x1 && r.y0 < r.y1 }

  /** A box that is not inverted along either axis. */
  predicate WellFormed(r: Rect) { r.x0 <= r.x1 && r.y0 <= r.y1 }

  predicate Inside(inner: Rect, outer: Rect) {
    outer.x0 <= inner.x0 && inner.x1 <= outer.x1 && outer.y0 <= inner.y0 && inner.y1 <= outer.y1
  }

  /**
   * The area as the source computes it, (x1 - x0) * (y1 - y0). It is not
   * clipped at zero: a box inverted along both axes gets a positive value.
   */
  function Area(r: Rect): (a: int)
    ensures Positive(r) ==> a > 0
    ensures WellFormed(r) && !Positive(r) ==> a == 0
  {
    (r.x1 - r.x0) * (r.y1 - r.y0)
  }

  /** Sum of a weight over a list of rectangles (the source's `reduce`). */
  function Sum(list: seq<Rect>, w: Rect -> int): int {
    if list == [] then 0 else w(list[0]) + Sum(list[1..], w)
  }

  function SumArea(list: seq<Rect>): int { Sum(list, Area) }

  /** The raw area of a box that has no positive area, and 0 otherwise. */
  function DegenerateWeight(r: Rect): int { if Positive(r) then 0 else Area(r) }

  /** The area of a box with positive area, and 0 otherwise. */
  function PositiveWeight(r: Rect): int { if Positive(r) then Area(r) else 0 }

  /** What boxes without positive area add to SumArea; 0 for well-formed boxes. */
  function DegenerateArea(list: seq<Rect>): int { Sum(list, DegenerateWeight) }

  function PositiveArea(list: seq<Rect>): int { Sum(list, PositiveWeight) }

  /** The boxes of the list that have positive area, in list order. */
  function Positives(list: seq<Rect>): (r: seq<Rect>)
    ensures forall b :: b in r <==> b in list && Positive(b)
  {
    if list == [] then []
    else if Positive(list[0]) then [list[0]] + Positives(list[1..])
    else Positives(list[1..])
  }

  predicate AllWellFormed(list: seq<Rect>) { forall k :: 0 <= k < |list| ==> WellFormed(list[k]) }

  // ---------------------------------------------------------------------
  // Covered unit cells

  /** The unit cell with lower-left corner p lies in r. */
  predicate Covers(r: Rect, p: (int, int)) { r.x0 <= p.0 < r.x1 && r.y0 <= p.1 < r.y1 }

  ghost function Cells(r: Rect): (s: set<(int, int)>)
    ensures forall p :: p in s <==> Covers(r, p)
  {
    var s := set px, py | r.x0 <= px < r.x1 && r.y0 <= py < r.y1 :: (px, py);
    assert forall p :: Covers(r, p) ==> p in s by {
      forall p | Covers(r, p) ensures p in s {
        assert p == (p.0, p.1);
      }
    }
    s
  }

  /** The unit cells covered by some rectangle of the list. */
  ghost function Covered(list: seq<Rect>): set<(int, int)> {
    if list == [] then {} else Cells(list[0]) + Covered(list[1..])
  }

  /** The area of the union of the rectangles, each overlap counted once. */
  ghost function UnionArea(list: seq<Rect>): nat { |Covered(list)| }

  /** No two entries of the list (at different positions) overlap with positive area. */
  predicate Disjoint(list: seq<Rect>) {
    forall a, b :: 0 <= a < b < |list| ==> Intersect(list[a], list[b]).None?
  }

  // ---------------------------------------------------------------------
  // getIntersection (index.js:164-175, and its copy Grid.getIntersection)

  /**
   * The common part of two boxes, or None (the source's `false`) when it has
   * no positive area; boxes that only share an edge or a corner do not intersect.
   */
  function Intersect(a: Rect, b: Rect): (r: Option<Rect>)
    ensures r.Some? ==> Positive(r.value) && Inside(r.value, a) && Inside(r.value, b)
    ensures r.Some? ==> forall c :: Inside(c, a) && Inside(c, b) ==> Inside(c, r.value)
    ensures r.None? <==> Max(a.x0, b.x0) >= Min(a.x1, b.x1) || Max(a.y0, b.y0) >= Min(a.y1, b.y1)
  {
    var left := Max(a.x0, b.x0);
    var right := Min(a.x1, b.x1);
    var bottom := Max(a.y0, b.y0);
    var top := Min(a.y1, b.y1);
    if left >= right || bottom >= top then None else Some(Rect(left, bottom, right, top))
  }

  // ---------------------------------------------------------------------
  // splitRectangle (index.js:177-206)

  /**
   * The parts of r outside x, as up to four slabs in the order left, right,
   * bottom, top; a slab is produced only when the corresponding edge of x
   * lies strictly inside r.
   */
  function SplitRectangle(r: Rect, x: Rect): (pieces: seq<Rect>)
    ensures |pieces| <= 4
    ensures x == r ==> pieces == []
    ensures Positive(x) && Inside(x, r) ==>
      forall p :: p in pieces ==> Positive(p) && Inside(p, r) && Intersect(p, x).None?
  {
    LeftSlab(r, x) + RightSlab(r, x) + BottomSlab(r, x) + TopSlab(r, x)
  }

  // ---------------------------------------------------------------------
  // Sums

  lemma {:induction false} SumConcat(a: seq<Rect>, b: seq<Rect>, w: Rect -> int)
    ensures Sum(a + b, w) == Sum(a, w) + Sum(b, w)
  {
    if a == [] {
      assert a + b == b;
    } else {
      assert (a + b)[0] == a[0];
      assert (a + b)[1..] == a[1..] + b;
      SumConcat(a[1..], b, w);
    }
  }

  lemma SumAt(list: seq<Rect>, i: nat, w: Rect -> int)
    requires i < |list|
    ensures Sum(list, w) == Sum(list[..i], w) + w(list[i]) + Sum(list[i + 1..], w)
  {
    assert list == list[..i] + [list[i]] + list[i + 1..];
    SumConcat(list[..i] + [list[i]], list[i + 1..], w);
    SumConcat(list[..i], [list[i]], w);
  }

  lemma {:induction false} PositiveAreaNonNegative(list: seq<Rect>)
    ensures PositiveArea(list) >= 0
  {
    if list != [] {
      PositiveAreaNonNegative(list[1..]);
    }
  }

  /** Boxes that are well formed but have no positive area have area 0. */
  lemma {:induction false} WellFormedNoDegenerateArea(list: seq<Rect>)
    requires AllWellFormed(list)
    ensures DegenerateArea(list) == 0
  {
    if list != [] {
      WellFormedNoDegenerateArea(list[1..]);
    }
  }

  lemma {:induction false} PositivesNoDegenerateArea(list: seq<Rect>)
    requires forall r :: r in list ==> Positive(r)
    ensures DegenerateArea(list) == 0
    ensures PositiveArea(list) == SumArea(list)
  {
    if list != [] {
      PositivesNoDegenerateArea(list[1..]);
    }
  }

  // ---------------------------------------------------------------------
  // Cells and covered sets

  lemma {:induction false} CardColumn(r: Rect)
    requires r.x1 == r.x0 + 1 && r.y0 <= r.y1
    ensures |Cells(r)| == r.y1 - r.y0
    decreases r.y1 - r.y0
  {
    if r.y0 == r.y1 {
      assert Cells(r) == {};
    } else {
      var rest := r.(y0 := r.y0 + 1);
      assert Cells(r) == {(r.x0, r.y0)} + Cells(rest);
      assert (r.x0, r.y0) !in Cells(rest);
      CardColumn(rest);
    }
  }

  /** Cutting off the column at the left edge of a box. */
  lemma ColumnSplit(r: Rect)
    requires r.x0 < r.x1
    ensures Cells(r) == Cells(r.(x1 := r.x0 + 1)) + Cells(r.(x0 := r.x0 + 1))
    ensures Cells(r.(x1 := r.x0 + 1)) !! Cells(r.(x0 := r.x0 + 1))
  {
  }

  lemma ColumnArea(r: Rect)
    requires r.x0 < r.x1
    ensures Area(r) == (r.y1 - r.y0) + Area(r.(x0 := r.x0 + 1))
  {
    var w, h := r.x1 - r.x0, r.y1 - r.y0;
    calc {
      Area(r);
      w * h;
      (w - 1) * h + h;
      Area(r.(x0 := r.x0 + 1)) + h;
    }
  }

  /** A well-formed box covers exactly Area(r) unit cells. */
  lemma {:induction false} CardCells(r: Rect)
    requires WellFormed(r)
    ensures |Cells(r)| == Area(r)
    decreases r.x1 - r.x0
  {
    if r.x0 == r.x1 {
      assert Cells(r) == {};
    } else {
      ColumnSplit(r);
      CardColumn(r.(x1 := r.x0 + 1));
      CardCells(r.(x0 := r.x0 + 1));
      ColumnArea(r);
    }
  }

  lemma {:induction false} CoveredMembership(list: seq<Rect>, p: (int, int))
    ensures p in Covered(list) <==> exists r :: r in list && Covers(r, p)
  {
    if list != [] {
      CoveredMembership(list[1..], p);
      if p in Covered(list[1..]) {
        var r :| r in list[1..] && Covers(r, p);
        assert r in list;
      }
      forall r | r in list && Covers(r, p) ensures p in Covered(list) {
        if r != list[0] {
          assert r in list[1..];
        }
      }
    }
  }

  /** The covered set depends only on which rectangles occur, not on order or repetition. */
  lemma CoveredByMembers(a: seq<Rect>, b: seq<Rect>)
    requires forall r :: r in a <==> r in b
    ensures Covered(a) == Covered(b)
  {
    forall p ensures p in Covered(a) <==> p in Covered(b) {
      CoveredMembership(a, p);
      CoveredMembership(b, p);
    }
  }

  lemma CoveredConcat(a: seq<Rect>, b: seq<Rect>)
    ensures Covered(a + b) == Covered(a) + Covered(b)
  {
    forall p ensures p in Covered(a + b) <==> p in Covered(a) + Covered(b) {
      CoveredMembership(a + b, p);
      CoveredMembership(a, p);
      CoveredMembership(b, p);
    }
  }

  lemma CoveredSingle(r: Rect)
    ensures Covered([r]) == Cells(r)
  {
    assert [r][1..] == [];
  }

  lemma CoveredContains(list: seq<Rect>, k: nat)
    requires k < |list|
    ensures Cells(list[k]) <= Covered(list)
  {
    forall p | p in Cells(list[k]) ensures p in Covered(list) {
      CoveredMembership(list, p);
    }
  }

  /** Boxes without positive area cover nothing, so dropping them keeps the covered set. */
  lemma CoveredPositives(list: seq<Rect>)
    ensures Covered(Positives(list)) == Covered(list)
  {
    forall p ensures p in Covered(Positives(list)) <==> p in Covered(list) {
      CoveredMembership(Positives(list), p);
      CoveredMembership(list, p);
    }
  }

  // ---------------------------------------------------------------------
  // Intersection and split

  /**
   * Intersect finds no box exactly when the two boxes share no unit cell, and
   * otherwise the box it returns covers exactly their common cells.
   */
  lemma IntersectCells(a: Rect, b: Rect)
    ensures Intersect(a, b).None? <==> Cells(a) * Cells(b) == {}
    ensures Intersect(a, b).Some? ==> Cells(Intersect(a, b).value) == Cells(a) * Cells(b)
  {
    match Intersect(a, b)
    case None =>
      forall p | p in Cells(a) ensures p !in Cells(b) {
      }
    case Some(x) =>
      assert (x.x0, x.y0) in Cells(a) * Cells(b);
      forall p ensures p in Cells(x) <==> p in Cells(a) && p in Cells(b) {
      }
  }

  lemma IntersectSymmetric(a: Rect, b: Rect)
    ensures Intersect(a, b) == Intersect(b, a)
  {
  }

  /** The four slabs of SplitRectangle, each empty when its condition fails. */
  function LeftSlab(r: Rect, x: Rect): seq<Rect> {
    if x.x0 > r.x0 then [Rect(r.x0, r.y0, x.x0, r.y1)] else []
  }

  function RightSlab(r: Rect, x: Rect): seq<Rect> {
    if x.x1 < r.x1 then [Rect(x.x1, r.y0, r.x1, r.y1)] else []
  }

  function BottomSlab(r: Rect, x: Rect): seq<Rect> {
    if x.y0 > r.y0 then [Rect(x.x0, r.y0, x.x1, x.y0)] else []
  }

  function TopSlab(r: Rect, x: Rect): seq<Rect> {
    if x.y1 < r.y1 then [Rect(x.x0, x.y1, x.x1, r.y1)] else []
  }

  lemma SumOptional(slab: seq<Rect>, w: Rect -> int)
    requires |slab| <= 1
    ensures Sum(slab, w) == if slab == [] then 0 else w(slab[0])
  {
    if slab != [] {
      assert slab[1..] == [];
    }
  }

  lemma SlabArithmetic(rx0: int, ry0: int, rx1: int, ry1: int, xx0: int, xy0: int, xx1: int, xy1: int)
    ensures (xx0 - rx0) * (ry1 - ry0) + (rx1 - xx1) * (ry1 - ry0)
          + (xx1 - xx0) * (xy0 - ry0) + (xx1 - xx0) * (ry1 - xy1)
         == (rx1 - rx0) * (ry1 - ry0) - (xx1 - xx0) * (xy1 - xy0)
  {
    var h, w := ry1 - ry0, xx1 - xx0;
    assert (xx0 - rx0) * h + (rx1 - xx1) * h == ((rx1 - rx0) - w) * h;
    assert w * (xy0 - ry0) + w * (ry1 - xy1) == w * (h - (xy1 - xy0));
  }

  /** The pieces and x together account for the whole area of r. */
  lemma SplitArea(r: Rect, x: Rect)
    requires Positive(x) && Inside(x, r)
    ensures SumArea(SplitRectangle(r, x)) == Area(r) - Area(x)
  {
    var left, right, bottom, top := LeftSlab(r, x), RightSlab(r, x), BottomSlab(r, x), TopSlab(r, x);
    calc {
      SumArea(SplitRectangle(r, x));
      Sum(left + right + bottom + top, Area);
      { SumConcat4(left, right, bottom, top, Area); }
      Sum(left, Area) + Sum(right, Area) + Sum(bottom, Area) + Sum(top, Area);
      { SlabAreas(r, x); }
      (x.x0 - r.x0) * (r.y1 - r.y0) + (r.x1 - x.x1) * (r.y1 - r.y0)
        + (x.x1 - x.x0) * (x.y0 - r.y0) + (x.x1 - x.x0) * (r.y1 - x.y1);
      { SlabArithmetic(r.x0, r.y0, r.x1, r.y1, x.x0, x.y0, x.x1, x.y1); }
      (r.x1 - r.x0) * (r.y1 - r.y0) - (x.x1 - x.x0) * (x.y1 - x.y0);
    }
  }

  lemma SumConcat4(a: seq<Rect>, b: seq<Rect>, c: seq<Rect>, d: seq<Rect>, w: Rect -> int)
    ensures Sum(a + b + c + d, w) == Sum(a, w) + Sum(b, w) + Sum(c, w) + Sum(d, w)
  {
    SumConcat(a + b + c, d, w);
    SumConcat(a + b, c, w);
    SumConcat(a, b, w);
  }

  /** Each slab has the area of its strip of r, which is 0 when the slab is absent. */
  lemma SlabAreas(r: Rect, x: Rect)
    requires Positive(x) && Inside(x, r)
    ensures Sum(LeftSlab(r, x), Area) == (x.x0 - r.x0) * (r.y1 - r.y0)
    ensures Sum(RightSlab(r, x), Area) == (r.x1 - x.x1) * (r.y1 - r.y0)
    ensures Sum(BottomSlab(r, x), Area) == (x.x1 - x.x0) * (x.y0 - r.y0)
    ensures Sum(TopSlab(r, x), Area) == (x.x1 - x.x0) * (r.y1 - x.y1)
  {
    SumOptional(LeftSlab(r, x), Area);
    SumOptional(RightSlab(r, x), Area);
    SumOptional(BottomSlab(r, x), Area);
    SumOptional(TopSlab(r, x), Area);
  }

  lemma DisjointConcat(a: seq<Rect>, b: seq<Rect>)
    requires Disjoint(a) && Disjoint(b)
    requires forall p, q :: p in a && q in b ==> Intersect(p, q).None?
    ensures Disjoint(a + b)
  {
    forall i, j | 0 <= i < j < |a + b| ensures Intersect((a + b)[i], (a + b)[j]).None? {
      if j < |a| {
      } else if i >= |a| {
        assert (a + b)[i] == b[i - |a|] && (a + b)[j] == b[j - |a|];
      } else {
        assert (a + b)[i] in a && (a + b)[j] in b;
      }
    }
  }

  /**
   * The pieces cover exactly the cells of r outside x, and no two of them
   * overlap.
   */
  lemma SplitCells(r: Rect, x: Rect)
    requires Positive(x) && Inside(x, r)
    ensures Covered(SplitRectangle(r, x)) == Cells(r) - Cells(x)
    ensures Disjoint(SplitRectangle(r, x))
  {
    var left, right, bottom, top := LeftSlab(r, x), RightSlab(r, x), BottomSlab(r, x), TopSlab(r, x);
    SlabsCover(r, x);
    DisjointConcat(left, right);
    DisjointConcat(left + right, bottom);
    DisjointConcat(left + right + bottom, top);
  }

  lemma SlabsCover(r: Rect, x: Rect)
    requires Positive(x) && Inside(x, r)
    ensures Covered(LeftSlab(r, x) + RightSlab(r, x) + BottomSlab(r, x) + TopSlab(r, x)) == Cells(r) - Cells(x)
  {
    var left, right, bottom, top := LeftSlab(r, x), RightSlab(r, x), BottomSlab(r, x), TopSlab(r, x);
    CoveredConcat(left + right + bottom, top);
    CoveredConcat(left + right, bottom);
    CoveredConcat(left, right);
    SlabCells(r, x);
    forall p ensures p in Covered(left) + Covered(right) + Covered(bottom) + Covered(top) <==> p in Cells(r) - Cells(x) {
    }
  }

  /** The cells of each slab: the strips of r left of, right of, below and above x. */
  lemma SlabCells(r: Rect, x: Rect)
    requires Positive(x) && Inside(x, r)
    ensures forall p :: p in Covered(LeftSlab(r, x)) <==> Covers(r, p) && p.0 < x.x0
    ensures forall p :: p in Covered(RightSlab(r, x)) <==> Covers(r, p) && x.x1 <= p.0
    ensures forall p :: p in Covered(BottomSlab(r, x)) <==> x.x0 <= p.0 < x.x1 && r.y0 <= p.1 < x.y0
    ensures forall p :: p in Covered(TopSlab(r, x)) <==> x.x0 <= p.0 < x.x1 && x.y1 <= p.1 < r.y1
  {
    CoveredOptional(LeftSlab(r, x));
    CoveredOptional(RightSlab(r, x));
    CoveredOptional(BottomSlab(r, x));
    CoveredOptional(TopSlab(r, x));
  }

  lemma CoveredOptional(slab: seq<Rect>)
    requires |slab| <= 1
    ensures Covered(slab) == if slab == [] then {} else Cells(slab[0])
  {
    if slab != [] {
      assert slab == [slab[0]];
      CoveredSingle(slab[0]);
    }
  }

  /**
   * In a list without overlaps every covered cell is counted once, so the
   * sum of the areas is the union area plus what degenerate boxes add.
   */
  lemma {:induction false} DisjointUnionArea(list: seq<Rect>)
    requires Disjoint(list)
    ensures SumArea(list) == UnionArea(list) + DegenerateArea(list)
  {
    if list != [] {
      var r, rest := list[0], list[1..];
      assert Disjoint(rest) by {
        forall a, b | 0 <= a < b < |rest| ensures Intersect(rest[a], rest[b]).None? {
          assert rest[a] == list[a + 1] && rest[b] == list[b + 1];
        }
      }
      DisjointUnionArea(rest);
      assert Cells(r) !! Covered(rest) by {
        forall p | p in Cells(r) ensures p !in Covered(rest) {
          CoveredMembership(rest, p);
          forall q | q in rest ensures !Covers(q, p) {
            var k :| 0 <= k < |rest| && rest[k] == q;
            assert Intersect(list[0], list[k + 1]).None?;
            IntersectCells(r, q);
          }
        }
      }
      if Positive(r) {
        CardCells(r);
      } else {
        assert Cells(r) == {};
      }
    }
  }

  /** A single rectangle: the source's formula gives its union area plus its degenerate part. */
  lemma SingleUnionArea(r: Rect)
    ensures Area(r) == UnionArea([r]) + DegenerateArea([r])
  {
    CoveredSingle(r);
    SumOptional([r], DegenerateWeight);
    if Positive(r) {
      CardCells(r);
    } else {
      assert Cells(r) == {};
    }
  }

  // ---------------------------------------------------------------------
  // Properties of the union area

  /** Two boxes: inclusion-exclusion, with the overlap Intersect reports. */
  lemma UnionAreaPair(a: Rect, b: Rect)
    requires WellFormed(a) && WellFormed(b)
    ensures UnionArea([a, b]) ==
      Area(a) + Area(b) - (if Intersect(a, b).Some? then Area(Intersect(a, b).value) else 0)
  {
    assert [a, b] == [a] + [b];
    CoveredConcat([a], [b]);
    CoveredSingle(a);
    CoveredSingle(b);
    CardCells(a);
    CardCells(b);
    IntersectCells(a, b);
    if Intersect(a, b).Some? {
      CardCells(Intersect(a, b).value);
    }
  }

  /** When every entry lies inside entry k, the union area is the area of entry k. */
  lemma UnionAreaAllInside(list: seq<Rect>, k: nat)
    requires k < |list| && WellFormed(list[k])
    requires forall m :: 0 <= m < |list| ==> Inside(list[m], list[k])
    ensures UnionArea(list) == Area(list[k])
  {
    forall p ensures p in Covered(list) <==> p in Cells(list[k]) {
      CoveredMembership(list, p);
      if p in Covered(list) {
        var r :| r in list && Covers(r, p);
        var m :| 0 <= m < |list| && list[m] == r;
        assert Inside(list[m], list[k]);
      }
      if p in Cells(list[k]) {
        assert list[k] in list;
      }
    }
    assert Covered(list) == Cells(list[k]);
    CardCells(list[k]);
  }

  /** The union area does not depend on the order of the list. */
  lemma UnionAreaPermutation(a: seq<Rect>, b: seq<Rect>)
    requires multiset(a) == multiset(b)
    ensures UnionArea(a) == UnionArea(b)
  {
    forall r ensures r in a <==> r in b {
      assert r in a <==> r in multiset(a);
      assert r in b <==> r in multiset(b);
    }
    CoveredByMembers(a, b);
  }

  /** Repeating rectangles does not change the union area. */
  lemma UnionAreaDuplicated(list: seq<Rect>)
    ensures UnionArea(list + list) == UnionArea(list)
  {
    forall r ensures r in list + list <==> r in list {
    }
    CoveredByMembers(list + list, list);
  }

  /** The union area is at least the area of each well-formed entry. */
  lemma UnionAreaAtLeastEach(list: seq<Rect>, k: nat)
    requires k < |list| && WellFormed(list[k])
    ensures Area(list[k]) <= UnionArea(list)
  {
    CoveredContains(list, k);
    CardCells(list[k]);
    var rest := Covered(list) - Cells(list[k]);
    assert Covered(list) == Cells(list[k]) + rest;
    assert Cells(list[k]) !! rest;
  }

  /** For well-formed boxes the union area is at most the sum of the areas. */
  lemma {:induction false} UnionAreaAtMostSum(list: seq<Rect>)
    requires AllWellFormed(list)
    ensures UnionArea(list) <= SumArea(list)
  {
    if list != [] {
      var rest := list[1..];
      assert AllWellFormed(rest) by {
        forall k | 0 <= k < |rest| ensures WellFormed(rest[k]) {
          assert rest[k] == list[k + 1];
        }
      }
      UnionAreaAtMostSum(rest);
      assert WellFormed(list[0]);
      CardCells(list[0]);
      assert Covered(list) == Cells(list[0]) + Covered(rest);
    }
  }
}
