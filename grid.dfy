// The grid partitioner (class Grid, index.js:1-94) and the entry point
// `calculate` (index.js:96-114).
//
// The model keeps the source's indexing as written: the loops at
// index.js:27-28 bind `y` to the column range left..right (from the x
// coordinates) and `x` to the row range bottom..top (from the y
// coordinates), cell `grid[y][x]` then gets the fragment clipped to
// getGridShape(x, y), and the interior test compares `x` with left/right and
// `y` with bottom/top. In this model cell `grid[a, b]` therefore takes its
// first index `a` from the x coordinates and its second index `b` from the
// y coordinates, and its box is GridShape(cellSize, b, a).

module Partition {
  import opened Geometry
  import opened Resolver

  /** A cell of the grid: its fragments, whether it is fully covered, and its area when it is. */
  datatype Cell = Cell(rectangles: seq<Rect>, full: bool, area: int)

  const EmptyCell := Cell([], false, 0)

  // ---------------------------------------------------------------------
  // Sizing (index.js:4-11)

  /**
   * GRID_SIZE = ceil(sqrt(n) / 10): the least g >= 1 with 100 * g * g >= n,
   * which is that value for every n >= 1.
   */
  function GridSizeFor(n: nat): (g: nat)
    ensures g >= 1 && 100 * g * g >= n
    ensures g == 1 || 100 * (g - 1) * (g - 1) < n
  {
    GridSizeFrom(n, 1)
  }

  function GridSizeFrom(n: nat, g: nat): (r: nat)
    requires g >= 1 && (g == 1 || 100 * (g - 1) * (g - 1) < n)
    ensures r >= g && 100 * r * r >= n
    ensures r == 1 || 100 * (r - 1) * (r - 1) < n
    decreases n - g
  {
    if 100 * g * g >= n then g
    else
      assert g <= g * g;
      GridSizeFrom(n, g + 1)
  }

  lemma SmallGridSize(n: nat)
    requires 1 <= n <= 100
    ensures GridSizeFor(n) == 1
  {
    var h: int := GridSizeFor(n) - 1;
    assert h * h >= h;
  }

  /** The largest x coordinate (x0 or x1) of the rectangles. */
  function MaxX(rectangles: seq<Rect>): (m: int)
    requires |rectangles| > 0
    ensures forall r :: r in rectangles ==> r.x0 <= m && r.x1 <= m
    ensures exists r :: r in rectangles && (r.x0 == m || r.x1 == m)
  {
    var r := rectangles[0];
    if |rectangles| == 1 then Max(r.x0, r.x1)
    else
      var m := Max(Max(r.x0, r.x1), MaxX(rectangles[1..]));
      assert forall q :: q in rectangles ==> q == r || q in rectangles[1..];
      m
  }

  /** The largest y coordinate (y0 or y1) of the rectangles. */
  function MaxY(rectangles: seq<Rect>): (m: int)
    requires |rectangles| > 0
    ensures forall r :: r in rectangles ==> r.y0 <= m && r.y1 <= m
    ensures exists r :: r in rectangles && (r.y0 == m || r.y1 == m)
  {
    var r := rectangles[0];
    if |rectangles| == 1 then Max(r.y0, r.y1)
    else
      var m := Max(Max(r.y0, r.y1), MaxY(rectangles[1..]));
      assert forall q :: q in rectangles ==> q == r || q in rectangles[1..];
      m
  }

  /** A bound on the x coordinates that some rectangle attains is the largest x coordinate. */
  lemma MaxXIs(rectangles: seq<Rect>, m: int)
    requires forall r :: r in rectangles ==> r.x0 <= m && r.x1 <= m
    requires exists r :: r in rectangles && r.x1 == m
    ensures MaxX(rectangles) == m
  {
  }

  /** A bound on the y coordinates that some rectangle attains is the largest y coordinate. */
  lemma MaxYIs(rectangles: seq<Rect>, m: int)
    requires forall r :: r in rectangles ==> r.y0 <= m && r.y1 <= m
    requires exists r :: r in rectangles && r.y1 == m
    ensures MaxY(rectangles) == m
  {
  }

  /** CELL_SIZE = ceil((maxCoord + 1) / GRID_SIZE): the least c with c * g > maxCoord. */
  function CellSizeFor(maxCoord: nat, g: nat): (c: nat)
    requires g >= 1
    ensures c >= 1 && c * g > maxCoord
    ensures (c - 1) * g <= maxCoord
  {
    (maxCoord + g) / g
  }

  // ---------------------------------------------------------------------
  // getX / getY (index.js:65-71) and getGridShape (index.js:73-80)

  /** Math.floor(v / CELL_SIZE): the index of the cell row or column containing v. */
  function CellIndex(cellSize: nat, v: int): (i: int)
    requires cellSize >= 1
    ensures i * cellSize <= v < (i + 1) * cellSize
  {
    v / cellSize
  }

  /** The box of grid cell (x, y): [x * c, (x + 1) * c) × [y * c, (y + 1) * c). */
  function GridShape(cellSize: nat, x: int, y: int): (r: Rect)
    requires cellSize >= 1
    ensures Positive(r) && Area(r) == cellSize * cellSize
  {
    Rect(x * cellSize, y * cellSize, (x + 1) * cellSize, (y + 1) * cellSize)
  }

  // ---------------------------------------------------------------------
  // What one rectangle does to one cell (index.js:22-47)

  /**
   * Cell grid[a, b] after rectangle r has been processed: untouched outside
   * the index ranges and when already full; marked full (area CELL_SIZE²)
   * when the interior test, applied as written, passes; otherwise given the
   * positive-area part of r inside GridShape(b, a), if there is one.
   */
  function PlaceInCell(cellSize: nat, c: Cell, a: int, b: int, r: Rect): (next: Cell)
    requires cellSize >= 1
    ensures c.full ==> next == c
    ensures !c.full && next.full ==> next.area == cellSize * cellSize
    ensures c.rectangles <= next.rectangles && |next.rectangles| <= |c.rectangles| + 1
  {
    var left := CellIndex(cellSize, r.x0);
    var bottom := CellIndex(cellSize, r.y0);
    var right := CellIndex(cellSize, r.x1);
    var top := CellIndex(cellSize, r.y1);
    if !(left <= a <= right && bottom <= b <= top) || c.full then c
    else if b != left && b != right && a != bottom && a != top then
      c.(full := true, area := cellSize * cellSize)
    else
      match Intersect(r, GridShape(cellSize, b, a))
      case None => c
      case Some(fragment) => c.(rectangles := c.rectangles + [fragment])
  }

  /**
   * Cell grid[a, b] after all the rectangles have been processed in order.
   * Every cell so built keeps the cell invariant: fragments pushed into
   * grid[a, b] have positive area and lie inside getGridShape(b, a).
   */
  function BuildCell(cellSize: nat, rectangles: seq<Rect>, a: int, b: int): (c: Cell)
    requires cellSize >= 1
    ensures CellOk(cellSize, c, a, b)
  {
    if rectangles == [] then EmptyCell
    else
      var n := |rectangles| - 1;
      var prev := BuildCell(cellSize, rectangles[..n], a, b);
      var next := PlaceInCell(cellSize, prev, a, b, rectangles[n]);
      assert forall k :: 0 <= k < |prev.rectangles| ==> next.rectangles[k] == prev.rectangles[k];
      next
  }

  /** Processing one more rectangle applies PlaceInCell once more. */
  lemma BuildCellGrows(cellSize: nat, rectangles: seq<Rect>, k: nat, a: int, b: int)
    requires cellSize >= 1 && k < |rectangles|
    ensures BuildCell(cellSize, rectangles[..k + 1], a, b) ==
      PlaceInCell(cellSize, BuildCell(cellSize, rectangles[..k], a, b), a, b, rectangles[k])
  {
    assert rectangles[..k + 1][..k] == rectangles[..k];
  }

  /** The invariant of a cell: its area is set exactly when it is full, and its fragments lie in its box. */
  predicate CellOk(cellSize: nat, c: Cell, a: int, b: int)
    requires cellSize >= 1
  {
    (c.area == if c.full then cellSize * cellSize else 0) &&
    forall k :: 0 <= k < |c.rectangles| ==>
      Positive(c.rectangles[k]) && Inside(c.rectangles[k], GridShape(cellSize, b, a))
  }

  /** All coordinates are at least 0 and at most bound. */
  predicate InRange(rectangles: seq<Rect>, bound: int) {
    forall r :: r in rectangles ==>
      0 <= r.x0 <= bound && 0 <= r.y0 <= bound && 0 <= r.x1 <= bound && 0 <= r.y1 <= bound
  }

  /**
   * With a single cell, whose box contains every rectangle, the cell is
   * never marked full and receives every positive-area rectangle
   * unchanged and in input order.
   */
  lemma {:induction false} SingleCellHoldsPositives(cellSize: nat, rectangles: seq<Rect>)
    requires cellSize >= 1 && InRange(rectangles, cellSize - 1)
    ensures BuildCell(cellSize, rectangles, 0, 0) == Cell(Positives(rectangles), false, 0)
    decreases |rectangles|
  {
    if rectangles != [] {
      var n := |rectangles| - 1;
      var r := rectangles[n];
      assert r in rectangles;
      assert InRange(rectangles[..n], cellSize - 1) by {
        forall q | q in rectangles[..n] ensures q in rectangles {
        }
      }
      SingleCellHoldsPositives(cellSize, rectangles[..n]);
      PlaceInSingleCell(cellSize, Cell(Positives(rectangles[..n]), false, 0), r);
      assert rectangles == rectangles[..n] + [r];
      PositivesAppend(rectangles[..n], r);
    }
  }

  /** In a 1 × 1 grid a rectangle inside the cell appends itself when it has positive area. */
  lemma PlaceInSingleCell(cellSize: nat, c: Cell, r: Rect)
    requires cellSize >= 1 && !c.full
    requires 0 <= r.x0 < cellSize && 0 <= r.y0 < cellSize && 0 <= r.x1 < cellSize && 0 <= r.y1 < cellSize
    ensures PlaceInCell(cellSize, c, 0, 0, r) == c.(rectangles := c.rectangles + if Positive(r) then [r] else [])
  {
    IndexZero(cellSize, r.x0);
    IndexZero(cellSize, r.y0);
    IndexZero(cellSize, r.x1);
    IndexZero(cellSize, r.y1);
    if Positive(r) {
      assert Intersect(r, GridShape(cellSize, 0, 0)) == Some(r);
    }
  }

  lemma IndexZero(cellSize: nat, v: int)
    requires cellSize >= 1 && 0 <= v < cellSize
    ensures CellIndex(cellSize, v) == 0
  {
    IndexInGrid(cellSize, 1, v);
  }

  lemma {:induction false} PositivesAppend(list: seq<Rect>, r: Rect)
    ensures Positives(list + [r]) == Positives(list) + (if Positive(r) then [r] else [])
  {
    if list != [] {
      assert (list + [r])[0] == list[0];
      assert (list + [r])[1..] == list[1..] + [r];
      PositivesAppend(list[1..], r);
    } else {
      assert [r][1..] == [];
    }
  }

  // ---------------------------------------------------------------------
  // The result of Grid.calculate as a function of the input

  /** What Grid.calculate adds for one cell: CELL_SIZE² when full, else calculate2 of the fragments. */
  ghost function CellValue(c: Cell): int {
    if c.full then c.area else UnionArea(c.rectangles) + DegenerateArea(c.rectangles)
  }

  /** The body of the loops of Grid.calculate (index.js:55-59) for one cell. */
  method CellArea(cell: Cell) returns (area: int)
    ensures area == CellValue(cell)
  {
    if cell.full {
      area := cell.area;
    } else {
      area := Calculate2(cell.rectangles);
    }
  }

  /** Sum of CellValue over grid[a, 0 .. n). */
  ghost function RowTotal(cellSize: nat, rectangles: seq<Rect>, a: int, n: nat): int
    requires cellSize >= 1
  {
    if n == 0 then 0
    else RowTotal(cellSize, rectangles, a, n - 1) + CellValue(BuildCell(cellSize, rectangles, a, n - 1))
  }

  /** Sum of CellValue over grid[0 .. m, 0 .. g). */
  ghost function RowsTotal(cellSize: nat, g: nat, rectangles: seq<Rect>, m: nat): int
    requires cellSize >= 1
  {
    if m == 0 then 0
    else RowsTotal(cellSize, g, rectangles, m - 1) + RowTotal(cellSize, rectangles, m - 1, g)
  }

  function GridSizeOf(rectangles: seq<Rect>): nat { GridSizeFor(|rectangles|) }

  function CellSizeOf(rectangles: seq<Rect>): nat
    requires |rectangles| > 0 && NonNegative(rectangles)
  {
    MaxBounds(rectangles);
    CellSizeFor(Max(MaxX(rectangles), MaxY(rectangles)), GridSizeOf(rectangles))
  }

  /**
   * What `new Grid(rectangles).calculate()` returns. Whatever the grid
   * size, it lies between 0 and the area of the grid, GRID_SIZE² cells of
   * CELL_SIZE² each.
   */
  ghost function GridArea(rectangles: seq<Rect>): (area: int)
    requires |rectangles| > 0 && NonNegative(rectangles)
    ensures 0 <= area <=
      GridSizeOf(rectangles) * (GridSizeOf(rectangles) * (CellSizeOf(rectangles) * CellSizeOf(rectangles)))
  {
    var g := GridSizeOf(rectangles);
    RowsTotalBounds(CellSizeOf(rectangles), g, rectangles, g);
    RowsTotal(CellSizeOf(rectangles), g, rectangles, g)
  }

  /** All coordinates are non-negative (the source indexes the grid with them). */
  predicate NonNegative(rectangles: seq<Rect>) {
    forall r :: r in rectangles ==> 0 <= r.x0 && 0 <= r.y0 && 0 <= r.x1 && 0 <= r.y1
  }

  lemma MaxBounds(rectangles: seq<Rect>)
    requires |rectangles| > 0 && NonNegative(rectangles)
    ensures InRange(rectangles, Max(MaxX(rectangles), MaxY(rectangles)))
    ensures Max(MaxX(rectangles), MaxY(rectangles)) >= 0
  {
    assert rectangles[0] in rectangles;
  }

  /**
   * Up to 100 rectangles give a 1 × 1 grid, and then the grid's result is
   * exactly the union area.
   */
  lemma SmallGridIsUnionArea(rectangles: seq<Rect>)
    requires 1 <= |rectangles| <= 100 && NonNegative(rectangles)
    ensures GridArea(rectangles) == UnionArea(rectangles)
  {
    MaxBounds(rectangles);
    SmallGridSize(|rectangles|);
    var c := CellSizeOf(rectangles);
    assert InRange(rectangles, c - 1);
    SingleCellHoldsPositives(c, rectangles);
    var cell := BuildCell(c, rectangles, 0, 0);
    assert GridArea(rectangles) == RowsTotal(c, 1, rectangles, 1);
    assert RowsTotal(c, 1, rectangles, 1) == RowTotal(c, rectangles, 0, 1);
    assert RowTotal(c, rectangles, 0, 1) == CellValue(cell);
    CoveredPositives(rectangles);
    PositivesNoDegenerateArea(Positives(rectangles));
  }

  /**
   * No cell ever contributes more than its own box: a full cell adds
   * CELL_SIZE², any other cell the union area of fragments inside its box.
   */
  lemma CellValueBounds(cellSize: nat, rectangles: seq<Rect>, a: int, b: int)
    requires cellSize >= 1
    ensures 0 <= CellValue(BuildCell(cellSize, rectangles, a, b)) <= cellSize * cellSize
  {
    var c := BuildCell(cellSize, rectangles, a, b);
    if !c.full {
      var shape := GridShape(cellSize, b, a);
      assert AllWellFormed(c.rectangles);
      WellFormedNoDegenerateArea(c.rectangles);
      forall p | p in Covered(c.rectangles) ensures p in Cells(shape) {
        CoveredMembership(c.rectangles, p);
        var r :| r in c.rectangles && Covers(r, p);
        var k :| 0 <= k < |c.rectangles| && c.rectangles[k] == r;
        assert Inside(c.rectangles[k], shape);
      }
      CardCells(shape);
      var outside := Cells(shape) - Covered(c.rectangles);
      assert Cells(shape) == Covered(c.rectangles) + outside;
      assert Covered(c.rectangles) !! outside;
    }
  }

  lemma {:induction false} RowTotalBounds(cellSize: nat, rectangles: seq<Rect>, a: int, n: nat)
    requires cellSize >= 1
    ensures 0 <= RowTotal(cellSize, rectangles, a, n) <= n * (cellSize * cellSize)
  {
    if n > 0 {
      RowTotalBounds(cellSize, rectangles, a, n - 1);
      CellValueBounds(cellSize, rectangles, a, n - 1);
      var q := cellSize * cellSize;
      assert n * q == (n - 1) * q + q;
    }
  }

  lemma {:induction false} RowsTotalBounds(cellSize: nat, g: nat, rectangles: seq<Rect>, m: nat)
    requires cellSize >= 1
    ensures 0 <= RowsTotal(cellSize, g, rectangles, m) <= m * (g * (cellSize * cellSize))
  {
    if m > 0 {
      RowsTotalBounds(cellSize, g, rectangles, m - 1);
      RowTotalBounds(cellSize, rectangles, m - 1, g);
      var q := g * (cellSize * cellSize);
      assert m * q == (m - 1) * q + q;
    }
  }

  /**
   * The interior test compares a cell's indices against the other axis.
   * With 401 rectangles and largest coordinate 29 the grid is 3 × 3 with
   * cells of size 10; the rectangle [12, 0, 18, 29] then marks cell
   * grid[1, 0] full, although its box GridShape(0, 1) = [0, 10, 10, 20]
   * has no common cell with the rectangle, and the cell that would be
   * [10, 0, 20, 10] is not inside it either.
   */
  lemma SwappedInteriorTest()
    ensures GridSizeFor(401) == 3 && CellSizeFor(29, 3) == 10
    ensures PlaceInCell(10, EmptyCell, 1, 0, Rect(12, 0, 18, 29)) == Cell([], true, 100)
    ensures Intersect(Rect(12, 0, 18, 29), GridShape(10, 0, 1)).None?
    ensures !Inside(GridShape(10, 1, 0), Rect(12, 0, 18, 29))
  {
    assert CellIndex(10, 12) == 1 && CellIndex(10, 18) == 1;
    assert CellIndex(10, 0) == 0 && CellIndex(10, 29) == 2;
  }

  /**
   * The reverse effect: with 2500 rectangles and largest coordinate 49 the
   * grid is 5 × 5 with cells of size 10; the rectangle [0, 0, 49, 29] then
   * leaves cell grid[1, 3] untouched, although its box GridShape(3, 1) =
   * [30, 10, 40, 20] lies inside the rectangle.
   */
  lemma SwappedSkippedCell()
    ensures GridSizeFor(2500) == 5 && CellSizeFor(49, 5) == 10
    ensures PlaceInCell(10, EmptyCell, 1, 3, Rect(0, 0, 49, 29)) == EmptyCell
    ensures Inside(GridShape(10, 3, 1), Rect(0, 0, 49, 29))
  {
    assert CellIndex(10, 0) == 0 && CellIndex(10, 49) == 4 && CellIndex(10, 29) == 2;
  }

  /** Once a cell is full, later rectangles leave it as it is. */
  lemma {:induction false} FullStaysFull(cellSize: nat, rectangles: seq<Rect>, k: nat, a: int, b: int)
    requires cellSize >= 1 && k <= |rectangles| && BuildCell(cellSize, rectangles[..k], a, b).full
    ensures BuildCell(cellSize, rectangles, a, b) == BuildCell(cellSize, rectangles[..k], a, b)
    decreases |rectangles|
  {
    if k < |rectangles| {
      var n := |rectangles| - 1;
      assert rectangles[..n][..k] == rectangles[..k];
      FullStaysFull(cellSize, rectangles[..n], k, a, b);
    } else {
      assert rectangles[..k] == rectangles;
    }
  }

  /** The rectangle [12, 0, 18, 29] followed by 400 unit squares at the origin. */
  function SwappedInput(): seq<Rect> {
    [Rect(12, 0, 18, 29)] + seq(400, _ => Rect(0, 0, 1, 1))
  }

  /** SwappedInput holds 401 rectangles, each [12, 0, 18, 29] or the unit square at the origin. */
  lemma SwappedInputMembers()
    ensures |SwappedInput()| == 401 && SwappedInput()[0] == Rect(12, 0, 18, 29)
    ensures forall r :: r in SwappedInput() ==> r == Rect(12, 0, 18, 29) || r == Rect(0, 0, 1, 1)
  {
    var input := SwappedInput();
    forall r | r in input ensures r == Rect(12, 0, 18, 29) || r == Rect(0, 0, 1, 1) {
      var k :| 0 <= k < |input| && input[k] == r;
      if k > 0 {
        assert input[k] == seq(400, _ => Rect(0, 0, 1, 1))[k - 1];
      }
    }
  }

  /** The coordinates of SwappedInput lie in [0, 18] × [0, 29], and both bounds are attained. */
  lemma SwappedInputMax()
    ensures NonNegative(SwappedInput())
    ensures MaxX(SwappedInput()) == 18 && MaxY(SwappedInput()) == 29
  {
    var input := SwappedInput();
    SwappedInputMembers();
    assert input[0] in input;
    assert forall r :: r in input ==> 0 <= r.x0 <= 18 && 0 <= r.x1 <= 18 && 0 <= r.y0 <= 29 && 0 <= r.y1 <= 29;
    MaxXIs(input, 18);
    MaxYIs(input, 29);
  }

  lemma SwappedInputSizes()
    ensures NonNegative(SwappedInput())
    ensures GridSizeOf(SwappedInput()) == 3 && CellSizeOf(SwappedInput()) == 10
  {
    SwappedInputMax();
    SwappedInputMembers();
    SwappedInteriorTest();
  }

  /**
   * On SwappedInput the grid is 3 × 3 with cells of size 10, and cell
   * grid[1, 0] ends full, so it adds CELL_SIZE² = 100 to the result,
   * although no rectangle of the input covers any unit cell of its box
   * GridShape(0, 1).
   */
  lemma SwappedInteriorInput()
    ensures NonNegative(SwappedInput())
    ensures GridSizeOf(SwappedInput()) == 3 && CellSizeOf(SwappedInput()) == 10
    ensures BuildCell(10, SwappedInput(), 1, 0) == Cell([], true, 100)
    ensures Covered(SwappedInput()) * Cells(GridShape(10, 0, 1)) == {}
  {
    SwappedInputSizes();
    SwappedFullCell();
    SwappedBoxUncovered();
  }

  lemma SwappedFullCell()
    ensures BuildCell(10, SwappedInput(), 1, 0) == Cell([], true, 100)
  {
    var input := SwappedInput();
    SwappedInputMembers();
    SwappedInteriorTest();
    var first := input[..1];
    assert first == [Rect(12, 0, 18, 29)] && first[..0] == [];
    assert BuildCell(10, first, 1, 0) == PlaceInCell(10, EmptyCell, 1, 0, Rect(12, 0, 18, 29));
    FullStaysFull(10, input, 1, 1, 0);
  }

  lemma SwappedBoxUncovered()
    ensures Covered(SwappedInput()) * Cells(GridShape(10, 0, 1)) == {}
  {
    var input := SwappedInput();
    var shape := GridShape(10, 0, 1);
    SwappedInputMembers();
    forall p | p in Covered(input) ensures p !in Cells(shape) {
      CoveredMembership(input, p);
    }
  }

  // ---------------------------------------------------------------------
  // class Grid (index.js:1-94)

  class Grid {
    const GridSize: nat
    const MaxXCoord: int
    const MaxYCoord: int
    const CellSize: nat
    /** grid[a, b]: `this.grid[a][b]` of the source. */
    const grid: array2<Cell>
    /** The rectangles the grid was built from. */
    ghost const Input: seq<Rect>

    /** The sizes of the grid, fixed by the constructor. */
    predicate Shaped() {
      GridSize >= 1 && CellSize >= 1 &&
      grid.Length0 == GridSize && grid.Length1 == GridSize &&
      0 <= MaxXCoord && 0 <= MaxYCoord && GridSize * CellSize > Max(MaxXCoord, MaxYCoord)
    }

    ghost predicate Valid()
      reads grid
    {
      Shaped() &&
      forall a, b :: 0 <= a < GridSize && 0 <= b < GridSize ==>
        grid[a, b] == BuildCell(CellSize, Input, a, b)
    }

    /** index.js:2-50 */
    constructor (rectangles: seq<Rect>)
      requires |rectangles| > 0 && NonNegative(rectangles)
      ensures Valid() && fresh(grid) && Input == rectangles
      ensures GridSize == GridSizeFor(|rectangles|)
      ensures MaxXCoord == MaxX(rectangles) && MaxYCoord == MaxY(rectangles)
      ensures CellSize == CellSizeFor(Max(MaxXCoord, MaxYCoord), GridSize)
    {
      MaxBounds(rectangles);
      var g := GridSizeFor(|rectangles|);
      var maxX, maxY := MaxX(rectangles), MaxY(rectangles);
      GridSize := g;
      MaxXCoord, MaxYCoord := maxX, maxY;
      CellSize := CellSizeFor(Max(maxX, maxY), g);
      grid := new Cell[g, g]((_, _) => EmptyCell);
      Input := rectangles;
      new;
      PlaceAll(rectangles);
    }

    /** The loop over the rectangles (index.js:21-49), starting from an empty grid. */
    method PlaceAll(rectangles: seq<Rect>)
      requires Shaped() && InRange(rectangles, Max(MaxXCoord, MaxYCoord))
      requires forall a, b :: 0 <= a < GridSize && 0 <= b < GridSize ==> grid[a, b] == EmptyCell
      modifies grid
      ensures forall a, b :: 0 <= a < GridSize && 0 <= b < GridSize ==>
        grid[a, b] == BuildCell(CellSize, rectangles, a, b)
    {
      for k := 0 to |rectangles|
        invariant forall a, b :: 0 <= a < GridSize && 0 <= b < GridSize ==>
          grid[a, b] == BuildCell(CellSize, rectangles[..k], a, b)
      {
        assert rectangles[k] in rectangles;
        PlaceRectangle(rectangles[k]);
        forall a, b | 0 <= a < GridSize && 0 <= b < GridSize
          ensures grid[a, b] == BuildCell(CellSize, rectangles[..k + 1], a, b)
        {
          BuildCellGrows(CellSize, rectangles, k, a, b);
        }
      }
      assert rectangles[..|rectangles|] == rectangles;
    }

    /** The body of the loop over the rectangles (index.js:22-48). */
    method PlaceRectangle(rectangle: Rect)
      requires Shaped()
      requires InRange([rectangle], Max(MaxXCoord, MaxYCoord))
      modifies grid
      ensures forall a, b :: 0 <= a < GridSize && 0 <= b < GridSize ==>
        grid[a, b] == PlaceInCell(CellSize, old(grid[a, b]), a, b, rectangle)
    {
      assert rectangle in [rectangle];
      var left := CellIndex(CellSize, rectangle.x0);
      var bottom := CellIndex(CellSize, rectangle.y0);
      var right := CellIndex(CellSize, rectangle.x1);
      var top := CellIndex(CellSize, rectangle.y1);
      IndexInGrid(CellSize, GridSize, rectangle.x0);
      IndexInGrid(CellSize, GridSize, rectangle.y0);
      IndexInGrid(CellSize, GridSize, rectangle.x1);
      IndexInGrid(CellSize, GridSize, rectangle.y1);

      var y := left;
      while y <= right
        invariant left <= y <= Max(left, right + 1)
        invariant forall a, b :: 0 <= a < GridSize && 0 <= b < GridSize ==>
          grid[a, b] == if a < y then PlaceInCell(CellSize, old(grid[a, b]), a, b, rectangle) else old(grid[a, b])
      {
        var x := bottom;
        while x <= top
          invariant bottom <= x <= Max(bottom, top + 1)
          invariant forall a, b :: 0 <= a < GridSize && 0 <= b < GridSize ==>
            grid[a, b] == if a < y || (a == y && b < x) then PlaceInCell(CellSize, old(grid[a, b]), a, b, rectangle)
                          else old(grid[a, b])
        {
          if !grid[y, x].full {
            if x != left && x != right && y != bottom && y != top {
              grid[y, x] := grid[y, x].(full := true, area := CellSize * CellSize);
            } else {
              var intersection := Intersect(rectangle, GridShape(CellSize, x, y));
              if intersection.Some? {
                grid[y, x] := grid[y, x].(rectangles := grid[y, x].rectangles + [intersection.value]);
              }
            }
          }
          x := x + 1;
        }
        y := y + 1;
      }
    }

    /** index.js:52-63 */
    method Calculate() returns (totalArea: int)
      requires Valid()
      ensures totalArea == RowsTotal(CellSize, GridSize, Input, GridSize)
    {
      totalArea := 0;
      for y := 0 to GridSize
        invariant totalArea == RowsTotal(CellSize, GridSize, Input, y)
      {
        for x := 0 to GridSize
          invariant totalArea == RowsTotal(CellSize, GridSize, Input, y) + RowTotal(CellSize, Input, y, x)
        {
          var area := CellArea(grid[y, x]);
          totalArea := totalArea + area;
        }
      }
    }

  }

  /** A coordinate between 0 and the largest one falls in a row or column of the grid. */
  lemma IndexInGrid(cellSize: nat, g: nat, v: int)
    requires cellSize >= 1 && 0 <= v < g * cellSize
    ensures 0 <= CellIndex(cellSize, v) < g
  {
    var i := CellIndex(cellSize, v);
    FactorPositive(i + 1, cellSize);
    MulSub(g, i, cellSize);
    FactorPositive(g - i, cellSize);
  }

  lemma FactorPositive(a: int, c: int)
    requires c > 0 && a * c > 0
    ensures a > 0
  {
  }

  lemma MulSub(a: int, b: int, c: int)
    ensures (a - b) * c == a * c - b * c
  {
  }

  // ---------------------------------------------------------------------
  // calculate (index.js:96-114)

  /**
   * 0 for no rectangles; the source's width × height for one; otherwise the
   * grid's result, which for up to 100 rectangles is the union area.
   */
  method Calculate(rectangles: seq<Rect>) returns (area: int)
    requires |rectangles| >= 2 ==> NonNegative(rectangles)
    ensures |rectangles| == 0 ==> area == 0
    ensures |rectangles| == 1 ==> area == Area(rectangles[0])
    ensures |rectangles| >= 2 ==> area == GridArea(rectangles)
    ensures 2 <= |rectangles| <= 100 ==> area == UnionArea(rectangles)
    ensures |rectangles| == 1 && AllWellFormed(rectangles) ==> area == UnionArea(rectangles)
  {
    if |rectangles| == 0 {
      return 0;
    }
    if |rectangles| == 1 {
      if AllWellFormed(rectangles) {
        SingleUnionArea(rectangles[0]);
        WellFormedNoDegenerateArea(rectangles);
        assert rectangles == [rectangles[0]];
      }
      return Area(rectangles[0]);
    }
    MaxBounds(rectangles);
    var grid := new Grid(rectangles);
    area := grid.Calculate();
    if |rectangles| <= 100 {
      SmallGridIsUnionArea(rectangles);
    }
  }
}
