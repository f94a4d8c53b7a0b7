# Union area of axis-aligned rectangles

A Dafny model of `index.js`, a solution to the "total area covered by
rectangles" exercise. A rectangle is `[x0, y0, x1, y1]`. `calculate` is
meant to return the area of the union of the rectangles, each point
counted once. The program does so for one well-formed rectangle and for
2 to 100 rectangles with non-negative coordinates; a single rectangle
otherwise gets its raw `(x1 - x0) * (y1 - y0)`, which can be negative. For
more than 100 rectangles its grid indexing can make the result differ (see
below, after "Main results"). The model follows the program's structure:

- **Resolver** (`resolver.dfy`) models `calculate2`. It starts from the
  sum of the areas and sorts by left edge. While two rectangles overlap,
  it subtracts the overlap from the sum and replaces the first rectangle
  by the at most four parts of it outside the overlap (`splitRectangle`).
- **Partition** (`grid.dfy`) models the class `Grid` and the entry point
  `calculate`. `Grid` cuts the plane into `GRID_SIZE × GRID_SIZE` square
  cells and, for each rectangle, visits the cells in the index ranges of
  index.js:27-28. A visited cell that is already full is skipped
  (index.js:29-31). Otherwise a visited cell that passes the interior
  test, as written at index.js:33, is marked full, and every other visited
  cell gets the part of the rectangle inside `getGridShape(x, y)`, when
  that part has positive area. The result is the sum over the cells of `CELL_SIZE²` (full) or
  `calculate2` of the fragments.
- **Geometry** (`geometry.dfy`) holds what both parts share: boxes, their
  area, `getIntersection`, `splitRectangle`, and the meaning of "union
  area". `UnionArea(list)` is the number of integer unit cells `(px, py)`
  that some box of the list covers (`Covers`: `x0 <= px < x1`,
  `y0 <= py < y1`).
- **Scenarios** (`scenarios.dfy`) states the expected values of the
  program's commented test cases as lemmas about the union area. It also
  holds a few methods that call `Calculate` on those inputs and assert the
  result.

Main results:

- **`Resolver.Calculate2`** returns `UnionArea(rectangles) +
  DegenerateArea(rectangles)`.
  - `DegenerateArea` is what boxes without positive area add to the
    source's running sum, `(x1 - x0) * (y1 - y0)`, which the source never
    removes.
  - It is 0 for well-formed boxes, so for them the result is exactly the
    union area.
  - The loop terminates because each resolution step lowers the total area
    of the positive boxes by at least 1.
- **`Partition.Calculate`** returns:
  - 0 for no rectangles;
  - the source's width × height for one rectangle;
  - otherwise what `new Grid(rectangles).calculate()` returns
    (`GridArea`).
  For 2 to 100 rectangles the grid is a single cell and that value is the
  union area.

For more than 100 rectangles the grid has several cells, and the model
keeps the program's indexing as written:

- The loops at index.js:27-28 bind `y` to the range of column indices
  (taken from the x coordinates) and `x` to the range of row indices
  (taken from the y coordinates).
- The cell `grid[y][x]` then receives the fragment clipped to
  `getGridShape(x, y)`.
- The interior test at index.js:33 compares `x` with `left`/`right` and
  `y` with `bottom`/`top`.

For such grids the model states structural facts only:

- every index is in range;
- fragments have positive area and lie in their cell's box;
- full cells stay full;
- the result lies between 0 and the area of the grid.

The model shows both effects of the swap on a 3 × 3 and a 5 × 5 grid:

- `Partition.SwappedInteriorTest` and `Partition.SwappedInteriorInput`:
  on the 401-rectangle input `[12, 0, 18, 29]` followed by 400 unit
  squares at the origin, cell `grid[1][0]` ends full, although no input
  rectangle covers any unit cell of its box.
- `Partition.SwappedSkippedCell`: for 2500 rectangles with largest
  coordinate 49, the rectangle `[0, 0, 49, 29]` leaves a cell untouched
  whose box lies inside it.

The model claims no union area for these grids.

Coordinates are unbounded integers. The sizing formulas that use floating
point in the source are replaced by their exact integer meaning:

- `GRID_SIZE = ceil(sqrt(n) / 10)` is the least `g >= 1` with
  `100·g² >= n`;
- `CELL_SIZE = ceil((max + 1) / GRID_SIZE)` is the least `c` with
  `c·g > max`;
- `Math.floor(v / CELL_SIZE)` is Dafny's division, which for a positive
  divisor rounds down as `Math.floor` does.

## Model

| member | source | states |
|---|---|---|
| Geometry.Area | index.js:119-122 | the source's area `(x1 - x0) * (y1 - y0)` is positive for a box with positive area and 0 for a well-formed box without |
| Geometry.CardCells | index.js:124-127 | for a well-formed box, the area the source adds up is the number of unit cells the box covers |
| Geometry.Intersect | index.js:164-175 | `None` (the source's `false`) exactly when `max(x0s) >= min(x1s)` or `max(y0s) >= min(y1s)`, so boxes touching at an edge or corner do not intersect; otherwise a box of positive area inside both arguments that contains every box inside both; the Grid's own copy (index.js:82-93) is the same code, and PlaceRectangle uses this function for it |
| Geometry.IntersectSymmetric | index.js:164-175 | the intersection does not depend on the order of the arguments |
| Geometry.IntersectCells | index.js:164-175 | `None` exactly when the two boxes share no unit cell; otherwise the result covers exactly the cells they share |
| Geometry.SplitRectangle | index.js:177-206 | at most four pieces, none when the overlap is the whole rectangle; for a positive overlap inside the rectangle every piece has positive area, lies inside the rectangle and does not intersect the overlap |
| Geometry.SplitArea | index.js:177-206 | for a positive overlap inside the rectangle, the pieces' areas add up to the rectangle's area less the overlap's |
| Geometry.SplitCells | index.js:177-206 | the pieces cover exactly the rectangle's cells outside the overlap, and no two pieces intersect |
| Geometry.DisjointUnionArea | index.js:131-161 | when no two boxes of a list intersect (the loop's exit condition), the sum of their areas is the union area plus the degenerate boxes' contribution |
| Geometry.SingleUnionArea | index.js:118-122 | for one box, the source's area is the union area plus the degenerate contribution |
| Geometry.UnionAreaPair | index.js:138-143 | for two well-formed boxes, the union area is the sum of their areas less the area of their intersection, if any |
| Geometry.UnionAreaAllInside | index.js:281-289 | when every box lies inside one well-formed box of the list, the union area is that box's area |
| Geometry.UnionAreaPermutation | index.js:129 | reordering the list (as the sort does) does not change the union area |
| Geometry.UnionAreaDuplicated | index.js:447-458 | repeating the boxes does not change the union area: duplicates count once |
| Geometry.UnionAreaAtLeastEach | index.js:116-162 | the union area is at least the area of each well-formed box of the list |
| Geometry.UnionAreaAtMostSum | index.js:124-127 | for well-formed boxes, the union area is at most the initial sum of the areas, from which the loop only subtracts |
| Resolver.SortByX0 | index.js:129 | the sorted list is a permutation of the input and is ordered by left edge |
| Resolver.SortByX0Sum | index.js:124-129 | sorting keeps every sum over the list, so the running total computed before the sort still equals the sum of the areas |
| Resolver.SortByX0Covered | index.js:129 | sorting keeps the set of covered cells |
| Resolver.ResolveStep | index.js:146-149 | the list after one step: one entry fewer plus the pieces, with the pieces of entry `i` at the end |
| Resolver.ResolveStepKeeps | index.js:146-149 | a step keeps every entry other than `i`, in their original order, ahead of the pieces |
| Resolver.FirstOverlap | index.js:136-137 | the pair `(i, j)` is the first overlapping pair in the order the two loops visit pairs; a list that has one is not overlap-free |
| Resolver.FirstOverlapUnique | index.js:136-137 | there is at most one first overlapping pair |
| Resolver.StepSums | index.js:141-149 | one step lowers the sum of the areas by exactly the overlap's area, keeps the degenerate contribution, and strictly lowers the area of the positive boxes |
| Resolver.StepCovered | index.js:146-149 | one step keeps the set of covered cells |
| Resolver.StepFacts | index.js:141-149 | `concat` of the pieces followed by `splice(i, 1)` yields the list without entry `i`, followed by the pieces; together with the step's sums and cells |
| Resolver.ResolvePass | index.js:133-159 | one pass of the while loop: if it finds an overlap, it is the first pair `i < j` in loop order, the new list is that step's result, and the running total is the new list's sum; if it finds none, the list is unchanged and has no overlapping pair; covered cells and degenerate contribution are kept either way |
| Resolver.Calculate2 | index.js:116-162 | returns the union area plus the degenerate contribution, for any input including 0 and 1 rectangles; for well-formed input, exactly the union area |
| Partition.GridSizeFor | index.js:4 | `GRID_SIZE` is at least 1 and is the least such `g` with `100·g² >= n` |
| Partition.SmallGridSize | index.js:4 | up to 100 rectangles give `GRID_SIZE = 1` |
| Partition.MaxX | index.js:6 | the largest x coordinate: no `x0` or `x1` exceeds it and some rectangle attains it |
| Partition.MaxY | index.js:7 | the largest y coordinate: no `y0` or `y1` exceeds it and some rectangle attains it |
| Partition.MaxBounds | index.js:6-10 | with non-negative coordinates, every coordinate lies between 0 and the larger of the two maxima |
| Partition.CellSizeFor | index.js:9-11 | `CELL_SIZE` is the least `c >= 1` with `c·GRID_SIZE > max` |
| Partition.CellIndex | index.js:65-71 | `getX`/`getY` give the index `i` with `i·CELL_SIZE <= v < (i + 1)·CELL_SIZE` |
| Partition.IndexInGrid | index.js:22-25 | every coordinate between 0 and the maximum maps to an index in `[0, GRID_SIZE)` |
| Partition.GridShape | index.js:73-80 | a cell's box has positive area `CELL_SIZE²` |
| Partition.PlaceInCell | index.js:27-47 | what one rectangle does to one cell: a full cell is left alone; a cell newly marked full gets area `CELL_SIZE²`; at most one fragment is appended and none removed |
| Partition.BuildCell | index.js:21-49 | a cell after the rectangles have been processed in order, as the fold of PlaceInCell; its area is `CELL_SIZE²` if it is full and 0 otherwise, and each of its fragments has positive area and lies inside the cell's box |
| Partition.FullStaysFull | index.js:29-31 | once a cell is full, later rectangles leave it unchanged |
| Partition.SingleCellHoldsPositives | index.js:33-46 | when the single cell's box contains every rectangle, the cell is never marked full and receives exactly the positive-area rectangles, unchanged and in input order |
| Partition.CellArea | index.js:57-58 | a cell adds its stored area when full, and otherwise `calculate2` of its fragments |
| Partition.CellValueBounds | index.js:29-46 | no cell adds less than 0 or more than `CELL_SIZE²` |
| Partition.GridArea | index.js:105-109 | what `new Grid(rectangles).calculate()` returns, for any grid size between 0 and `GRID_SIZE²·CELL_SIZE²` |
| Partition.SmallGridIsUnionArea | index.js:52-63 | for 1 to 100 rectangles with non-negative coordinates, the grid's result is the union area |
| Partition.SwappedInteriorTest | index.js:27-41 | with 401 rectangles and largest coordinate 29 (a 3 × 3 grid of size-10 cells), `[12, 0, 18, 29]` marks cell `grid[1][0]` full although its box `getGridShape(0, 1)` shares no cell with the rectangle |
| Partition.SwappedInteriorInput | index.js:21-49 | on the 401-rectangle input `[12, 0, 18, 29]` followed by 400 unit squares at the origin, the grid is 3 × 3 with cells of size 10, and cell `grid[1][0]` ends full with area 100, although no input rectangle covers a unit cell of its box |
| Partition.SwappedSkippedCell | index.js:27-28 | with 2500 rectangles and largest coordinate 49 (a 5 × 5 grid of size-10 cells), `[0, 0, 49, 29]` leaves cell `grid[1][3]` untouched although its box `getGridShape(3, 1)` lies inside the rectangle |
| Partition.Grid.constructor | index.js:2-50 | sets `GRID_SIZE`, `maxX`, `maxY` and `CELL_SIZE` as the source does, allocates a fresh `GRID_SIZE × GRID_SIZE` grid, and leaves every cell as the fold of PlaceInCell over the input |
| Partition.Grid.PlaceAll | index.js:21-49 | starting from empty cells, after the loop over the rectangles every cell is the fold of PlaceInCell over them |
| Partition.Grid.PlaceRectangle | index.js:22-48 | the loop body for one rectangle changes every cell exactly as PlaceInCell says, with every array index in range |
| Partition.Grid.Calculate | index.js:52-63 | returns the sum over all cells, row by row, of each cell's value |
| Partition.Calculate | index.js:96-114 | 0 for no rectangles; width × height for one (the union area when well-formed); otherwise the grid's result, which is the union area for up to 100 rectangles |
| Scenarios.OneStepResolves | index.js:138-161 | if one step leaves a well-formed list without overlaps, the union area is that list's sum, which is what the loop then returns |
| Scenarios.TouchingCorner | index.js:227-234 | two unit squares touching at a corner cover area 2 |
| Scenarios.UnitInsideSquare | index.js:236-243 | `[0,0,1,1]` and `[0,0,2,2]` cover area 4 |
| Scenarios.ThreeRectangles | index.js:244-252 | the three-rectangle case covers area 36, resolved in one step |
| Scenarios.NestedBand | index.js:265-272 | "1 under 2" covers area 6 |
| Scenarios.NestedCentre | index.js:273-280 | "nested" covers area 9 |
| Scenarios.NestedTwo | index.js:281-289 | "nested 2" covers area 9 |
| Scenarios.OverlapAbove | index.js:290-297 | "intersection up" covers area 7 |
| Scenarios.OverlapRight | index.js:298-305 | "intersetion right" covers area 7 |
| Scenarios.OverlapAboveRight | index.js:306-313 | "intersection up right" covers area 7 |
| Scenarios.OverlapBelow | index.js:314-321 | "intersection down" covers area 7 |
| Scenarios.OverlapBelowRight | index.js:322-329 | "intersection down right" covers area 7 |
| Scenarios.OverlapSide | index.js:330-337 | "intersection of the entire right side" covers area 7 |
| Scenarios.InsideFirst | index.js:362-383 | "intersection" and "shift right" cover area 25 each |
| Scenarios.Cross | index.js:408-415 | "intersection cross" covers area 5 |
| Scenarios.Pyramid | index.js:427-435 | "pyramid" covers area 36 |
| Scenarios.SixCopies | index.js:447-458 | six copies of one unit square ("one") cover area 1 |
| Scenarios.Waterfall | index.js:477-496 | "waterfall" covers area 390 |
| Scenarios.SmallCorpus | index.js:213-225 | the entry point returns 0 for no rectangles, 1 for `[0, 0, 1, 1]` and 22 for `[0, 4, 11, 6]` |

## Left out

- The timing output (`console.time`, `timeLog`, `timeEnd`) is I/O with no effect on the result.
- The test-framework import and the test harness are left out. The commented test cases appear in `scenarios.dfy` as lemmas about the union area and as methods that call `Calculate`.
- The 10000-rectangle stress case (expected 20988001) is too large to state statically.
- The cases "intersection 3 rect", "3*3", "shift right down", "wings", "intersection 2", "circle" and "very hard!" are not stated as lemmas, and their expected numbers are not checked. They have at most 100 rectangles, so `Partition.Calculate` with `Partition.SmallGridIsUnionArea` states only that `calculate` returns their union area.
- Floating point is left out. `Math.sqrt`, the division and `Math.ceil`/`Math.floor` in the sizing are replaced by their exact integer meaning, as described above.
- JavaScript numbers lose precision beyond 2^53. The model uses unbounded integers.
- `Math.max(...spread)` is modelled as a plain maximum over the sequence. The engine's limit on argument count is not modelled.
- The sort (index.js:129) is modelled by an insertion sort by `x0` that is proved to be a sorted permutation. That it is stable, as the engine's sort is, is not proved. The engine's sort algorithm is not modelled.
- In the source, `calculate2` sorts the caller's array in place: the cell's fragment list. In the model it works on a copy. The grid's result does not depend on this, because each cell is read once.
- Negative coordinates are outside the input domain: a negative coordinate can bring the grid to index -1, which throws. `Partition.Grid.constructor` and `Partition.Calculate` (for two or more rectangles) require non-negative coordinates.
- No union-area claim is made for `GRID_SIZE > 1`, where the program's row/column swap applies. Only the structural facts and the bounds in `Partition.GridArea` are stated.
- Coordinates are modelled as integers. The source accepts any numbers.
