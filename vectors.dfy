/** The concrete cases of the cellular-automaton unit tests: a 5 x 5 floor map with a
    horizontal line of three walls in its middle row. */
module AutomatonVectors {
  import opened Grid
  import opened Automaton

  /** The 5 x 5 floor map with walls at (1, 2), (2, 2) and (3, 2). */
  ghost predicate IsRowTriple(grid: Map)
    reads grid
  {
    grid.Length0 == 5 && grid.Length1 == 5 &&
    forall x, y | InBounds(grid, x, y) :: grid[x, y] == if y == 2 && 1 <= x <= 3 then Wall else Floor
  }

  /** The same line turned upright: walls at (2, 1), (2, 2) and (2, 3). */
  ghost predicate IsColumnTriple(grid: Map)
    reads grid
  {
    grid.Length0 == 5 && grid.Length1 == 5 &&
    forall x, y | InBounds(grid, x, y) :: grid[x, y] == if x == 2 && 1 <= y <= 3 then Wall else Floor
  }

  /** How many of `lo .. hi - 1` lie in `1 .. 3`, less one when `centre` is one of them. */
  function LineWalls(lo: int, hi: int, centreOnLine: bool, centre: int): int {
    Max(0, Min(hi, 4) - Max(lo, 1)) - (if centreOnLine && 1 <= centre <= 3 && lo <= centre < hi then 1 else 0)
  }

  lemma {:induction false} RowTripleRow(grid: Map, cx: int, cy: int, y: int, x0: int, x1: int)
    requires IsRowTriple(grid)
    requires 0 <= y < 5 && 0 <= x0 <= x1 <= 5
    ensures RowWalls(grid, cx, cy, y, x0, x1) == if y == 2 then LineWalls(x0, x1, cy == 2, cx) else 0
    decreases x1 - x0
  {
    if x1 > x0 {
      RowTripleRow(grid, cx, cy, y, x0, x1 - 1);
    }
  }

  lemma {:induction false} RowTripleSquare(grid: Map, cx: int, cy: int, x0: int, x1: int, y0: int, y1: int)
    requires IsRowTriple(grid)
    requires 0 <= x0 <= x1 <= 5 && 0 <= y0 <= y1 <= 5
    ensures SquareWalls(grid, cx, cy, x0, x1, y0, y1) == if y0 <= 2 < y1 then LineWalls(x0, x1, cy == 2, cx) else 0
    decreases y1 - y0
  {
    if y1 > y0 {
      RowTripleSquare(grid, cx, cy, x0, x1, y0, y1 - 1);
      RowTripleRow(grid, cx, cy, y1 - 1, x0, x1);
    }
  }

  lemma {:induction false} ColumnTripleRow(grid: Map, cx: int, cy: int, y: int, x0: int, x1: int)
    requires IsColumnTriple(grid)
    requires 0 <= y < 5 && 0 <= x0 <= x1 <= 5
    ensures RowWalls(grid, cx, cy, y, x0, x1) ==
      if 1 <= y <= 3 && x0 <= 2 < x1 && !(cx == 2 && cy == y) then 1 else 0
    decreases x1 - x0
  {
    if x1 > x0 {
      ColumnTripleRow(grid, cx, cy, y, x0, x1 - 1);
    }
  }

  lemma {:induction false} ColumnTripleSquare(grid: Map, cx: int, cy: int, x0: int, x1: int, y0: int, y1: int)
    requires IsColumnTriple(grid)
    requires 0 <= x0 <= x1 <= 5 && 0 <= y0 <= y1 <= 5
    ensures SquareWalls(grid, cx, cy, x0, x1, y0, y1) == if x0 <= 2 < x1 then LineWalls(y0, y1, cx == 2, cy) else 0
    decreases y1 - y0
  {
    if y1 > y0 {
      ColumnTripleSquare(grid, cx, cy, x0, x1, y0, y1 - 1);
      ColumnTripleRow(grid, cx, cy, y1 - 1, x0, x1);
    }
  }

  /** The expected wall counts of the neighbour test, in row-major order (`y` outer). */
  const ExpectedCounts: seq<int> := [0, 0, 0, 0, 0, 1, 2, 3, 2, 1, 1, 1, 2, 1, 1, 1, 2, 3, 2, 1, 0, 0, 0, 0, 0]

  /** The neighbour test: `CountWallsNear(·, ·, 1)` over the row triple, cell by cell. */
  lemma RowTripleCounts(grid: Map)
    requires IsRowTriple(grid)
    ensures forall x, y | 0 <= x < 5 && 0 <= y < 5 :: CountWallsNear(grid, x, y, 1) == ExpectedCounts[5 * y + x]
  {
    forall x, y | 0 <= x < 5 && 0 <= y < 5
      ensures CountWallsNear(grid, x, y, 1) == ExpectedCounts[5 * y + x]
    {
      RowTripleSquare(grid, x, y, Max(0, x - 1), Min(5, x + 2), Max(0, y - 1), Min(5, y + 2));
    }
  }

  /** The upright line has the transposed counts. */
  lemma ColumnTripleCounts(grid: Map)
    requires IsColumnTriple(grid)
    ensures forall x, y | 0 <= x < 5 && 0 <= y < 5 :: CountWallsNear(grid, x, y, 1) == ExpectedCounts[5 * x + y]
  {
    forall x, y | 0 <= x < 5 && 0 <= y < 5
      ensures CountWallsNear(grid, x, y, 1) == ExpectedCounts[5 * x + y]
    {
      ColumnTripleSquare(grid, x, y, Max(0, x - 1), Min(5, x + 2), Max(0, y - 1), Min(5, y + 2));
    }
  }

  /** The Conway test: one generation with born {3} and survive {2, 3} turns the row triple upright. */
  lemma ConwayTurnsUpright(grid: Map, after: Map)
    requires IsRowTriple(grid) && IsGeneration(grid, after, {3}, {2, 3})
    ensures IsColumnTriple(after)
  {
    RowTripleCounts(grid);
  }

  /** ... and the next one turns it back: the pattern oscillates with period 2, it is not a fixed point. */
  lemma ConwayTurnsBack(grid: Map, after: Map)
    requires IsColumnTriple(grid) && IsGeneration(grid, after, {3}, {2, 3})
    ensures IsRowTriple(after)
  {
    ColumnTripleCounts(grid);
  }
}
