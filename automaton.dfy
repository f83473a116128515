/** The cellular-automaton transforms of `MapHelper` (and of its duplicate, `CellularAutomata`):
    one generation under a born/survive rule, the random fill and the nearest-neighbour upscale.
    Each reads its input map and returns a freshly allocated map; none has a `modifies` clause,
    so the input map is never changed. */
module Automaton {
  import opened Grid

  // ----- RunGeneration -----

  /** What one generation makes of cell `(x, y)`: a border cell is kept; an interior wall stays a
      wall iff its wall count is in `survive`; an interior floor becomes a wall iff its count is in `born`. */
  function NextCell(grid: Map, born: set<int>, survive: set<int>, x: int, y: int): Cell
    requires InBounds(grid, x, y)
    reads grid
  {
    if IsBorderCell(grid, x, y) then grid[x, y]
    else
      var isAlive := !grid[x, y].walkable;
      var count := CountWallsNear(grid, x, y, 1);
      var newIsLive := (isAlive && count in survive) || (!isAlive && count in born);
      Cell(!newIsLive, !newIsLive)
  }

  /** A cell's next generation depends only on the cells of its 3 x 3 square. */
  lemma NextCellLocal(g1: Map, g2: Map, born: set<int>, survive: set<int>, x: int, y: int)
    requires InBounds(g1, x, y) && AgreeNear(g1, g2, x, y, 1)
    ensures NextCell(g1, born, survive, x, y) == NextCell(g2, born, survive, x, y)
  {
    CountWallsNearLocal(g1, g2, x, y, 1);
  }

  /** `after` is one generation of `before`: every cell decided from `before` alone. */
  ghost predicate IsGeneration(before: Map, after: Map, born: set<int>, survive: set<int>)
    reads before, after
  {
    SameSize(before, after) &&
    forall x, y | InBounds(before, x, y) :: after[x, y] == NextCell(before, born, survive, x, y)
  }

  /** `MapHelper.RunGeneration` (and `CellularAutomata.CellularAutomataRunGeneration`). */
  method RunGeneration(grid: Map, born: set<int>, survive: set<int>) returns (updated: Map)
    ensures fresh(updated)
    ensures IsGeneration(grid, updated, born, survive)
    ensures forall x, y | InBounds(grid, x, y) && IsBorderCell(grid, x, y) :: updated[x, y] == grid[x, y]
    ensures forall x, y | InBounds(grid, x, y) && !IsBorderCell(grid, x, y) ::
      updated[x, y].walkable == updated[x, y].transparent &&
      (!updated[x, y].walkable <==>
        (!grid[x, y].walkable && CountWallsNear(grid, x, y, 1) in survive) ||
        (grid[x, y].walkable && CountWallsNear(grid, x, y, 1) in born))
  {
    updated := Clone(grid);
    for y := 0 to grid.Length1
      invariant SameSize(grid, updated)
      invariant forall i, j | InBounds(grid, i, j) ::
        updated[i, j] == if j < y then NextCell(grid, born, survive, i, j) else grid[i, j]
    {
      for x := 0 to grid.Length0
        invariant forall i, j | InBounds(grid, i, j) ::
          updated[i, j] == if j < y || (j == y && i < x) then NextCell(grid, born, survive, i, j) else grid[i, j]
      {
        var isAlive := !grid[x, y].walkable;
        var newIsLive := false;
        var count := CountWallsNear(grid, x, y, 1);
        if IsBorderCell(grid, x, y) {
          continue;
        }
        if isAlive && count in survive {
          newIsLive := true;
        } else if !isAlive && count in born {
          newIsLive := true;
        }
        var isWalkable := !newIsLive;
        updated[x, y] := Cell(isWalkable, isWalkable);
      }
    }
  }

  /** A generation keeps "walkable == transparent" on every cell when its input has it. */
  lemma GenerationKeepsFlagsEqual(before: Map, after: Map, born: set<int>, survive: set<int>)
    requires IsGeneration(before, after, born, survive)
    requires forall x, y | InBounds(before, x, y) :: before[x, y].walkable == before[x, y].transparent
    ensures forall x, y | InBounds(after, x, y) :: after[x, y].walkable == after[x, y].transparent
  {
  }

  // ----- RandomlyFillCells -----

  /** Draws made for the interior cells of the rows above row `y` (one per interior cell). */
  function DrawsBeforeRow(grid: Map, y: int): nat {
    if grid.Length0 < 3 then 0
    else
      var rows := Max(0, Min(y, grid.Length1 - 1) - 1);
      MulNonnegative(rows, grid.Length0 - 2);
      rows * (grid.Length0 - 2)
  }

  lemma MulNonnegative(a: nat, b: nat)
    ensures a * b >= 0
  {
  }

  /** The number of the draw an interior cell gets: interior cells draw once each, in row-major order. */
  function DrawIndex(grid: Map, x: int, y: int): (k: nat)
    requires InBounds(grid, x, y) && !IsBorderCell(grid, x, y)
    ensures k == DrawsBeforeRow(grid, y) + (x - 1)
    ensures forall x', y' | InBounds(grid, x', y') && !IsBorderCell(grid, x', y') && (y' < y || (y' == y && x' < x))
              :: DrawsBeforeRow(grid, y') + (x' - 1) < k
  {
    DrawsBeforeRowMonotone(grid, y);
    DrawsBeforeRow(grid, y) + (x - 1)
  }

  lemma DrawsBeforeRowMonotone(grid: Map, y: int)
    requires 1 <= y < grid.Length1 - 1 && grid.Length0 >= 3
    ensures forall y' | 1 <= y' < y :: DrawsBeforeRow(grid, y') + (grid.Length0 - 2) <= DrawsBeforeRow(grid, y)
  {
    forall y' | 1 <= y' < y
      ensures DrawsBeforeRow(grid, y') + (grid.Length0 - 2) <= DrawsBeforeRow(grid, y)
    {
      MulStep(y' - 1, y - 1, grid.Length0 - 2);
    }
  }

  lemma {:induction false} MulStep(a: int, b: int, c: nat)
    requires a < b
    ensures a * c + c <= b * c
    decreases b - a
  {
    assert (b - 1) * c + c == b * c;
    if a < b - 1 {
      MulStep(a, b - 1, c);
    }
  }

  /** What the fill makes of cell `(x, y)`, where `draws(k)` is the value of the `k`-th call of
      `Next(1, 100)`: the border is walled, an interior cell becomes a floor iff its draw is
      below `fillProbability`. */
  function FillCell(grid: Map, fillProbability: int, draws: nat -> int, x: int, y: int): Cell
    requires InBounds(grid, x, y)
  {
    if IsBorderCell(grid, x, y) then Wall
    else if draws(DrawIndex(grid, x, y)) < fillProbability then Floor
    else Wall
  }

  /** `MapHelper.RandomlyFillCells`. */
  method RandomlyFillCells(grid: Map, fillProbability: int, draws: nat -> int) returns (outmap: Map)
    ensures fresh(outmap) && SameSize(outmap, grid)
    ensures forall x, y | InBounds(grid, x, y) :: outmap[x, y] == FillCell(grid, fillProbability, draws, x, y)
    ensures forall x, y | InBounds(grid, x, y) && IsBorderCell(grid, x, y) :: outmap[x, y] == Wall
    ensures forall x, y | InBounds(grid, x, y) && !IsBorderCell(grid, x, y) ::
      outmap[x, y] == if draws(DrawIndex(grid, x, y)) < fillProbability then Floor else Wall
  {
    outmap := Clone(grid);
    var k: nat := 0;
    for y := 0 to grid.Length1
      invariant SameSize(grid, outmap)
      invariant k == DrawsBeforeRow(grid, y)
      invariant forall i, j | InBounds(grid, i, j) && j < y :: outmap[i, j] == FillCell(grid, fillProbability, draws, i, j)
    {
      ghost var rowStart := k;
      for x := 0 to grid.Length0
        invariant k == rowStart + (if 0 < y < grid.Length1 - 1 then Max(0, Min(x, grid.Length0 - 1) - 1) else 0)
        invariant forall i, j | InBounds(grid, i, j) && (j < y || (j == y && i < x)) ::
          outmap[i, j] == FillCell(grid, fillProbability, draws, i, j)
      {
        if IsBorderCell(grid, x, y) {
          outmap[x, y] := Wall;
        } else {
          assert k == DrawIndex(grid, x, y);
          if draws(k) < fillProbability {
            outmap[x, y] := Floor;
          } else {
            outmap[x, y] := Wall;
          }
          k := k + 1;
        }
      }
      if grid.Length0 >= 3 && 0 < y < grid.Length1 - 1 {
        assert DrawsBeforeRow(grid, y + 1) == (y - 1) * (grid.Length0 - 2) + (grid.Length0 - 2);
      }
    }
  }

  /** The fill makes every cell a floor or a wall, so walkable equals transparent everywhere. */
  lemma FillMakesFlagsEqual(grid: Map, fillProbability: int, draws: nat -> int, x: int, y: int)
    requires InBounds(grid, x, y)
    ensures FillCell(grid, fillProbability, draws, x, y) in {Wall, Floor}
  {
  }

  // ----- ScaleUp -----

  lemma DivBelow(x: nat, scale: int, n: int)
    requires scale > 0 && x < n * scale
    ensures 0 <= x / scale < n
  {
  }

  /** `MapHelper.ScaleUp`: fails for a scale below 2; otherwise the map grows by `scale` in each
      direction and cell `(x, y)` copies the transparency of source cell `(x / scale, y / scale)`
      into both of its flags. */
  method ScaleUp(grid: Map, scale: int) returns (r: Result<Map>)
    ensures r.Failure? <==> scale < 2
    ensures r.Success? ==> fresh(r.value)
    ensures r.Success? ==>
      r.value.Length0 == grid.Length0 * scale && r.value.Length1 == grid.Length1 * scale &&
      forall x, y | InBounds(r.value, x, y) ::
        InBounds(grid, x / scale, y / scale) &&
        r.value[x, y] == Cell(grid[x / scale, y / scale].transparent, grid[x / scale, y / scale].transparent)
  {
    if scale < 2 {
      return Failure("Scale factor must be greater than 1.");
    }
    var newHeight := grid.Length1 * scale;
    var newWidth := grid.Length0 * scale;
    var outmap := new Cell[newWidth, newHeight];
    for y := 0 to newHeight
      invariant forall i, j | InBounds(outmap, i, j) && j < y ::
        InBounds(grid, i / scale, j / scale) &&
        outmap[i, j] == Cell(grid[i / scale, j / scale].transparent, grid[i / scale, j / scale].transparent)
    {
      for x := 0 to newWidth
        invariant forall i, j | InBounds(outmap, i, j) && (j < y || (j == y && i < x)) ::
          InBounds(grid, i / scale, j / scale) &&
          outmap[i, j] == Cell(grid[i / scale, j / scale].transparent, grid[i / scale, j / scale].transparent)
      {
        DivBelow(x, scale, grid.Length0);
        DivBelow(y, scale, grid.Length1);
        var baseX := x / scale;
        var baseY := y / scale;
        var baseCell := grid[baseX, baseY];
        outmap[x, y] := Cell(baseCell.transparent, baseCell.transparent);
      }
    }
    return Success(outmap);
  }
}
