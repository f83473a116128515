/** The grid every generator works on: a `width x height` array of cells,
    indexed `grid[x, y]`, with `width == grid.Length0` and `height == grid.Length1`.
    A cell is the pair of flags the generators set; its coordinates are its index. */
module Grid {

  /** The two flags of a map cell. */
  datatype Cell = Cell(walkable: bool, transparent: bool)

  /** A solid, opaque cell: what the generators call a wall. */
  const Wall: Cell := Cell(false, false)

  /** An open, see-through cell: what the generators call a floor. */
  const Floor: Cell := Cell(true, true)

  datatype Pos = Pos(x: int, y: int)

  type Map = array2<Cell>

  datatype Result<T> = Success(value: T) | Failure(error: string)

  /** Largest value of a C# `int`. */
  const IntMaxValue: int := 0x7FFF_FFFF

  function Min(a: int, b: int): int { if a < b then a else b }

  function Max(a: int, b: int): int { if a < b then b else a }

  predicate InBounds(grid: Map, x: int, y: int) {
    0 <= x < grid.Length0 && 0 <= y < grid.Length1
  }

  predicate SameSize(a: Map, b: Map) {
    a.Length0 == b.Length0 && a.Length1 == b.Length1
  }

  /** A cell on the outer ring of the map. */
  predicate IsBorderCell(grid: Map, x: int, y: int) {
    x == 0 || x == grid.Length0 - 1 || y == 0 || y == grid.Length1 - 1
  }

  /** An in-bounds cell off the border has all eight neighbours in bounds. */
  lemma InteriorCellHasRoom(grid: Map, x: int, y: int)
    requires InBounds(grid, x, y)
    ensures !IsBorderCell(grid, x, y) <==> 1 <= x && x + 1 < grid.Length0 && 1 <= y && y + 1 < grid.Length1
  {
  }

  /** Cells `p` and `q` are 4-adjacent (share an edge). */
  predicate Adjacent(p: Pos, q: Pos) {
    (p.x == q.x && (p.y == q.y + 1 || q.y == p.y + 1)) ||
    (p.y == q.y && (p.x == q.x + 1 || q.x == p.x + 1))
  }

  /** A deep copy of the map: what `Clone` gives the generators. */
  method Clone(grid: Map) returns (copy: Map)
    ensures fresh(copy) && SameSize(copy, grid)
    ensures forall x, y | InBounds(grid, x, y) :: copy[x, y] == grid[x, y]
  {
    copy := new Cell[grid.Length0, grid.Length1];
    for y := 0 to grid.Length1
      invariant forall i, j | InBounds(grid, i, j) && j < y :: copy[i, j] == grid[i, j]
    {
      for x := 0 to grid.Length0
        invariant forall i, j | InBounds(grid, i, j) && (j < y || (j == y && i < x)) :: copy[i, j] == grid[i, j]
      {
        copy[x, y] := grid[x, y];
      }
    }
  }

  // ----- counting walls near a cell -----

  /** A wall other than the centre `(cx, cy)`. */
  predicate IsCountedWall(grid: Map, cx: int, cy: int, i: int, j: int)
    requires InBounds(grid, i, j)
    reads grid
  {
    (i != cx || j != cy) && !grid[i, j].walkable
  }

  /** Number of counted walls `(i, y)` with `x0 <= i < x1`. */
  function RowWalls(grid: Map, cx: int, cy: int, y: int, x0: int, x1: int): nat
    requires 0 <= y < grid.Length1 && 0 <= x0 && x1 <= grid.Length0
    reads grid
    decreases x1 - x0
  {
    if x1 <= x0 then 0
    else RowWalls(grid, cx, cy, y, x0, x1 - 1) + (if IsCountedWall(grid, cx, cy, x1 - 1, y) then 1 else 0)
  }

  /** Number of counted walls in the columns `[x0, x1)` of the rows `[y0, y1)`. */
  function SquareWalls(grid: Map, cx: int, cy: int, x0: int, x1: int, y0: int, y1: int): nat
    requires 0 <= x0 && x1 <= grid.Length0 && 0 <= y0 && y1 <= grid.Length1
    reads grid
    decreases y1 - y0
  {
    if y1 <= y0 then 0
    else SquareWalls(grid, cx, cy, x0, x1, y0, y1 - 1) + RowWalls(grid, cx, cy, y1 - 1, x0, x1)
  }

  /** The walls within Chebyshev distance `distance` of `(x, y)`, the square clipped to the
      map and the cell itself left out: `MapHelper.CountWallsNear`. */
  function CountWallsNear(grid: Map, x: int, y: int, distance: nat): (r: nat)
    requires InBounds(grid, x, y)
    reads grid
    ensures r <= (2 * distance + 1) * (2 * distance + 1) - 1
    ensures distance == 1 ==> r <= 8
  {
    var x0, x1 := Max(0, x - distance), Min(grid.Length0, x + distance + 1);
    var y0, y1 := Max(0, y - distance), Min(grid.Length1, y + distance + 1);
    SquareWallsBound(grid, x, y, x0, x1, y0, y1);
    ProductMonotone(x1 - x0, y1 - y0, 2 * distance + 1);
    SquareWalls(grid, x, y, x0, x1, y0, y1)
  }

  lemma {:induction false} RowWallsBound(grid: Map, cx: int, cy: int, y: int, x0: int, x1: int)
    requires 0 <= y < grid.Length1 && 0 <= x0 <= x1 <= grid.Length0
    ensures RowWalls(grid, cx, cy, y, x0, x1) <= x1 - x0 - (if y == cy && x0 <= cx < x1 then 1 else 0)
    decreases x1 - x0
  {
    if x1 > x0 {
      RowWallsBound(grid, cx, cy, y, x0, x1 - 1);
    }
  }

  lemma {:induction false} SquareWallsBound(grid: Map, cx: int, cy: int, x0: int, x1: int, y0: int, y1: int)
    requires 0 <= x0 <= x1 <= grid.Length0 && 0 <= y0 <= y1 <= grid.Length1
    ensures SquareWalls(grid, cx, cy, x0, x1, y0, y1)
            <= (x1 - x0) * (y1 - y0) - (if x0 <= cx < x1 && y0 <= cy < y1 then 1 else 0)
    decreases y1 - y0
  {
    if y1 > y0 {
      SquareWallsBound(grid, cx, cy, x0, x1, y0, y1 - 1);
      RowWallsBound(grid, cx, cy, y1 - 1, x0, x1);
      assert (x1 - x0) * (y1 - y0) == (x1 - x0) * (y1 - 1 - y0) + (x1 - x0);
    }
  }

  lemma ProductMonotone(a: nat, b: nat, c: nat)
    requires a <= c && b <= c
    ensures a * b <= c * c
  {
    assert a * b <= a * c;
    assert a * c <= c * c;
  }

  /** The counted walls of the clipped square, as a set of cells. */
  ghost function WallsNearSet(grid: Map, x: int, y: int, distance: nat): set<Pos>
    reads grid
  {
    set i, j | Max(0, x - distance) <= i < Min(grid.Length0, x + distance + 1)
            && Max(0, y - distance) <= j < Min(grid.Length1, y + distance + 1)
            && IsCountedWall(grid, x, y, i, j)
      :: Pos(i, j)
  }

  ghost function RowWallSet(grid: Map, cx: int, cy: int, y: int, x0: int, x1: int): set<Pos>
    requires 0 <= y < grid.Length1 && 0 <= x0 && x1 <= grid.Length0
    reads grid
  {
    set i | x0 <= i < x1 && IsCountedWall(grid, cx, cy, i, y) :: Pos(i, y)
  }

  ghost function SquareWallSet(grid: Map, cx: int, cy: int, x0: int, x1: int, y0: int, y1: int): set<Pos>
    requires 0 <= x0 && x1 <= grid.Length0 && 0 <= y0 && y1 <= grid.Length1
    reads grid
  {
    set i, j | x0 <= i < x1 && y0 <= j < y1 && IsCountedWall(grid, cx, cy, i, j) :: Pos(i, j)
  }

  lemma {:induction false} RowWallsCount(grid: Map, cx: int, cy: int, y: int, x0: int, x1: int)
    requires 0 <= y < grid.Length1 && 0 <= x0 && x1 <= grid.Length0
    ensures RowWalls(grid, cx, cy, y, x0, x1) == |RowWallSet(grid, cx, cy, y, x0, x1)|
    decreases x1 - x0
  {
    if x1 <= x0 {
      assert RowWallSet(grid, cx, cy, y, x0, x1) == {};
    } else {
      RowWallsCount(grid, cx, cy, y, x0, x1 - 1);
      var s := RowWallSet(grid, cx, cy, y, x0, x1 - 1);
      if IsCountedWall(grid, cx, cy, x1 - 1, y) {
        assert RowWallSet(grid, cx, cy, y, x0, x1) == s + {Pos(x1 - 1, y)};
      } else {
        assert RowWallSet(grid, cx, cy, y, x0, x1) == s;
      }
    }
  }

  lemma {:induction false} SquareWallsCount(grid: Map, cx: int, cy: int, x0: int, x1: int, y0: int, y1: int)
    requires 0 <= x0 && x1 <= grid.Length0 && 0 <= y0 && y1 <= grid.Length1
    ensures SquareWalls(grid, cx, cy, x0, x1, y0, y1) == |SquareWallSet(grid, cx, cy, x0, x1, y0, y1)|
    decreases y1 - y0
  {
    if y1 <= y0 {
      assert SquareWallSet(grid, cx, cy, x0, x1, y0, y1) == {};
    } else {
      SquareWallsCount(grid, cx, cy, x0, x1, y0, y1 - 1);
      RowWallsCount(grid, cx, cy, y1 - 1, x0, x1);
      var a := SquareWallSet(grid, cx, cy, x0, x1, y0, y1 - 1);
      var b := RowWallSet(grid, cx, cy, y1 - 1, x0, x1);
      assert SquareWallSet(grid, cx, cy, x0, x1, y0, y1) == a + b;
      assert a !! b;
    }
  }

  /** `CountWallsNear` is the size of the set of walls in the clipped square, centre left out. */
  lemma CountWallsNearIsSetSize(grid: Map, x: int, y: int, distance: nat)
    requires InBounds(grid, x, y)
    ensures CountWallsNear(grid, x, y, distance) == |WallsNearSet(grid, x, y, distance)|
  {
    var x0, x1 := Max(0, x - distance), Min(grid.Length0, x + distance + 1);
    var y0, y1 := Max(0, y - distance), Min(grid.Length1, y + distance + 1);
    SquareWallsCount(grid, x, y, x0, x1, y0, y1);
    assert WallsNearSet(grid, x, y, distance) == SquareWallSet(grid, x, y, x0, x1, y0, y1);
  }

  // ----- integer division -----

  lemma MulAtLeast(d: int, w: int)
    requires d >= 1 && w > 0
    ensures d * w >= w
  {
    assert d * w == (d - 1) * w + w;
  }

  /** `i == q * w + r` with `0 <= r < w` fixes the quotient and the remainder. */
  lemma DivModUnique(i: int, w: int, q: int, r: int)
    requires w > 0 && 0 <= r < w && i == q * w + r
    ensures i % w == r && i / w == q
  {
    var q', r' := i / w, i % w;
    assert i == q' * w + r';
    assert q * w - q' * w == (q - q') * w;
    if q > q' {
      MulAtLeast(q - q', w);
      assert false;
    } else if q < q' {
      assert (q' - q) * w == q' * w - q * w;
      MulAtLeast(q' - q, w);
      assert false;
    }
  }

  // ----- locality -----

  /** `g1` and `g2` have the same size and the same cells within distance `d` of `(x, y)`. */
  ghost predicate AgreeNear(g1: Map, g2: Map, x: int, y: int, d: nat)
    reads g1, g2
  {
    SameSize(g1, g2) &&
    forall i, j | InBounds(g1, i, j) && x - d <= i <= x + d && y - d <= j <= y + d :: g1[i, j] == g2[i, j]
  }

  lemma {:induction false} RowWallsLocal(g1: Map, g2: Map, cx: int, cy: int, y: int, x0: int, x1: int)
    requires SameSize(g1, g2) && 0 <= y < g1.Length1 && 0 <= x0 && x1 <= g1.Length0
    requires forall i | x0 <= i < x1 :: g1[i, y] == g2[i, y]
    ensures RowWalls(g1, cx, cy, y, x0, x1) == RowWalls(g2, cx, cy, y, x0, x1)
    decreases x1 - x0
  {
    if x1 > x0 {
      RowWallsLocal(g1, g2, cx, cy, y, x0, x1 - 1);
    }
  }

  lemma {:induction false} SquareWallsLocal(g1: Map, g2: Map, cx: int, cy: int, x0: int, x1: int, y0: int, y1: int)
    requires SameSize(g1, g2) && 0 <= x0 && x1 <= g1.Length0 && 0 <= y0 && y1 <= g1.Length1
    requires forall i, j | x0 <= i < x1 && y0 <= j < y1 :: g1[i, j] == g2[i, j]
    ensures SquareWalls(g1, cx, cy, x0, x1, y0, y1) == SquareWalls(g2, cx, cy, x0, x1, y0, y1)
    decreases y1 - y0
  {
    if y1 > y0 {
      SquareWallsLocal(g1, g2, cx, cy, x0, x1, y0, y1 - 1);
      RowWallsLocal(g1, g2, cx, cy, y1 - 1, x0, x1);
    }
  }

  /** The wall count near a cell depends only on the cells within that distance of it. */
  lemma CountWallsNearLocal(g1: Map, g2: Map, x: int, y: int, distance: nat)
    requires InBounds(g1, x, y) && AgreeNear(g1, g2, x, y, distance)
    ensures CountWallsNear(g1, x, y, distance) == CountWallsNear(g2, x, y, distance)
  {
    var x0, x1 := Max(0, x - distance), Min(g1.Length0, x + distance + 1);
    var y0, y1 := Max(0, y - distance), Min(g1.Length1, y + distance + 1);
    SquareWallsLocal(g1, g2, x, y, x0, x1, y0, y1);
  }
}
