/** `FloodFillAnalyzer`: splits a map into sections by an explicit-stack 4-neighbour fill over a
    visited matrix shared by the whole pass. Only walkable cells are ever added (the fill skips
    every non-walkable cell it pops), so the sections are the 4-connected walkable regions. */
module FloodFill {
  import opened Grid
  import opened Sections

  /** The neighbour offsets, in the analyzer's order: up, left, right, down. */
  const Offsets: seq<Pos> := [Pos(0, -1), Pos(-1, 0), Pos(1, 0), Pos(0, 1)]

  function Neighbor(c: Pos, d: int): Pos
    requires 0 <= d < 4
  {
    Pos(c.x + Offsets[d].x, c.y + Offsets[d].y)
  }

  /** Offset `3 - d` undoes offset `d`. */
  lemma NeighborBack(c: Pos, d: int)
    requires 0 <= d < 4
    ensures Neighbor(Neighbor(c, d), 3 - d) == c
  {
  }

  /** The four offsets are exactly the 4-adjacent cells. */
  lemma NeighborIsAdjacent(c: Pos, q: Pos)
    ensures Adjacent(c, q) <==> exists d | 0 <= d < 4 :: q == Neighbor(c, d)
  {
    if Adjacent(c, q) {
      if q.y == c.y - 1 { assert q == Neighbor(c, 0); }
      else if q.x == c.x - 1 { assert q == Neighbor(c, 1); }
      else if q.x == c.x + 1 { assert q == Neighbor(c, 2); }
      else { assert q == Neighbor(c, 3); }
    }
  }

  predicate InGrid(grid: Map, p: Pos) {
    InBounds(grid, p.x, p.y)
  }

  datatype Option<T> = None | Some(value: T)

  /** The neighbour of `c` at offset `d` is a floor. */
  ghost predicate FloorNext(floors: set<Pos>, c: Pos, d: int)
    requires 0 <= d < 4
  {
    Neighbor(c, d) in floors
  }

  /** No floor next to a cell of `s` lies outside `s`. */
  ghost predicate Closed(floors: set<Pos>, s: set<Pos>) {
    forall c, d | c in s && 0 <= d < 4 && FloorNext(floors, c, d) :: Neighbor(c, d) in s
  }

  /** Every cell after the first is 4-adjacent to an earlier one, so all are connected to the first. */
  ghost predicate Spanning(order: seq<Pos>) {
    forall k | 0 < k < |order| :: LinkedBack(order, k)
  }

  /** Cell `k` of `order` is 4-adjacent to an earlier one. */
  ghost predicate LinkedBack(order: seq<Pos>, k: int)
    requires 0 <= k < |order|
  {
    exists j | 0 <= j < k :: Adjacent(order[j], order[k])
  }

  /** `p` is 4-adjacent to some cell of `order`. */
  ghost predicate NextToSome(order: seq<Pos>, p: Pos) {
    exists j | 0 <= j < |order| :: Adjacent(order[j], p)
  }

  /** `p` comes before `q` in row-major order. */
  predicate RowMajorBefore(p: Pos, q: Pos) {
    p.y < q.y || (p.y == q.y && p.x < q.x)
  }

  ghost predicate InSome(cellSets: seq<set<Pos>>, p: Pos) {
    exists k | 0 <= k < |cellSets| :: p in cellSets[k]
  }

  /** The shape of a list of sections over the floors `floors`: each non-empty, floors only,
      closed and spanned by its addition order starting at its seed, which is its row-major
      first cell; pairwise disjoint; seeds in row-major order. */
  ghost predicate SectionsShape(floors: set<Pos>, cellSets: seq<set<Pos>>, orders: seq<seq<Pos>>) {
    |cellSets| == |orders| &&
    (forall k | 0 <= k < |cellSets| ::
      |orders[k]| > 0 && Spanning(orders[k]) &&
      (forall p :: p in cellSets[k] <==> p in orders[k]) &&
      cellSets[k] <= floors &&
      Closed(floors, cellSets[k]) &&
      (forall p | p in cellSets[k] :: !RowMajorBefore(p, orders[k][0]))) &&
    (forall k1, k2 | 0 <= k1 < k2 < |cellSets| :: cellSets[k1] !! cellSets[k2]) &&
    (forall k1, k2 | 0 <= k1 < k2 < |orders| :: RowMajorBefore(orders[k1][0], orders[k2][0]))
  }

  /** The cells of all the sections. */
  ghost function Union(cellSets: seq<set<Pos>>): set<Pos> {
    if cellSets == [] then {} else Union(cellSets[..|cellSets| - 1]) + cellSets[|cellSets| - 1]
  }

  lemma {:induction false} InUnion(cellSets: seq<set<Pos>>, p: Pos)
    ensures p in Union(cellSets) <==> InSome(cellSets, p)
  {
    if cellSets != [] {
      var init := cellSets[..|cellSets| - 1];
      InUnion(init, p);
      if InSome(init, p) {
        var k :| 0 <= k < |init| && p in init[k];
        assert p in cellSets[k];
      }
      if InSome(cellSets, p) && p !in cellSets[|cellSets| - 1] {
        var k :| 0 <= k < |cellSets| && p in cellSets[k];
        assert p in init[k];
      }
    }
  }

  /** The seen cells are those of the sections. */
  ghost predicate Covers(seen: set<Pos>, cellSets: seq<set<Pos>>) {
    seen == Union(cellSets)
  }

  /** The visited matrix (indexed `[y, x]`) marks exactly the cells of `seen`. */
  ghost predicate Shows(visited: array2<bool>, grid: Map, seen: set<Pos>)
    requires visited.Length0 == grid.Length1 && visited.Length1 == grid.Length0
    reads visited
  {
    forall p | InGrid(grid, p) :: visited[p.y, p.x] <==> p in seen
  }

  /** The section objects are valid and hold the given cell sets. */
  ghost predicate Holds(sections: seq<MapSection>, cellSets: seq<set<Pos>>)
    reads sections
  {
    |sections| == |cellSets| &&
    forall k | 0 <= k < |sections| :: sections[k].Valid() && sections[k].cells == cellSets[k]
  }

  /** Appending a valid section object and its cells keeps `Holds`. */
  lemma HoldsAppend(sections: seq<MapSection>, cellSets: seq<set<Pos>>, section: MapSection)
    requires Holds(sections, cellSets) && section.Valid()
    ensures Holds(sections + [section], cellSets + [section.cells])
  {
  }

  class FloodFillAnalyzer {
    const grid: Map
    var mapSections: seq<MapSection>
    /** `visited[y, x]`, as the source's `_visited[y][x]`. */
    const visited: array2<bool>
    ghost var cellSets: seq<set<Pos>>
    /** The order in which each section's cells were added. */
    ghost var orders: seq<seq<Pos>>
    /** The visited cells, as a set. */
    ghost var seen: set<Pos>
    /** A full pass has been made. */
    ghost var passed: bool
    /** Every cell of the map. */
    ghost const allCells: set<Pos>
    /** The walkable cells of the map, which the analyzer never changes. */
    ghost const floors: set<Pos>

    /** The map's and the visited matrix's dimensions. */
    ghost predicate Sized() {
      grid.Length0 <= IntMaxValue && grid.Length1 <= IntMaxValue &&
      visited.Length0 == grid.Length1 && visited.Length1 == grid.Length0 &&
      (forall p | InGrid(grid, p) :: p in allCells) &&
      (forall p | p in floors :: InGrid(grid, p))
    }

    /** `floors` are the walkable cells of the map. */
    ghost predicate Snapshot()
      reads grid
    {
      forall p | InGrid(grid, p) :: grid[p.x, p.y].walkable <==> p in floors
    }

    /** The visited matrix marks exactly the cells of the sections found so far. */
    ghost predicate Marked()
      reads this, visited
    {
      Sized() && SectionsShape(floors, cellSets, orders) && Shows(visited, grid, seen) && Covers(seen, cellSets)
    }

    ghost predicate Valid()
      reads this, grid, visited, mapSections
    {
      Snapshot() && Marked() && Holds(mapSections, cellSets) &&
      (passed ==> floors <= seen) &&
      (!passed ==> cellSets == [])
    }

    constructor (m: Map)
      requires m.Length0 <= IntMaxValue && m.Length1 <= IntMaxValue
      ensures Valid() && grid == m && mapSections == [] && !passed && fresh(visited)
    {
      grid := m;
      mapSections := [];
      visited := new bool[m.Length1, m.Length0]((y, x) => false);
      cellSets := [];
      orders := [];
      seen := {};
      passed := false;
      allCells := set x, y | 0 <= x < m.Length0 && 0 <= y < m.Length1 :: Pos(x, y);
      floors := set x, y | 0 <= x < m.Length0 && 0 <= y < m.Length1 && m[x, y].walkable :: Pos(x, y);
      new;
      forall p | InGrid(grid, p) ensures p in allCells && (grid[p.x, p.y].walkable <==> p in floors) {
        assert p == Pos(p.x, p.y);
      }
    }

    /** `GetCell`: the cell at `(x, y)`, or nothing when `(x, y)` is off the map. */
    function GetCell(x: int, y: int): (r: Option<Cell>)
      reads grid
      ensures r.Some? <==> InBounds(grid, x, y)
      ensures r.Some? ==> r.value == grid[x, y]
    {
      if x < 0 || y < 0 then None
      else if x >= grid.Length0 || y >= grid.Length1 then None
      else Some(grid[x, y])
    }

    /** `GetNeighbors`: the 4-neighbours of `cell` that lie on the map, in offset order. */
    method GetNeighbors(cell: Pos) returns (neighbors: seq<Pos>)
      ensures |neighbors| <= 4
      ensures forall q :: q in neighbors <==> InGrid(grid, q) && Adjacent(cell, q)
    {
      neighbors := [];
      for d := 0 to |Offsets|
        invariant |neighbors| <= d
        invariant forall q :: q in neighbors <==> InGrid(grid, q) && exists e | 0 <= e < d :: q == Neighbor(cell, e)
      {
        var neighbor := GetCell(cell.x + Offsets[d].x, cell.y + Offsets[d].y);
        if neighbor.None? {
          continue;
        }
        neighbors := neighbors + [Neighbor(cell, d)];
      }
      forall q ensures Adjacent(cell, q) <==> exists d | 0 <= d < 4 :: q == Neighbor(cell, d) {
        NeighborIsAdjacent(cell, q);
      }
    }

    /** `GetMapSections`: a row-major pass that fills from every cell and keeps each non-empty
        section. Afterwards every floor is in exactly one section (see `SectionsPartition`);
        a second pass finds nothing new and returns the same list. */
    method GetMapSections() returns (sections: seq<MapSection>)
      requires Valid()
      modifies this, visited
      ensures Valid() && passed && sections == mapSections
      ensures Holds(sections, cellSets) && SectionsShape(floors, cellSets, orders)
      ensures forall p | p in floors :: InSome(cellSets, p)
      ensures old(passed) ==> mapSections == old(mapSections)
    {
      for y := 0 to grid.Length1
        invariant Marked() && Holds(mapSections, cellSets) && passed == old(passed)
        invariant forall p | p in floors && RowMajorBefore(p, Pos(0, y)) :: p in seen
        invariant old(passed) ==> floors <= seen && mapSections == old(mapSections)
        invariant !passed ==> forall k | 0 <= k < |orders| :: RowMajorBefore(orders[k][0], Pos(0, y))
      {
        ScanRow(y);
      }
      forall p | p in floors ensures p in seen && InSome(cellSets, p) {
        assert InGrid(grid, p);
        assert RowMajorBefore(p, Pos(0, grid.Length1));
        InUnion(cellSets, p);
      }
      passed := true;
      sections := mapSections;
    }

    /** The pass over row `y`: one `KeepSection` per cell, left to right. */
    method ScanRow(y: int)
      requires Snapshot() && Marked() && Holds(mapSections, cellSets) && 0 <= y < grid.Length1
      requires forall p | p in floors && RowMajorBefore(p, Pos(0, y)) :: p in seen
      requires !passed ==> forall k | 0 <= k < |orders| :: RowMajorBefore(orders[k][0], Pos(0, y))
      requires passed ==> floors <= seen
      modifies this, visited
      ensures Marked() && Holds(mapSections, cellSets) && passed == old(passed)
      ensures forall p | p in floors && RowMajorBefore(p, Pos(0, y + 1)) :: p in seen
      ensures !passed ==> forall k | 0 <= k < |orders| :: RowMajorBefore(orders[k][0], Pos(0, y + 1))
      ensures floors <= old(seen) ==> mapSections == old(mapSections) && seen == old(seen)
    {
      for x := 0 to grid.Length0
        invariant Marked() && Holds(mapSections, cellSets) && passed == old(passed)
        invariant forall p | p in floors && RowMajorBefore(p, Pos(x, y)) :: p in seen
        invariant floors <= old(seen) ==> mapSections == old(mapSections) && seen == old(seen)
        invariant !passed ==> forall k | 0 <= k < |orders| :: RowMajorBefore(orders[k][0], Pos(x, y))
      {
        KeepSection(Pos(x, y));
        forall p | p in floors && RowMajorBefore(p, Pos(x + 1, y)) ensures p in seen {
          if p.y == y && p.x == x {
            assert p == Pos(x, y);
          }
        }
      }
      forall p | p in floors && RowMajorBefore(p, Pos(0, y + 1)) ensures p in seen {
        assert InGrid(grid, p);
        assert RowMajorBefore(p, Pos(grid.Length0, y));
      }
    }

    /** One turn of the pass: fill from `seed` and keep the section when it is not empty. */
    method KeepSection(seed: Pos)
      requires Snapshot() && Sized() && InGrid(grid, seed)
      requires SectionsShape(floors, cellSets, orders) && Shows(visited, grid, seen) && Covers(seen, cellSets)
      requires Holds(mapSections, cellSets)
      requires !passed ==> forall k | 0 <= k < |orders| :: RowMajorBefore(orders[k][0], seed)
      requires forall p | p in floors && RowMajorBefore(p, seed) :: p in seen
      requires passed ==> floors <= seen
      modifies this, visited
      ensures SectionsShape(floors, cellSets, orders) && Shows(visited, grid, seen) && Covers(seen, cellSets)
      ensures Holds(mapSections, cellSets) && passed == old(passed)
      ensures old(seen) <= seen && (seed in floors ==> seed in seen)
      ensures !passed ==> forall k | 0 <= k < |orders| :: RowMajorBefore(orders[k][0], seed) || orders[k][0] == seed
      ensures floors <= old(seen) ==> mapSections == old(mapSections) && seen == old(seen)
    {
      var section, order := Visit(seed, seen);
      Settle(seed, section, order);
    }

    /** The end of a turn of the pass: keep the section found from `seed` when it is not empty. */
    method Settle(seed: Pos, section: MapSection, ghost order: seq<Pos>)
      requires Sized() && SectionsShape(floors, cellSets, orders) && Covers(seen, cellSets)
      requires Holds(mapSections, cellSets)
      requires !passed ==> forall k | 0 <= k < |orders| :: RowMajorBefore(orders[k][0], seed)
      requires forall p | p in floors && RowMajorBefore(p, seed) :: p in seen
      requires passed ==> floors <= seen
      requires section.Valid()
      requires forall p :: p in section.cells <==> p in order
      requires section.cells <= floors && section.cells !! seen
      requires Shows(visited, grid, seen + section.cells)
      requires forall c, d | c in section.cells && 0 <= d < 4 && FloorNext(floors, c, d) ::
        Neighbor(c, d) in section.cells || Neighbor(c, d) in seen
      requires section.cells != {} <==> seed !in seen && seed in floors
      requires order != [] ==> order[0] == seed && Spanning(order)
      modifies this
      ensures SectionsShape(floors, cellSets, orders) && Shows(visited, grid, seen) && Covers(seen, cellSets)
      ensures Holds(mapSections, cellSets) && passed == old(passed)
      ensures old(seen) <= seen && (seed in floors ==> seed in seen)
      ensures !passed ==> forall k | 0 <= k < |orders| :: RowMajorBefore(orders[k][0], seed) || orders[k][0] == seed
      ensures floors <= old(seen) ==> mapSections == old(mapSections) && seen == old(seen)
    {
      if |section.cells| > 0 {
        KeepFound(seed, section, order);
      } else {
        assert seen + section.cells == seen;
      }
    }

    /** Keeps a non-empty section (`_mapSections.Add(section)`) and records its cells as seen. */
    method KeepFound(seed: Pos, section: MapSection, ghost order: seq<Pos>)
      requires SectionsShape(floors, cellSets, orders) && Covers(seen, cellSets) && Holds(mapSections, cellSets)
      requires section.Valid() && |section.cells| > 0
      requires forall p :: p in section.cells <==> p in order
      requires section.cells <= floors && section.cells !! seen
      requires forall c, d | c in section.cells && 0 <= d < 4 && FloorNext(floors, c, d) ::
        Neighbor(c, d) in section.cells || Neighbor(c, d) in seen
      requires order != [] ==> order[0] == seed && Spanning(order)
      requires forall k | 0 <= k < |orders| :: RowMajorBefore(orders[k][0], seed)
      requires forall p | p in floors && RowMajorBefore(p, seed) :: p in seen
      modifies this
      ensures SectionsShape(floors, cellSets, orders) && Covers(seen, cellSets) && Holds(mapSections, cellSets)
      ensures mapSections == old(mapSections) + [section] && cellSets == old(cellSets) + [section.cells]
      ensures orders == old(orders) + [order] && seen == old(seen) + section.cells && passed == old(passed)
    {
      AppendSection(floors, cellSets, orders, seen, section.cells, order, seed);
      Record(section, order);
    }

    /** The updates themselves: `_mapSections.Add(section)` and the ghost bookkeeping. */
    method Record(section: MapSection, ghost order: seq<Pos>)
      requires Holds(mapSections, cellSets) && section.Valid()
      modifies this
      ensures Holds(mapSections, cellSets)
      ensures mapSections == old(mapSections) + [section] && cellSets == old(cellSets) + [section.cells]
      ensures orders == old(orders) + [order] && seen == old(seen) + section.cells && passed == old(passed)
    {
      HoldsAppend(mapSections, cellSets, section);
      mapSections, cellSets, orders, seen :=
        mapSections + [section], cellSets + [section.cells], orders + [order], seen + section.cells;
    }

    /** `Visit`: the section grown from `seed` by the explicit-stack fill, `seen` being the cells
        visited before it. Every floor next to the section ends up visited. */
    method Visit(seed: Pos, ghost seen: set<Pos>) returns (section: MapSection, ghost order: seq<Pos>)
      requires Sized() && Snapshot() && InGrid(grid, seed) && Shows(visited, grid, seen)
      modifies visited
      ensures fresh(section) && section.Valid()
      ensures forall p :: p in section.cells <==> p in order
      ensures section.cells <= floors && section.cells !! seen
      ensures Shows(visited, grid, seen + section.cells)
      ensures forall c, d | c in section.cells && 0 <= d < 4 && FloorNext(floors, c, d) ::
        Neighbor(c, d) in section.cells || Neighbor(c, d) in seen
      ensures section.cells != {} <==> seed !in seen && seed in floors
      ensures order != [] ==> order[0] == seed && Spanning(order)
    {
      var stack: seq<Pos> := [seed];
      section := new MapSection();
      order := [];
      while |stack| != 0
        invariant fresh(section) && section.Valid()
        invariant Shows(visited, grid, seen + section.cells)
        invariant FillInv(grid, floors, seen, seed, stack, section.cells, order)
        decreases 5 * |allCells - section.cells| + |stack|
      {
        stack, order := FillStep(seed, seen, section, stack, order);
      }
    }

    /** One turn of the fill loop: pop a cell; skip it when visited or not walkable, otherwise add it. */
    method FillStep(seed: Pos, ghost seen: set<Pos>, section: MapSection, stack: seq<Pos>, ghost order: seq<Pos>)
      returns (stack': seq<Pos>, ghost order': seq<Pos>)
      requires Sized() && Snapshot() && section.Valid() && |stack| > 0
      requires Shows(visited, grid, seen + section.cells)
      requires FillInv(grid, floors, seen, seed, stack, section.cells, order)
      modifies visited, section
      ensures section.Valid()
      ensures Shows(visited, grid, seen + section.cells)
      ensures FillInv(grid, floors, seen, seed, stack', section.cells, order')
      ensures 5 * |allCells - section.cells| + |stack'| < 5 * |allCells - old(section.cells)| + |stack|
    {
      var cell := stack[|stack| - 1];
      assert cell in stack;
      stack' := stack[..|stack| - 1];
      if visited[cell.y, cell.x] || !grid[cell.x, cell.y].walkable {
        SkipStep(grid, floors, seen, seed, stack, section.cells, order);
        return stack', order;
      }
      stack', order' := AddPopped(seed, seen, section, stack, order);
    }

    /** The adding turn of the fill loop: the popped `cell` is an unvisited floor. */
    method AddPopped(seed: Pos, ghost seen: set<Pos>, section: MapSection, stack: seq<Pos>, ghost order: seq<Pos>)
      returns (stack': seq<Pos>, ghost order': seq<Pos>)
      requires Sized() && Snapshot() && section.Valid() && |stack| > 0
      requires Shows(visited, grid, seen + section.cells)
      requires FillInv(grid, floors, seen, seed, stack, section.cells, order)
      requires var cell := stack[|stack| - 1];
        InGrid(grid, cell) && !visited[cell.y, cell.x] && grid[cell.x, cell.y].walkable
      modifies visited, section
      ensures section.Valid()
      ensures Shows(visited, grid, seen + section.cells)
      ensures FillInv(grid, floors, seen, seed, stack', section.cells, order')
      ensures 5 * |allCells - section.cells| + |stack'| < 5 * |allCells - old(section.cells)| + |stack|
    {
      var cell := stack[|stack| - 1];
      assert cell in stack;
      stack' := stack[..|stack| - 1];
      ghost var oldCells := section.cells;
      assert cell !in seen + oldCells && cell in allCells;
      Expand(section, cell, seen + oldCells);
      assert seen + oldCells + {cell} == seen + section.cells;
      stack' := PushUnvisited(cell, stack', seen + section.cells);
      assert allCells - section.cells == (allCells - oldCells) - {cell};
      AddStep(grid, floors, seen, seed, stack, oldCells, order, stack');
      order' := order + [cell];
    }

    /** The first half of a step of the fill on a floor `cell` just popped: add it to the
        section and mark it visited. */
    method Expand(section: MapSection, cell: Pos, ghost marked: set<Pos>)
      requires Sized() && section.Valid() && InGrid(grid, cell) && Shows(visited, grid, marked)
      modifies section, visited
      ensures section.Valid() && section.cells == old(section.cells) + {cell}
      ensures Shows(visited, grid, marked + {cell})
    {
      section.AddCell(cell);
      visited[cell.y, cell.x] := true;
    }

    /** The second half: push each on-map neighbour of `cell` that is unvisited and of the same
        kind, that is, a floor; `marked` is the visited set. */
    method PushUnvisited(cell: Pos, stack: seq<Pos>, ghost marked: set<Pos>) returns (pushed: seq<Pos>)
      requires Sized() && Snapshot() && InGrid(grid, cell) && cell in floors && Shows(visited, grid, marked)
      ensures |pushed| <= |stack| + 4
      ensures forall p | p in stack :: p in pushed
      ensures forall p | p in pushed :: p in stack || (InGrid(grid, p) && Adjacent(cell, p))
      ensures forall q | InGrid(grid, q) && Adjacent(cell, q) && q in floors && q !in marked :: q in pushed
    {
      var neighbors := GetNeighbors(cell);
      pushed := PushNeighbors(cell, neighbors, stack);
      forall q | InGrid(grid, q) && Adjacent(cell, q) && q in floors && q !in marked
        ensures q in pushed
      {
        assert q in neighbors;
      }
    }

    /** The push loop of the fill: each neighbour of the same kind as `cell` that is not yet
        visited goes on the stack, in order. */
    method PushNeighbors(cell: Pos, neighbors: seq<Pos>, stack: seq<Pos>) returns (pushed: seq<Pos>)
      requires Sized() && Snapshot() && InGrid(grid, cell) && cell in floors
      requires forall q | q in neighbors :: InGrid(grid, q)
      ensures |pushed| <= |stack| + |neighbors|
      ensures forall p | p in stack :: p in pushed
      ensures forall p | p in pushed :: p in stack || p in neighbors
      ensures forall q | q in neighbors && q in floors && !visited[q.y, q.x] :: q in pushed
    {
      pushed := stack;
      for i := 0 to |neighbors|
        invariant |pushed| <= |stack| + i
        invariant forall p | p in stack :: p in pushed
        invariant forall p | p in pushed :: p in stack || p in neighbors[..i]
        invariant forall j | 0 <= j < i && neighbors[j] in floors && !visited[neighbors[j].y, neighbors[j].x] ::
          neighbors[j] in pushed
      {
        var neighbor := neighbors[i];
        assert neighbor in neighbors;
        if grid[cell.x, cell.y].walkable == grid[neighbor.x, neighbor.y].walkable && !visited[neighbor.y, neighbor.x] {
          pushed := pushed + [neighbor];
        }
        assert neighbors[..i + 1] == neighbors[..i] + [neighbor];
      }
      assert neighbors[..|neighbors|] == neighbors;
      forall q | q in neighbors && q in floors && !visited[q.y, q.x] ensures q in pushed {
        var j :| 0 <= j < |neighbors| && neighbors[j] == q;
      }
    }
  }

  /** The loop state of the fill from `seed`, with `seen` the cells visited before it: the
      section so far (`cells`, added in `order`), floors not seen before; the stack on the map and
      made of neighbours of added cells; every floor next to an added cell added, on the stack
      or seen before. */
  ghost predicate FillInv(grid: Map, floors: set<Pos>, seen: set<Pos>, seed: Pos, stack: seq<Pos>, cells: set<Pos>, order: seq<Pos>) {
    (forall p :: p in cells <==> p in order) &&
    cells <= floors && cells !! seen &&
    (forall p | p in stack :: InGrid(grid, p)) &&
    (order == [] ==> stack == [seed] || stack == []) &&
    (order == [] && stack == [] ==> seed in seen || seed !in floors) &&
    (order != [] ==> order[0] == seed && Spanning(order)) &&
    (order != [] ==> forall p | p in stack :: NextToSome(order, p)) &&
    Frontier(floors, seen, cells, stack)
  }

  ghost predicate Frontier(floors: set<Pos>, seen: set<Pos>, cells: set<Pos>, stack: seq<Pos>) {
    forall c, d | c in cells && 0 <= d < 4 && FloorNext(floors, c, d) ::
      Neighbor(c, d) in cells || Neighbor(c, d) in stack || Neighbor(c, d) in seen
  }

  /** Popping a cell that is already visited or not a floor keeps the loop state. */
  lemma SkipStep(grid: Map, floors: set<Pos>, seen: set<Pos>, seed: Pos, stack: seq<Pos>, cells: set<Pos>, order: seq<Pos>)
    requires FillInv(grid, floors, seen, seed, stack, cells, order) && |stack| > 0
    requires var cell := stack[|stack| - 1]; cell in seen || cell in cells || cell !in floors
    ensures FillInv(grid, floors, seen, seed, stack[..|stack| - 1], cells, order)
  {
    var cell, rest := stack[|stack| - 1], stack[..|stack| - 1];
    forall c, d | c in cells && 0 <= d < 4 && FloorNext(floors, c, d)
      ensures Neighbor(c, d) in cells || Neighbor(c, d) in rest || Neighbor(c, d) in seen
    {
      var n := Neighbor(c, d);
      if n !in cells && n != cell && n !in seen {
        var m :| 0 <= m < |stack| && stack[m] == n;
        assert rest[m] == n;
      }
    }
    assert forall p | p in rest :: p in stack;
  }

  /** Adding the popped floor `cell` and pushing its unvisited floor neighbours keeps the loop state. */
  lemma AddStep(grid: Map, floors: set<Pos>, seen: set<Pos>, seed: Pos, stack: seq<Pos>, cells: set<Pos>, order: seq<Pos>, pushed: seq<Pos>)
    requires FillInv(grid, floors, seen, seed, stack, cells, order) && |stack| > 0
    requires var cell := stack[|stack| - 1];
      cell in floors && cell !in seen && cell !in cells &&
      (forall p | p in stack[..|stack| - 1] :: p in pushed) &&
      (forall p | p in pushed :: p in stack[..|stack| - 1] || (InGrid(grid, p) && Adjacent(cell, p))) &&
      (forall q | InGrid(grid, q) && Adjacent(cell, q) && q in floors && q !in seen && q !in cells + {cell} :: q in pushed)
    requires forall p | p in floors :: InGrid(grid, p)
    ensures FillInv(grid, floors, seen, seed, pushed, cells + {stack[|stack| - 1]}, order + [stack[|stack| - 1]])
  {
    var cell := stack[|stack| - 1];
    if order == [] {
      assert cell == seed;
    } else {
      assert NextToSome(order, cell);
      AddSpanning(order, cell, order + [cell]);
      AddProvenance(stack, order, order + [cell], pushed);
    }
    AddFrontier(grid, floors, seen, stack, cells, pushed);
  }

  lemma AddSpanning(order: seq<Pos>, cell: Pos, order': seq<Pos>)
    requires Spanning(order) && NextToSome(order, cell)
    requires order' == order + [cell]
    ensures Spanning(order')
  {
    forall k | 0 < k < |order'| ensures LinkedBack(order', k) {
      if k < |order| {
        assert LinkedBack(order, k);
        var j :| 0 <= j < k && Adjacent(order[j], order[k]);
        assert order'[j] == order[j] && order'[k] == order[k];
      } else {
        var j :| 0 <= j < |order| && Adjacent(order[j], cell);
        assert order'[j] == order[j] && order'[k] == cell;
      }
    }
  }

  lemma AddProvenance(stack: seq<Pos>, order: seq<Pos>, order': seq<Pos>, pushed: seq<Pos>)
    requires |stack| > 0 && order' == order + [stack[|stack| - 1]]
    requires forall p | p in stack :: NextToSome(order, p)
    requires forall p | p in pushed :: p in stack[..|stack| - 1] || Adjacent(stack[|stack| - 1], p)
    ensures forall p | p in pushed :: NextToSome(order', p)
  {
    var cell, rest := stack[|stack| - 1], stack[..|stack| - 1];
    forall p | p in pushed ensures NextToSome(order', p) {
      if p in rest {
        assert p in stack;
        var j :| 0 <= j < |order| && Adjacent(order[j], p);
        assert order'[j] == order[j];
      } else {
        assert order'[|order|] == cell;
      }
    }
  }

  lemma AddFrontier(grid: Map, floors: set<Pos>, seen: set<Pos>, stack: seq<Pos>, cells: set<Pos>, pushed: seq<Pos>)
    requires |stack| > 0 && Frontier(floors, seen, cells, stack)
    requires forall p | p in floors :: InGrid(grid, p)
    requires var cell := stack[|stack| - 1];
      (forall p | p in stack[..|stack| - 1] :: p in pushed) &&
      (forall q | InGrid(grid, q) && Adjacent(cell, q) && q in floors && q !in seen && q !in cells + {cell} :: q in pushed)
    ensures Frontier(floors, seen, cells + {stack[|stack| - 1]}, pushed)
  {
    var cell, rest := stack[|stack| - 1], stack[..|stack| - 1];
    var cells' := cells + {cell};
    forall c, d | c in cells' && 0 <= d < 4 && FloorNext(floors, c, d)
      ensures Neighbor(c, d) in cells' || Neighbor(c, d) in pushed || Neighbor(c, d) in seen
    {
      var n := Neighbor(c, d);
      NeighborIsAdjacent(c, n);
      if c != cell && n !in cells' && n !in seen {
        assert n in stack;
        var m :| 0 <= m < |stack| && stack[m] == n;
        assert m < |rest| && rest[m] == n;
      }
    }
  }

  /** A cell next to an earlier section's floor belongs to that section. */
  lemma OldSectionNeighbor(floors: set<Pos>, cellSets: seq<set<Pos>>, orders: seq<seq<Pos>>, n: Pos, d: int)
    requires 0 <= d < 4 && SectionsShape(floors, cellSets, orders)
    requires InSome(cellSets, n) && FloorNext(floors, n, d)
    ensures InSome(cellSets, Neighbor(n, d))
  {
    var k :| 0 <= k < |cellSets| && n in cellSets[k];
    assert Closed(floors, cellSets[k]);
  }

  /** A fill's non-empty result, seeded after every earlier seed and after no unseen floor,
      extends the section list. */
  lemma AppendSection(floors: set<Pos>, cellSets: seq<set<Pos>>, orders: seq<seq<Pos>>, seen: set<Pos>, cells: set<Pos>, order: seq<Pos>, seed: Pos)
    requires SectionsShape(floors, cellSets, orders) && Covers(seen, cellSets)
    requires forall p :: p in cells <==> p in order
    requires cells <= floors && cells !! seen
    requires forall c, d | c in cells && 0 <= d < 4 && FloorNext(floors, c, d) ::
      Neighbor(c, d) in cells || Neighbor(c, d) in seen
    requires order != [] ==> order[0] == seed && Spanning(order)
    requires |cells| > 0
    requires forall k | 0 <= k < |orders| :: RowMajorBefore(orders[k][0], seed)
    requires forall p | p in floors && RowMajorBefore(p, seed) :: p in seen
    ensures SectionsShape(floors, cellSets + [cells], orders + [order])
    ensures Covers(seen + cells, cellSets + [cells])
  {
    var cellSets', orders' := cellSets + [cells], orders + [order];
    assert order != [] by {
      var p :| p in cells;
    }
    assert Closed(floors, cells) by {
      forall c, d | c in cells && 0 <= d < 4 && FloorNext(floors, c, d) ensures Neighbor(c, d) in cells {
        var n := Neighbor(c, d);
        if n !in cells {
          InUnion(cellSets, n);
          NeighborBack(c, d);
          OldSectionNeighbor(floors, cellSets, orders, n, 3 - d);
          InUnion(cellSets, c);
          assert false;
        }
      }
    }
    forall k | 0 <= k < |cellSets| ensures cellSets[k] !! cells {
      forall p | p in cellSets[k] ensures p !in cells {
        InUnion(cellSets, p);
      }
    }
    assert cellSets'[..|cellSets|] == cellSets;
    assert forall k | 0 <= k < |cellSets| :: cellSets'[k] == cellSets[k] && orders'[k] == orders[k];
  }

  // ----- what a finished pass means -----

  /** `path` is a 4-connected walk through `s`: non-empty, inside `s`, each step to an adjacent cell. */
  ghost predicate Walk(path: seq<Pos>, s: set<Pos>) {
    |path| > 0 &&
    (forall i | 0 <= i < |path| :: path[i] in s) &&
    (forall i | 0 < i < |path| :: Adjacent(path[i - 1], path[i]))
  }

  /** There is a walk through `s` from `a` to `b`. */
  ghost predicate Connects(s: set<Pos>, a: Pos, b: Pos) {
    exists path | Walk(path, s) :: path[0] == a && path[|path| - 1] == b
  }

  /** A spanning addition order reaches each of its cells from the first by a walk through its cells. */
  lemma {:induction false} SpanningWalk(order: seq<Pos>, s: set<Pos>, k: int)
    requires Spanning(order) && 0 <= k < |order|
    requires forall p | p in order :: p in s
    ensures Connects(s, order[0], order[k])
    decreases k
  {
    if k == 0 {
      var path := [order[0]];
      assert Walk(path, s);
    } else {
      assert LinkedBack(order, k);
      var j :| 0 <= j < k && Adjacent(order[j], order[k]);
      SpanningWalk(order, s, j);
      var path :| Walk(path, s) && path[0] == order[0] && path[|path| - 1] == order[j];
      var path' := path + [order[k]];
      assert Walk(path', s) by {
        forall i | 0 <= i < |path'| ensures path'[i] in s {
          if i == |path| { assert order[k] in order; }
        }
      }
      assert path'[0] == order[0] && path'[|path'| - 1] == order[k];
    }
  }

  function Reverse(path: seq<Pos>): (r: seq<Pos>)
    ensures |r| == |path| && forall i | 0 <= i < |path| :: r[i] == path[|path| - 1 - i]
  {
    if path == [] then [] else Reverse(path[1..]) + [path[0]]
  }

  lemma ConnectsBack(s: set<Pos>, a: Pos, b: Pos)
    requires Connects(s, a, b)
    ensures Connects(s, b, a)
  {
    var path :| Walk(path, s) && path[0] == a && path[|path| - 1] == b;
    var back := Reverse(path);
    forall i | 0 < i < |back| ensures Adjacent(back[i - 1], back[i]) {
      assert Adjacent(path[|path| - 1 - i], path[|path| - i]);
    }
    assert Walk(back, s);
  }

  lemma ConnectsJoin(s: set<Pos>, a: Pos, b: Pos, c: Pos)
    requires Connects(s, a, b) && Connects(s, b, c)
    ensures Connects(s, a, c)
  {
    var p :| Walk(p, s) && p[0] == a && p[|p| - 1] == b;
    var q :| Walk(q, s) && q[0] == b && q[|q| - 1] == c;
    var pq := p + q[1..];
    forall i | 0 < i < |pq| ensures Adjacent(pq[i - 1], pq[i]) {
      if i == |p| {
        assert pq[i - 1] == q[0] && pq[i] == q[1];
      } else if i > |p| {
        assert pq[i - 1] == q[i - |p|] && pq[i] == q[i - |p| + 1];
      }
    }
    assert Walk(pq, s);
    assert pq[|pq| - 1] == c;
  }

  /** A walk over floors that starts in a closed set never leaves it. */
  lemma {:induction false} WalkStays(floors: set<Pos>, s: set<Pos>, path: seq<Pos>)
    requires Closed(floors, s) && Walk(path, floors) && path[0] in s
    ensures forall i | 0 <= i < |path| :: path[i] in s
    decreases |path|
  {
    if |path| > 1 {
      var init := path[..|path| - 1];
      assert Walk(init, floors);
      WalkStays(floors, s, init);
      var c, n := path[|path| - 2], path[|path| - 1];
      assert c == init[|init| - 1] && Adjacent(c, n);
      NeighborIsAdjacent(c, n);
      var d :| 0 <= d < 4 && n == Neighbor(c, d);
      assert FloorNext(floors, c, d);
      forall i | 0 <= i < |path| ensures path[i] in s {
        if i < |init| { assert path[i] == init[i]; }
      }
    }
  }

  /** The sections of a finished pass partition the walkable cells: each section is non-empty
      and holds floors only, and every floor is in exactly one section. */
  lemma SectionsPartition(floors: set<Pos>, cellSets: seq<set<Pos>>, orders: seq<seq<Pos>>)
    requires SectionsShape(floors, cellSets, orders)
    requires forall p | p in floors :: InSome(cellSets, p)
    ensures forall k | 0 <= k < |cellSets| :: cellSets[k] != {} && cellSets[k] <= floors
    ensures forall p | p in floors :: exists k | 0 <= k < |cellSets| :: p in cellSets[k]
    ensures forall k1, k2 | 0 <= k1 < |cellSets| && 0 <= k2 < |cellSets| && k1 != k2 :: cellSets[k1] !! cellSets[k2]
  {
    forall k | 0 <= k < |cellSets| ensures orders[k][0] in cellSets[k] {
      assert orders[k][0] in orders[k];
    }
    forall p | p in floors ensures exists k | 0 <= k < |cellSets| :: p in cellSets[k] {
      assert InSome(cellSets, p);
    }
    forall k1, k2 | 0 <= k1 < |cellSets| && 0 <= k2 < |cellSets| && k1 != k2
      ensures cellSets[k1] !! cellSets[k2]
    {
      if k2 < k1 {
        assert cellSets[k2] !! cellSets[k1];
      }
    }
  }

  /** Each section's seed (the first cell of its order) is its row-major first cell, and the
      seeds come in row-major order. */
  lemma SeedsInOrder(floors: set<Pos>, cellSets: seq<set<Pos>>, orders: seq<seq<Pos>>)
    requires SectionsShape(floors, cellSets, orders)
    ensures |orders| == |cellSets| && forall k | 0 <= k < |orders| :: |orders[k]| > 0
    ensures forall k | 0 <= k < |orders| ::
      orders[k][0] in cellSets[k] && forall p | p in cellSets[k] :: !RowMajorBefore(p, orders[k][0])
    ensures forall k1, k2 | 0 <= k1 < k2 < |orders| :: RowMajorBefore(orders[k1][0], orders[k2][0])
  {
    forall k | 0 <= k < |orders| ensures orders[k][0] in cellSets[k] {
      assert orders[k][0] in orders[k];
    }
  }

  /** Two 4-adjacent floors share a section. */
  lemma AdjacentShareSection(floors: set<Pos>, cellSets: seq<set<Pos>>, orders: seq<seq<Pos>>)
    requires SectionsShape(floors, cellSets, orders)
    ensures forall k, p, q | 0 <= k < |cellSets| && p in cellSets[k] && q in floors && Adjacent(p, q) :: q in cellSets[k]
  {
    forall k, p, q | 0 <= k < |cellSets| && p in cellSets[k] && q in floors && Adjacent(p, q)
      ensures q in cellSets[k]
    {
      NeighborIsAdjacent(p, q);
      var d :| 0 <= d < 4 && q == Neighbor(p, d);
      assert FloorNext(floors, p, d);
      assert Closed(floors, cellSets[k]);
    }
  }

  /** Each section is 4-connected: any two of its cells are joined by a walk inside it. */
  lemma SectionsConnected(floors: set<Pos>, cellSets: seq<set<Pos>>, orders: seq<seq<Pos>>)
    requires SectionsShape(floors, cellSets, orders)
    ensures forall k, a, b | 0 <= k < |cellSets| && a in cellSets[k] && b in cellSets[k] :: Connects(cellSets[k], a, b)
  {
    forall k, a, b | 0 <= k < |cellSets| && a in cellSets[k] && b in cellSets[k]
      ensures Connects(cellSets[k], a, b)
    {
      SectionConnected(cellSets[k], orders[k], a, b);
    }
  }

  /** Each section is a whole region: a walk over floors never leaves the section it starts in. */
  lemma SectionsMaximal(floors: set<Pos>, cellSets: seq<set<Pos>>, orders: seq<seq<Pos>>)
    requires SectionsShape(floors, cellSets, orders)
    ensures forall k, path | 0 <= k < |cellSets| && Walk(path, floors) && path[0] in cellSets[k] ::
      path[|path| - 1] in cellSets[k]
  {
    forall k, path | 0 <= k < |cellSets| && Walk(path, floors) && path[0] in cellSets[k]
      ensures path[|path| - 1] in cellSets[k]
    {
      assert Closed(floors, cellSets[k]);
      WalkStays(floors, cellSets[k], path);
    }
  }

  /** Two cells of a section spanned by `order` are joined through the section via its seed. */
  lemma SectionConnected(s: set<Pos>, order: seq<Pos>, a: Pos, b: Pos)
    requires |order| > 0 && Spanning(order) && (forall p :: p in s <==> p in order)
    requires a in s && b in s
    ensures Connects(s, a, b)
  {
    var i :| 0 <= i < |order| && order[i] == a;
    var j :| 0 <= j < |order| && order[j] == b;
    SpanningWalk(order, s, i);
    SpanningWalk(order, s, j);
    ConnectsBack(s, order[0], a);
    ConnectsJoin(s, a, order[0], b);
  }
}
