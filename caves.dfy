/** The two cave pipelines: `CaveMapCreationStrategy` (a random fill, then a number of
    smoothing passes under one of two wall-count rules, then stitching) and
    `CaveMap2CreationStrategy` (a half-size rough cave grown by ten generations, scaled up,
    smoothed once, then stitched). The random draws, `Bounds.Center` and the line tracer are
    parameters of the strategies. */
module Caves {
  import opened Grid
  import opened Automaton
  import opened Sections
  import opened Stitching
  import opened FloodFill

  /** Every cell is a wall or a floor. */
  ghost predicate WallsOrFloors(grid: Map)
    reads grid
  {
    forall x, y | InBounds(grid, x, y) :: grid[x, y] == Wall || grid[x, y] == Floor
  }

  /** Every border cell is a wall. */
  ghost predicate BorderWalled(grid: Map)
    reads grid
  {
    forall x, y | InBounds(grid, x, y) && IsBorderCell(grid, x, y) :: grid[x, y] == Wall
  }

  /** Every cell is walkable exactly when it is transparent. */
  ghost predicate FlagsEqual(grid: Map)
    reads grid
  {
    forall x, y | InBounds(grid, x, y) :: grid[x, y].walkable == grid[x, y].transparent
  }

  /** `p` lies on a `w x h` map. */
  predicate OnMap(w: int, h: int, p: Pos) {
    0 <= p.x < w && 0 <= p.y < h
  }

  /** Between two cells of a `w x h` map the line tracer gives cells of the map. */
  ghost predicate LinesFit(w: int, h: int, line: (Pos, Pos) -> seq<Pos>) {
    forall a: Pos, b: Pos | OnMap(w, h, a) && OnMap(w, h, b) ::
      forall k | 0 <= k < |line(a, b)| :: OnMap(w, h, line(a, b)[k])
  }

  /** Such a tracer traces inside every map of that size. */
  lemma LinesFitInside(grid: Map, line: (Pos, Pos) -> seq<Pos>)
    requires LinesFit(grid.Length0, grid.Length1, line)
    ensures TracesInside(grid, line)
  {
    forall a, b | InGrid(grid, a) && InGrid(grid, b) ensures OnGrid(grid, line(a, b)) {
      assert OnMap(grid.Length0, grid.Length1, a) && OnMap(grid.Length0, grid.Length1, b);
    }
  }

  /** `MapHelper.ConnectOrphanedSections` as the cave strategies use it: on success a fresh map
      of the same size in which every cell is kept or made a floor; on failure the map itself. */
  method Reconnect(grid: Map, center: Rect -> Pos, line: (Pos, Pos) -> seq<Pos>) returns (ok: bool, connected: Map)
    requires grid.Length0 + grid.Length1 <= IntMaxValue
    requires CentreInside(center) && LinesFit(grid.Length0, grid.Length1, line)
    ensures SameSize(connected, grid)
    ensures LastColumnShut(grid) && LinesInBox(line) ==> ok
    ensures !ok ==> connected == grid
    ensures ok ==> fresh(connected)
    ensures ok ==> forall x, y | InBounds(grid, x, y) :: connected[x, y] == grid[x, y] || connected[x, y] == Floor
  {
    LinesFitInside(grid, line);
    var r, cellSets, orders, centres, tunnels, links, passes := ConnectOrphanedSections(grid, center, line);
    if r.Failure? {
      return false, grid;
    }
    ok, connected := true, r.value;
  }

  /** A walled border shuts the last column. */
  lemma BorderShut(grid: Map)
    requires BorderWalled(grid)
    ensures LastColumnShut(grid)
  {
    forall x, y | InBounds(grid, x, y) && x == grid.Length0 - 1 ensures !grid[x, y].walkable {
      assert IsBorderCell(grid, x, y);
    }
  }

  // ----- CaveMapCreationStrategy -----

  /** `CellularAutomataBigAreaAlgorithm` on one cell: a border cell is kept; an interior cell
      becomes a wall iff at least five walls are next to it or at most two lie within two steps,
      and a floor otherwise. */
  function BigAreaCell(grid: Map, x: int, y: int): Cell
    requires InBounds(grid, x, y)
    reads grid
  {
    if IsBorderCell(grid, x, y) then grid[x, y]
    else if CountWallsNear(grid, x, y, 1) >= 5 || CountWallsNear(grid, x, y, 2) <= 2 then Wall
    else Floor
  }

  /** `CellularAutomataNearestNeighborsAlgorithm` on one cell: a border cell is kept; an interior
      cell becomes a wall iff at least five walls are next to it, and a floor otherwise. */
  function NearestNeighborsCell(grid: Map, x: int, y: int): Cell
    requires InBounds(grid, x, y)
    reads grid
  {
    if IsBorderCell(grid, x, y) then grid[x, y]
    else if CountWallsNear(grid, x, y, 1) >= 5 then Wall
    else Floor
  }

  /** A smoothed cell depends only on the cells within distance 2 of it under the big-area
      rule, and within distance 1 under the nearest-neighbour rule. */
  lemma SmoothedCellLocal(g1: Map, g2: Map, bigArea: bool, x: int, y: int)
    requires InBounds(g1, x, y) && AgreeNear(g1, g2, x, y, if bigArea then 2 else 1)
    ensures SmoothedCell(g1, bigArea, x, y) == SmoothedCell(g2, bigArea, x, y)
  {
    assert AgreeNear(g1, g2, x, y, 1);
    CountWallsNearLocal(g1, g2, x, y, 1);
    if bigArea {
      CountWallsNearLocal(g1, g2, x, y, 2);
    }
  }

  /** `after` is one smoothing pass of `before` under the big-area rule (when `bigArea`) or the
      nearest-neighbour rule, every cell decided from `before` alone. */
  ghost predicate IsSmoothing(before: Map, after: Map, bigArea: bool)
    reads before, after
  {
    SameSize(before, after) &&
    forall x, y | InBounds(before, x, y) ::
      after[x, y] == if bigArea then BigAreaCell(before, x, y) else NearestNeighborsCell(before, x, y)
  }

  /** A smoothing pass keeps a map of walls and floors with a walled border. */
  lemma SmoothingKeepsShape(before: Map, after: Map, bigArea: bool)
    requires IsSmoothing(before, after, bigArea) && WallsOrFloors(before) && BorderWalled(before)
    ensures WallsOrFloors(after) && BorderWalled(after) && FlagsEqual(after)
  {
    forall x, y | InBounds(after, x, y) ensures after[x, y] == Wall || after[x, y] == Floor {
      assert InBounds(before, x, y);
    }
    forall x, y | InBounds(after, x, y) && IsBorderCell(after, x, y) ensures after[x, y] == Wall {
      assert InBounds(before, x, y) && IsBorderCell(before, x, y);
    }
  }

  /** The big-area rule walls every cell the nearest-neighbour rule walls, and more: also the
      interior cells with at most two walls within two steps. */
  lemma BigAreaWallsMore(grid: Map, x: int, y: int)
    requires InBounds(grid, x, y)
    ensures NearestNeighborsCell(grid, x, y) == Wall ==> BigAreaCell(grid, x, y) == Wall
    ensures !IsBorderCell(grid, x, y) ==>
      (BigAreaCell(grid, x, y) == Wall <==>
        NearestNeighborsCell(grid, x, y) == Wall || CountWallsNear(grid, x, y, 2) <= 2)
  {
  }

  /** The fill leaves a map of walls and floors with a walled border. */
  lemma FillShape(before: Map, filled: Map, fillProbability: int, draws: nat -> int)
    requires SameSize(filled, before)
    requires forall x, y | InBounds(before, x, y) :: filled[x, y] == FillCell(before, fillProbability, draws, x, y)
    ensures WallsOrFloors(filled) && BorderWalled(filled) && FlagsEqual(filled)
  {
    forall x, y | InBounds(filled, x, y) ensures filled[x, y] == Wall || filled[x, y] == Floor {
      FillMakesFlagsEqual(before, fillProbability, draws, x, y);
    }
  }

  /** What the fill makes of a cell depends on the map's size alone. */
  lemma FillCellSize(a: Map, b: Map, fillProbability: int, draws: nat -> int)
    requires SameSize(a, b)
    ensures forall x, y | InBounds(a, x, y) :: FillCell(a, fillProbability, draws, x, y) == FillCell(b, fillProbability, draws, x, y)
  {
  }

  class CaveMapCreationStrategy {
    const width: int
    const height: int
    const fillProbability: int
    const totalIterations: int
    const cutoffOfBigAreaFill: int
    /** `draws(k)` is the value of the `k`-th call `Next(1, 100)` of the fill. */
    const draws: nat -> int
    const center: Rect -> Pos
    const line: (Pos, Pos) -> seq<Pos>
    var grid: Map

    constructor (width: int, height: int, fillProbability: int, totalIterations: int, cutoffOfBigAreaFill: int,
                 draws: nat -> int, center: Rect -> Pos, line: (Pos, Pos) -> seq<Pos>)
      ensures this.width == width && this.height == height && this.fillProbability == fillProbability
      ensures this.totalIterations == totalIterations && this.cutoffOfBigAreaFill == cutoffOfBigAreaFill
      ensures this.draws == draws && this.center == center && this.line == line
    {
      this.width := width;
      this.height := height;
      this.fillProbability := fillProbability;
      this.totalIterations := totalIterations;
      this.cutoffOfBigAreaFill := cutoffOfBigAreaFill;
      this.draws := draws;
      this.center := center;
      this.line := line;
      grid := new Cell[0, 0];
    }

    /** `CreateMap`: `stages[0]` is the random fill of a `width x height` map; pass `i` (one
        for each `i` in `0 .. totalIterations - 1`, none for a negative count) applies the
        big-area rule iff `i < cutoffOfBigAreaFill`; the result is the last stage with tunnels
        dug, so every cell is a wall or a floor. */
    method CreateMap() returns (r: Result<Map>, ghost stages: seq<Map>, ghost rules: seq<bool>)
      requires 0 <= width && 0 <= height && width + height <= IntMaxValue
      requires CentreInside(center) && LinesFit(width, height, line)
      modifies this
      ensures fresh(grid) && grid.Length0 == width && grid.Length1 == height
      ensures |rules| == Max(0, totalIterations) && |stages| == |rules| + 1
      ensures forall i | 0 <= i < |rules| :: rules[i] == (i < cutoffOfBigAreaFill)
      ensures SameSize(stages[0], grid) && WallsOrFloors(stages[|rules|]) && BorderWalled(stages[|rules|])
      ensures forall x, y | InBounds(stages[0], x, y) :: stages[0][x, y] == FillCell(stages[0], fillProbability, draws, x, y)
      ensures forall i | 0 <= i < |rules| :: IsSmoothing(stages[i], stages[i + 1], rules[i])
      ensures SameSize(stages[|rules|], grid)
      ensures LinesInBox(line) ==> r.Success?
      ensures r.Success? ==> r.value == grid
      ensures r.Success? ==> forall x, y | InBounds(grid, x, y) :: grid[x, y] == stages[|rules|][x, y] || grid[x, y] == Floor
      ensures r.Success? ==> WallsOrFloors(grid) && FlagsEqual(grid)
    {
      Initialize();
      RandomlyFill();
      stages, rules := Iterate();
      BorderShut(grid);
      var ok := ConnectSections();
      if !ok {
        return Failure("tunnel cell outside the map"), stages, rules;
      }
      r := Success(grid);
    }

    /** The `for` loop of `CreateMap`: pass `i` uses the big-area rule iff `i < cutoffOfBigAreaFill`. */
    method Iterate() returns (ghost stages: seq<Map>, ghost rules: seq<bool>)
      requires WallsOrFloors(grid) && BorderWalled(grid)
      modifies this
      ensures |rules| == Max(0, totalIterations) && |stages| == |rules| + 1
      ensures stages[0] == old(grid) && stages[|rules|] == grid
      ensures forall i | 0 <= i < |rules| :: rules[i] == (i < cutoffOfBigAreaFill)
      ensures forall i | 0 <= i < |rules| :: IsSmoothing(stages[i], stages[i + 1], rules[i])
      ensures SameSize(grid, old(grid)) && WallsOrFloors(grid) && BorderWalled(grid)
      ensures grid == old(grid) || fresh(grid)
    {
      stages, rules := [grid], [];
      for i := 0 to Max(0, totalIterations)
        invariant |rules| == i && |stages| == i + 1 && stages[0] == old(grid) && stages[i] == grid
        invariant forall k | 0 <= k < i :: rules[k] == (k < cutoffOfBigAreaFill)
        invariant forall k | 0 <= k < i :: IsSmoothing(stages[k], stages[k + 1], rules[k])
        invariant SameSize(grid, old(grid)) && WallsOrFloors(grid) && BorderWalled(grid)
        invariant grid == old(grid) || fresh(grid)
      {
        if i < cutoffOfBigAreaFill {
          CellularAutomataBigAreaAlgorithm();
          rules := rules + [true];
        } else if i >= cutoffOfBigAreaFill {
          CellularAutomataNearestNeighborsAlgorithm();
          rules := rules + [false];
        }
        stages := stages + [grid];
      }
    }

    /** `_map = MapHelper.ConnectOrphanedSections(_map)`: tunnels turn some cells into floors;
        when stitching fails the map is left as it was. */
    method ConnectSections() returns (ok: bool)
      requires grid.Length0 + grid.Length1 <= IntMaxValue && WallsOrFloors(grid)
      requires CentreInside(center) && LinesFit(grid.Length0, grid.Length1, line)
      modifies this
      ensures SameSize(grid, old(grid))
      ensures old(LastColumnShut(grid)) && LinesInBox(line) ==> ok
      ensures !ok ==> grid == old(grid)
      ensures ok ==> fresh(grid) && WallsOrFloors(grid)
      ensures ok ==> forall x, y | InBounds(grid, x, y) :: grid[x, y] == old(grid)[x, y] || grid[x, y] == Floor
    {
      var connected;
      ok, connected := Reconnect(grid, center, line);
      grid := connected;
    }

    /** `Map.Initialize(width, height)`: every cell a wall. */
    method Initialize()
      requires 0 <= width && 0 <= height
      modifies this
      ensures fresh(grid) && grid.Length0 == width && grid.Length1 == height
    {
      grid := new Cell[width, height]((x, y) => Wall);
    }

    /** `RandomlyFillCells`: the map becomes the random fill of itself. */
    method RandomlyFill()
      modifies this
      ensures fresh(grid) && SameSize(grid, old(grid))
      ensures forall x, y | InBounds(grid, x, y) :: grid[x, y] == FillCell(grid, fillProbability, draws, x, y)
      ensures WallsOrFloors(grid) && BorderWalled(grid)
    {
      ghost var before := grid;
      grid := RandomlyFillCells(grid, fillProbability, draws);
      FillShape(before, grid, fillProbability, draws);
      FillCellSize(before, grid, fillProbability, draws);
    }

    /** `CellularAutomataBigAreaAlgorithm`: the map becomes a big-area pass of itself. */
    method CellularAutomataBigAreaAlgorithm()
      requires WallsOrFloors(grid) && BorderWalled(grid)
      modifies this
      ensures IsSmoothing(old(grid), grid, true)
      ensures fresh(grid) && WallsOrFloors(grid) && BorderWalled(grid)
    {
      var updatedMap := Smooth(grid, true);
      SmoothingKeepsShape(grid, updatedMap, true);
      grid := updatedMap;
    }

    /** `CellularAutomataNearestNeighborsAlgorithm`: the map becomes a nearest-neighbour pass of itself. */
    method CellularAutomataNearestNeighborsAlgorithm()
      requires WallsOrFloors(grid) && BorderWalled(grid)
      modifies this
      ensures IsSmoothing(old(grid), grid, false)
      ensures fresh(grid) && WallsOrFloors(grid) && BorderWalled(grid)
    {
      var updatedMap := Smooth(grid, false);
      SmoothingKeepsShape(grid, updatedMap, false);
      grid := updatedMap;
    }
  }

  /** The shared loop of the two passes: clone the map, then walk its cells skipping the border
      and set each from the wall counts of the unchanged input. */
  method Smooth(grid: Map, bigArea: bool) returns (updatedMap: Map)
    ensures fresh(updatedMap) && IsSmoothing(grid, updatedMap, bigArea)
  {
    updatedMap := Clone(grid);
    for y := 0 to grid.Length1
      invariant SameSize(grid, updatedMap)
      invariant forall i, j | InBounds(grid, i, j) ::
        updatedMap[i, j] == if j < y then SmoothedCell(grid, bigArea, i, j) else grid[i, j]
    {
      for x := 0 to grid.Length0
        invariant forall i, j | InBounds(grid, i, j) ::
          updatedMap[i, j] == if j < y || (j == y && i < x) then SmoothedCell(grid, bigArea, i, j) else grid[i, j]
      {
        if IsBorderCell(grid, x, y) {
          continue;
        }
        if CountWallsNear(grid, x, y, 1) >= 5 || (bigArea && CountWallsNear(grid, x, y, 2) <= 2) {
          updatedMap[x, y] := Wall;
        } else {
          updatedMap[x, y] := Floor;
        }
      }
    }
  }

  function SmoothedCell(grid: Map, bigArea: bool, x: int, y: int): Cell
    requires InBounds(grid, x, y)
    reads grid
  {
    if bigArea then BigAreaCell(grid, x, y) else NearestNeighborsCell(grid, x, y)
  }

  // ----- CaveMap2CreationStrategy -----

  const InitialIterations := 10
  const FirstPassBorn: set<int> := {6, 7, 8}
  const FirstPassSurvive: set<int> := {3, 4, 5, 6, 7, 8}
  const SmoothPassBorn: set<int> := {5, 6, 7, 8}
  const SmoothPassSurvive: set<int> := {5, 6, 7, 8}

  /** Scaling a map whose cells have equal flags copies each source cell unchanged. */
  lemma ScaleKeepsCells(rough: Map, scaled: Map, scale: int)
    requires scale > 0 && FlagsEqual(rough)
    requires forall x, y | InBounds(scaled, x, y) ::
      InBounds(rough, x / scale, y / scale) &&
      scaled[x, y] == Cell(rough[x / scale, y / scale].transparent, rough[x / scale, y / scale].transparent)
    ensures forall x, y | InBounds(scaled, x, y) :: scaled[x, y] == rough[x / scale, y / scale]
    ensures FlagsEqual(scaled)
  {
  }

  /** A generation keeps a walled border: border cells are kept. */
  lemma GenerationKeepsBorder(before: Map, after: Map, born: set<int>, survive: set<int>)
    requires IsGeneration(before, after, born, survive) && BorderWalled(before)
    ensures BorderWalled(after)
  {
    forall x, y | InBounds(after, x, y) && IsBorderCell(after, x, y) ensures after[x, y] == Wall {
      assert InBounds(before, x, y) && IsBorderCell(before, x, y);
    }
  }

  /** A generation keeps the last column shut: it is part of the border. */
  lemma GenerationKeepsShut(before: Map, after: Map, born: set<int>, survive: set<int>)
    requires IsGeneration(before, after, born, survive) && LastColumnShut(before)
    ensures LastColumnShut(after)
  {
    forall x, y | InBounds(after, x, y) && x == after.Length0 - 1 ensures !after[x, y].walkable {
      assert InBounds(before, x, y) && IsBorderCell(before, x, y);
    }
  }

  /** Doubling a map with a walled border copies its last column into the last column. */
  lemma ScaleShut(rough: Map, scaled: Map)
    requires BorderWalled(rough) && scaled.Length0 == 2 * rough.Length0
    requires forall x, y | InBounds(scaled, x, y) ::
      InBounds(rough, x / 2, y / 2) && scaled[x, y] == rough[x / 2, y / 2]
    ensures LastColumnShut(scaled)
  {
    forall x, y | InBounds(scaled, x, y) && x == scaled.Length0 - 1 ensures !scaled[x, y].walkable {
      assert x / 2 == rough.Length0 - 1;
      assert IsBorderCell(rough, x / 2, y / 2);
    }
  }

  class CaveMap2CreationStrategy {
    const width: int
    const height: int
    const fillProbability: int
    /** `draws(k)` is the value of the `k`-th call `Next(1, 100)` of the fill. */
    const draws: nat -> int
    const center: Rect -> Pos
    const line: (Pos, Pos) -> seq<Pos>
    var grid: Map

    constructor (width: int, height: int, fillProbability: int,
                 draws: nat -> int, center: Rect -> Pos, line: (Pos, Pos) -> seq<Pos>)
      ensures this.width == width && this.height == height && this.fillProbability == fillProbability
      ensures this.draws == draws && this.center == center && this.line == line
    {
      this.width := width;
      this.height := height;
      this.fillProbability := fillProbability;
      this.draws := draws;
      this.center := center;
      this.line := line;
      grid := new Cell[0, 0];
    }

    /** `CreateMap`: `rough[0]` is the random fill of a `width / 2 x height / 2` map and each of
        the ten first passes is one generation under born {6, 7, 8} / survive {3, ..., 8};
        `scaled` doubles the last rough map cell for cell, `smoothed` is one generation of it
        under born = survive = {5, ..., 8}, and the result is `smoothed` with tunnels dug, of
        size `2 * (width / 2) x 2 * (height / 2)`, every cell walkable just when transparent. */
    method CreateMap() returns (r: Result<Map>, ghost rough: seq<Map>, ghost scaled: Map, ghost smoothed: Map)
      requires 0 <= width && 0 <= height && width + height <= IntMaxValue
      requires CentreInside(center) && LinesFit(2 * (width / 2), 2 * (height / 2), line)
      modifies this
      ensures LinesInBox(line) ==> r.Success?
      ensures r.Success? ==> r.value == grid && fresh(grid)
      ensures grid.Length0 == 2 * (width / 2) && grid.Length1 == 2 * (height / 2)
      ensures |rough| == InitialIterations + 1
      ensures rough[0].Length0 == width / 2 && rough[0].Length1 == height / 2
      ensures forall x, y | InBounds(rough[0], x, y) :: rough[0][x, y] == FillCell(rough[0], fillProbability, draws, x, y)
      ensures forall i | 0 <= i < InitialIterations ::
        IsGeneration(rough[i], rough[i + 1], FirstPassBorn, FirstPassSurvive)
      ensures scaled.Length0 == 2 * (width / 2) && scaled.Length1 == 2 * (height / 2)
      ensures forall x, y | InBounds(scaled, x, y) ::
        InBounds(rough[InitialIterations], x / 2, y / 2) && scaled[x, y] == rough[InitialIterations][x / 2, y / 2]
      ensures IsGeneration(scaled, smoothed, SmoothPassBorn, SmoothPassSurvive)
      ensures SameSize(grid, smoothed)
      ensures r.Success? ==> forall x, y | InBounds(grid, x, y) :: grid[x, y] == smoothed[x, y] || grid[x, y] == Floor
      ensures FlagsEqual(grid)
    {
      Initialize();
      RandomlyFill();
      rough := FirstPasses();
      scaled, smoothed := ScaleAndSmooth();
      var ok := ConnectSections();
      if !ok {
        return Failure("tunnel cell outside the map"), rough, scaled, smoothed;
      }
      r := Success(grid);
    }

    /** `_map.Initialize(_width / 2, _height / 2)`: every cell a wall. */
    method Initialize()
      requires 0 <= width && 0 <= height
      modifies this
      ensures fresh(grid) && grid.Length0 == width / 2 && grid.Length1 == height / 2
    {
      grid := new Cell[width / 2, height / 2]((x, y) => Wall);
    }

    /** `MapHelper.RandomlyFillCells`: the map becomes the random fill of itself. */
    method RandomlyFill()
      modifies this
      ensures SameSize(grid, old(grid)) && FlagsEqual(grid) && BorderWalled(grid)
      ensures forall x, y | InBounds(grid, x, y) :: grid[x, y] == FillCell(grid, fillProbability, draws, x, y)
    {
      ghost var before := grid;
      grid := RandomlyFillCells(grid, fillProbability, draws);
      FillShape(before, grid, fillProbability, draws);
      FillCellSize(before, grid, fillProbability, draws);
    }

    /** The ten first-pass generations. */
    method FirstPasses() returns (ghost rough: seq<Map>)
      requires FlagsEqual(grid) && BorderWalled(grid)
      modifies this
      ensures |rough| == InitialIterations + 1 && rough[0] == old(grid) && rough[InitialIterations] == grid
      ensures forall i | 0 <= i < InitialIterations ::
        IsGeneration(rough[i], rough[i + 1], FirstPassBorn, FirstPassSurvive)
      ensures SameSize(grid, old(grid)) && FlagsEqual(grid) && BorderWalled(grid)
    {
      rough := [grid];
      for i := 0 to InitialIterations
        invariant |rough| == i + 1 && rough[0] == old(grid) && rough[i] == grid
        invariant SameSize(grid, old(grid)) && FlagsEqual(grid) && BorderWalled(grid)
        invariant forall k | 0 <= k < i :: IsGeneration(rough[k], rough[k + 1], FirstPassBorn, FirstPassSurvive)
      {
        var next := RunGeneration(grid, FirstPassBorn, FirstPassSurvive);
        GenerationKeepsFlagsEqual(grid, next, FirstPassBorn, FirstPassSurvive);
        GenerationKeepsBorder(grid, next, FirstPassBorn, FirstPassSurvive);
        grid := next;
        rough := rough + [grid];
      }
    }

    /** `ScaleUp(_map, 2)`, then one smoothing generation. */
    method ScaleAndSmooth() returns (ghost scaled: Map, ghost smoothed: Map)
      requires FlagsEqual(grid) && BorderWalled(grid)
      modifies this
      ensures scaled.Length0 == 2 * old(grid).Length0 && scaled.Length1 == 2 * old(grid).Length1
      ensures forall x, y | InBounds(scaled, x, y) ::
        InBounds(old(grid), x / 2, y / 2) && scaled[x, y] == old(grid)[x / 2, y / 2]
      ensures IsGeneration(scaled, smoothed, SmoothPassBorn, SmoothPassSurvive)
      ensures smoothed == grid && FlagsEqual(grid) && LastColumnShut(grid)
    {
      var up := ScaleUp(grid, 2);
      ScaleKeepsCells(grid, up.value, 2);
      ScaleShut(grid, up.value);
      grid := up.value;
      scaled := grid;
      var next := RunGeneration(grid, SmoothPassBorn, SmoothPassSurvive);
      GenerationKeepsFlagsEqual(grid, next, SmoothPassBorn, SmoothPassSurvive);
      GenerationKeepsShut(grid, next, SmoothPassBorn, SmoothPassSurvive);
      grid := next;
      smoothed := grid;
    }

    /** `_map = MapHelper.ConnectOrphanedSections(_map)`: tunnels turn some cells into floors;
        when stitching fails the map is left as it was. */
    method ConnectSections() returns (ok: bool)
      requires grid.Length0 + grid.Length1 <= IntMaxValue && FlagsEqual(grid)
      requires CentreInside(center) && LinesFit(grid.Length0, grid.Length1, line)
      modifies this
      ensures SameSize(grid, old(grid)) && FlagsEqual(grid)
      ensures old(LastColumnShut(grid)) && LinesInBox(line) ==> ok
      ensures !ok ==> grid == old(grid)
      ensures ok ==> fresh(grid)
      ensures ok ==> forall x, y | InBounds(grid, x, y) :: grid[x, y] == old(grid)[x, y] || grid[x, y] == Floor
    {
      var connected;
      ok, connected := Reconnect(grid, center, line);
      grid := connected;
    }
  }
}
