# RogueSharp map generation, modelled in Dafny

This project models the map-creation core of RogueSharp, a C# roguelike library, and proves
properties of it. The core has three parts:

- the cellular-automaton helpers of `MapHelper`: one born/survive generation, the random fill and
  the nearest-neighbour upscale;
- the cave and maze strategies built on those helpers;
- the connectivity pass, where `FloodFillAnalyzer` splits a map into sections, a union-find
  tracks which sections are joined, and `ConnectOrphanedSections` digs tunnels between sections
  until one set is left.

A map is a `width x height` array of cells, indexed `grid[x, y]`. A cell is the pair of flags
(walkable, transparent). A wall has both flags false and a floor has both true. Prim's maze also
uses the intermediate state "walkable but opaque" to mark the cells on its open list.

Modules and files:

| file | module | models |
|---|---|---|
| `grid.dfy` | `Grid` | cells, bounds, border, `Clone`, `CountWallsNear` |
| `automaton.dfy` | `Automaton` | `RunGeneration`, `RandomlyFillCells`, `ScaleUp` |
| `vectors.dfy` | `AutomatonVectors` | the two cellular-automaton unit tests, as lemmas |
| `sections.dfy` | `Sections` | `MapSection` and its bounding box |
| `unionfind.dfy` | `UnionFinds` | the union-find over section indices |
| `floodfill.dfy` | `FloodFill` | `FloodFillAnalyzer` and what its pass guarantees |
| `stitching.dfy` | `Stitching` | `DistanceBetween`, `FindNearestMapSection`, `ConnectOrphanedSections` |
| `maze.dfy` | `Maze` | `MazeStrategyBase` primitives and `PrimsMazeMapCreationStrategy` |
| `caves.dfy` | `Caves` | `CaveMapCreationStrategy` and `CaveMap2CreationStrategy` |

Code that changes state is modelled imperatively.

- The strategies are classes whose `grid` field is the map they reassign.
- `MapSection`, `UnionFind` and `FloodFillAnalyzer` are classes with their own fields.
- The generation passes walk an `array2` with loops, writing into a fresh clone.
- Like the source, no pass ever writes to its input map.
- The pure parts are functions, with lemmas proved about them. These parts are the skip
  neighbours, the link cell, the index encoding and the per-cell rules.

Outside inputs are parameters:

- The random number generator is an oracle. `draws(k)` is the result of the `k`-th `Next(1, 100)`
  call of a fill, and `random(k, m)` the result of the `k`-th `Next(m)` call of the maze. The
  maze requires `0 <= random(k, m) <= m`, because RogueSharp's `Next(max)` includes `max`.
- `Rectangle.Center` is a parameter `center`. All the model assumes is that it returns a cell of
  any non-empty rectangle.
- `IMap.GetCellsAlongLine` is a parameter `line`. Everything the model proves assumes only that,
  between two cells of the map, it returns cells of the map. One further fact is stated as a
  hypothesis where it is used: that a line stays in the box spanned by its two ends, as a
  Bresenham line does. Under it, stitching cannot fail on a map whose last column has no
  walkable cell, as on every cave map.

## Model

| member | source | states |
|---|---|---|
| Grid.InteriorCellHasRoom | RogueSharp/MapCreation/MapUtilities/MapHelper.cs:51-55 | a cell on the map is off the border exactly when all eight of its neighbours are on the map |
| Grid.Clone | RogueSharp/MapCreation/MapUtilities/MapHelper.cs:19 | the clone is a new array of the same size holding the same cell at every position |
| Grid.CountWallsNear | RogueSharp/MapCreation/MapUtilities/MapHelper.cs:61-76 | the wall count of the square clipped to the map, centre excluded, is below `(2d+1)^2` (at most 8 for distance 1) |
| Grid.RowWallsBound | RogueSharp/MapCreation/MapUtilities/MapHelper.cs:64-74 | a row segment holds at most as many counted walls as it has cells, one fewer when the centre is on it |
| Grid.SquareWallsBound | RogueSharp/MapCreation/MapUtilities/MapHelper.cs:64-74 | a rectangle of rows holds at most its area in counted walls, one fewer when the centre is inside |
| Grid.RowWallsCount | RogueSharp/MapCreation/MapUtilities/MapHelper.cs:64-74 | the recursive row count equals the size of the set of walls in that row segment |
| Grid.SquareWallsCount | RogueSharp/MapCreation/MapUtilities/MapHelper.cs:64-74 | the recursive rectangle count equals the size of the set of walls in the rectangle |
| Grid.CountWallsNearIsSetSize | RogueSharp/MapCreation/MapUtilities/MapHelper.cs:61-76 | `CountWallsNear` is the number of non-walkable cells of the clipped square other than the centre |
| Grid.CountWallsNearLocal | RogueSharp/MapCreation/MapUtilities/MapHelper.cs:61-76 | the wall count near a cell depends only on the cells within that distance of it |
| Automaton.RunGeneration | RogueSharp/MapCreation/MapUtilities/MapHelper.cs:17-45 | border cells are copied unchanged; an interior cell becomes a wall iff it is a wall whose count is in `survive` or a floor whose count is in `born`, and a floor otherwise; every count is taken on the input map |
| Automaton.NextCellLocal | RogueSharp/MapCreation/MapUtilities/MapHelper.cs:23-42 | the next generation of a cell depends only on the cells of its 3 x 3 square |
| Automaton.GenerationKeepsFlagsEqual | RogueSharp/MapCreation/MapUtilities/MapHelper.cs:40-41 | a generation keeps "walkable equals transparent" on every cell of a map that has it |
| Automaton.DrawIndex | RogueSharp/MapCreation/MapUtilities/MapHelper.cs:88-101 | only interior cells draw, once each, in row-major order, so an interior cell's draw number is above that of every interior cell before it |
| Automaton.DrawsBeforeRowMonotone | RogueSharp/MapCreation/MapUtilities/MapHelper.cs:88-101 | each interior row adds width-2 draws to the count of draws before it |
| Automaton.RandomlyFillCells | RogueSharp/MapCreation/MapUtilities/MapHelper.cs:85-104 | same size as the input; border cells become walls; an interior cell becomes a floor iff its own draw is below `fillProbability`, and a wall otherwise |
| Automaton.FillMakesFlagsEqual | RogueSharp/MapCreation/MapUtilities/MapHelper.cs:90-101 | the fill makes every cell a wall or a floor |
| Automaton.ScaleUp | RogueSharp/MapCreation/MapUtilities/MapHelper.cs:110-131 | fails exactly when the scale is below 2; otherwise the map grows by the factor in both dimensions and cell `(x, y)` takes the transparency of source cell `(x / scale, y / scale)` in both flags |
| AutomatonVectors.RowTripleRow | RogueSharp.Test/CellularAutomataTests.cs:18-22 | the wall count of any row segment of the horizontal three-wall map |
| AutomatonVectors.RowTripleSquare | RogueSharp.Test/CellularAutomataTests.cs:18-22 | the wall count of any rectangle of the horizontal three-wall map |
| AutomatonVectors.ColumnTripleRow | RogueSharp.Test/CellularAutomataTests.cs:54-58 | the wall count of any row segment of the vertical three-wall map |
| AutomatonVectors.ColumnTripleSquare | RogueSharp.Test/CellularAutomataTests.cs:54-58 | the wall count of any rectangle of the vertical three-wall map |
| AutomatonVectors.RowTripleCounts | RogueSharp.Test/CellularAutomataTests.cs:15-37 | the neighbour test: the 25 distance-1 wall counts, in row-major order, are exactly the expected list |
| AutomatonVectors.ColumnTripleCounts | RogueSharp.Test/CellularAutomataTests.cs:15-37 | the vertical line has the transposed counts |
| AutomatonVectors.ConwayTurnsUpright | RogueSharp.Test/CellularAutomataTests.cs:39-61 | the Conway test: one generation with born {3} and survive {2, 3} turns the horizontal line into the vertical one |
| AutomatonVectors.ConwayTurnsBack | RogueSharp.Test/CellularAutomataTests.cs:39-61 | the next generation turns the vertical line back into the horizontal one |
| Sections.MapSection.constructor | RogueSharp/MapCreation/MapUtilities/MapSection.cs:29-34 | an empty section whose box is the empty start value (left and top `int.MaxValue`, right and bottom 0) |
| Sections.MapSection.Bounds | RogueSharp/MapCreation/MapUtilities/MapSection.cs:18 | for a non-empty section the rectangle has positive size, holds every cell and touches a cell on its left and top edges; for cells with non-negative coordinates it touches the right and bottom edges too |
| Sections.MapSection.AddCell | RogueSharp/MapCreation/MapUtilities/MapSection.cs:40-44 | the cell is added and the box widens to the minimum and maximum of the old bounds and the cell, so it never shrinks; adding a cell already inside the box keeps `Bounds` |
| Sections.MapSection.UpdateBounds | RogueSharp/MapCreation/MapUtilities/MapSection.cs:46-64 | each side of the box becomes the old side or the cell's coordinate, whichever is further out |
| UnionFinds.IdentityLabels | RogueSharp/MapCreation/MapUtilities/MapHelper.cs:142 | the start labelling of `n` elements has `n` labels |
| UnionFinds.UnionFind.constructor | RogueSharp/MapCreation/MapUtilities/MapHelper.cs:142 | `n` singleton sets: the count is `n` and two elements are connected iff they are equal |
| UnionFinds.UnionFind.Union | RogueSharp/MapCreation/MapUtilities/MapHelper.cs:164 | `a` and `b` end up connected, and the count drops by one iff they were apart; two elements are connected afterwards iff they were before, or each was connected to one of `a` and `b` |
| UnionFinds.CountPositive | RogueSharp/MapCreation/MapUtilities/MapHelper.cs:143 | a non-empty structure has at least one set |
| UnionFinds.SingleLabel | RogueSharp/MapCreation/MapUtilities/MapHelper.cs:143 | all elements with one label make a single set |
| UnionFinds.SomeUnconnected | RogueSharp/MapCreation/MapUtilities/MapHelper.cs:143-147 | more than one set left means element 0 is apart from some element |
| UnionFinds.OneSetConnected | RogueSharp/MapCreation/MapUtilities/MapHelper.cs:143 | one set left means every two elements are connected |
| UnionFinds.OneSetIffConnected | RogueSharp/MapCreation/MapUtilities/MapHelper.cs:143 | `Count == 1` exactly when every two elements are `Connected`; this links the loop test `Count > 1` (line 143) to the `Connected` test (line 188) |
| FloodFill.NeighborBack | RogueSharp/MapCreation/FloodFillAnalyzer.cs:13-16 | offset `3 - d` undoes offset `d` |
| FloodFill.NeighborIsAdjacent | RogueSharp/MapCreation/FloodFillAnalyzer.cs:13-16 | the four offsets give exactly the 4-adjacent cells |
| FloodFill.FloodFillAnalyzer.constructor | RogueSharp/MapCreation/FloodFillAnalyzer.cs:24-33 | an analyzer over the map with no sections and a fresh, all-false visited matrix |
| FloodFill.FloodFillAnalyzer.GetCell | RogueSharp/MapCreation/FloodFillAnalyzer.cs:79-90 | a cell is returned exactly when `(x, y)` is on the map, and it is the map's cell there |
| FloodFill.FloodFillAnalyzer.GetNeighbors | RogueSharp/MapCreation/FloodFillAnalyzer.cs:92-106 | at most four cells: exactly the 4-adjacent cells that are on the map |
| FloodFill.FloodFillAnalyzer.GetMapSections | RogueSharp/MapCreation/FloodFillAnalyzer.cs:39-52 | after the pass every walkable cell is in a section; each section is non-empty, walkable only, closed under walkable adjacency and spanned from its seed; sections are pairwise disjoint, with seeds in row-major order; a second call returns the same list |
| FloodFill.FloodFillAnalyzer.ScanRow | RogueSharp/MapCreation/FloodFillAnalyzer.cs:41-49 | after the cells of row `y`, every walkable cell up to the end of that row has been seen |
| FloodFill.FloodFillAnalyzer.KeepSection | RogueSharp/MapCreation/FloodFillAnalyzer.cs:44-48 | one turn of the pass: the seen set only grows, takes in the seed when it is walkable, and changes nothing once every walkable cell is seen |
| FloodFill.FloodFillAnalyzer.Settle | RogueSharp/MapCreation/FloodFillAnalyzer.cs:45-48 | a section is kept only when it is non-empty, and the section shape is preserved |
| FloodFill.FloodFillAnalyzer.KeepFound | RogueSharp/MapCreation/FloodFillAnalyzer.cs:47 | appending a non-empty section keeps the shape of the section list |
| FloodFill.FloodFillAnalyzer.Record | RogueSharp/MapCreation/FloodFillAnalyzer.cs:47 | `_mapSections.Add(section)`: the list grows by exactly that section |
| FloodFill.FloodFillAnalyzer.Visit | RogueSharp/MapCreation/FloodFillAnalyzer.cs:54-77 | the section is empty iff the seed was already seen or is not walkable; otherwise it holds only unseen walkable cells, is spanned from the seed, and contains every walkable neighbour of its cells that was not seen before |
| FloodFill.FloodFillAnalyzer.FillStep | RogueSharp/MapCreation/FloodFillAnalyzer.cs:59-75 | one pop keeps the loop state and shrinks the measure `5 * unadded cells + stack size` |
| FloodFill.FloodFillAnalyzer.AddPopped | RogueSharp/MapCreation/FloodFillAnalyzer.cs:66-74 | adding a popped unvisited floor keeps the loop state and shrinks the measure |
| FloodFill.FloodFillAnalyzer.Expand | RogueSharp/MapCreation/FloodFillAnalyzer.cs:66-67 | the popped cell joins the section and is marked visited |
| FloodFill.FloodFillAnalyzer.PushUnvisited | RogueSharp/MapCreation/FloodFillAnalyzer.cs:68-74 | the stack keeps its entries, gains at most four cells, all on the map and adjacent to the cell, and gains every unvisited walkable neighbour |
| FloodFill.FloodFillAnalyzer.PushNeighbors | RogueSharp/MapCreation/FloodFillAnalyzer.cs:68-74 | the push loop adds only listed neighbours and adds every unvisited walkable one |
| FloodFill.SkipStep | RogueSharp/MapCreation/FloodFillAnalyzer.cs:62-65 | popping a visited or non-walkable cell keeps the loop state |
| FloodFill.AddStep | RogueSharp/MapCreation/FloodFillAnalyzer.cs:66-74 | adding the popped floor and pushing its unvisited floor neighbours keeps the loop state |
| FloodFill.AddSpanning | RogueSharp/MapCreation/FloodFillAnalyzer.cs:66 | appending a cell next to an earlier one keeps the addition order spanning |
| FloodFill.AddProvenance | RogueSharp/MapCreation/FloodFillAnalyzer.cs:68-74 | every stacked cell is next to a cell already added |
| FloodFill.AddFrontier | RogueSharp/MapCreation/FloodFillAnalyzer.cs:68-74 | every walkable neighbour of an added cell is added, stacked or seen |
| FloodFill.OldSectionNeighbor | RogueSharp/MapCreation/FloodFillAnalyzer.cs:70 | a walkable cell next to an earlier section belongs to that section |
| FloodFill.AppendSection | RogueSharp/MapCreation/FloodFillAnalyzer.cs:44-48 | a non-empty fill result, seeded after every earlier seed, extends the section list and keeps its shape |
| FloodFill.SpanningWalk | RogueSharp/MapCreation/FloodFillAnalyzer.cs:54-77 | every cell of a spanning addition order is reached from the first by a walk through the order's cells |
| FloodFill.WalkStays | RogueSharp/MapCreation/FloodFillAnalyzer.cs:54-77 | a walk over walkable cells that starts in a closed set stays in it |
| FloodFill.SectionsPartition | RogueSharp/MapCreation/FloodFillAnalyzer.cs:39-52 | after a pass the sections partition the walkable cells: each is non-empty and walkable, every walkable cell is in one, and no two overlap |
| FloodFill.SeedsInOrder | RogueSharp/MapCreation/FloodFillAnalyzer.cs:41-49 | each section's seed is its row-major first cell, and sections appear in the row-major order of their seeds |
| FloodFill.AdjacentShareSection | RogueSharp/MapCreation/FloodFillAnalyzer.cs:68-74 | two 4-adjacent walkable cells lie in the same section |
| FloodFill.SectionsConnected | RogueSharp/MapCreation/FloodFillAnalyzer.cs:54-77 | any two cells of a section are joined by a 4-connected walk inside it |
| FloodFill.SectionsMaximal | RogueSharp/MapCreation/FloodFillAnalyzer.cs:54-77 | a walk over walkable cells never leaves the section it starts in |
| FloodFill.SectionConnected | RogueSharp/MapCreation/FloodFillAnalyzer.cs:54-77 | two cells of a spanned section are joined through the section via its seed |
| Stitching.DistanceBetween | RogueSharp/MapCreation/MapUtilities/MapHelper.cs:208-211 | the distance is non-negative and zero exactly when the two centres coincide |
| Stitching.DistanceOnMap | RogueSharp/MapCreation/MapUtilities/MapHelper.cs:208-211 | the distance is symmetric, and for centres on the map it is at most width + height - 2 |
| Stitching.NearestUnique | RogueSharp/MapCreation/MapUtilities/MapHelper.cs:182-198 | lowest-index tie-breaking makes the nearest candidate unique |
| Stitching.FindNearestMapSection | RogueSharp/MapCreation/MapUtilities/MapHelper.cs:177-200 | returns `index` itself iff no other section is apart from it in the union-find; otherwise the nearest such section, the lowest-numbered among equally near ones |
| Stitching.TunnelStep | RogueSharp/MapCreation/MapUtilities/MapHelper.cs:152-163 | one more traced cell opens itself and, when it differs from the cell before, its right neighbour |
| Stitching.InTunnel | RogueSharp/MapCreation/MapUtilities/MapHelper.cs:152-163 | every traced cell is opened, and so is the right neighbour of every cell that differs from the one before it |
| Stitching.DigTunnel | RogueSharp/MapCreation/MapUtilities/MapHelper.cs:151-163 | the `foreach` succeeds exactly when every right neighbour it writes (that of each cell after the first differing from the one before) is on the map; then the tunnel's cells become floors and every other cell keeps its value |
| Stitching.JoinOne | RogueSharp/MapCreation/MapUtilities/MapHelper.cs:147-164 | one turn of the inner loop adds the tunnel from section `i`'s centre to its partner's, fails exactly when that tunnel does not fit, and otherwise keeps the stitching state, never raises the count, and lowers it when section `i` had an unconnected partner |
| Stitching.Merge | RogueSharp/MapCreation/MapUtilities/MapHelper.cs:164 | the count drops by one exactly when the two sections were apart, and elements with one label stay joined by chains of tunnels, now with the new tunnel among them |
| Stitching.Partner | RogueSharp/MapCreation/MapUtilities/MapHelper.cs:147-148 | with some section apart from `i`, the chosen partner is apart from `i` |
| Stitching.Dig | RogueSharp/MapCreation/MapUtilities/MapHelper.cs:149-163 | the line is added to the tunnels; the dig succeeds exactly when the line fits, and then the map is the grid with all the tunnels opened |
| Stitching.JoinPass | RogueSharp/MapCreation/MapUtilities/MapHelper.cs:145-165 | a pass of the `for` loop fails exactly when one of its tunnels does not fit; otherwise, starting with more than one set, it merges at least once and adds one tunnel from each section in turn |
| Stitching.TurnStep | RogueSharp/MapCreation/MapUtilities/MapHelper.cs:145-147 | the tunnel made at turn `i` of a pass starts at section `i`, so tunnel `m` starts at section `m % n` |
| Stitching.JoinAll | RogueSharp/MapCreation/MapUtilities/MapHelper.cs:143-166 | the `while` loop fails exactly when some tunnel does not fit; otherwise it ends with one set (none with no sections), after no pass exactly when there is at most one section, at most one pass fewer than there are sections, and with one tunnel per section per pass |
| Stitching.JoinedGrow | RogueSharp/MapCreation/MapUtilities/MapHelper.cs:164 | more tunnels keep every chain |
| Stitching.JoinedVia | RogueSharp/MapCreation/MapUtilities/MapHelper.cs:164 | a chain to `a`, the tunnel from `a` to `b` and a chain from `b` make a chain |
| Stitching.AllJoined | RogueSharp/MapCreation/MapUtilities/MapHelper.cs:143 | when the loop ends with one set, every two sections are joined by a chain of tunnels |
| Stitching.SectionsOnMap | RogueSharp/MapCreation/MapUtilities/MapHelper.cs:139-141 | each centre of a finished flood fill's sections lies on the map, in the box of its section's cells |
| Stitching.BoundsOnMap | RogueSharp/MapCreation/MapUtilities/MapSection.cs:18 | the bounding box of a non-empty section of map cells lies on the map, and each of its four sides touches a cell of the section |
| Stitching.ShutLeft | RogueSharp/MapCreation/MapUtilities/MapHelper.cs:159 | with no walkable cell in the last column, every walkable cell has its right neighbour on the map |
| Stitching.CentresFit | RogueSharp/MapCreation/MapUtilities/MapHelper.cs:149-150 | a centre in the box of cells that all have their right neighbour on the map has it too |
| Stitching.TunnelsFit | RogueSharp/MapCreation/MapUtilities/MapHelper.cs:149-163 | with every centre left of the last column and a line that stays in the box of its ends, every tunnel fits |
| Stitching.FloorsWalkable | RogueSharp/MapCreation/FloodFillAnalyzer.cs:39-52 | the analyzer's floor set is exactly the walkable cells of its map |
| Stitching.Analyze | RogueSharp/MapCreation/MapUtilities/MapHelper.cs:139-141 | the flood fill's sections partition the walkable cells, and each centre lies on the map in the box of its section's cells |
| Stitching.ConnectOrphanedSections | RogueSharp/MapCreation/MapUtilities/MapHelper.cs:137-168 | the sections are those of the walkable cells; tunnel `m` is the line from the centre of section `m % n` to that of its partner (itself once every section is connected to it); it fails exactly when a tunnel writes a right neighbour off the map, which cannot happen when the last column is shut and the line stays in its box; otherwise the result is a new map equal to the input except that the tunnels' cells are floors, no cell becomes a wall, every tunnel cell and written right neighbour is a floor, and every two sections are joined by a chain of tunnels; the passes number none exactly when there is at most one section, and fewer than the sections otherwise |
| Stitching.Join | RogueSharp/MapCreation/MapUtilities/MapHelper.cs:140-167 | once the sections are found: the same failure condition and the same result as `ConnectOrphanedSections` |
| Stitching.Stitch | RogueSharp/MapCreation/MapUtilities/MapHelper.cs:140-167 | the clone, the union-find and the `while` loop: success exactly when every tunnel fits, and then the clone is the grid with the tunnels dug and every two sections joined |
| Stitching.TunnelsOpen | RogueSharp/MapCreation/MapUtilities/MapHelper.cs:151-163 | every traced cell, and the right neighbour of every traced cell differing from the one before, is a floor of the result |
| Maze.SkipRank | RogueSharp/MapCreation/MazeStrategyBase.cs:17-22 | the four skip offsets give four distinct cells, and a cell matches at most one of them |
| Maze.SkipNeighborsFrom | RogueSharp/MapCreation/MazeStrategyBase.cs:92-105 | the cells kept from offsets `d .. 3`: at most `4 - d`, each an eligible cell at one of those offsets, every eligible one included, in offset order |
| Maze.GetSkipNeighbors | RogueSharp/MapCreation/MazeStrategyBase.cs:89-107 | exactly the cells two steps away along an axis that are on the map, off the border, neither transparent nor walkable; at most four, in offset order |
| Maze.GetLinkCell | RogueSharp/MapCreation/MazeStrategyBase.cs:74-82 | the link lies between the two cells; for cells one skip apart it is their midpoint, adjacent to both |
| Maze.LinkRoundsTowardStart | RogueSharp/MapCreation/MazeStrategyBase.cs:76-79 | C# truncating division: for an odd distance along an axis the link is one step nearer `start` than `end`, whichever way `end` lies, and for an even distance it is the midpoint |
| Maze.CsDivHalf | RogueSharp/MapCreation/MazeStrategyBase.cs:76-79 | halving with C# `/` drops the odd unit toward zero |
| Maze.EncodeRoundTrip | RogueSharp/MapCreation/PrimsMazeMapCreationStrategy.cs:46-47 | decoding `(y * w) + x` with `% w` and `(current - x) / w` gives the cell back |
| Maze.DecodeRoundTrip | RogueSharp/MapCreation/PrimsMazeMapCreationStrategy.cs:46-47 | encoding a decoded index gives the index back, and an index below `w * h` decodes to a cell of the map |
| Maze.EncodeBound | RogueSharp/MapCreation/PrimsMazeMapCreationStrategy.cs:39 | a cell of a `w x h` map encodes below `w * h` |
| Maze.RemoveValue | RogueSharp/MapCreation/PrimsMazeMapCreationStrategy.cs:66 | `List.Remove` keeps a list without the value unchanged, and otherwise takes exactly one copy of the value out of it |
| Maze.RemoveFirst | RogueSharp/MapCreation/PrimsMazeMapCreationStrategy.cs:66 | the copy removed is the first: when `s[i]` does not occur before `i`, exactly position `i` goes |
| Maze.StartShape | RogueSharp/MapCreation/PrimsMazeMapCreationStrategy.cs:38-40 | the start state, (1, 1) carved and open, has the maze shape |
| Maze.HorizontalLink | RogueSharp/MapCreation/PrimsMazeMapCreationStrategy.cs:57-59 | for an odd cell and an interior cell two steps along x, the link is even, interior and joins just those two cells |
| Maze.VerticalLink | RogueSharp/MapCreation/PrimsMazeMapCreationStrategy.cs:57-59 | the same along y |
| Maze.LinkGeometry | RogueSharp/MapCreation/PrimsMazeMapCreationStrategy.cs:56-59 | a carving step's link is adjacent to both cells, interior, not odd, and the link of no other pair |
| Maze.CarveCells | RogueSharp/MapCreation/PrimsMazeMapCreationStrategy.cs:57-60 | carving keeps every carved cell interior (but for (1, 1)) and odd or a link, and the link was not carved before |
| Maze.CarveOrder | RogueSharp/MapCreation/PrimsMazeMapCreationStrategy.cs:58-60 | the carving order stays spanning from (1, 1): link and new cell are each next to an earlier cell |
| Maze.AppendDistinct | RogueSharp/MapCreation/PrimsMazeMapCreationStrategy.cs:61 | appending a value not in the list keeps it free of repeats |
| Maze.CarveOpen | RogueSharp/MapCreation/PrimsMazeMapCreationStrategy.cs:61 | appending the new cell's index keeps the open list exactly the indices of the open cells, without repeats |
| Maze.CarveKeeps | RogueSharp/MapCreation/PrimsMazeMapCreationStrategy.cs:53-62 | a carving step keeps the whole maze shape |
| Maze.DropIndex | RogueSharp/MapCreation/PrimsMazeMapCreationStrategy.cs:66 | dropping position `i` keeps the earlier elements and shifts the later ones down by one |
| Maze.FinishOpenSound | RogueSharp/MapCreation/PrimsMazeMapCreationStrategy.cs:66 | after the drop every index left is of an open cell other than the dropped one |
| Maze.FinishOpenComplete | RogueSharp/MapCreation/PrimsMazeMapCreationStrategy.cs:66 | after the drop every other open cell still has its index listed |
| Maze.DropDistinct | RogueSharp/MapCreation/PrimsMazeMapCreationStrategy.cs:66 | dropping a position keeps the list free of repeats |
| Maze.FinishOpen | RogueSharp/MapCreation/PrimsMazeMapCreationStrategy.cs:66 | dropping an entry from the open list drops exactly its cell from the open cells |
| Maze.FinishKeeps | RogueSharp/MapCreation/PrimsMazeMapCreationStrategy.cs:63-68 | a closing step keeps the maze shape, and `Remove` shortens the list by exactly one |
| Maze.CarveShrinks | RogueSharp/MapCreation/PrimsMazeMapCreationStrategy.cs:57-61 | carving two uncarved cells of the map leaves fewer cells uncarved |
| Maze.MazeEnd | RogueSharp/MapCreation/PrimsMazeMapCreationStrategy.cs:41-71 | with the open list empty, the walkable cells are the carved ones, every cell is a wall or a floor, and every floor is connected to (1, 1) |
| Maze.PrimsMazeMapCreationStrategy.constructor | RogueSharp/MapCreation/PrimsMazeMapCreationStrategy.cs:20-22 | stores width, height and the random source |
| Maze.PrimsMazeMapCreationStrategy.CreateMap | RogueSharp/MapCreation/PrimsMazeMapCreationStrategy.cs:29-72 | a `width x height` map of walls and floors; (1, 1) is a floor; every floor is (1, 1) or an interior cell, odd or the link between two odd floors, and connected to (1, 1) through floors |
| Maze.PrimsMazeMapCreationStrategy.Start | RogueSharp/MapCreation/PrimsMazeMapCreationStrategy.cs:31-40 | the open list holds (1, 1) alone, which is walkable and opaque, and the loop state holds |
| Maze.PrimsMazeMapCreationStrategy.Initialize | RogueSharp/MapCreation/PrimsMazeMapCreationStrategy.cs:31 | `Initialize(Width, Height)`: a `width x height` map of walls, nothing carved |
| Maze.PrimsMazeMapCreationStrategy.OpenStart | RogueSharp/MapCreation/PrimsMazeMapCreationStrategy.cs:40 | (1, 1) becomes walkable and opaque: carved and open |
| Maze.PrimsMazeMapCreationStrategy.Step | RogueSharp/MapCreation/PrimsMazeMapCreationStrategy.cs:41-70 | one turn of the loop keeps the loop state and lowers `2 * uncarved cells + open list length`; with the open cell picked by the `calls`-th draw, it either closes that cell (one draw used, the cell's value removed from the open list, the carved cells kept, the cell no longer pending) or carves (two draws used, the open list extended by one value whose cell becomes pending) |
| Maze.PrimsMazeMapCreationStrategy.CarveStep | RogueSharp/MapCreation/PrimsMazeMapCreationStrategy.cs:53-62 | the carving branch appends `nextCell`'s index to the open list, with `nextCell` not carved before; the link cell between `currentCell` and `nextCell` and `nextCell` are added to the carved cells and to the carving order in that order, `nextCell` becomes pending; the shape is kept and at least one new cell is carved |
| Maze.PrimsMazeMapCreationStrategy.Carve | RogueSharp/MapCreation/PrimsMazeMapCreationStrategy.cs:59-60 | the link becomes a floor and the new cell walkable but opaque: both carved, the new one open |
| Maze.PrimsMazeMapCreationStrategy.FinishStep | RogueSharp/MapCreation/PrimsMazeMapCreationStrategy.cs:63-68 | the closing branch removes the picked cell's value from the open list (one element shorter), keeps the carved cells and the order, takes the cell out of the pending cells and keeps the shape |
| Maze.PrimsMazeMapCreationStrategy.Close | RogueSharp/MapCreation/PrimsMazeMapCreationStrategy.cs:67 | the cell becomes a floor and leaves the open cells |
| Caves.LinesFitInside | RogueSharp/MapCreation/MapUtilities/MapHelper.cs:149-150 | a line tracer that gives map cells for every map of a size traces inside every map of that size |
| Caves.Reconnect | RogueSharp/MapCreation/CaveMapCreationStrategy.cs:90 | `ConnectOrphanedSections` as the strategies use it: on success a fresh map of the same size in which each cell is kept or made a floor, on failure the map itself; it succeeds when the last column is shut and the line stays in its box |
| Caves.BorderShut | RogueSharp/MapCreation/MapUtilities/MapHelper.cs:51-55 | a walled border shuts the last column |
| Caves.SmoothingKeepsShape | RogueSharp/MapCreation/CaveMapCreationStrategy.cs:100-144 | a smoothing pass keeps a walled border and leaves every cell a wall or a floor |
| Caves.SmoothedCellLocal | RogueSharp/MapCreation/CaveMapCreationStrategy.cs:100-144 | a smoothed cell depends only on the cells within distance 2 of it under the big-area rule, and within distance 1 under the nearest-neighbour rule |
| Caves.BigAreaWallsMore | RogueSharp/MapCreation/CaveMapCreationStrategy.cs:110-133 | the big-area rule walls every cell the nearest-neighbour rule walls; on an interior cell it differs only by also walling cells with at most two walls within distance 2 |
| Caves.FillShape | RogueSharp/MapCreation/MapUtilities/MapHelper.cs:85-104 | the fill leaves walls and floors only, with a walled border |
| Caves.FillCellSize | RogueSharp/MapCreation/MapUtilities/MapHelper.cs:88-101 | what the fill makes of a cell depends only on the map's size |
| Caves.CaveMapCreationStrategy.constructor | RogueSharp/MapCreation/CaveMapCreationStrategy.cs:32-41 | stores the parameters |
| Caves.CaveMapCreationStrategy.CreateMap | RogueSharp/MapCreation/CaveMapCreationStrategy.cs:72-93 | a `width x height` map: stage 0 is the random fill; pass `i` takes each stage to the next with the big-area rule iff `i < cutoffOfBigAreaFill`; there are `max(0, totalIterations)` passes; a line that stays in its box never makes it fail; on success the result equals the last stage but for cells turned to floors, and is all walls and floors |
| Caves.CaveMapCreationStrategy.Iterate | RogueSharp/MapCreation/CaveMapCreationStrategy.cs:78-88 | the `for` loop: pass `i` is big-area iff `i < cutoffOfBigAreaFill`, and every pass keeps a walled border of walls and floors |
| Caves.CaveMapCreationStrategy.ConnectSections | RogueSharp/MapCreation/CaveMapCreationStrategy.cs:90 | stitching fails only when the last column is open or the line leaves its box, and then keeps the map; otherwise it only turns cells into floors |
| Caves.CaveMapCreationStrategy.Initialize | RogueSharp/MapCreation/CaveMapCreationStrategy.cs:74 | a new `width x height` map |
| Caves.CaveMapCreationStrategy.RandomlyFill | RogueSharp/MapCreation/CaveMapCreationStrategy.cs:95-98 | the map becomes a new map, its random fill: walls and floors with a walled border |
| Caves.CaveMapCreationStrategy.CellularAutomataBigAreaAlgorithm | RogueSharp/MapCreation/CaveMapCreationStrategy.cs:100-121 | the map becomes a new map, the big-area pass of itself |
| Caves.CaveMapCreationStrategy.CellularAutomataNearestNeighborsAlgorithm | RogueSharp/MapCreation/CaveMapCreationStrategy.cs:123-144 | the map becomes a new map, the nearest-neighbour pass of itself |
| Caves.Smooth | RogueSharp/MapCreation/CaveMapCreationStrategy.cs:100-144 | a new map whose border cells are copied; an interior cell becomes a wall iff the rule's wall-count test holds on the input map, and a floor otherwise |
| Caves.ScaleKeepsCells | RogueSharp/MapCreation/MapUtilities/MapHelper.cs:122-128 | scaling a map whose cells have equal flags copies each source cell unchanged |
| Caves.GenerationKeepsBorder | RogueSharp/MapCreation/MapUtilities/MapHelper.cs:27-30 | a generation keeps a walled border |
| Caves.GenerationKeepsShut | RogueSharp/MapCreation/MapUtilities/MapHelper.cs:27-30 | a generation keeps the last column shut |
| Caves.ScaleShut | RogueSharp/MapCreation/MapUtilities/MapHelper.cs:110-131 | doubling a map with a walled border shuts the last column of the result |
| Caves.CaveMap2CreationStrategy.constructor | RogueSharp/MapCreation/CaveMap2CreationStrategy.cs:33-40 | stores the parameters |
| Caves.CaveMap2CreationStrategy.CreateMap | RogueSharp/MapCreation/CaveMap2CreationStrategy.cs:46-59 | the random fill of a `width / 2 x height / 2` map is run through 10 generations (born {6,7,8}, survive {3..8}), doubled, and smoothed once (born and survive {5..8}); a line that stays in its box never makes it fail; on success the result equals the smoothed map but for cells turned to floors, and walkable equals transparent everywhere |
| Caves.CaveMap2CreationStrategy.Initialize | RogueSharp/MapCreation/CaveMap2CreationStrategy.cs:48 | a new map of half the size in each dimension |
| Caves.CaveMap2CreationStrategy.RandomlyFill | RogueSharp/MapCreation/CaveMap2CreationStrategy.cs:49 | the map becomes its random fill, with a walled border |
| Caves.CaveMap2CreationStrategy.FirstPasses | RogueSharp/MapCreation/CaveMap2CreationStrategy.cs:50-53 | ten first-pass generations, each from the one before, keeping the walled border |
| Caves.CaveMap2CreationStrategy.ScaleAndSmooth | RogueSharp/MapCreation/CaveMap2CreationStrategy.cs:54-55 | the map doubles in each dimension copying cell `(x / 2, y / 2)`, then takes one smoothing generation; its last column is shut |
| Caves.CaveMap2CreationStrategy.ConnectSections | RogueSharp/MapCreation/CaveMap2CreationStrategy.cs:56 | stitching fails only when the last column is open or the line leaves its box, and then keeps the map; otherwise it only turns cells into floors; walkable stays equal to transparent |

## Left out

- `IMap`, `Map` and `Cell` storage: `Map.cs` is not part of this model. A map is an `array2` of
  flag pairs. `Initialize(w, h)` is taken to give a new map of walls, `Clone` a deep copy, and
  `GetCellsInSquare` the square clipped to the map. `GetAllCells` is taken to list rows top to
  bottom, each left to right (the order CellularAutomataTests.cs:24-32 implies); the fill's draw
  numbering and the order of the sections depend on it.
- `new T()` is modelled as a 0 x 0 map, so each strategy's constructor leaves the map empty until
  `CreateMap` initializes it. `Map.Initialize` is modelled as a new allocation, not an in-place
  reset.
- The random number generator: its values are the oracle parameters described above. Their
  distribution is not modelled.
- `Rectangle.Center` and `GetCellsAlongLine`: both are parameters. Only the facts stated at the
  top of this file are assumed about them.
- `UnionFind`: `RogueSharp/Algorithms/UnionFind.cs` is not part of this model. It is modelled as
  a quick-find structure over a label sequence, with the behaviour the stitching loop relies on:
  `Union`, `Connected` and `Count`.
- `DepthFirstMazeMapCreationStrategy`: it only throws `NotImplementedException`, so it is left
  out.
- `MapSection.ToString` is left out: it is formatting only.
- `CellularAutomata` (`RogueSharp/MapCreation/CellularAutomata.cs`) duplicates `MapHelper`'s
  `RunGeneration`, `IsBorderCell` and `CountWallsNear` line for line. Both are modelled by the
  same members, and the unit tests that call `CellularAutomata` are stated against them.
- Automaton.ScaleUp: the source computes `(int)(ratio * x)` in double precision with
  `ratio = 1 / scale`. The model uses the exact integer quotient `x / scale`. Floating-point
  rounding is not modelled.
- Automaton.ScaleUp: the new size `Width * scale` is an unbounded product. The source's 32-bit
  product would overflow for a width above `int.MaxValue / scale`; that is not modelled.
- FloodFill.FloodFillAnalyzer.GetNeighbors: the contract states which cells are returned, not
  their order. The order only decides the order of the fill's stack, and nothing stated about
  the sections depends on it.
- Stitching.DistanceBetween: the 32-bit overflow of the C# sum is not modelled.
  `ConnectOrphanedSections` requires `width + height <= int.MaxValue`, which makes every real
  distance smaller than the `int.MaxValue` start value of `FindNearestMapSection`.
- Stitching.ConnectOrphanedSections: the source writes the right neighbour `(x + 1, y)` of every
  traced cell that differs from the cell before it. When that neighbour is off the map, the write
  goes to `Map.SetCellProperties`, and `Map.cs` is not part of this model. The model takes that
  write as failing and the whole call as failing: it returns `Failure`, exactly when some later
  differing cell of some tunnel is on the last column.
- Stitching.ConnectOrphanedSections: each centre is stated to be a map cell in the box of its
  section's cells, not to be `Bounds.Center` of the section. The `MapSection` objects are local
  to the call, so the contract speaks of their cell sets.
- Stitching.ConnectOrphanedSections: the partner of each tunnel (the nearest section not yet
  connected, or the section itself once every section is connected to it) is not stated in the result. It depends on the union-find state at that turn, and
  that state is not part of the result. The contract states that tunnel `m` starts at section
  `m % n`, and that every two sections end up joined by a chain of tunnels.
- Stitching.ConnectOrphanedSections: it is not proved that every floor reaches every other floor
  afterwards. That would need the geometry of `GetCellsAlongLine`, which is a parameter here.
  The model proves that every two sections are joined by a chain of dug tunnels, each a line
  between the centres of the two sections it links.
- FloodFill.FloodFillAnalyzer.GetMapSections: the sections are the 4-connected regions of
  walkable cells. The code skips every non-walkable cell it pops (`!cell.IsWalkable`), so wall
  regions never form sections. Sections of walls, as a same-state fill would give, are not
  modelled, because the code does not produce them.
- FloodFill.FloodFillAnalyzer.constructor: the visited matrix is one `array2` indexed `[y, x]`,
  where the source uses a jagged array. The map's dimensions are required to fit a C# `int`.
- Maze.PrimsMazeMapCreationStrategy.CreateMap: it requires `width, height >= 2`, because the
  source writes cell (1, 1) and would throw otherwise. It also requires
  `width * height <= int.MaxValue`, so that the `(y * w) + x` index does not overflow.
- Maze.GetSkipNeighbors is a function of the current map returning a sequence of positions. The
  source builds a `List<ICell>` and converts it to an array.
- Caves.CaveMapCreationStrategy.CreateMap and Caves.CaveMap2CreationStrategy.CreateMap require
  non-negative dimensions with `width + height <= int.MaxValue`. The sum bound is the stitching
  bound above. `Map.Initialize` is in `Map.cs`, which is not part of this model, so what it does
  with a negative size is not known here; the model assumes it is never given one.
- Caves.CaveMapCreationStrategy.CreateMap and Caves.CaveMap2CreationStrategy.CreateMap return
  `Failure` where stitching fails. Both maps have a walled last column when stitched, so a line
  that stays in its box never makes them fail.
- Caves.CaveMapCreationStrategy.CreateMap: the result is stated against the stage maps and the
  stitching facts. It is not proved that the cave is connected, for the same reason as
  `ConnectOrphanedSections`.
