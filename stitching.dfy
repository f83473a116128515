/** `MapHelper.ConnectOrphanedSections` and its helpers: the sections found by the flood fill are
    joined by straight tunnels, each section to its nearest section not yet connected to it (or
    to itself when there is none), pass after pass, until a union-find over the sections holds a
    single set.
    `Bounds.Center` and the line tracer `GetCellsAlongLine` are parameters: `center` is any
    function giving a cell of a non-empty rectangle, `line` any function giving a trace of grid
    cells. */
module Stitching {
  import opened Grid
  import opened Sections
  import opened FloodFill
  import opened UnionFinds

  function Abs(n: int): nat {
    if n < 0 then -n else n
  }

  /** `p` lies in the rectangle. */
  predicate InRect(p: Pos, r: Rect) {
    r.x <= p.x < r.x + r.width && r.y <= p.y < r.y + r.height
  }

  /** What is taken of `Rectangle.Center`: it lies in every non-empty rectangle. */
  ghost predicate CentreInside(center: Rect -> Pos) {
    forall r: Rect | r.width >= 1 && r.height >= 1 :: InRect(center(r), r)
  }

  // ----- DistanceBetween -----

  /** `DistanceBetween`: the Manhattan distance between the centres of two sections' bounds. */
  function DistanceBetween(start: MapSection, destination: MapSection, center: Rect -> Pos): (d: int)
    reads start, destination
    ensures d >= 0
    ensures d == 0 <==> center(start.Bounds()) == center(destination.Bounds())
  {
    Abs(center(start.Bounds()).x - center(destination.Bounds()).x) +
    Abs(center(start.Bounds()).y - center(destination.Bounds()).y)
  }

  /** Two sections whose centres lie on a `width x height` grid are less than
      `width + height - 1` apart. */
  lemma DistanceOnMap(grid: Map, start: MapSection, destination: MapSection, center: Rect -> Pos)
    requires InGrid(grid, center(start.Bounds())) && InGrid(grid, center(destination.Bounds()))
    ensures DistanceBetween(start, destination, center) <= grid.Length0 + grid.Length1 - 2
    ensures DistanceBetween(start, destination, center) == DistanceBetween(destination, start, center)
  {
  }

  // ----- FindNearestMapSection -----

  /** `j` is a section `FindNearestMapSection` may pick for section `index`: another section, not
      connected to it, less than `int.MaxValue` away (the search starts from that distance). */
  ghost predicate IsCandidate(sections: seq<MapSection>, uf: UnionFind, center: Rect -> Pos, index: int, j: int)
    requires 0 <= index < |sections| && 0 <= j < |sections| && |uf.id| == |sections|
    reads sections, uf
  {
    j != index && !uf.Connected(j, index) &&
    DistanceBetween(sections[index], sections[j], center) < IntMaxValue
  }

  /** `c` is the nearest candidate for `index`, the lowest-numbered one among equally near ones. */
  ghost predicate IsNearest(sections: seq<MapSection>, uf: UnionFind, center: Rect -> Pos, index: int, c: int)
    requires 0 <= index < |sections| && 0 <= c < |sections| && |uf.id| == |sections|
    reads sections, uf
  {
    IsCandidate(sections, uf, center, index, c) &&
    (forall j | 0 <= j < |sections| && IsCandidate(sections, uf, center, index, j) ::
      DistanceBetween(sections[index], sections[c], center) <= DistanceBetween(sections[index], sections[j], center)) &&
    (forall j | 0 <= j < c && IsCandidate(sections, uf, center, index, j) ::
      DistanceBetween(sections[index], sections[c], center) < DistanceBetween(sections[index], sections[j], center))
  }

  /** At most one section is the nearest. */
  lemma NearestUnique(sections: seq<MapSection>, uf: UnionFind, center: Rect -> Pos, index: int, c1: int, c2: int)
    requires 0 <= index < |sections| && |uf.id| == |sections|
    requires 0 <= c1 < |sections| && 0 <= c2 < |sections|
    requires IsNearest(sections, uf, center, index, c1) && IsNearest(sections, uf, center, index, c2)
    ensures c1 == c2
  {
    assert IsCandidate(sections, uf, center, index, c1) && IsCandidate(sections, uf, center, index, c2);
  }

  /** `FindNearestMapSection`: the nearest section not connected to `index`, the lowest index
      winning ties (strict `<`), or `index` itself when there is none. */
  method FindNearestMapSection(sections: seq<MapSection>, index: int, uf: UnionFind, center: Rect -> Pos)
    returns (closest: int)
    requires 0 <= index < |sections| && |uf.id| == |sections|
    ensures 0 <= closest < |sections|
    ensures closest == index <==> forall j | 0 <= j < |sections| :: !IsCandidate(sections, uf, center, index, j)
    ensures closest != index ==> IsNearest(sections, uf, center, index, closest)
  {
    var start := sections[index];
    closest := index;
    var distance := IntMaxValue;
    for i := 0 to |sections|
      invariant 0 <= closest < |sections|
      invariant closest == index ==>
        distance == IntMaxValue && forall j | 0 <= j < i :: !IsCandidate(sections, uf, center, index, j)
      invariant closest != index ==>
        closest < i && IsCandidate(sections, uf, center, index, closest) &&
        distance == DistanceBetween(start, sections[closest], center) &&
        (forall j | 0 <= j < i && IsCandidate(sections, uf, center, index, j) ::
          distance <= DistanceBetween(start, sections[j], center)) &&
        (forall j | 0 <= j < closest && IsCandidate(sections, uf, center, index, j) ::
          distance < DistanceBetween(start, sections[j], center))
    {
      if i == index {
        continue;
      }
      if uf.Connected(i, index) {
        continue;
      }
      var distanceBetween := DistanceBetween(start, sections[i], center);
      if distanceBetween < distance {
        distance := distanceBetween;
        closest := i;
      }
    }
  }


  // ----- tunnels -----

  /** Every cell lies on the grid. */
  predicate OnGrid(grid: Map, cells: seq<Pos>) {
    forall k | 0 <= k < |cells| :: InGrid(grid, cells[k])
  }

  /** What is taken of `GetCellsAlongLine`: between two cells of the grid it gives cells of the grid. */
  ghost predicate TracesInside(grid: Map, line: (Pos, Pos) -> seq<Pos>) {
    forall a, b | InGrid(grid, a) && InGrid(grid, b) :: OnGrid(grid, line(a, b))
  }

  /** A tracer that stays in the box spanned by its two ends, as a Bresenham line does. */
  ghost predicate LinesInBox(line: (Pos, Pos) -> seq<Pos>) {
    forall a, b :: InBox(a, b, line(a, b))
  }

  /** Every cell lies in the box spanned by `a` and `b`. */
  predicate InBox(a: Pos, b: Pos, cells: seq<Pos>) {
    forall k | 0 <= k < |cells| ::
      Min(a.x, b.x) <= cells[k].x <= Max(a.x, b.x) && Min(a.y, b.y) <= cells[k].y <= Max(a.y, b.y)
  }

  /** Both assumptions can be met: the tracer giving just the two ends meets them. */
  lemma EndsTracerFits(grid: Map)
    ensures TracesInside(grid, (a, b) => [a, b]) && LinesInBox((a, b) => [a, b])
  {
  }

  /** Every right neighbour the tunnel writes, that of each cell differing from the one before
      it, lies left of column `width`. */
  predicate Fits(width: int, cells: seq<Pos>) {
    forall k | 0 < k < |cells| && cells[k] != cells[k - 1] :: cells[k].x + 1 < width
  }

  /** The cells a tunnel along `cells` opens: every cell, and the right neighbour of every cell
      that differs from the one before it. */
  ghost function Tunnel(cells: seq<Pos>): set<Pos> {
    if cells == [] then {}
    else
      var k := |cells| - 1;
      Tunnel(cells[..k]) + {cells[k]} +
      (if k > 0 && cells[k] != cells[k - 1] then {Pos(cells[k].x + 1, cells[k].y)} else {})
  }

  /** The tunnel along one more cell. */
  lemma TunnelStep(cells: seq<Pos>, k: int)
    requires 0 <= k < |cells|
    ensures Tunnel(cells[..k + 1]) ==
      Tunnel(cells[..k]) + {cells[k]} +
      (if k > 0 && cells[k] != cells[k - 1] then {Pos(cells[k].x + 1, cells[k].y)} else {})
  {
    assert cells[..k + 1][..k] == cells[..k];
  }

  /** What the tunnel opens, cell by cell. */
  lemma {:induction false} InTunnel(cells: seq<Pos>, k: int)
    requires 0 <= k < |cells|
    ensures cells[k] in Tunnel(cells)
    ensures k > 0 && cells[k] != cells[k - 1] ==> Pos(cells[k].x + 1, cells[k].y) in Tunnel(cells)
    decreases |cells|
  {
    if k < |cells| - 1 {
      var init := cells[..|cells| - 1];
      InTunnel(init, k);
      assert init[k] == cells[k];
      if k > 0 { assert init[k - 1] == cells[k - 1]; }
    }
  }

  /** The body of the `foreach` over the line cells: each becomes a floor, and so does the cell
      to its right when it differs from the previous cell. That write fails when the right
      neighbour is off the map, and then the whole stitching fails. */
  method DigTunnel(returnMap: Map, cells: seq<Pos>) returns (ok: bool)
    requires OnGrid(returnMap, cells)
    modifies returnMap
    ensures ok <==> Fits(returnMap.Length0, cells)
    ensures ok ==> forall x, y | InBounds(returnMap, x, y) ::
      returnMap[x, y] == if Pos(x, y) in Tunnel(cells) then Floor else old(returnMap[x, y])
  {
    var previousCell: Option<Pos> := None;
    for k := 0 to |cells|
      invariant previousCell == if k == 0 then None else Some(cells[k - 1])
      invariant Fits(returnMap.Length0, cells[..k])
      invariant forall x, y | InBounds(returnMap, x, y) ::
        returnMap[x, y] == if Pos(x, y) in Tunnel(cells[..k]) then Floor else old(returnMap[x, y])
    {
      var cell := cells[k];
      returnMap[cell.x, cell.y] := Floor;
      if previousCell.Some? {
        if cell.x != previousCell.value.x || cell.y != previousCell.value.y {
          if cell.x + 1 >= returnMap.Length0 {
            assert !Fits(returnMap.Length0, cells);
            return false;
          }
          returnMap[cell.x + 1, cell.y] := Floor;
        }
      }
      previousCell := Some(cell);
      TunnelStep(cells, k);
      FitsStep(returnMap.Length0, cells, k);
    }
    assert cells[..|cells|] == cells;
    ok := true;
  }

  /** The fit of one more cell. */
  lemma FitsStep(width: int, cells: seq<Pos>, k: int)
    requires 0 <= k < |cells| && Fits(width, cells[..k])
    requires k > 0 && cells[k] != cells[k - 1] ==> cells[k].x + 1 < width
    ensures Fits(width, cells[..k + 1])
  {
    var longer := cells[..k + 1];
    forall j | 0 < j < |longer| && longer[j] != longer[j - 1] ensures longer[j].x + 1 < width {
      if j < k {
        assert cells[..k][j] == cells[j] && cells[..k][j - 1] == cells[j - 1];
      }
    }
  }

  /** `p` is a floor cell of the map. */
  ghost predicate FloorAt(grid: Map, p: Pos)
    reads grid
  {
    InGrid(grid, p) && grid[p.x, p.y] == Floor
  }

  /** Cell `k` of the tunnel along `cells` is a floor, and so is its right neighbour when it
      differs from the cell before it. */
  ghost predicate CellOpen(grid: Map, cells: seq<Pos>, k: int)
    requires 0 <= k < |cells|
    reads grid
  {
    FloorAt(grid, cells[k]) && (k > 0 && cells[k] != cells[k - 1] ==> FloorAt(grid, Pos(cells[k].x + 1, cells[k].y)))
  }

  /** No cell of `grid` becomes a wall in `returnMap`, and every cell the tunnels dig is a floor. */
  ghost predicate Opened(grid: Map, returnMap: Map, tunnels: seq<seq<Pos>>)
    reads grid, returnMap
  {
    SameSize(grid, returnMap) &&
    (forall x, y | InBounds(grid, x, y) :: returnMap[x, y] == grid[x, y] || returnMap[x, y] == Floor) &&
    forall m, k | 0 <= m < |tunnels| && 0 <= k < |tunnels[m]| :: CellOpen(returnMap, tunnels[m], k)
  }

  /** The cells opened by all the tunnels. */
  ghost function AllTunnels(tunnels: seq<seq<Pos>>): set<Pos> {
    if tunnels == [] then {} else AllTunnels(tunnels[..|tunnels| - 1]) + Tunnel(tunnels[|tunnels| - 1])
  }

  /** `returnMap` is `grid` with the tunnels opened. */
  ghost predicate Dug(grid: Map, returnMap: Map, tunnels: seq<seq<Pos>>)
    reads grid, returnMap
  {
    SameSize(grid, returnMap) &&
    forall x, y | InBounds(grid, x, y) ::
      returnMap[x, y] == if Pos(x, y) in AllTunnels(tunnels) then Floor else grid[x, y]
  }

  /** Every cell of a tunnel is in the union, and so is every right neighbour it opens. */
  lemma {:induction false} InAllTunnels(tunnels: seq<seq<Pos>>, m: int)
    requires 0 <= m < |tunnels|
    ensures Tunnel(tunnels[m]) <= AllTunnels(tunnels)
    decreases |tunnels|
  {
    if m < |tunnels| - 1 {
      InAllTunnels(tunnels[..|tunnels| - 1], m);
      assert tunnels[..|tunnels| - 1][m] == tunnels[m];
    }
  }

  /** Every tunnel fits the width. */
  predicate AllFit(width: int, tunnels: seq<seq<Pos>>) {
    forall m | 0 <= m < |tunnels| :: Fits(width, tunnels[m])
  }

  // ----- chains of tunnels -----

  /** Sections `a` and `b` are the two ends of some link, in either order. */
  ghost predicate Linked(links: seq<(int, int)>, a: int, b: int) {
    exists m | 0 <= m < |links| :: links[m] == (a, b) || links[m] == (b, a)
  }

  /** Each section of `path` is linked to the one before it. */
  ghost predicate IsChain(links: seq<(int, int)>, path: seq<int>) {
    forall k | 0 < k < |path| :: Linked(links, path[k - 1], path[k])
  }

  /** A chain of links leads from section `a` to section `b`. */
  ghost predicate Joined(links: seq<(int, int)>, a: int, b: int) {
    exists path: seq<int> | |path| > 0 && path[0] == a && path[|path| - 1] == b :: IsChain(links, path)
  }

  /** Every section is joined to itself, by the chain of that section alone. */
  lemma JoinedSelf(links: seq<(int, int)>, a: int)
    ensures Joined(links, a, a)
  {
    assert IsChain(links, [a]);
  }

  /** More links keep every chain. */
  lemma JoinedGrow(links: seq<(int, int)>, extra: seq<(int, int)>, a: int, b: int)
    requires Joined(links, a, b)
    ensures Joined(links + extra, a, b)
  {
    var path: seq<int> :| |path| > 0 && path[0] == a && path[|path| - 1] == b && IsChain(links, path);
    forall k | 0 < k < |path| ensures Linked(links + extra, path[k - 1], path[k]) {
      var m :| 0 <= m < |links| && (links[m] == (path[k - 1], path[k]) || links[m] == (path[k], path[k - 1]));
      assert (links + extra)[m] == links[m];
    }
    assert IsChain(links + extra, path);
  }

  /** A chain to `a`, a link from `a` to `b` and a chain from `b` make a chain. */
  lemma JoinedVia(links: seq<(int, int)>, x: int, a: int, b: int, y: int)
    requires Joined(links, x, a) && Linked(links, a, b) && Joined(links, b, y)
    ensures Joined(links, x, y)
  {
    var p: seq<int> :| |p| > 0 && p[0] == x && p[|p| - 1] == a && IsChain(links, p);
    var q: seq<int> :| |q| > 0 && q[0] == b && q[|q| - 1] == y && IsChain(links, q);
    var r := p + q;
    forall k | 0 < k < |r| ensures Linked(links, r[k - 1], r[k]) {
      if k < |p| {
        assert r[k - 1] == p[k - 1] && r[k] == p[k];
      } else if k == |p| {
        assert r[k - 1] == a && r[k] == b;
      } else {
        assert r[k - 1] == q[k - 1 - |p|] && r[k] == q[k - |p|];
      }
    }
    assert IsChain(links, r);
  }

  /** Elements with the same label are joined by a chain of links. */
  ghost predicate LabelsJoined(id: seq<nat>, links: seq<(int, int)>) {
    forall a, b | 0 <= a < |id| && 0 <= b < |id| && id[a] == id[b] :: Joined(links, a, b)
  }

  /** With one set left, every two elements are joined. */
  lemma AllJoined(uf: UnionFind, links: seq<(int, int)>)
    requires uf.Valid() && uf.count == 1 && LabelsJoined(uf.id, links)
    ensures forall a, b | 0 <= a < |uf.id| && 0 <= b < |uf.id| :: Joined(links, a, b)
  {
    OneSetConnected(uf);
    forall a, b | 0 <= a < |uf.id| && 0 <= b < |uf.id| ensures Joined(links, a, b) {
      assert uf.Connected(a, b);
    }
  }

  // ----- ConnectOrphanedSections -----

  /** `centres[k]` is the centre of section `k`'s bounds. */
  ghost predicate CentresOf(sections: seq<MapSection>, center: Rect -> Pos, centres: seq<Pos>)
    reads sections
  {
    |centres| == |sections| && forall k | 0 <= k < |sections| :: centres[k] == center(sections[k].Bounds())
  }

  /** Tunnel `m` is the line from the centre of section `links[m].0` to that of section `links[m].1`. */
  ghost predicate LinksOf(centres: seq<Pos>, line: (Pos, Pos) -> seq<Pos>, tunnels: seq<seq<Pos>>, links: seq<(int, int)>) {
    |links| == |tunnels| &&
    forall m | 0 <= m < |links| ::
      0 <= links[m].0 < |centres| && 0 <= links[m].1 < |centres| &&
      tunnels[m] == line(centres[links[m].0], centres[links[m].1])
  }

  /** Some element is not connected to `i`. */
  ghost predicate SomeApart(uf: UnionFind, i: int)
    reads uf
  {
    0 <= i < |uf.id| && exists j | 0 <= j < |uf.id| :: !uf.Connected(i, j)
  }

  /** The tunnels so far: the sections' centres on the grid, each tunnel a line between two of
      them that fits, and the grid with those tunnels opened. */
  ghost predicate Laid(grid: Map, returnMap: Map, sections: seq<MapSection>, centres: seq<Pos>,
                       center: Rect -> Pos, line: (Pos, Pos) -> seq<Pos>, tunnels: seq<seq<Pos>>, links: seq<(int, int)>)
    reads grid, returnMap, sections
  {
    grid.Length0 + grid.Length1 <= IntMaxValue &&
    CentresOf(sections, center, centres) && OnGrid(grid, centres) && TracesInside(grid, line) &&
    Dug(grid, returnMap, tunnels) && AllFit(grid.Length0, tunnels) &&
    LinksOf(centres, line, tunnels, links)
  }

  /** The stitching state: the tunnels so far, and a union-find over the sections whose sets
      are joined by them. */
  ghost predicate Stitched(grid: Map, returnMap: Map, sections: seq<MapSection>, centres: seq<Pos>, uf: UnionFind,
                         center: Rect -> Pos, line: (Pos, Pos) -> seq<Pos>, tunnels: seq<seq<Pos>>, links: seq<(int, int)>)
    reads grid, returnMap, sections, uf
  {
    Laid(grid, returnMap, sections, centres, center, line, tunnels, links) &&
    uf.Valid() && |uf.id| == |sections| && LabelsJoined(uf.id, links)
  }

  /** One more tunnel that fits, between the centres of sections `i` and `j`. */
  lemma LaidStep(grid: Map, returnMap: Map, sections: seq<MapSection>, centres: seq<Pos>,
                 center: Rect -> Pos, line: (Pos, Pos) -> seq<Pos>, tunnels: seq<seq<Pos>>, links: seq<(int, int)>,
                 i: int, j: int)
    requires grid.Length0 + grid.Length1 <= IntMaxValue
    requires CentresOf(sections, center, centres) && OnGrid(grid, centres) && TracesInside(grid, line)
    requires AllFit(grid.Length0, tunnels) && LinksOf(centres, line, tunnels, links)
    requires 0 <= i < |centres| && 0 <= j < |centres| && Fits(grid.Length0, line(centres[i], centres[j]))
    requires Dug(grid, returnMap, tunnels + [line(centres[i], centres[j])])
    ensures Laid(grid, returnMap, sections, centres, center, line, tunnels + [line(centres[i], centres[j])], links + [(i, j)])
  {
  }

  /** One turn of the inner loop: tunnel from section `i` to its nearest unconnected section and
      merge the two; the number of sets drops when some section is not connected to `i`. The
      stitching fails when the tunnel does not fit. */
  method JoinOne(grid: Map, returnMap: Map, sections: seq<MapSection>, ghost centres: seq<Pos>, uf: UnionFind,
                 center: Rect -> Pos, line: (Pos, Pos) -> seq<Pos>, i: int,
                 ghost tunnels: seq<seq<Pos>>, ghost links: seq<(int, int)>)
    returns (ok: bool, ghost tunnels': seq<seq<Pos>>, ghost links': seq<(int, int)>)
    requires Stitched(grid, returnMap, sections, centres, uf, center, line, tunnels, links) && 0 <= i < |sections|
    modifies returnMap, uf
    ensures LinksOf(centres, line, tunnels', links')
    ensures |links'| == |links| + 1 && links'[..|links|] == links && links'[|links|].0 == i
    ensures ok <==> AllFit(grid.Length0, tunnels')
    ensures ok ==> Stitched(grid, returnMap, sections, centres, uf, center, line, tunnels', links')
    ensures ok ==> uf.count <= old(uf.count) && (old(SomeApart(uf, i)) ==> uf.count < old(uf.count))
  {
    ghost var apart := SomeApart(uf, i);
    var closestMapSectionIndex := Partner(grid, sections, centres, uf, center, i);
    var tunnelCells := line(center(sections[i].Bounds()), center(sections[closestMapSectionIndex].Bounds()));
    assert tunnelCells == line(centres[i], centres[closestMapSectionIndex]);
    ok, tunnels' := Dig(grid, returnMap, tunnels, tunnelCells);
    links' := links + [(i, closestMapSectionIndex)];
    LinksStep(centres, line, tunnels, links, i, closestMapSectionIndex);
    if !ok {
      assert !Fits(grid.Length0, tunnels'[|tunnels|]);
      return;
    }
    LaidStep(grid, returnMap, sections, centres, center, line, tunnels, links, i, closestMapSectionIndex);
    Merge(uf, links, links', i, closestMapSectionIndex);
  }

  /** One more link, with its tunnel. */
  lemma LinksStep(centres: seq<Pos>, line: (Pos, Pos) -> seq<Pos>, tunnels: seq<seq<Pos>>, links: seq<(int, int)>,
                  i: int, j: int)
    requires LinksOf(centres, line, tunnels, links) && 0 <= i < |centres| && 0 <= j < |centres|
    ensures LinksOf(centres, line, tunnels + [line(centres[i], centres[j])], links + [(i, j)])
  {
  }

  /** `unionFind.Union(a, b)`, as far as the stitching loop needs it: the count drops by one
      exactly when `a` and `b` were apart, and the sets stay joined by the links, now with the
      link between `a` and `b` among them. */
  method Merge(uf: UnionFind, ghost links: seq<(int, int)>, ghost links': seq<(int, int)>, a: nat, b: nat)
    requires uf.Valid() && a < |uf.id| && b < |uf.id|
    requires LabelsJoined(uf.id, links) && links' == links + [(a, b)]
    modifies uf
    ensures uf.Valid() && |uf.id| == old(|uf.id|) && LabelsJoined(uf.id, links')
    ensures uf.count == if old(uf.Connected(a, b)) then old(uf.count) else old(uf.count) - 1
  {
    ghost var before := uf.id;
    forall x, y | 0 <= x < |before| && 0 <= y < |before| && before[x] == before[y]
      ensures Joined(links', x, y)
    {
      JoinedGrow(links, [(a, b)], x, y);
    }
    assert links'[|links|] == (a, b);
    assert Linked(links', a, b) && Linked(links', b, a);
    uf.Union(a, b);
    forall x, y | 0 <= x < |uf.id| && 0 <= y < |uf.id| && uf.id[x] == uf.id[y]
      ensures Joined(links', x, y)
    {
      assert uf.Connected(x, y);
      if before[x] != before[y] {
        if before[x] == before[a] && before[y] == before[b] {
          JoinedVia(links', x, a, b, y);
        } else {
          assert before[x] == before[b] && before[y] == before[a];
          JoinedVia(links', x, b, a, y);
        }
      }
    }
  }

  /** `FindNearestMapSection` for section `i` in the stitching loop: with some section not
      connected to `i`, it picks one. */
  method Partner(grid: Map, sections: seq<MapSection>, ghost centres: seq<Pos>, uf: UnionFind, center: Rect -> Pos, i: int)
    returns (closest: int)
    requires grid.Length0 + grid.Length1 <= IntMaxValue && CentresOf(sections, center, centres) && OnGrid(grid, centres)
    requires |uf.id| == |sections| && 0 <= i < |sections|
    ensures 0 <= closest < |sections|
    ensures SomeApart(uf, i) ==> !uf.Connected(i, closest)
  {
    closest := FindNearestMapSection(sections, i, uf, center);
    if SomeApart(uf, i) {
      var j :| 0 <= j < |uf.id| && !uf.Connected(i, j);
      DistanceOnMap(grid, sections[i], sections[j], center);
      assert IsCandidate(sections, uf, center, i, j);
    }
  }

  /** Digging the tunnel along cells of the grid adds it to the tunnels opened, unless it does
      not fit. */
  method Dig(grid: Map, returnMap: Map, ghost tunnels: seq<seq<Pos>>, cells: seq<Pos>)
    returns (ok: bool, ghost tunnels': seq<seq<Pos>>)
    requires Dug(grid, returnMap, tunnels) && OnGrid(grid, cells)
    modifies returnMap
    ensures tunnels' == tunnels + [cells]
    ensures ok <==> Fits(grid.Length0, cells)
    ensures ok ==> Dug(grid, returnMap, tunnels')
  {
    ok := DigTunnel(returnMap, cells);
    tunnels' := tunnels + [cells];
    assert tunnels'[..|tunnels|] == tunnels;
  }

  /** One pass of the `for` loop over the sections; with more than one set left it merges at
      least once, at `i == 0`. */
  method JoinPass(grid: Map, returnMap: Map, sections: seq<MapSection>, ghost centres: seq<Pos>, uf: UnionFind,
                  center: Rect -> Pos, line: (Pos, Pos) -> seq<Pos>,
                  ghost tunnels: seq<seq<Pos>>, ghost links: seq<(int, int)>)
    returns (ok: bool, ghost tunnels': seq<seq<Pos>>, ghost links': seq<(int, int)>)
    requires Stitched(grid, returnMap, sections, centres, uf, center, line, tunnels, links) && uf.count > 1
    requires |links| % |sections| == 0 && InTurns(links, |sections|)
    modifies returnMap, uf
    ensures LinksOf(centres, line, tunnels', links')
    ensures ok <==> AllFit(grid.Length0, tunnels')
    ensures ok ==> Stitched(grid, returnMap, sections, centres, uf, center, line, tunnels', links')
    ensures ok ==> uf.count < old(uf.count)
    ensures ok ==> |links'| == |links| + |sections| && InTurns(links', |sections|)
  {
    SomeUnconnected(uf);
    ok, tunnels', links' := true, tunnels, links;
    for i := 0 to |sections|
      invariant Stitched(grid, returnMap, sections, centres, uf, center, line, tunnels', links')
      invariant uf.count <= old(uf.count) && (i > 0 ==> uf.count < old(uf.count))
      invariant i == 0 ==> SomeApart(uf, 0)
      invariant |links'| == |links| + i && InTurns(links', |sections|)
    {
      ghost var before := links';
      ok, tunnels', links' := JoinOne(grid, returnMap, sections, centres, uf, center, line, i, tunnels', links');
      if !ok {
        return;
      }
      TurnStep(before, links', |sections|, i);
    }
  }

  /** Whole passes of `n` links leave no remainder. */
  lemma RoundsDivide(passes: nat, n: int)
    requires n > 0
    ensures (passes * n) % n == 0 && (passes + 1) * n == passes * n + n
  {
    DivModUnique(passes * n, n, passes, 0);
  }

  /** Link `m` starts at section `m % n`: the `for` loop's links, pass after pass. */
  ghost predicate InTurns(links: seq<(int, int)>, n: int)
    requires n > 0
  {
    forall m | 0 <= m < |links| :: links[m].0 == m % n
  }

  /** The link made at turn `i` of a pass starts at section `i`. */
  lemma TurnStep(links: seq<(int, int)>, links': seq<(int, int)>, n: int, i: int)
    requires n > 0 && 0 <= i < n && (|links| - i) % n == 0 && |links| >= i && InTurns(links, n)
    requires |links'| == |links| + 1 && links'[..|links|] == links && links'[|links|].0 == i
    ensures InTurns(links', n)
  {
    var q := (|links| - i) / n;
    assert |links| == q * n + i;
    DivModUnique(|links|, n, q, i);
    forall m | 0 <= m < |links'| ensures links'[m].0 == m % n {
      if m < |links| {
        assert links'[m] == links[m];
      }
    }
  }

  /** The `while` loop: passes until one set is left; there are at most `|sections| - 1`. */
  method JoinAll(grid: Map, returnMap: Map, sections: seq<MapSection>, ghost centres: seq<Pos>, uf: UnionFind,
                 center: Rect -> Pos, line: (Pos, Pos) -> seq<Pos>)
    returns (ok: bool, ghost tunnels: seq<seq<Pos>>, ghost links: seq<(int, int)>, ghost passes: nat)
    requires Stitched(grid, returnMap, sections, centres, uf, center, line, [], []) && uf.count == |sections|
    modifies returnMap, uf
    ensures LinksOf(centres, line, tunnels, links)
    ensures ok <==> AllFit(grid.Length0, tunnels)
    ensures ok ==> Stitched(grid, returnMap, sections, centres, uf, center, line, tunnels, links)
    ensures ok ==> uf.count <= 1 && (|sections| > 0 ==> uf.count == 1)
    ensures passes == 0 || passes < |sections|
    ensures ok ==> (passes == 0 <==> |sections| <= 1)
    ensures ok ==> |links| == passes * |sections| && (|sections| > 0 ==> InTurns(links, |sections|))
  {
    ok, tunnels, links, passes := true, [], [], 0;
    while uf.count > 1
      invariant Stitched(grid, returnMap, sections, centres, uf, center, line, tunnels, links)
      invariant uf.count + passes <= |sections|
      invariant |sections| > 0 ==> uf.count >= 1
      invariant |sections| == 0 ==> uf.count == 0
      invariant passes == 0 ==> uf.count == |sections|
      invariant |links| == passes * |sections| && (|sections| > 0 ==> InTurns(links, |sections|))
      decreases uf.count
    {
      RoundsDivide(passes, |sections|);
      ok, tunnels, links := JoinPass(grid, returnMap, sections, centres, uf, center, line, tunnels, links);
      if !ok {
        return;
      }
      passes := passes + 1;
      if |sections| > 0 {
        CountPositive(uf);
      }
    }
  }

  /** The walkable cells of the map. */
  ghost function WalkableCells(grid: Map): set<Pos>
    reads grid
  {
    set x, y | 0 <= x < grid.Length0 && 0 <= y < grid.Length1 && grid[x, y].walkable :: Pos(x, y)
  }

  /** `p` lies within the box spanned by the cells: none of its coordinates beyond all of theirs. */
  ghost predicate InCellBox(cells: set<Pos>, p: Pos) {
    (exists c | c in cells :: c.x <= p.x) && (exists c | c in cells :: p.x <= c.x) &&
    (exists c | c in cells :: c.y <= p.y) && (exists c | c in cells :: p.y <= c.y)
  }

  /** The sections of a finished flood fill are valid and each centre lies on the grid, in the
      box of its section's cells. */
  lemma SectionsOnMap(grid: Map, floors: set<Pos>, cellSets: seq<set<Pos>>, orders: seq<seq<Pos>>,
                      sections: seq<MapSection>, center: Rect -> Pos, centres: seq<Pos>)
    requires SectionsShape(floors, cellSets, orders) && Holds(sections, cellSets) && CentresOf(sections, center, centres)
    requires (forall p | p in floors :: InGrid(grid, p)) && CentreInside(center)
    ensures OnGrid(grid, centres)
    ensures forall k | 0 <= k < |cellSets| :: InCellBox(cellSets[k], centres[k])
  {
    forall k | 0 <= k < |sections| ensures InGrid(grid, centres[k]) && InCellBox(cellSets[k], centres[k]) {
      assert orders[k][0] in orders[k];
      BoundsOnMap(grid, sections[k]);
    }
  }

  /** A valid non-empty section of grid cells has its bounds on the grid. */
  lemma BoundsOnMap(grid: Map, section: MapSection)
    requires section.Valid() && section.cells != {} && forall c | c in section.cells :: InGrid(grid, c)
    ensures var r := section.Bounds();
      r.width >= 1 && r.height >= 1 && 0 <= r.x && r.x + r.width <= grid.Length0 && 0 <= r.y && r.y + r.height <= grid.Length1
    ensures var r := section.Bounds();
      (exists c | c in section.cells :: c.x == r.x) && (exists c | c in section.cells :: c.x == r.x + r.width - 1) &&
      (exists c | c in section.cells :: c.y == r.y) && (exists c | c in section.cells :: c.y == r.y + r.height - 1)
  {
    var c :| c in section.cells;
    assert InGrid(grid, c);
  }

  /** No cell of the last column is walkable. */
  ghost predicate LastColumnShut(grid: Map)
    reads grid
  {
    forall x, y | InBounds(grid, x, y) && x == grid.Length0 - 1 :: !grid[x, y].walkable
  }

  /** With the last column shut, every walkable cell lies left of it. */
  lemma ShutLeft(grid: Map)
    requires LastColumnShut(grid)
    ensures forall p | p in WalkableCells(grid) :: p.x + 1 < grid.Length0
  {
    forall p | p in WalkableCells(grid) ensures p.x + 1 < grid.Length0 {
      assert InBounds(grid, p.x, p.y) && grid[p.x, p.y].walkable;
    }
  }

  /** A centre in the box of cells that all lie left of column `width - 1` lies left of it too. */
  lemma CentresFit(width: int, walkable: set<Pos>, cellSets: seq<set<Pos>>, centres: seq<Pos>)
    requires forall p | p in walkable :: p.x + 1 < width
    requires |centres| == |cellSets| && forall k | 0 <= k < |cellSets| :: InCellBox(cellSets[k], centres[k])
    requires forall k | 0 <= k < |cellSets| :: cellSets[k] <= walkable
    ensures forall k | 0 <= k < |centres| :: centres[k].x + 1 < width
  {
    forall k | 0 <= k < |centres| ensures centres[k].x + 1 < width {
      assert InCellBox(cellSets[k], centres[k]);
      var c :| c in cellSets[k] && centres[k].x <= c.x;
      assert c in walkable;
    }
  }

  /** With every centre left of column `width - 1`, every cell of a line between two centres
      that stays in its box is too: all the tunnels fit. */
  lemma TunnelsFit(width: int, centres: seq<Pos>, line: (Pos, Pos) -> seq<Pos>,
                   tunnels: seq<seq<Pos>>, links: seq<(int, int)>)
    requires LinesInBox(line) && LinksOf(centres, line, tunnels, links)
    requires forall k | 0 <= k < |centres| :: centres[k].x + 1 < width
    ensures AllFit(width, tunnels)
  {
    forall m | 0 <= m < |tunnels| ensures Fits(width, tunnels[m]) {
      var a, b := centres[links[m].0], centres[links[m].1];
      assert tunnels[m] == line(a, b);
      assert InBox(a, b, tunnels[m]);
    }
  }

  /** The analyzer's floors are the walkable cells of its map. */
  lemma FloorsWalkable(grid: Map, floors: set<Pos>)
    requires forall p | InGrid(grid, p) :: grid[p.x, p.y].walkable <==> p in floors
    requires forall p | p in floors :: InGrid(grid, p)
    ensures floors == WalkableCells(grid)
  {
    forall p | p in WalkableCells(grid) ensures p in floors {
      assert InGrid(grid, p);
    }
  }

  /** The sections of the walkable cells `floors` as the flood fill finds them: their shape,
      every walkable cell in one of them, and each centre on the grid, in the box of its
      section's cells. */
  ghost predicate Sectioned(grid: Map, floors: set<Pos>, cellSets: seq<set<Pos>>, orders: seq<seq<Pos>>, centres: seq<Pos>) {
    SectionsShape(floors, cellSets, orders) &&
    (forall p | p in floors :: InSome(cellSets, p)) &&
    |centres| == |cellSets| && OnGrid(grid, centres) &&
    forall k | 0 <= k < |cellSets| :: InCellBox(cellSets[k], centres[k])
  }

  /** What `TunnelsFit` needs of the sections. */
  lemma SectionedFloors(grid: Map, floors: set<Pos>, cellSets: seq<set<Pos>>, orders: seq<seq<Pos>>, centres: seq<Pos>)
    requires Sectioned(grid, floors, cellSets, orders, centres)
    ensures |centres| == |cellSets| && OnGrid(grid, centres)
    ensures forall k | 0 <= k < |cellSets| :: InCellBox(cellSets[k], centres[k]) && cellSets[k] <= floors
  {
  }

  /** The start of `ConnectOrphanedSections`: a flood fill of the grid and the sections it
      finds, with their centres. */
  method Analyze(grid: Map, ghost walkable: set<Pos>, center: Rect -> Pos)
    returns (mapSections: seq<MapSection>, ghost cellSets: seq<set<Pos>>, ghost orders: seq<seq<Pos>>,
             ghost centres: seq<Pos>)
    requires grid.Length0 + grid.Length1 <= IntMaxValue && CentreInside(center) && walkable == WalkableCells(grid)
    ensures Sectioned(grid, walkable, cellSets, orders, centres)
    ensures Holds(mapSections, cellSets) && CentresOf(mapSections, center, centres)
  {
    var floodFillAnalyzer := new FloodFillAnalyzer(grid);
    mapSections := floodFillAnalyzer.GetMapSections();
    cellSets, orders := floodFillAnalyzer.cellSets, floodFillAnalyzer.orders;
    FloorsWalkable(grid, floodFillAnalyzer.floors);
    centres := seq(|mapSections|, k requires 0 <= k < |mapSections| reads mapSections => center(mapSections[k].Bounds()));
    SectionsOnMap(grid, floodFillAnalyzer.floors, cellSets, orders, mapSections, center, centres);
  }

  /** `ConnectOrphanedSections`. The flood fill splits the walkable cells into sections, each
      with its centre in the box of its cells; each tunnel is the line from one section's centre
      to its partner's, which is the section itself once every section is connected to it. It
      fails exactly when some tunnel writes a right neighbour off the map, which does not happen
      when the last column is shut and the line stays in its box. Otherwise the
      result is the grid with exactly the tunnels' cells made floors, so no cell becomes a wall
      and every tunnel cell is a floor, and every two sections are joined by a chain of tunnels.
      The `while` loop makes at most one pass fewer than there are sections, none exactly when
      there is at most one section, and each pass digs one tunnel from every section in turn:
      tunnel `m` starts at section `m % |sections|`. */
  method ConnectOrphanedSections(grid: Map, center: Rect -> Pos, line: (Pos, Pos) -> seq<Pos>)
    returns (r: Result<Map>, ghost cellSets: seq<set<Pos>>, ghost orders: seq<seq<Pos>>, ghost centres: seq<Pos>,
             ghost tunnels: seq<seq<Pos>>, ghost links: seq<(int, int)>, ghost passes: nat)
    requires grid.Length0 + grid.Length1 <= IntMaxValue
    requires CentreInside(center) && TracesInside(grid, line)
    ensures Sectioned(grid, old(WalkableCells(grid)), cellSets, orders, centres)
    ensures LinksOf(centres, line, tunnels, links)
    ensures r.Success? <==> AllFit(grid.Length0, tunnels)
    ensures old(LastColumnShut(grid)) && LinesInBox(line) ==> r.Success?
    ensures r.Success? ==> fresh(r.value) && Dug(grid, r.value, tunnels)
    ensures r.Success? ==> forall x, y | InBounds(grid, x, y) ::
      r.value[x, y] == grid[x, y] || r.value[x, y] == Floor
    ensures r.Success? ==> forall m, k | 0 <= m < |tunnels| && 0 <= k < |tunnels[m]| :: CellOpen(r.value, tunnels[m], k)
    ensures r.Success? ==> forall a, b | 0 <= a < |cellSets| && 0 <= b < |cellSets| :: Joined(links, a, b)
    ensures passes == 0 || passes < |cellSets|
    ensures r.Success? ==> (passes == 0 <==> |cellSets| <= 1)
    ensures r.Success? ==> |links| == passes * |cellSets| && (|cellSets| > 0 ==> InTurns(links, |cellSets|))
  {
    ghost var walkable, shut := WalkableCells(grid), LastColumnShut(grid);
    if shut {
      ShutLeft(grid);
    }
    var mapSections;
    mapSections, cellSets, orders, centres := Analyze(grid, walkable, center);
    SectionedFloors(grid, walkable, cellSets, orders, centres);
    r, tunnels, links, passes := Join(grid, mapSections, walkable, shut, cellSets, centres, center, line);
  }

  /** The rest of `ConnectOrphanedSections`, once the sections are found. */
  method Join(grid: Map, sections: seq<MapSection>, ghost walkable: set<Pos>, ghost shut: bool,
              ghost cellSets: seq<set<Pos>>, ghost centres: seq<Pos>, center: Rect -> Pos, line: (Pos, Pos) -> seq<Pos>)
    returns (r: Result<Map>, ghost tunnels: seq<seq<Pos>>, ghost links: seq<(int, int)>, ghost passes: nat)
    requires grid.Length0 + grid.Length1 <= IntMaxValue && TracesInside(grid, line)
    requires CentresOf(sections, center, centres) && |sections| == |cellSets| && OnGrid(grid, centres)
    requires forall k | 0 <= k < |cellSets| :: InCellBox(cellSets[k], centres[k]) && cellSets[k] <= walkable
    requires shut ==> forall p | p in walkable :: p.x + 1 < grid.Length0
    ensures LinksOf(centres, line, tunnels, links)
    ensures r.Success? <==> AllFit(grid.Length0, tunnels)
    ensures shut && LinesInBox(line) ==> r.Success?
    ensures r.Success? ==> fresh(r.value) && Dug(grid, r.value, tunnels)
    ensures r.Success? ==> Opened(grid, r.value, tunnels)
    ensures r.Success? ==> forall a, b | 0 <= a < |cellSets| && 0 <= b < |cellSets| :: Joined(links, a, b)
    ensures passes == 0 || passes < |cellSets|
    ensures r.Success? ==> (passes == 0 <==> |cellSets| <= 1)
    ensures r.Success? ==> |links| == passes * |cellSets| && (|cellSets| > 0 ==> InTurns(links, |cellSets|))
  {
    if shut {
      CentresFit(grid.Length0, walkable, cellSets, centres);
    }
    var ok, returnMap;
    ok, returnMap, tunnels, links, passes := Stitch(grid, sections, centres, center, line);
    if shut && LinesInBox(line) {
      TunnelsFit(grid.Length0, centres, line, tunnels, links);
    }
    if !ok {
      r := Failure("tunnel cell outside the map");
      return;
    }
    r := Success(returnMap);
  }

  /** The copy of the map to dig in, the union-find over the sections and the `while` loop of
      `ConnectOrphanedSections`. */
  method Stitch(grid: Map, sections: seq<MapSection>, ghost centres: seq<Pos>,
                center: Rect -> Pos, line: (Pos, Pos) -> seq<Pos>)
    returns (ok: bool, returnMap: Map, ghost tunnels: seq<seq<Pos>>, ghost links: seq<(int, int)>, ghost passes: nat)
    requires grid.Length0 + grid.Length1 <= IntMaxValue && TracesInside(grid, line)
    requires CentresOf(sections, center, centres) && OnGrid(grid, centres)
    ensures fresh(returnMap)
    ensures LinksOf(centres, line, tunnels, links)
    ensures ok <==> AllFit(grid.Length0, tunnels)
    ensures ok ==> Dug(grid, returnMap, tunnels) && Opened(grid, returnMap, tunnels)
    ensures ok ==> forall a, b | 0 <= a < |sections| && 0 <= b < |sections| :: Joined(links, a, b)
    ensures passes == 0 || passes < |sections|
    ensures ok ==> (passes == 0 <==> |sections| <= 1)
    ensures ok ==> |links| == passes * |sections| && (|sections| > 0 ==> InTurns(links, |sections|))
  {
    returnMap := Clone(grid);
    assert AllTunnels([]) == {};
    assert Laid(grid, returnMap, sections, centres, center, line, [], []);
    var unionFind := new UnionFind(|sections|);
    forall a, b | 0 <= a < |unionFind.id| && 0 <= b < |unionFind.id| && unionFind.id[a] == unionFind.id[b]
      ensures Joined([], a, b)
    {
      assert unionFind.Connected(a, b);
      JoinedSelf([], a);
    }
    ok, tunnels, links, passes := JoinAll(grid, returnMap, sections, centres, unionFind, center, line);
    if ok {
      TunnelsOpen(grid, returnMap, centres, line, tunnels, links);
      if |sections| > 0 {
        AllJoined(unionFind, links);
      }
    }
  }

  /** Every traced cell, and the right neighbour of every traced cell differing from the one
      before it, is a floor. */
  lemma TunnelsOpen(grid: Map, returnMap: Map, centres: seq<Pos>, line: (Pos, Pos) -> seq<Pos>,
                    tunnels: seq<seq<Pos>>, links: seq<(int, int)>)
    requires Dug(grid, returnMap, tunnels) && AllFit(grid.Length0, tunnels)
    requires OnGrid(grid, centres) && TracesInside(grid, line) && LinksOf(centres, line, tunnels, links)
    ensures Opened(grid, returnMap, tunnels)
  {
    forall m, k | 0 <= m < |tunnels| && 0 <= k < |tunnels[m]| ensures CellOpen(returnMap, tunnels[m], k) {
      var t := tunnels[m];
      assert t == line(centres[links[m].0], centres[links[m].1]);
      assert OnGrid(grid, t);
      InTunnel(t, k);
      InAllTunnels(tunnels, m);
      var c := t[k];
      assert InBounds(grid, c.x, c.y);
      if k > 0 && c != t[k - 1] {
        assert Fits(grid.Length0, t);
        assert InBounds(grid, c.x + 1, c.y);
      }
    }
  }
}
