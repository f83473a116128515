/** The maze primitives of `MazeStrategyBase` and the carving loop of
    `PrimsMazeMapCreationStrategy`. */
module Maze {
  import opened Grid
  import opened FloodFill

  // ----- MazeStrategyBase -----

  /** `_skipNeighbors`: two cells left, right, up and down, in that order. */
  const SkipOffsets: seq<Pos> := [Pos(-2, 0), Pos(2, 0), Pos(0, -2), Pos(0, 2)]

  function Skip(cell: Pos, d: int): Pos
    requires 0 <= d < 4
  {
    Pos(cell.x + SkipOffsets[d].x, cell.y + SkipOffsets[d].y)
  }

  /** The offset `p` is at from `cell` (4 when it is at none); the four offset cells are distinct. */
  function SkipRank(cell: Pos, p: Pos): (d: int)
    ensures 0 <= d <= 4 && (d < 4 ==> p == Skip(cell, d))
    ensures forall e | 0 <= e < 4 :: p == Skip(cell, e) ==> d == e
  {
    if p == Skip(cell, 0) then 0
    else if p == Skip(cell, 1) then 1
    else if p == Skip(cell, 2) then 2
    else if p == Skip(cell, 3) then 3
    else 4
  }

  /** A cell `GetSkipNeighbors` keeps: on the map, off the border, neither transparent nor walkable. */
  predicate IsSkipTarget(grid: Map, p: Pos)
    reads grid
  {
    InGrid(grid, p) && !IsBorderCell(grid, p.x, p.y) && !grid[p.x, p.y].transparent && !grid[p.x, p.y].walkable
  }

  /** The kept cells among offsets `d .. 3`, in offset order. */
  function SkipNeighborsFrom(grid: Map, cell: Pos, d: int): (r: seq<Pos>)
    requires 0 <= d <= 4
    reads grid
    ensures |r| <= 4 - d
    ensures forall p | p in r :: d <= SkipRank(cell, p) < 4 && IsSkipTarget(grid, p)
    ensures forall e | d <= e < 4 && IsSkipTarget(grid, Skip(cell, e)) :: Skip(cell, e) in r
    ensures forall i, j | 0 <= i < j < |r| :: SkipRank(cell, r[i]) < SkipRank(cell, r[j])
    decreases 4 - d
  {
    if d == 4 then []
    else
      var check := Skip(cell, d);
      var rest := SkipNeighborsFrom(grid, cell, d + 1);
      if IsSkipTarget(grid, check) then [check] + rest else rest
  }

  /** `GetSkipNeighbors`: the cells two steps away along an axis that are on the map, off the
      border, neither transparent nor walkable, in offset order. It only reads the map. */
  function GetSkipNeighbors(grid: Map, cell: Pos): (results: seq<Pos>)
    reads grid
    ensures |results| <= 4
    ensures forall p | p in results :: SkipRank(cell, p) < 4 && IsSkipTarget(grid, p)
    ensures forall d | 0 <= d < 4 && IsSkipTarget(grid, Skip(cell, d)) :: Skip(cell, d) in results
    ensures forall i, j | 0 <= i < j < |results| :: SkipRank(cell, results[i]) < SkipRank(cell, results[j])
  {
    SkipNeighborsFrom(grid, cell, 0)
  }

  /** C#'s `/` for a positive divisor: the quotient truncated toward zero. */
  function CsDiv(a: int, b: int): int
    requires b > 0
  {
    if a >= 0 then a / b else -((-a) / b)
  }

  /** `GetLinkCell`: `start + (end - start) / 2` in each coordinate, with C# division. The cell
      lies between the two; for cells one skip apart it is the midpoint, next to both. */
  function GetLinkCell(start: Pos, end: Pos): (link: Pos)
    ensures Min(start.x, end.x) <= link.x <= Max(start.x, end.x)
    ensures Min(start.y, end.y) <= link.y <= Max(start.y, end.y)
    ensures SkipRank(start, end) < 4 ==>
      2 * link.x == start.x + end.x && 2 * link.y == start.y + end.y &&
      Adjacent(start, link) && Adjacent(link, end)
  {
    Pos(start.x + CsDiv(end.x - start.x, 2), start.y + CsDiv(end.y - start.y, 2))
  }

  /** C# truncation, not Euclidean division: for an odd distance along an axis the link is one
      step nearer `start` than `end`, whichever way `end` lies; for an even distance it is the
      midpoint. (Euclidean division would round `-3 / 2` down to `-2`, away from `start`.) */
  lemma LinkRoundsTowardStart(start: Pos, end: Pos)
    ensures var link, dx := GetLinkCell(start, end), end.x - start.x;
      2 * (link.x - start.x) == dx - (if dx % 2 == 0 then 0 else if dx > 0 then 1 else -1)
    ensures var link, dy := GetLinkCell(start, end), end.y - start.y;
      2 * (link.y - start.y) == dy - (if dy % 2 == 0 then 0 else if dy > 0 then 1 else -1)
    ensures GetLinkCell(Pos(3, 0), Pos(0, 0)) == Pos(2, 0)
    ensures GetLinkCell(Pos(0, 0), Pos(3, 0)) == Pos(1, 0)
  {
    CsDivHalf(end.x - start.x);
    CsDivHalf(end.y - start.y);
  }

  /** Halving with C#'s `/` drops the odd unit toward zero. */
  lemma CsDivHalf(d: int)
    ensures 2 * CsDiv(d, 2) == d - (if d % 2 == 0 then 0 else if d > 0 then 1 else -1)
  {
    if d < 0 {
      assert (-d) % 2 == d % 2;
    }
  }

  // ----- the linear index of the open list -----

  /** `(y * w) + x`. */
  function Encode(w: int, p: Pos): int {
    p.y * w + p.x
  }

  /** `x = current % w`, `y = (current - x) / w`. */
  function Decode(w: int, i: int): Pos
    requires w > 0
  {
    var x := i % w;
    Pos(x, (i - x) / w)
  }

  /** Decoding an encoded cell of a row of width `w` gives the cell back. */
  lemma EncodeRoundTrip(w: int, p: Pos)
    requires w > 0 && 0 <= p.x < w
    ensures Decode(w, Encode(w, p)) == p
  {
    DivModUnique(Encode(w, p), w, p.y, p.x);
    DivModUnique(p.y * w, w, p.y, 0);
  }

  /** Encoding a decoded index gives it back; an index below `w * h` decodes to a cell of the map. */
  lemma DecodeRoundTrip(w: int, h: int, i: int)
    requires w > 0 && 0 <= i < w * h
    ensures Encode(w, Decode(w, i)) == i
    ensures 0 <= Decode(w, i).x < w && 0 <= Decode(w, i).y < h
  {
    var q, r := i / w, i % w;
    DivModUnique(q * w, w, q, 0);
    assert i - r == q * w;
    if q >= h {
      assert q * w >= h * w;
    }
  }

  /** A cell of a `w x h` map encodes below `w * h`. */
  lemma EncodeBound(w: int, h: int, p: Pos)
    requires 0 <= p.x < w && 0 <= p.y < h
    ensures 0 <= Encode(w, p) < w * h
  {
    assert p.y * w <= (h - 1) * w;
    assert p.y * w >= 0;
  }

  /** `List.Remove`: drops the first occurrence of `v`, if any. */
  function RemoveValue(s: seq<int>, v: int): (r: seq<int>)
    ensures v !in s ==> r == s
    ensures v in s ==> multiset(r) == multiset(s) - multiset{v}
  {
    if s == [] then []
    else if s[0] == v then assert s == [s[0]] + s[1..]; s[1..]
    else assert s == [s[0]] + s[1..]; [s[0]] + RemoveValue(s[1..], v)
  }

  /** The occurrence `List.Remove` drops is the first: when `s[i]` does not occur before `i`,
      exactly position `i` goes. */
  lemma {:induction false} RemoveFirst(s: seq<int>, i: int)
    requires 0 <= i < |s| && s[i] !in s[..i]
    ensures RemoveValue(s, s[i]) == s[..i] + s[i + 1..]
  {
    if i > 0 {
      assert s[0] in s[..i];
      var t := s[1..];
      assert t[i - 1] == s[i];
      assert t[..i - 1] == s[1..i];
      RemoveFirst(t, i - 1);
      assert s[..i] == [s[0]] + t[..i - 1];
      assert s[i + 1..] == t[i..];
    }
  }

  // ----- the shape of a maze being carved -----

  predicate Odd(p: Pos) {
    p.x % 2 == 1 && p.y % 2 == 1
  }

  predicate Inside(w: int, h: int, p: Pos) {
    0 <= p.x < w && 0 <= p.y < h
  }

  predicate OnBorder(w: int, h: int, p: Pos) {
    p.x == 0 || p.x == w - 1 || p.y == 0 || p.y == h - 1
  }

  /** `p` is a link: the cell between two carved odd cells one skip apart. */
  ghost predicate Joins(carved: set<Pos>, p: Pos) {
    (Odd(Pos(p.x - 1, p.y)) && Pos(p.x - 1, p.y) in carved && Pos(p.x + 1, p.y) in carved) ||
    (Odd(Pos(p.x, p.y - 1)) && Pos(p.x, p.y - 1) in carved && Pos(p.x, p.y + 1) in carved)
  }

  ghost function AllCells(w: int, h: int): set<Pos> {
    set x, y | 0 <= x < w && 0 <= y < h :: Pos(x, y)
  }

  /** The carved cells are on the map, off the border but for (1, 1), and each odd or a link;
      the pending ones (on the open list) are carved and odd. */
  ghost predicate CellShape(w: int, h: int, carved: set<Pos>, pending: set<Pos>) {
    w >= 2 && h >= 2 &&
    pending <= carved &&
    (forall p | p in carved :: Inside(w, h, p) && (p == Pos(1, 1) || !OnBorder(w, h, p))) &&
    (forall p | p in carved :: Odd(p) || Joins(carved, p)) &&
    (forall p | p in pending :: Odd(p))
  }

  /** `order` lists the carved cells from (1, 1), each after the first next to an earlier one. */
  ghost predicate OrderShape(carved: set<Pos>, order: seq<Pos>) {
    |order| > 0 && order[0] == Pos(1, 1) && Spanning(order) &&
    (forall p :: p in carved <==> p in order)
  }

  /** The open list has no repeats and holds exactly the indices of the pending cells. */
  ghost predicate OpenShape(w: int, h: int, pending: set<Pos>, open: seq<int>)
    requires w > 0
  {
    (forall k | 0 <= k < |open| :: 0 <= open[k] < w * h && Decode(w, open[k]) in pending) &&
    (forall k1, k2 | 0 <= k1 < k2 < |open| :: open[k1] != open[k2]) &&
    (forall p | p in pending :: Encode(w, p) in open)
  }

  /** The carving state: `carved` are the walkable cells, `pending` those on the open list
      (walkable, not transparent), `order` the carving order, `open` the list of indices. */
  ghost predicate MazeShape(w: int, h: int, carved: set<Pos>, pending: set<Pos>, order: seq<Pos>, open: seq<int>) {
    CellShape(w, h, carved, pending) && OrderShape(carved, order) && OpenShape(w, h, pending, open)
  }

  /** What a cell is in the carving state. */
  function KindOf(carved: set<Pos>, pending: set<Pos>, p: Pos): Cell {
    if p in pending then Cell(true, false) else if p in carved then Floor else Wall
  }

  /** The map shows the carving state. */
  ghost predicate Mirrors(grid: Map, carved: set<Pos>, pending: set<Pos>)
    reads grid
  {
    forall x, y | InBounds(grid, x, y) :: grid[x, y] == KindOf(carved, pending, Pos(x, y))
  }

  /** The start: (1, 1) carved and on the open list. */
  lemma StartShape(w: int, h: int)
    requires w >= 2 && h >= 2
    ensures MazeShape(w, h, {Pos(1, 1)}, {Pos(1, 1)}, [Pos(1, 1)], [1 * w + 1])
  {
    EncodeRoundTrip(w, Pos(1, 1));
    EncodeBound(w, h, Pos(1, 1));
    assert Encode(w, Pos(1, 1)) == 1 * w + 1;
  }

  /** Cells one skip apart along the x axis, `next` off the border: their link lies between them. */
  lemma HorizontalLink(w: int, h: int, current: Pos, next: Pos, link: Pos)
    requires Odd(current) && Inside(w, h, current) && Inside(w, h, next) && !OnBorder(w, h, next)
    requires next.y == current.y && (next.x == current.x - 2 || next.x == current.x + 2)
    requires link == Pos(Min(current.x, next.x) + 1, current.y)
    ensures Odd(next) && !Odd(link) && link != next
    ensures Inside(w, h, link) && !OnBorder(w, h, link)
    ensures Joins({current, next}, link)
    ensures forall c: set<Pos> :: Joins(c, link) ==> current in c && next in c
  {
    assert link.x % 2 == 0;
  }

  /** Cells one skip apart along the y axis, `next` off the border: their link lies between them. */
  lemma VerticalLink(w: int, h: int, current: Pos, next: Pos, link: Pos)
    requires Odd(current) && Inside(w, h, current) && Inside(w, h, next) && !OnBorder(w, h, next)
    requires next.x == current.x && (next.y == current.y - 2 || next.y == current.y + 2)
    requires link == Pos(current.x, Min(current.y, next.y) + 1)
    ensures Odd(next) && !Odd(link) && link != next
    ensures Inside(w, h, link) && !OnBorder(w, h, link)
    ensures Joins({current, next}, link)
    ensures forall c: set<Pos> :: Joins(c, link) ==> current in c && next in c
  {
    assert link.y % 2 == 0;
  }

  /** The geometry of a carving step from an odd cell to a cell one skip away off the border. */
  lemma LinkGeometry(w: int, h: int, current: Pos, next: Pos, link: Pos)
    requires Odd(current) && Inside(w, h, current)
    requires SkipRank(current, next) < 4 && Inside(w, h, next) && !OnBorder(w, h, next)
    requires link == GetLinkCell(current, next)
    ensures Odd(next) && !Odd(link) && link != next
    ensures Inside(w, h, link) && !OnBorder(w, h, link)
    ensures Adjacent(current, link) && Adjacent(link, next)
    ensures Joins({current, next}, link)
    ensures forall c: set<Pos> :: Joins(c, link) ==> current in c && next in c
  {
    if SkipRank(current, next) < 2 {
      HorizontalLink(w, h, current, next, link);
    } else {
      VerticalLink(w, h, current, next, link);
    }
  }

  /** A carving step keeps the cell shape; the link was not carved before. */
  lemma CarveCells(w: int, h: int, carved: set<Pos>, pending: set<Pos>, current: Pos, next: Pos, link: Pos)
    requires CellShape(w, h, carved, pending)
    requires current in pending && SkipRank(current, next) < 4
    requires Inside(w, h, next) && !OnBorder(w, h, next) && next !in carved
    requires link == GetLinkCell(current, next)
    ensures link != next && link !in pending && link !in carved && Inside(w, h, link)
    ensures Adjacent(current, link) && Adjacent(link, next)
    ensures CellShape(w, h, carved + {link, next}, pending + {next})
  {
    LinkGeometry(w, h, current, next, link);
    assert !Joins(carved, link);
    assert link !in carved;
    var carved' := carved + {link, next};
    assert forall p | p in carved :: Odd(p) || Joins(carved', p);
  }

  /** Carving two adjacent cells from a carved one keeps the order shape. */
  lemma CarveOrder(carved: set<Pos>, order: seq<Pos>, current: Pos, next: Pos, link: Pos)
    requires OrderShape(carved, order) && current in carved
    requires Adjacent(current, link) && Adjacent(link, next)
    ensures OrderShape(carved + {link, next}, order + [link, next])
  {
    assert NextToSome(order, link) by {
      var j :| 0 <= j < |order| && order[j] == current;
    }
    AddSpanning(order, link, order + [link]);
    assert NextToSome(order + [link], next) by {
      assert (order + [link])[|order|] == link;
    }
    AddSpanning(order + [link], next, order + [link, next]);
  }

  /** Appending a new value keeps a list without repeats. */
  lemma AppendDistinct(s: seq<int>, v: int)
    requires forall k1, k2 | 0 <= k1 < k2 < |s| :: s[k1] != s[k2]
    requires forall k | 0 <= k < |s| :: s[k] != v
    ensures forall k1, k2 | 0 <= k1 < k2 < |s| + 1 :: (s + [v])[k1] != (s + [v])[k2]
  {
  }

  /** Appending the index of a new cell keeps the open list shape. */
  lemma CarveOpen(w: int, h: int, pending: set<Pos>, open: seq<int>, next: Pos)
    requires w > 0 && OpenShape(w, h, pending, open) && Inside(w, h, next) && next !in pending
    ensures OpenShape(w, h, pending + {next}, open + [Encode(w, next)])
  {
    var pending', open' := pending + {next}, open + [Encode(w, next)];
    EncodeRoundTrip(w, next);
    EncodeBound(w, h, next);
    forall k | 0 <= k < |open| ensures open[k] != Encode(w, next) {
      assert Decode(w, open[k]) in pending;
    }
    AppendDistinct(open, Encode(w, next));
    forall k | 0 <= k < |open'| ensures 0 <= open'[k] < w * h && Decode(w, open'[k]) in pending' {
      if k < |open| { assert open'[k] == open[k]; }
    }
    forall p | p in pending' ensures Encode(w, p) in open' {
      if p != next { assert Encode(w, p) in open; }
    }
  }

  /** A carving step keeps the shape. */
  lemma CarveKeeps(w: int, h: int, carved: set<Pos>, pending: set<Pos>, order: seq<Pos>, open: seq<int>,
                   current: Pos, next: Pos, link: Pos)
    requires MazeShape(w, h, carved, pending, order, open)
    requires current in pending && SkipRank(current, next) < 4
    requires Inside(w, h, next) && !OnBorder(w, h, next) && next !in carved
    requires link == GetLinkCell(current, next)
    ensures link != next && link !in pending && link !in carved && Inside(w, h, link)
    ensures MazeShape(w, h, carved + {link, next}, pending + {next}, order + [link, next], open + [Encode(w, next)])
  {
    CarveCells(w, h, carved, pending, current, next, link);
    CarveOrder(carved, order, current, next, link);
    CarveOpen(w, h, pending, open, next);
  }

  /** The list without position `i`. */
  function Drop(s: seq<int>, i: int): seq<int>
    requires 0 <= i < |s|
  {
    s[..i] + s[i + 1..]
  }

  /** Dropping position `i` keeps the earlier elements and shifts the later ones down by one. */
  lemma DropIndex(s: seq<int>, i: int)
    requires 0 <= i < |s|
    ensures |Drop(s, i)| == |s| - 1
    ensures forall k | 0 <= k < i :: Drop(s, i)[k] == s[k]
    ensures forall k | i <= k < |s| - 1 :: Drop(s, i)[k] == s[k + 1]
  {
  }

  /** After dropping position `index`, every index left is of a pending cell other than its one. */
  lemma FinishOpenSound(w: int, h: int, pending: set<Pos>, open: seq<int>, index: int)
    requires w > 0 && OpenShape(w, h, pending, open) && 0 <= index < |open|
    ensures forall k | 0 <= k < |open| - 1 ::
      (0 <= Drop(open, index)[k] < w * h && Decode(w, Drop(open, index)[k]) in pending - {Decode(w, open[index])})
  {
    var current := Decode(w, open[index]);
    var open' := Drop(open, index);
    DropIndex(open, index);
    DecodeRoundTrip(w, h, open[index]);
    forall k | 0 <= k < |open'| ensures 0 <= open'[k] < w * h && Decode(w, open'[k]) in pending - {current} {
      var m := if k < index then k else k + 1;
      assert open'[k] == open[m];
      assert open[m] != open[index];
      DecodeRoundTrip(w, h, open[m]);
    }
  }

  /** After dropping position `index`, every other pending cell still has its index listed. */
  lemma FinishOpenComplete(w: int, h: int, pending: set<Pos>, open: seq<int>, index: int)
    requires w > 0 && OpenShape(w, h, pending, open) && 0 <= index < |open|
    requires forall p | p in pending :: Inside(w, h, p)
    ensures forall p | p in pending - {Decode(w, open[index])} :: Encode(w, p) in Drop(open, index)
  {
    var current := Decode(w, open[index]);
    var open' := Drop(open, index);
    DropIndex(open, index);
    forall p | p in pending && p != current ensures Encode(w, p) in open' {
      var m :| 0 <= m < |open| && open[m] == Encode(w, p);
      EncodeRoundTrip(w, p);
      assert Decode(w, open[m]) == p;
      assert m != index;
      if m < index {
        assert open'[m] == open[m];
      } else {
        assert open'[m - 1] == open[m];
      }
    }
  }

  /** Dropping a position keeps a list without repeats. */
  lemma DropDistinct(s: seq<int>, i: int)
    requires 0 <= i < |s| && forall k1, k2 | 0 <= k1 < k2 < |s| :: s[k1] != s[k2]
    ensures forall k1, k2 | 0 <= k1 < k2 < |s| - 1 :: Drop(s, i)[k1] != Drop(s, i)[k2]
  {
    var s' := Drop(s, i);
    DropIndex(s, i);
    forall k1, k2 | 0 <= k1 < k2 < |s'| ensures s'[k1] != s'[k2] {
      var m1 := if k1 < i then k1 else k1 + 1;
      var m2 := if k2 < i then k2 else k2 + 1;
      assert s'[k1] == s[m1] && s'[k2] == s[m2];
    }
  }

  /** Dropping position `index` from the open list drops its cell from the pending ones. */
  lemma FinishOpen(w: int, h: int, pending: set<Pos>, open: seq<int>, index: int)
    requires w > 0 && OpenShape(w, h, pending, open) && 0 <= index < |open|
    requires forall p | p in pending :: Inside(w, h, p)
    ensures Decode(w, open[index]) in pending
    ensures OpenShape(w, h, pending - {Decode(w, open[index])}, Drop(open, index))
  {
    DropIndex(open, index);
    FinishOpenSound(w, h, pending, open, index);
    FinishOpenComplete(w, h, pending, open, index);
    DropDistinct(open, index);
  }

  /** A finishing step (no skip target left) keeps the shape once the cell leaves the open list. */
  lemma FinishKeeps(w: int, h: int, carved: set<Pos>, pending: set<Pos>, order: seq<Pos>, open: seq<int>, index: int)
    requires MazeShape(w, h, carved, pending, order, open) && 0 <= index < |open|
    ensures Decode(w, open[index]) in pending && Decode(w, open[index]) in carved
    ensures Inside(w, h, Decode(w, open[index]))
    ensures |RemoveValue(open, open[index])| == |open| - 1
    ensures MazeShape(w, h, carved, pending - {Decode(w, open[index])}, order, RemoveValue(open, open[index]))
  {
    FinishOpen(w, h, pending, open, index);
    assert open[index] !in open[..index];
    RemoveFirst(open, index);
  }

  /** Carving two new cells of the map leaves fewer cells uncarved. */
  lemma CarveShrinks(w: int, h: int, carved: set<Pos>, link: Pos, next: Pos)
    requires Inside(w, h, link) && Inside(w, h, next) && link != next && link !in carved && next !in carved
    ensures |AllCells(w, h) - (carved + {link, next})| < |AllCells(w, h) - carved|
  {
    assert next in AllCells(w, h) && link in AllCells(w, h);
    assert AllCells(w, h) - (carved + {link, next}) == AllCells(w, h) - carved - {link} - {next};
  }

  /** The walkable cells of a map. */
  ghost function Walkable(grid: Map): set<Pos>
    reads grid
  {
    set x, y | 0 <= x < grid.Length0 && 0 <= y < grid.Length1 && grid[x, y].walkable :: Pos(x, y)
  }

  /** The finished maze: with the open list empty every carved cell is a floor and every other
      cell a wall, and the carved cells connect to (1, 1). */
  lemma MazeEnd(grid: Map, carved: set<Pos>, order: seq<Pos>)
    requires MazeShape(grid.Length0, grid.Length1, carved, {}, order, []) && Mirrors(grid, carved, {})
    ensures Walkable(grid) == carved
    ensures forall x, y | InBounds(grid, x, y) :: grid[x, y] == Wall || grid[x, y] == Floor
    ensures grid[1, 1] == Floor
    ensures forall x, y | InBounds(grid, x, y) && grid[x, y].walkable ::
      (x == 1 && y == 1) || !IsBorderCell(grid, x, y)
    ensures forall x, y | InBounds(grid, x, y) && grid[x, y].walkable ::
      Odd(Pos(x, y)) || Joins(Walkable(grid), Pos(x, y))
    ensures forall x, y | InBounds(grid, x, y) && grid[x, y].walkable :: Connects(Walkable(grid), Pos(1, 1), Pos(x, y))
  {
    forall p | p in carved ensures p in Walkable(grid) {
      assert grid[p.x, p.y] == KindOf(carved, {}, p);
    }
    assert order[0] in order;
    forall x, y | InBounds(grid, x, y) && grid[x, y].walkable ensures Connects(carved, Pos(1, 1), Pos(x, y)) {
      var k :| 0 <= k < |order| && order[k] == Pos(x, y);
      SpanningWalk(order, carved, k);
    }
  }

  // ----- PrimsMazeMapCreationStrategy -----

  class PrimsMazeMapCreationStrategy {
    const width: int
    const height: int
    /** `random(k, m)` is the result of the `k`-th call `Next(m)`. */
    const random: (nat, int) -> int
    var grid: Map
    /** The walkable cells. */
    ghost var carved: set<Pos>
    /** The cells on the open list. */
    ghost var pending: set<Pos>
    /** The order in which cells were carved. */
    ghost var order: seq<Pos>

    constructor (width: int, height: int, random: (nat, int) -> int)
      ensures this.width == width && this.height == height && this.random == random
    {
      this.width := width;
      this.height := height;
      this.random := random;
      grid := new Cell[0, 0];
    }

    /** `Next(m)` gives a value in `0 .. m`. */
    ghost predicate DrawsBounded() {
      forall k: nat, m: int | m >= 0 :: 0 <= random(k, m) <= m
    }

    /** The loop state of `CreateMap`. */
    ghost predicate Carving(open: seq<int>)
      reads this, grid
    {
      grid.Length0 == width && grid.Length1 == height && width * height <= IntMaxValue &&
      MazeShape(width, height, carved, pending, order, open) && Mirrors(grid, carved, pending)
    }

    /** `CreateMap`: Prim's algorithm over the odd cells. Starting from (1, 1), repeatedly pick
        an open cell; carve toward one of its skip neighbours (the link cell becomes a floor, the
        new cell walkable but opaque and open), or, with none left, close it (it becomes a floor).
        On return every cell is a wall or a floor, the floors are (1, 1) and interior cells, each
        odd or the link between two odd floors, and all are connected to (1, 1). */
    method CreateMap() returns (r: Map)
      requires 2 <= width && 2 <= height && width * height <= IntMaxValue && DrawsBounded()
      modifies this
      ensures r == grid && fresh(grid) && grid.Length0 == width && grid.Length1 == height
      ensures forall x, y | InBounds(grid, x, y) :: grid[x, y] == Wall || grid[x, y] == Floor
      ensures grid[1, 1] == Floor
      ensures forall x, y | InBounds(grid, x, y) && grid[x, y].walkable ::
        (x == 1 && y == 1) || !IsBorderCell(grid, x, y)
      ensures forall x, y | InBounds(grid, x, y) && grid[x, y].walkable ::
        Odd(Pos(x, y)) || Joins(Walkable(grid), Pos(x, y))
      ensures forall x, y | InBounds(grid, x, y) && grid[x, y].walkable :: Connects(Walkable(grid), Pos(1, 1), Pos(x, y))
    {
      var open := Start();
      var calls: nat := 0;
      while |open| > 0
        invariant fresh(grid) && Carving(open)
        decreases 2 * |AllCells(width, height) - carved| + |open|
      {
        open, calls := Step(open, calls);
      }
      MazeEnd(grid, carved, order);
      r := grid;
    }

    /** The start of `CreateMap`: the open list holds (1, 1), which is walkable and opaque. */
    method Start() returns (open: seq<int>)
      requires 2 <= width && 2 <= height && width * height <= IntMaxValue
      modifies this
      ensures fresh(grid) && Carving(open)
    {
      Initialize();
      var w := grid.Length0;
      open := [];
      var first := (1 * w) + 1;
      assert first == 1 * width + 1 by {
        assert w == width;
      }
      open := open + [first];
      OpenStart();
      StartShape(width, height);
    }

    /** `Map.Initialize(Width, Height)`: every cell a wall. */
    method Initialize()
      requires 0 <= width && 0 <= height
      modifies this
      ensures fresh(grid) && grid.Length0 == width && grid.Length1 == height
      ensures carved == {} && pending == {} && order == []
      ensures Mirrors(grid, carved, pending)
    {
      grid := new Cell[width, height]((x, y) => Wall);
      carved, pending, order := {}, {}, [];
    }

    /** `SetCellProperties(1, 1, true, false)`: (1, 1) is carved and on the open list. */
    method OpenStart()
      requires Mirrors(grid, carved, pending) && carved == {} && pending == {}
      requires 2 <= grid.Length0 && 2 <= grid.Length1
      modifies this, grid
      ensures grid == old(grid) && carved == {Pos(1, 1)} && pending == {Pos(1, 1)} && order == [Pos(1, 1)]
      ensures Mirrors(grid, carved, pending)
    {
      grid[1, 1] := Cell(true, false);
      carved, pending, order := {Pos(1, 1)}, {Pos(1, 1)}, [Pos(1, 1)];
    }

    /** One turn of the loop: pick an open cell with the `calls`-th draw and carve from it or close it. */
    method Step(open: seq<int>, calls: nat) returns (open': seq<int>, calls': nat)
      requires Carving(open) && |open| > 0 && DrawsBounded()
      modifies this, grid
      ensures Carving(open') && grid == old(grid)
      ensures 2 * |AllCells(width, height) - carved| + |open'| < 2 * |AllCells(width, height) - old(carved)| + |open|
      ensures var index := random(calls, |open| - 1);
        || (calls' == calls + 1 && open' == RemoveValue(open, open[index]) && carved == old(carved)
            && pending == old(pending) - {Decode(width, open[index])})
        || (calls' == calls + 2 && |open'| == |open| + 1 && open'[..|open|] == open
            && pending == old(pending) + {Decode(width, open'[|open|])})
    {
      var w := grid.Length0;
      var index := random(calls, |open| - 1);
      var current := open[index];
      var currX := current % w;
      var currY := (current - currX) / w;
      var currentCell := Pos(currX, currY);
      assert currentCell == Decode(w, current);
      var possibleNodes := GetSkipNeighbors(grid, currentCell);
      if |possibleNodes| > 0 {
        var node := random(calls + 1, |possibleNodes| - 1);
        var nextCell := possibleNodes[node];
        open' := CarveStep(open, currentCell, nextCell);
        calls' := calls + 2;
        assert open'[..|open|] == open && open'[|open|] == Encode(width, nextCell);
        EncodeRoundTrip(width, nextCell);
        assert pending == old(pending) + {Decode(width, open'[|open|])};
      } else {
        open' := FinishStep(open, index, currentCell);
        calls' := calls + 1;
      }
    }

    /** The carving branch: open the link cell and `nextCell`, and put `nextCell` on the list. */
    method CarveStep(open: seq<int>, currentCell: Pos, nextCell: Pos) returns (open': seq<int>)
      requires Carving(open) && currentCell in pending && SkipRank(currentCell, nextCell) < 4
      requires IsSkipTarget(grid, nextCell)
      modifies this, grid
      ensures grid == old(grid) && |open'| == |open| + 1
      ensures MazeShape(width, height, carved, pending, order, open') && Mirrors(grid, carved, pending)
      ensures |AllCells(width, height) - carved| < |AllCells(width, height) - old(carved)|
      ensures open' == open + [Encode(width, nextCell)] && nextCell !in old(carved)
      ensures carved == old(carved) + {GetLinkCell(currentCell, nextCell), nextCell}
      ensures pending == old(pending) + {nextCell}
      ensures order == old(order) + [GetLinkCell(currentCell, nextCell), nextCell]
    {
      var w := grid.Length0;
      assert nextCell !in carved by {
        assert grid[nextCell.x, nextCell.y] == KindOf(carved, pending, nextCell);
      }
      var link := GetLinkCell(currentCell, nextCell);
      CarveKeeps(width, height, carved, pending, order, open, currentCell, nextCell, link);
      CarveShrinks(width, height, carved, link, nextCell);
      Carve(link, nextCell);
      var nextIndex := (nextCell.y * w) + nextCell.x;
      assert nextIndex == Encode(width, nextCell) by {
        assert w == width;
      }
      open' := open + [nextIndex];
      EncodeRoundTrip(width, nextCell);
    }

    /** `SetCellProperties(link, true, true)` and `SetCellProperties(nextCell, true, false)`. */
    method Carve(link: Pos, nextCell: Pos)
      requires Mirrors(grid, carved, pending) && InGrid(grid, link) && InGrid(grid, nextCell)
      requires link != nextCell && link !in pending
      modifies this, grid
      ensures grid == old(grid) && order == old(order) + [link, nextCell]
      ensures carved == old(carved) + {link, nextCell} && pending == old(pending) + {nextCell}
      ensures Mirrors(grid, carved, pending)
    {
      grid[link.x, link.y] := Floor;
      grid[nextCell.x, nextCell.y] := Cell(true, false);
      carved, pending, order := carved + {link, nextCell}, pending + {nextCell}, order + [link, nextCell];
    }

    /** The closing branch: `open.Remove(current)` and the cell becomes a floor. */
    method FinishStep(open: seq<int>, index: int, currentCell: Pos) returns (open': seq<int>)
      requires Carving(open) && 0 <= index < |open| && currentCell == Decode(width, open[index])
      modifies this, grid
      ensures grid == old(grid) && carved == old(carved) && order == old(order) && |open'| == |open| - 1
      ensures MazeShape(width, height, carved, pending, order, open') && Mirrors(grid, carved, pending)
      ensures open' == RemoveValue(open, open[index]) && pending == old(pending) - {currentCell}
    {
      var current := open[index];
      FinishKeeps(width, height, carved, pending, order, open, index);
      open' := RemoveValue(open, current);
      Close(currentCell);
    }

    /** `SetCellProperties(currX, currY, true, true)` on a cell leaving the open list. */
    method Close(cell: Pos)
      requires Mirrors(grid, carved, pending) && InGrid(grid, cell) && cell in carved
      modifies this, grid
      ensures grid == old(grid) && carved == old(carved) && order == old(order)
      ensures pending == old(pending) - {cell} && Mirrors(grid, carved, pending)
    {
      grid[cell.x, cell.y] := Floor;
      pending := pending - {cell};
    }
  }
}
