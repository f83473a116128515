/** `MapSection`: a set of cells with a bounding box kept up to date as cells are added. */
module Sections {
  import opened Grid

  /** `Rectangle(x, y, width, height)`. */
  datatype Rect = Rect(x: int, y: int, width: int, height: int)

  /** A C# `int` coordinate. */
  predicate IsIntCoordinate(c: Pos) {
    -IntMaxValue - 1 <= c.x <= IntMaxValue && -IntMaxValue - 1 <= c.y <= IntMaxValue
  }

  class MapSection {
    var top: int
    var bottom: int
    var right: int
    var left: int
    var cells: set<Pos>

    /** The box encloses every cell; left and top are attained (the minima); right and bottom
        start at 0 and are attained unless still 0. */
    ghost predicate Valid()
      reads this
    {
      (cells == {} ==> top == IntMaxValue && left == IntMaxValue && right == 0 && bottom == 0) &&
      (forall c | c in cells :: IsIntCoordinate(c)) &&
      (forall c | c in cells :: left <= c.x <= right && top <= c.y <= bottom) &&
      (cells != {} ==> (exists c | c in cells :: c.x == left) && (exists c | c in cells :: c.y == top)) &&
      (right == 0 || exists c | c in cells :: c.x == right) &&
      (bottom == 0 || exists c | c in cells :: c.y == bottom) &&
      right >= 0 && bottom >= 0
    }

    /** An empty section. */
    constructor ()
      ensures Valid() && cells == {}
    {
      cells := {};
      top := IntMaxValue;
      left := IntMaxValue;
      right := 0;
      bottom := 0;
    }

    /** `Bounds`: the rectangle from (left, top) to (right, bottom), both ends included. */
    function Bounds(): (r: Rect)
      reads this
      ensures Valid() && cells != {} ==>
        r.width >= 1 && r.height >= 1 &&
        (forall c | c in cells :: r.x <= c.x < r.x + r.width && r.y <= c.y < r.y + r.height) &&
        (exists c | c in cells :: c.x == r.x) && (exists c | c in cells :: c.y == r.y)
      ensures (Valid() && cells != {} && forall c | c in cells :: c.x >= 0 && c.y >= 0) ==>
        (exists c | c in cells :: c.x == r.x + r.width - 1) &&
        (exists c | c in cells :: c.y == r.y + r.height - 1)
    {
      Rect(left, top, right - left + 1, bottom - top + 1)
    }

    /** `AddCell`: adds the cell and widens the box just enough to hold it. */
    method AddCell(cell: Pos)
      requires Valid() && IsIntCoordinate(cell)
      modifies this
      ensures Valid()
      ensures cells == old(cells) + {cell}
      ensures left == Min(old(left), cell.x) && top == Min(old(top), cell.y)
      ensures right == Max(old(right), cell.x) && bottom == Max(old(bottom), cell.y)
      ensures left <= old(left) && top <= old(top) && right >= old(right) && bottom >= old(bottom)
      ensures old(cells) != {} && old(left) <= cell.x <= old(right) && old(top) <= cell.y <= old(bottom) ==>
        Bounds() == old(Bounds())
    {
      cells := cells + {cell};
      UpdateBounds(cell);
    }

    method UpdateBounds(cell: Pos)
      modifies this
      ensures cells == old(cells)
      ensures left == Min(old(left), cell.x) && top == Min(old(top), cell.y)
      ensures right == Max(old(right), cell.x) && bottom == Max(old(bottom), cell.y)
    {
      if cell.x > right {
        right := cell.x;
      }
      if cell.x < left {
        left := cell.x;
      }
      if cell.y > bottom {
        bottom := cell.y;
      }
      if cell.y < top {
        top := cell.y;
      }
    }
  }
}
