/** Grid coordinates shared by every component of the dungeon generator. */
module Geometry {

  /** An immutable grid point; value equality stands in for Point.equals/hashCode. */
  datatype Point = Point(x: int, y: int)

  function Abs(n: int): (r: nat)
    ensures r == n || r == -n
  {
    if n < 0 then -n else n
  }

  /** `a` is one of the four orthogonal neighbours of `b`. */
  predicate Adjacent4(a: Point, b: Point)
  {
    || (a.x == b.x && (a.y == b.y + 1 || a.y == b.y - 1))
    || (a.y == b.y && (a.x == b.x + 1 || a.x == b.x - 1))
  }

  /** `a` lies in the 3 x 3 block centred on `b`. */
  predicate Near(a: Point, b: Point)
  {
    a.x - 1 <= b.x <= a.x + 1 && a.y - 1 <= b.y <= a.y + 1
  }

  /** Squared Euclidean distance: ordering by it is ordering by the distance itself. */
  function Dist2(a: Point, b: Point): (d: nat)
    ensures d == 0 <==> a == b
  {
    var dx, dy := a.x - b.x, a.y - b.y;
    SquareSign(dx);
    SquareSign(dy);
    dx * dx + dy * dy
  }

  /** A square is never negative, and is zero only for zero. */
  lemma SquareSign(n: int)
    ensures n * n >= 0 && (n * n == 0 <==> n == 0)
  {
    if n > 0 {
      assert n * n >= n;
    } else if n < 0 {
      assert n * n >= -n;
    }
  }

  /** Every cell of a width x height grid. */
  function Cells(width: nat, height: nat): set<Point>
  {
    set x, y | 0 <= x < width && 0 <= y < height :: Point(x, y)
  }

  lemma InCells(width: nat, height: nat, p: Point)
    requires 0 <= p.x < width && 0 <= p.y < height
    ensures p in Cells(width, height)
  {
  }

  /** Adding a new element of `universe` to `done` leaves fewer to go. */
  lemma Shrink(universe: set<Point>, done: set<Point>, e: Point)
    requires e in universe && e !in done
    ensures |universe - (done + {e})| < |universe - done|
  {
    assert universe - (done + {e}) == (universe - done) - {e};
  }
}
