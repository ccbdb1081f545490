/** The cells of a room's floor, in the order the generator records them:
    column by column from the left, each column from the bottom up. */
module RoomCells {
  import opened Geometry

  /** The cells (x, y0) .. (x, y1) of one column. */
  function Column(x: int, y0: int, y1: int): seq<Point>
    decreases y1 - y0 + 1
  {
    if y1 < y0 then [] else Column(x, y0, y1 - 1) + [Point(x, y1)]
  }

  /** The cells of the rectangle [x0, x1] x [y0, y1], column after column. */
  function Block(x0: int, x1: int, y0: int, y1: int): seq<Point>
    decreases x1 - x0 + 1
  {
    if x1 < x0 then [] else Block(x0, x1 - 1, y0, y1) + Column(x1, y0, y1)
  }

  predicate InRect(p: Point, x0: int, x1: int, y0: int, y1: int)
  {
    x0 <= p.x <= x1 && y0 <= p.y <= y1
  }

  /** A column holds each of its cells exactly once. */
  lemma {:induction false} ColumnShape(x: int, y0: int, y1: int)
    requires y0 <= y1 + 1
    ensures |Column(x, y0, y1)| == y1 - y0 + 1
    ensures forall i :: 0 <= i < |Column(x, y0, y1)| ==> Column(x, y0, y1)[i] == Point(x, y0 + i)
    decreases y1 - y0 + 1
  {
    if y0 <= y1 {
      ColumnShape(x, y0, y1 - 1);
    }
  }

  /** The recorded floor of a (w+1) x (h+1) room has (w+1)(h+1) entries,
      is exactly the rectangle's cells, and repeats none of them. */
  lemma {:induction false} BlockShape(x0: int, x1: int, y0: int, y1: int)
    requires x0 <= x1 + 1 && y0 <= y1 + 1
    ensures |Block(x0, x1, y0, y1)| == (x1 - x0 + 1) * (y1 - y0 + 1)
    ensures forall p :: p in Block(x0, x1, y0, y1) <==> InRect(p, x0, x1, y0, y1)
    ensures forall i, j :: 0 <= i < j < |Block(x0, x1, y0, y1)| ==> Block(x0, x1, y0, y1)[i] != Block(x0, x1, y0, y1)[j]
    decreases x1 - x0 + 1
  {
    if x0 <= x1 {
      BlockShape(x0, x1 - 1, y0, y1);
      ColumnShape(x1, y0, y1);
      var left, col := Block(x0, x1 - 1, y0, y1), Column(x1, y0, y1);
      assert Block(x0, x1, y0, y1) == left + col;
      assert (x1 - x0 + 1) * (y1 - y0 + 1) == (x1 - x0) * (y1 - y0 + 1) + (y1 - y0 + 1);
      forall p ensures p in left + col <==> InRect(p, x0, x1, y0, y1) {
        if InRect(p, x0, x1, y0, y1) && p.x == x1 {
          assert col[p.y - y0] == p;
        }
      }
      forall i, j | 0 <= i < j < |left + col| ensures (left + col)[i] != (left + col)[j] {
        if j >= |left| && i < |left| {
          assert (left + col)[i] in left;
        }
      }
    }
  }

  /** Every cell of the rectangle is recorded in its floor. */
  lemma BlockHas(x0: int, x1: int, y0: int, y1: int, p: Point)
    requires InRect(p, x0, x1, y0, y1)
    ensures p in Block(x0, x1, y0, y1)
  {
    BlockShape(x0, x1, y0, y1);
  }

  /** Every cell recorded in the floor lies in the rectangle. */
  lemma BlockWithin(x0: int, x1: int, y0: int, y1: int, p: Point)
    requires x0 <= x1 + 1 && y0 <= y1 + 1 && p in Block(x0, x1, y0, y1)
    ensures InRect(p, x0, x1, y0, y1)
  {
    BlockShape(x0, x1, y0, y1);
  }
}
