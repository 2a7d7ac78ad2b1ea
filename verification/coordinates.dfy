/**
 The cells of the unbounded plane and their eight-cell neighbourhoods.

 A cell is the pair `(Item1, Item2)` of two `long`s in the source; here both
 components are mathematical integers, so offsetting a cell never wraps.
 */
module Coordinates {

  /** One cell of the plane. Equality is structural, as for a value tuple. */
  datatype Coord = Coord(x: int, y: int)

  /** The cell reached from `c` by the offset `d`. */
  function Shift(c: Coord, d: Coord): Coord {
    Coord(c.x + d.x, c.y + d.y)
  }

  /** The eight offsets around a cell, in the order the engine visits them. */
  const CardinalPoints: seq<Coord> :=
    [Coord(-1, -1), Coord(-1, 0), Coord(-1, 1), Coord(0, 1),
     Coord(1, 1), Coord(1, 0), Coord(1, -1), Coord(0, -1)]

  /** Textbook Moore adjacency: two distinct cells at Chebyshev distance 1. */
  predicate Adjacent(a: Coord, b: Coord) {
    a != b && -1 <= a.x - b.x <= 1 && -1 <= a.y - b.y <= 1
  }

  /** No offset is listed twice. */
  lemma CardinalPointsDistinct()
    ensures forall i, j | 0 <= i < j < |CardinalPoints| :: CardinalPoints[i] != CardinalPoints[j]
  {
    forall i, j | 0 <= i < j < |CardinalPoints|
      ensures CardinalPoints[i] != CardinalPoints[j]
    {
      var a, b := CardinalPoints[i], CardinalPoints[j];
      assert 3 * a.x + a.y != 3 * b.x + b.y by {
        assert i == 0 || i == 1 || i == 2 || i == 3 || i == 4 || i == 5 || i == 6;
      }
    }
  }

  /** The cells reached from `c` by the first `k` cardinal points. */
  function FirstNeighbours(c: Coord, k: nat): set<Coord>
    requires k <= |CardinalPoints|
  {
    set i | 0 <= i < k :: Shift(c, CardinalPoints[i])
  }

  /** Each further cardinal point reaches a cell not reached before. */
  lemma FirstNeighboursGrow(c: Coord, k: nat)
    requires 0 < k <= |CardinalPoints|
    ensures FirstNeighbours(c, k) == FirstNeighbours(c, k - 1) + {Shift(c, CardinalPoints[k - 1])}
    ensures Shift(c, CardinalPoints[k - 1]) !in FirstNeighbours(c, k - 1)
  {
    CardinalPointsDistinct();
    var p := Shift(c, CardinalPoints[k - 1]);
    forall i | 0 <= i < k - 1
      ensures Shift(c, CardinalPoints[i]) != p
    {
      assert CardinalPoints[i] != CardinalPoints[k - 1];
    }
  }

  /** The cardinal points are pairwise distinct, so the first `k` of them reach `k` cells. */
  lemma {:induction false} FirstNeighboursCard(c: Coord, k: nat)
    requires k <= |CardinalPoints|
    ensures |FirstNeighbours(c, k)| == k
  {
    if k > 0 {
      FirstNeighboursCard(c, k - 1);
      FirstNeighboursGrow(c, k);
    }
  }

  /** The eight cells the engine visits around `c`: exactly the cells adjacent to `c`. */
  function Neighbours(c: Coord): (r: set<Coord>)
    ensures forall p :: p in r <==> Adjacent(c, p)
    ensures |r| == 8
    ensures c !in r
  {
    FirstNeighboursCard(c, 8);
    var r := FirstNeighbours(c, 8);
    forall p | Adjacent(c, p)
      ensures p in r
    {
      var d := Coord(p.x - c.x, p.y - c.y);
      assert d in CardinalPoints;
      var i :| 0 <= i < 8 && CardinalPoints[i] == d;
      assert Shift(c, CardinalPoints[i]) == p;
    }
    r
  }
}
