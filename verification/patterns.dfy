/** Small boards whose evolution under the rule is known: a still life and an oscillator. */
module Patterns {
  import opened Coordinates
  import opened Life

  /** Adding a cell that was not live adds one to the count of each cell it is adjacent to. */
  lemma LiveNeighboursAdd(s: set<Coord>, p: Coord, c: Coord)
    requires p !in s
    ensures LiveNeighbours(s + {p}, c) == LiveNeighbours(s, c) + (if Adjacent(p, c) then 1 else 0)
  {
    if Adjacent(p, c) {
      assert Neighbours(c) * (s + {p}) == Neighbours(c) * s + {p};
    } else {
      assert Neighbours(c) * (s + {p}) == Neighbours(c) * s;
    }
  }

  /** The live-neighbour count against three distinct live cells. */
  lemma CountThree(a: Coord, b: Coord, e: Coord, c: Coord)
    requires a != b && a != e && b != e
    ensures LiveNeighbours({a, b, e}, c)
         == (if Adjacent(a, c) then 1 else 0) + (if Adjacent(b, c) then 1 else 0) + (if Adjacent(e, c) then 1 else 0)
  {
    assert LiveNeighbours({}, c) == 0;
    LiveNeighboursAdd({}, a, c);
    LiveNeighboursAdd({a}, b, c);
    LiveNeighboursAdd({a, b}, e, c);
    assert {a, b} + {e} == {a, b, e};
  }

  /** The live-neighbour count against four distinct live cells. */
  lemma CountFour(a: Coord, b: Coord, e: Coord, f: Coord, c: Coord)
    requires a != b && a != e && a != f && b != e && b != f && e != f
    ensures LiveNeighbours({a, b, e, f}, c)
         == (if Adjacent(a, c) then 1 else 0) + (if Adjacent(b, c) then 1 else 0)
          + (if Adjacent(e, c) then 1 else 0) + (if Adjacent(f, c) then 1 else 0)
  {
    CountThree(a, b, e, c);
    LiveNeighboursAdd({a, b, e}, f, c);
    assert {a, b, e} + {f} == {a, b, e, f};
  }

  /** The 2x2 block is a still life: every cell keeps three live neighbours and no cell outside gets three. */
  lemma BlockIsStill()
    ensures Step({Coord(0, 0), Coord(1, 0), Coord(0, 1), Coord(1, 1)}) == {Coord(0, 0), Coord(1, 0), Coord(0, 1), Coord(1, 1)}
  {
    var block := {Coord(0, 0), Coord(1, 0), Coord(0, 1), Coord(1, 1)};
    forall c
      ensures c in block <==> AliveNext(block, c)
    {
      CountFour(Coord(0, 0), Coord(1, 0), Coord(0, 1), Coord(1, 1), c);
    }
    SuccessorIsStep(block, block);
  }

  /** A horizontal row of three becomes a vertical column of three about its middle cell. */
  lemma BlinkerTurns()
    ensures Step({Coord(0, 0), Coord(1, 0), Coord(2, 0)}) == {Coord(1, -1), Coord(1, 0), Coord(1, 1)}
  {
    var row := {Coord(0, 0), Coord(1, 0), Coord(2, 0)};
    var column := {Coord(1, -1), Coord(1, 0), Coord(1, 1)};
    forall c
      ensures c in column <==> AliveNext(row, c)
    {
      CountThree(Coord(0, 0), Coord(1, 0), Coord(2, 0), c);
    }
    SuccessorIsStep(row, column);
  }

  /** The column turns back into the row: the blinker has period 2. */
  lemma BlinkerReturns()
    ensures Step({Coord(1, -1), Coord(1, 0), Coord(1, 1)}) == {Coord(0, 0), Coord(1, 0), Coord(2, 0)}
  {
    var row := {Coord(0, 0), Coord(1, 0), Coord(2, 0)};
    var column := {Coord(1, -1), Coord(1, 0), Coord(1, 1)};
    forall c
      ensures c in row <==> AliveNext(column, c)
    {
      CountThree(Coord(1, -1), Coord(1, 0), Coord(1, 1), c);
    }
    SuccessorIsStep(column, row);
  }
}
