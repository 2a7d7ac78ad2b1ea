/**
 The textbook rule of Conway's Game of Life (B3/S23) on a finite set of live
 cells, stated by counting adjacent live cells. It does not use the engine's
 dead-neighbour bookkeeping and serves as the reference the engine is proved
 against.
 */
module Life {
  import opened Coordinates
  import Sets
  import Iteration

  /** How many live cells are adjacent to `c`. */
  function LiveNeighbours(alive: set<Coord>, c: Coord): (n: nat)
    ensures n == |Neighbours(c) * alive|
    ensures n <= 8
  {
    var s := set k | k in alive && Adjacent(k, c);
    assert s == Neighbours(c) * alive;
    Sets.SubsetCard(s, Neighbours(c));
    |s|
  }

  /** Birth on exactly 3 live neighbours, survival on 2 or 3. */
  predicate AliveNext(alive: set<Coord>, c: Coord) {
    var n := LiveNeighbours(alive, c);
    if c in alive then n == 2 || n == 3 else n == 3
  }

  /** `next` is exactly the generation that follows `alive`. */
  ghost predicate IsSuccessor(alive: set<Coord>, next: set<Coord>) {
    forall c :: c in next <==> AliveNext(alive, c)
  }

  /** The next generation: the candidates that the rule keeps alive. */
  function Step(alive: set<Coord>): set<Coord> {
    set c | c in Candidates(alive) && AliveNext(alive, c)
  }

  /** The live cells and every cell adjacent to one; no other cell can be alive next. */
  function Candidates(alive: set<Coord>): set<Coord> {
    set k, c | k in alive && c in Neighbours(k) + {k} :: c
  }

  /** `Step` computes exactly the next generation. */
  lemma StepIsSuccessor(alive: set<Coord>)
    ensures IsSuccessor(alive, Step(alive))
  {
    forall c | AliveNext(alive, c)
      ensures c in Candidates(alive)
    {
      if c in alive {
        assert c in Neighbours(c) + {c};
      } else {
        var live := Neighbours(c) * alive;
        assert |live| == 3;
        var k :| k in live;
        assert Adjacent(k, c);
        assert c in Neighbours(k) + {k};
      }
    }
  }

  /** A generation is determined by its predecessor. */
  lemma SuccessorUnique(alive: set<Coord>, next1: set<Coord>, next2: set<Coord>)
    requires IsSuccessor(alive, next1) && IsSuccessor(alive, next2)
    ensures next1 == next2
  {
  }

  /** Whatever is a successor of `alive` is what `Step` computes. */
  lemma SuccessorIsStep(alive: set<Coord>, next: set<Coord>)
    requires IsSuccessor(alive, next)
    ensures next == Step(alive)
  {
    StepIsSuccessor(alive);
    SuccessorUnique(alive, next, Step(alive));
  }

  /** Every cell of `s` moved by the offset `d`. */
  function Translate(s: set<Coord>, d: Coord): (r: set<Coord>)
    ensures forall c :: c in r <==> Shift(c, Coord(-d.x, -d.y)) in s
  {
    var r := set c | c in s :: Shift(c, d);
    assert forall c :: c in r <== Shift(c, Coord(-d.x, -d.y)) in s by {
      forall c | Shift(c, Coord(-d.x, -d.y)) in s
        ensures c in r
      {
        assert Shift(Shift(c, Coord(-d.x, -d.y)), d) == c;
      }
    }
    r
  }

  /** Moving a set does not change its size. */
  lemma {:induction false} TranslateCard(s: set<Coord>, d: Coord)
    ensures |Translate(s, d)| == |s|
    decreases |s|
  {
    if s != {} {
      var c :| c in s;
      TranslateCard(s - {c}, d);
      assert Translate(s, d) == Translate(s - {c}, d) + {Shift(c, d)};
    }
  }

  /** A moved cell has as many live neighbours in the moved set as the cell had in the original. */
  lemma TranslateLiveNeighbours(s: set<Coord>, d: Coord, c: Coord)
    ensures LiveNeighbours(Translate(s, d), Shift(c, d)) == LiveNeighbours(s, c)
  {
    var live := Neighbours(c) * s;
    assert Translate(live, d) == Neighbours(Shift(c, d)) * Translate(s, d);
    TranslateCard(live, d);
  }

  /** A moved cell is live in the moved set exactly when the cell was live. */
  lemma TranslateMember(s: set<Coord>, d: Coord, c: Coord)
    ensures Shift(c, d) in Translate(s, d) <==> c in s
  {
    assert Shift(Shift(c, d), Coord(-d.x, -d.y)) == c;
  }

  /** Moving a board and its successor together keeps one the successor of the other. */
  lemma TranslateSuccessor(s: set<Coord>, next: set<Coord>, d: Coord)
    requires IsSuccessor(s, next)
    ensures IsSuccessor(Translate(s, d), Translate(next, d))
  {
    forall c
      ensures c in Translate(next, d) <==> AliveNext(Translate(s, d), c)
    {
      var c0 := Shift(c, Coord(-d.x, -d.y));
      assert Shift(c0, d) == c;
      TranslateMember(next, d, c0);
      TranslateMember(s, d, c0);
      TranslateLiveNeighbours(s, d, c0);
    }
  }

  /** The rule has no preferred position: stepping a moved board moves the stepped board. */
  lemma StepTranslates(s: set<Coord>, d: Coord)
    ensures Step(Translate(s, d)) == Translate(Step(s), d)
  {
    StepIsSuccessor(s);
    TranslateSuccessor(s, Step(s), d);
    SuccessorIsStep(Translate(s, d), Translate(Step(s), d));
  }

  /** The `n`-th generation after `alive`. */
  function Generations(alive: set<Coord>, n: nat): set<Coord> {
    Iteration.Iterate(Step, alive, n)
  }

  /** A lone cell has no live neighbour and dies; nothing is born around it. */
  lemma IsolatedCellDies(c: Coord)
    ensures Step({c}) == {}
  {
    var next := Step({c});
    forall p | p in next
      ensures false
    {
      Sets.SubsetCard(Neighbours(p) * {c}, {c});
    }
  }

  /** Nothing is born on an empty board. */
  lemma EmptyIsStable(alive: set<Coord>)
    requires alive == {}
    ensures Step(alive) == {}
  {
  }

  /** The empty board stays empty for ever. */
  lemma ExtinctionIsFinal(n: nat)
    ensures Generations({}, n) == {}
  {
    EmptyIsStable({});
    Iteration.IterateFixedPoint(Step, {}, n);
  }
}
