/**
 The engine over `Point` keys. It repeats the tuple engine's step, with
 structural `Point` equality where the tuple engine compares tuples. The
 conversion `ToCoord` maps `Point(x, y)` to the cell `(x, y)`; the lemmas here
 show the step commutes with it, so every result about the tuple engine
 carries over.
 */
module Board {
  import opened Coordinates
  import opened Points
  import opened Exceptions
  import Life
  import Engine
  import History
  import Sets

  /** Each live point mapped to its neighbouring points that are not live. */
  type BoardState = map<Point, set<Point>>

  function ToCoord(p: Point): Coord {
    Coord(p.X, p.Y)
  }

  function FromCoord(c: Coord): Point {
    Point(c.x, c.y)
  }

  /** The cells of a set of points. */
  function Lower(s: set<Point>): (r: set<Coord>)
    ensures forall c :: c in r <==> FromCoord(c) in s
  {
    set p | p in s :: ToCoord(p)
  }

  /** Conversion is a bijection, so a set of points has as many cells as points. */
  lemma {:induction false} LowerCard(s: set<Point>)
    ensures |Lower(s)| == |s|
    decreases |s|
  {
    if s != {} {
      var p :| p in s;
      LowerCard(s - {p});
      assert Lower(s) == Lower(s - {p}) + {ToCoord(p)};
    }
  }

  /** The tuple state with the same live cells and dead-neighbour sets. */
  function LowerState(m: BoardState): (r: Engine.State)
    ensures r.Keys == Lower(m.Keys)
    ensures forall p :: p in m ==> r[ToCoord(p)] == Lower(m[p])
  {
    map c | c in Lower(m.Keys) :: Lower(m[FromCoord(c)])
  }

  /** A dictionary probe: some stored key with the probe's hash that `Equals` the probe. */
  ghost predicate ContainsKey(keys: set<Point>, probe: Point, longHash: int -> bv32) {
    exists k :: k in keys && GetHashCode(k, longHash) == GetHashCode(probe, longHash)
      && Equals(k, PointObject(probe)) == Success(true)
  }

  /**
   A freshly built point is found exactly when an equal point is stored, because
   equal points hash alike: the probe is set membership under structural equality.
   */
  lemma ContainsKeyIsMembership(keys: set<Point>, probe: Point, longHash: int -> bv32)
    ensures ContainsKey(keys, probe, longHash) <==> probe in keys
  {
  }

  /** The eight offsets, in the order the engine visits them. */
  const BoardCardinalPoints: seq<Point> :=
    [Point(-1, -1), Point(-1, 0), Point(-1, 1), Point(0, 1),
     Point(1, 1), Point(1, 0), Point(1, -1), Point(0, -1)]

  function Offset(cell: Point, d: Point): Point {
    Point(cell.X + d.X, cell.Y + d.Y)
  }

  /** Each offset point is the tuple engine's offset. */
  lemma OffsetsAgree(cell: Point, i: nat)
    requires i < |BoardCardinalPoints|
    ensures ToCoord(Offset(cell, BoardCardinalPoints[i])) == Shift(ToCoord(cell), CardinalPoints[i])
  {
  }

  /** The neighbouring points of `cell` that are not in `alive`. */
  function ComputeNextDead(cell: Point, alive: set<Point>): (r: set<Point>)
    ensures Lower(r) == Engine.ComputeNextDead(ToCoord(cell), Lower(alive))
    ensures |r| <= 8
    ensures cell !in r && r !! alive
  {
    var r := set i | 0 <= i < |BoardCardinalPoints| && Offset(cell, BoardCardinalPoints[i]) !in alive
                   :: Offset(cell, BoardCardinalPoints[i]);
    forall i | 0 <= i < |BoardCardinalPoints|
      ensures ToCoord(Offset(cell, BoardCardinalPoints[i])) == Shift(ToCoord(cell), CardinalPoints[i])
    {
      OffsetsAgree(cell, i);
    }
    LowerCard(r);
    r
  }

  /** Rule 1's counter after the first `k` offsets: how many landed on a live point. */
  function CountAliveAround(cell: Point, alive: set<Point>, k: nat): (n: nat)
    requires k <= |BoardCardinalPoints|
    ensures n == Engine.CountAliveAround(ToCoord(cell), Lower(alive), k)
  {
    if k == 0 then 0
    else
      OffsetsAgree(cell, k - 1);
      CountAliveAround(cell, alive, k - 1) + (if Offset(cell, BoardCardinalPoints[k - 1]) in alive then 1 else 0)
  }

  /** Rule 1's full count: the number of live neighbours of `cell`. */
  function AliveNeighbourCount(cell: Point, alive: set<Point>): (n: nat)
    ensures n == Life.LiveNeighbours(Lower(alive), ToCoord(cell))
  {
    Engine.CountAliveAroundCard(ToCoord(cell), Lower(alive), |CardinalPoints|);
    CountAliveAround(cell, alive, |BoardCardinalPoints|)
  }

  /** Rule 1: the live points whose live-neighbour count is 2 or 3. */
  function Survivors(m: BoardState): (r: set<Point>)
    ensures forall p :: p in r <==> p in m && var n := Life.LiveNeighbours(Lower(m.Keys), ToCoord(p)); n == 2 || n == 3
  {
    set cell | cell in m && var n := AliveNeighbourCount(cell, m.Keys); n == 2 || n == 3
  }

  /** How many dead-neighbour sets of `m` hold a point `Equals` to `cell`. */
  function CountDeadOccurrences(m: BoardState, cell: Point): (n: nat)
    ensures n <= |m|
  {
    var lists := set k | k in m && cell in m[k];
    Sets.SubsetCard(lists, m.Keys);
    |lists|
  }

  /** Rule 2: the points of the dead-neighbour sets that occur in exactly three of them. */
  function Births(m: BoardState): (r: set<Point>)
    ensures forall p :: p in r ==> exists k :: k in m && p in m[k]
  {
    set k, cell | k in m && cell in m[k] && CountDeadOccurrences(m, cell) == 3 :: cell
  }

  /** `m` records, for every live point, its neighbours outside `alive`. */
  predicate Tracks(m: BoardState, alive: set<Point>) {
    forall k :: k in m ==> m[k] == ComputeNextDead(k, alive)
  }

  predicate Consistent(m: BoardState) {
    Tracks(m, m.Keys)
  }

  /** The state that follows `m`: survivors and births, each with its refreshed dead-neighbour set. */
  function ComputeNextState(m: BoardState): (r: BoardState)
    ensures Consistent(r)
    ensures m == map[] ==> r == map[]
  {
    Refresh(Survivors(m) + Births(m))
  }

  /** Every point of `alive` with its dead-neighbour set recomputed against `alive`. */
  function Refresh(alive: set<Point>): (r: BoardState)
    ensures r.Keys == alive && Consistent(r)
  {
    map cell | cell in alive :: ComputeNextDead(cell, alive)
  }

  /** Tracking a set of points is tracking its cells in the tuple state. */
  lemma LowerTracks(m: BoardState, alive: set<Point>)
    requires Tracks(m, alive)
    ensures Engine.Tracks(LowerState(m), Lower(alive))
  {
  }

  lemma SurvivorsAgree(m: BoardState)
    ensures Lower(Survivors(m)) == Engine.Survivors(LowerState(m))
  {
  }

  /** Rule 2's count is the tuple engine's count on the corresponding cell. */
  lemma CountDeadOccurrencesAgree(m: BoardState, cell: Point)
    ensures CountDeadOccurrences(m, cell) == Engine.CountDeadOccurrences(LowerState(m), ToCoord(cell))
  {
    var lists := set k | k in m && cell in m[k];
    var lm := LowerState(m);
    assert Lower(lists) == set k | k in lm && ToCoord(cell) in lm[k];
    LowerCard(lists);
  }

  lemma BirthsAgree(m: BoardState)
    ensures Lower(Births(m)) == Engine.Births(LowerState(m))
  {
    var lm := LowerState(m);
    forall c
      ensures c in Lower(Births(m)) <==> c in Engine.Births(lm)
    {
      CountDeadOccurrencesAgree(m, FromCoord(c));
    }
  }

  /** Under `Point(x, y)` to `(x, y)`, the step yields the tuple engine's keys and dead-neighbour sets. */
  lemma ComputeNextStateAgrees(m: BoardState)
    ensures LowerState(ComputeNextState(m)) == Engine.ComputeNextState(LowerState(m))
  {
    var next := Survivors(m) + Births(m);
    SurvivorsAgree(m);
    BirthsAgree(m);
    assert Lower(next) == Engine.Survivors(LowerState(m)) + Engine.Births(LowerState(m));
    RefreshAgrees(next);
  }

  /** Refreshing points and refreshing their cells give corresponding states. */
  lemma RefreshAgrees(alive: set<Point>)
    ensures LowerState(Refresh(alive)) == Engine.Refresh(Lower(alive))
  {
  }

  /**
   While every live point maps to its neighbours outside some `alive` within the
   live points, the step keeps exactly the cells the Game of Life rule keeps.
   */
  lemma StepIsLifeStep(m: BoardState, alive: set<Point>)
    requires alive <= m.Keys && Tracks(m, alive)
    ensures Lower(ComputeNextState(m).Keys) == Life.Step(Lower(m.Keys))
  {
    LowerTracks(m, alive);
    ComputeNextStateAgrees(m);
    Engine.StepIsLifeStep(LowerState(m), Lower(alive));
  }

  /** A live point with 2 or 3 live neighbours is live in the next state. */
  lemma SurvivorsKept(m: BoardState, p: Point)
    requires p in m && (AliveNeighbourCount(p, m.Keys) == 2 || AliveNeighbourCount(p, m.Keys) == 3)
    ensures p in ComputeNextState(m)
  {
  }

  /** Under the invariant, a dead point is born exactly when it has three live neighbours. */
  lemma BirthsHaveThreeLiveNeighbours(m: BoardState, alive: set<Point>, p: Point)
    requires Tracks(m, alive)
    ensures p in Births(m) <==> p !in alive && Life.LiveNeighbours(Lower(m.Keys), ToCoord(p)) == 3
  {
    LowerTracks(m, alive);
    BirthsAgree(m);
    Engine.BirthsHaveThreeLiveNeighbours(LowerState(m), Lower(alive), ToCoord(p));
  }

  /** `m` tracks, for every live point, its neighbours outside some set of live points. */
  ghost predicate WellFormed(m: BoardState) {
    exists alive :: alive <= m.Keys && Tracks(m, alive)
  }

  lemma StepKeepsWellFormed(m: BoardState)
    requires WellFormed(m)
    ensures WellFormed(ComputeNextState(m))
    ensures Lower(ComputeNextState(m).Keys) == Life.Step(Lower(m.Keys))
  {
    var alive :| alive <= m.Keys && Tracks(m, alive);
    StepIsLifeStep(m, alive);
    var r := ComputeNextState(m);
    assert r.Keys <= r.Keys && Tracks(r, r.Keys);
  }

  /** The cells of the `j`-th appended state are the `j`-th generation of the last given state's cells. */
  lemma RunIterationsAreGenerations(states: seq<BoardState>, iterations: int, j: nat)
    requires |states| > 0 && j <= iterations
    requires WellFormed(states[|states| - 1])
    ensures History.RunIterations(states, iterations, ComputeNextState).Success?
    ensures Lower(History.RunIterations(states, iterations, ComputeNextState).value[|states| - 1 + j].Keys)
         == Life.Generations(Lower(states[|states| - 1].Keys), j)
  {
    forall m | WellFormed(m)
      ensures WellFormed(ComputeNextState(m)) && Lower(ComputeNextState(m).Keys) == Life.Step(Lower(m.Keys))
    {
      StepKeepsWellFormed(m);
    }
    History.RunIterationsView(states, iterations, ComputeNextState, (m: BoardState) => Lower(m.Keys),
                              Life.Step, WellFormed, j);
  }
}
