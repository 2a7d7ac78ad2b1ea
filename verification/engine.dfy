/**
 The generation step of the tuple engine: a board state maps every live cell
 to the set of its neighbours that are not live, and the next state is built
 by Rule 1 (survival), Rule 2 (birth, by counting occurrences across the
 dead-neighbour sets) and a refresh of every new cell's dead-neighbour set.
 */
module Engine {
  import opened Coordinates
  import opened Life
  import Sets
  import History

  /** Each live cell mapped to its neighbours that are not live. */
  type State = map<Coord, set<Coord>>

  /** The neighbours of `cell` that are not in `alive`, visiting the eight cardinal points. */
  function ComputeNextDead(cell: Coord, alive: set<Coord>): (r: set<Coord>)
    ensures forall p :: p in r <==> Adjacent(cell, p) && p !in alive
    ensures |r| <= 8
    ensures cell !in r && r !! alive
  {
    var r := set i | 0 <= i < |CardinalPoints| && Shift(cell, CardinalPoints[i]) !in alive
                   :: Shift(cell, CardinalPoints[i]);
    assert r == Neighbours(cell) - alive;
    Sets.SubsetCard(r, Neighbours(cell));
    r
  }

  /** Rule 1's counter after the first `k` cardinal points: how many landed on a live cell. */
  function CountAliveAround(cell: Coord, alive: set<Coord>, k: nat): (n: nat)
    requires k <= |CardinalPoints|
    ensures n <= k
  {
    if k == 0 then 0
    else CountAliveAround(cell, alive, k - 1) + (if Shift(cell, CardinalPoints[k - 1]) in alive then 1 else 0)
  }

  /** The counter counts distinct cells, because no two cardinal points reach the same cell. */
  lemma {:induction false} CountAliveAroundCard(cell: Coord, alive: set<Coord>, k: nat)
    requires k <= |CardinalPoints|
    ensures CountAliveAround(cell, alive, k) == |FirstNeighbours(cell, k) * alive|
  {
    if k > 0 {
      CountAliveAroundCard(cell, alive, k - 1);
      FirstNeighboursGrow(cell, k);
      AddOneCell(FirstNeighbours(cell, k), FirstNeighbours(cell, k - 1), Shift(cell, CardinalPoints[k - 1]), alive);
    }
  }

  /** Adding one new cell to a set adds one live cell exactly when the new cell is live. */
  lemma AddOneCell(after: set<Coord>, before: set<Coord>, p: Coord, alive: set<Coord>)
    requires after == before + {p} && p !in before
    ensures |after * alive| == |before * alive| + (if p in alive then 1 else 0)
  {
    if p in alive {
      assert after * alive == before * alive + {p};
    } else {
      assert after * alive == before * alive;
    }
  }

  /** Rule 1's full count: the number of live neighbours of `cell`. */
  function AliveNeighbourCount(cell: Coord, alive: set<Coord>): (n: nat)
    ensures n == LiveNeighbours(alive, cell)
  {
    CountAliveAroundCard(cell, alive, |CardinalPoints|);
    CountAliveAround(cell, alive, |CardinalPoints|)
  }

  /** Rule 1: the live cells whose live-neighbour count is 2 or 3. */
  function Survivors(m: State): (r: set<Coord>)
    ensures forall c :: c in r <==> c in m && (LiveNeighbours(m.Keys, c) == 2 || LiveNeighbours(m.Keys, c) == 3)
  {
    set cell | cell in m && var n := AliveNeighbourCount(cell, m.Keys); n == 2 || n == 3
  }

  /** How many dead-neighbour sets of `m` contain `cell`. */
  function CountDeadOccurrences(m: State, cell: Coord): (n: nat)
    ensures n <= |m|
  {
    var lists := set k | k in m && cell in m[k];
    Sets.SubsetCard(lists, m.Keys);
    |lists|
  }

  /** Rule 2: the cells of the dead-neighbour sets that occur in exactly three of them. */
  function Births(m: State): (r: set<Coord>)
    ensures forall c :: c in r ==> exists k :: k in m && c in m[k]
  {
    set k, cell | k in m && cell in m[k] && CountDeadOccurrences(m, cell) == 3 :: cell
  }

  /** `m` records, for every live cell, its neighbours outside `alive`. */
  predicate Tracks(m: State, alive: set<Coord>) {
    forall k :: k in m ==> m[k] == ComputeNextDead(k, alive)
  }

  /** The dead-neighbour invariant: every live cell maps to its neighbours that are not live. */
  predicate Consistent(m: State) {
    Tracks(m, m.Keys)
  }

  /** The state that follows `m`: survivors and births, each with its refreshed dead-neighbour set. */
  function ComputeNextState(m: State): (r: State)
    ensures Consistent(r)
    ensures m == map[] ==> r == map[]
  {
    Refresh(Survivors(m) + Births(m))
  }

  /** Every cell of `alive` with its dead-neighbour set recomputed against `alive`. */
  function Refresh(alive: set<Coord>): (r: State)
    ensures r.Keys == alive && Consistent(r)
  {
    map cell | cell in alive :: ComputeNextDead(cell, alive)
  }

  /** A live cell with 2 or 3 live neighbours is live in the next state, whatever `m` maps it to. */
  lemma SurvivorsKept(m: State, c: Coord)
    requires c in m && (LiveNeighbours(m.Keys, c) == 2 || LiveNeighbours(m.Keys, c) == 3)
    ensures c in ComputeNextState(m)
  {
  }

  /** Nothing else enters: a next-state cell is a current cell or one of a dead-neighbour set. */
  lemma NothingElseEnters(m: State, c: Coord)
    requires c in ComputeNextState(m)
    ensures c in m || exists k :: k in m && c in m[k]
  {
  }

  /**
   Rule 2's count is the live-neighbour count of a cell outside `alive`,
   and zero for a cell in `alive`, which no dead-neighbour set contains.
   */
  lemma OccurrencesCountLiveNeighbours(m: State, alive: set<Coord>, c: Coord)
    requires Tracks(m, alive)
    ensures CountDeadOccurrences(m, c) == if c in alive then 0 else LiveNeighbours(m.Keys, c)
  {
    var lists := set k | k in m && c in m[k];
    if c in alive {
      assert lists == {};
    } else {
      assert lists == Neighbours(c) * m.Keys;
    }
  }

  /**
   Rule 2 finds exactly the cells outside `alive` with three live neighbours:
   each such cell lies in the dead-neighbour set of some live neighbour.
   */
  lemma BirthsHaveThreeLiveNeighbours(m: State, alive: set<Coord>, c: Coord)
    requires Tracks(m, alive)
    ensures c in Births(m) <==> c !in alive && LiveNeighbours(m.Keys, c) == 3
  {
    OccurrencesCountLiveNeighbours(m, alive, c);
    if c !in alive && LiveNeighbours(m.Keys, c) == 3 {
      var live := Neighbours(c) * m.Keys;
      var k :| k in live;
      assert c in m[k];
    }
  }

  /** A live cell that Rule 2 adds again is already a Rule 1 survivor. */
  lemma LiveBirthsAlreadySurvive(m: State, alive: set<Coord>, c: Coord)
    requires Tracks(m, alive)
    requires c in m && c in Births(m)
    ensures c in Survivors(m)
  {
    BirthsHaveThreeLiveNeighbours(m, alive, c);
  }

  /**
   While every live cell maps to its neighbours outside some `alive` within the
   live cells, the step keeps exactly the cells the Game of Life rule keeps.
   */
  lemma StepFollowsLife(m: State, alive: set<Coord>)
    requires alive <= m.Keys && Tracks(m, alive)
    ensures IsSuccessor(m.Keys, ComputeNextState(m).Keys)
  {
    forall c
      ensures c in ComputeNextState(m) <==> AliveNext(m.Keys, c)
    {
      BirthsHaveThreeLiveNeighbours(m, alive, c);
    }
  }

  /** The step agrees with the reference rule `Life.Step`. */
  lemma StepIsLifeStep(m: State, alive: set<Coord>)
    requires alive <= m.Keys && Tracks(m, alive)
    ensures ComputeNextState(m).Keys == Step(m.Keys)
  {
    StepFollowsLife(m, alive);
    StepIsSuccessor(m.Keys);
    SuccessorUnique(m.Keys, ComputeNextState(m).Keys, Step(m.Keys));
  }

  /** A live cell with fewer than 2 or more than 3 live neighbours is gone in the next state. */
  lemma CrowdedOrLonelyCellsDie(m: State, c: Coord)
    requires Consistent(m)
    requires c in m && (LiveNeighbours(m.Keys, c) < 2 || LiveNeighbours(m.Keys, c) > 3)
    ensures c !in ComputeNextState(m)
  {
    StepFollowsLife(m, m.Keys);
  }

  /** Rule 2's count never exceeds the number of live cells, nor 8 while `m` tracks some set. */
  lemma CountDeadOccurrencesBound(m: State, alive: set<Coord>, c: Coord)
    requires Tracks(m, alive)
    ensures CountDeadOccurrences(m, c) <= |m|
    ensures CountDeadOccurrences(m, c) <= 8
  {
    OccurrencesCountLiveNeighbours(m, alive, c);
  }

  /**
   Every appended state keeps the dead-neighbour invariant and follows the Game
   of Life rule from the state before it, provided the last given state tracks
   its neighbours outside some set of live cells.
   */
  lemma RunIterationsFollowLife(states: seq<State>, iterations: int, alive: set<Coord>)
    requires |states| > 0 && iterations > 0
    requires alive <= states[|states| - 1].Keys && Tracks(states[|states| - 1], alive)
    ensures History.RunIterations(states, iterations, ComputeNextState).Success?
    ensures var r := History.RunIterations(states, iterations, ComputeNextState).value;
      forall i :: |states| <= i < |r| ==> Consistent(r[i]) && IsSuccessor(r[i - 1].Keys, r[i].Keys)
  {
    var r := History.RunIterations(states, iterations, ComputeNextState).value;
    forall i | |states| <= i < |r|
      ensures Consistent(r[i]) && IsSuccessor(r[i - 1].Keys, r[i].Keys)
    {
      FollowsLifeAt(states, iterations, alive, i);
    }
  }

  /** One appended state of `RunIterationsFollowLife`. */
  lemma FollowsLifeAt(states: seq<State>, iterations: int, alive: set<Coord>, i: int)
    requires |states| > 0 && |states| <= i < |states| + iterations
    requires alive <= states[|states| - 1].Keys && Tracks(states[|states| - 1], alive)
    ensures History.RunIterations(states, iterations, ComputeNextState).Success?
    ensures var r := History.RunIterations(states, iterations, ComputeNextState).value;
      Consistent(r[i]) && IsSuccessor(r[i - 1].Keys, r[i].Keys)
  {
    var r := History.RunIterations(states, iterations, ComputeNextState).value;
    assert History.SteppedAt(r, i, ComputeNextState);
    if i == |states| {
      assert r[i - 1] == r[..|states|][i - 1];
      StepFollowsLife(r[i - 1], alive);
    } else {
      assert History.SteppedAt(r, i - 1, ComputeNextState);
      StepFollowsLife(r[i - 1], r[i - 1].Keys);
    }
  }

  /** `m` tracks, for every live cell, its neighbours outside some set of live cells. */
  ghost predicate WellFormed(m: State) {
    exists alive :: alive <= m.Keys && Tracks(m, alive)
  }

  /** The step keeps states well formed and moves their live cells by `Life.Step`. */
  lemma StepKeepsWellFormed(m: State)
    requires WellFormed(m)
    ensures WellFormed(ComputeNextState(m))
    ensures ComputeNextState(m).Keys == Step(m.Keys)
  {
    var alive :| alive <= m.Keys && Tracks(m, alive);
    StepIsLifeStep(m, alive);
    var r := ComputeNextState(m);
    assert r.Keys <= r.Keys && Tracks(r, r.Keys);
  }

  /** The live cells of the `j`-th appended state are the `j`-th generation of the last given one. */
  lemma RunIterationsAreGenerations(states: seq<State>, iterations: int, j: nat)
    requires |states| > 0 && j <= iterations
    requires WellFormed(states[|states| - 1])
    ensures History.RunIterations(states, iterations, ComputeNextState).Success?
    ensures History.RunIterations(states, iterations, ComputeNextState).value[|states| - 1 + j].Keys
         == Generations(states[|states| - 1].Keys, j)
  {
    forall m | WellFormed(m)
      ensures WellFormed(ComputeNextState(m)) && ComputeNextState(m).Keys == Step(m.Keys)
    {
      StepKeepsWellFormed(m);
    }
    History.RunIterationsView(states, iterations, ComputeNextState, (m: State) => m.Keys, Step, WellFormed, j);
  }

  /** Once a state is empty, every state appended after it is empty. */
  lemma ExtinctionPersists(states: seq<State>, iterations: int)
    requires |states| > 0 && states[|states| - 1] == map[]
    ensures History.RunIterations(states, iterations, ComputeNextState).Success?
    ensures var r := History.RunIterations(states, iterations, ComputeNextState).value;
      forall i :: |states| <= i < |r| ==> r[i] == map[]
  {
    History.FixedPointRepeats(states, iterations, ComputeNextState);
  }
}
