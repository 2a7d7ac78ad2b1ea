# Conway's Game of Life engine — a Dafny model

This project models the generation step of the C# Game of Life engine:
Conway's rule (birth on exactly 3 live neighbours, survival on 2 or 3) on an
unbounded plane. The engine's board state is not a plain set of live cells.
It is a dictionary from each live cell to the set of its eight neighbours
that are not live. `ComputeNextState` builds the next state in three steps:

- **Rule 1.** It counts each live cell's live neighbours by probing the dictionary at the eight offsets.
- **Rule 2.** It counts how many dead-neighbour sets contain a cell, and adds the cell when the count is 3.
- **Refresh.** It gives every new cell its recomputed dead-neighbour set.

`RunIterations` appends one such state per iteration to the history of states.

The modules follow the program's structure:

- `Coordinates`: cells as integer pairs, the eight cardinal offsets, and adjacency.
- `Life`: the textbook rule on a set of live cells (`Life.Step`, `Life.Generations`). It is the independent reference the engines are proved against. `Life.StepTranslates` shows the rule has no preferred position; through `Engine.StepIsLifeStep` and `Board.StepIsLifeStep` the same holds of both engines' live cells.
- `Patterns`: the block and the blinker, stepped by the reference rule.
- `Engine`: the tuple engine of `GameOfLife/GameOfLife.cs`. `GameOfLife/DesignApproach.cs` lines 77-241 hold a copy of the same class, statement for statement (only `States` is private there), so `Engine` models both.
  - The central lemma is `Engine.OccurrencesCountLiveNeighbours`. Suppose every live cell maps to its neighbours outside some set `alive` of live cells. Then Rule 2's occurrence count of a cell outside `alive` is that cell's number of live neighbours, and the count of a cell inside `alive` is zero.
  - `Engine.StepIsLifeStep` concludes that the step's keys are `Life.Step` of the current keys.
  - The invariant takes two forms. The strict one (`Consistent`, `alive` = all keys) is what every step produces. The weak one (`alive` = {}) is what the interactive driver builds as generation 0.
- `History`: the list of states and the appending loop, generic in the step so that both engines share it. Taking the last state of an empty history throws, as `States.Last()` does.
- `Setup`: the driver of `GameOfLife/DesignApproach.cs`.
  - Typed coordinate lines become a hash set of points, so repeats collapse.
  - Every point becomes a live cell mapped to all eight neighbours.
  - The run of that generation 0 yields `Life.Generations` of the typed points.
- `Points`: `GameOfLife/Point.cs`, value equality and the XOR hash. The runtime's hash of a single `long` is a parameter.
- `Board`: the engine of `GameOfLife/GameOfLifeBoard.cs` over `Point` keys. `Board.ComputeNextStateAgrees` proves that it commutes with the tuple engine under `Point(x, y)` ↦ `(x, y)`. The Game of Life theorems carry over through that lemma.
- `Exceptions`, `Sets`, `Iteration`: small shared helpers. They hold the thrown-exception result type, subset cardinality and repeated application of a function.

## Model

| member | source | states |
|---|---|---|
| Coordinates.Neighbours | GameOfLife/GameOfLife.cs:14 | The eight cardinal offsets around a cell reach exactly the cells adjacent to it: eight cells, never the cell itself |
| Coordinates.CardinalPointsDistinct | GameOfLife/GameOfLife.cs:14 | No offset is listed twice |
| Coordinates.FirstNeighboursCard | GameOfLife/GameOfLife.cs:78-86 | The first k offsets reach k distinct cells, so no neighbour is probed twice |
| Life.LiveNeighbours | GameOfLife/GameOfLife.cs:62-65 | A cell's live-neighbour count is the number of live cells among its eight neighbours, at most 8 |
| Life.StepIsSuccessor | GameOfLife/GameOfLife.cs:62-65 | The reference step keeps exactly the cells that B3/S23 keeps alive; each of them is live or adjacent to a live cell |
| Life.SuccessorIsStep | GameOfLife/GameOfLife.cs:62-65 | Any set that obeys the rule cell by cell is the reference step |
| Life.IsolatedCellDies | GameOfLife/GameOfLife.cs:64 | A lone live cell has fewer than two live neighbours and dies, and nothing is born around it |
| Life.ExtinctionIsFinal | GameOfLife/GameOfLife.cs:65 | Without live cells no cell ever has three live neighbours: an empty board stays empty in every generation |
| Life.TranslateLiveNeighbours | GameOfLife/GameOfLife.cs:62-65 | Moving a board and a cell by the same offset keeps the cell's live-neighbour count |
| Life.StepTranslates | GameOfLife/GameOfLife.cs:62-65 | The rule has no preferred position on the unbounded plane: stepping a moved board gives the moved step |
| Patterns.BlockIsStill | GameOfLife/GameOfLife.cs:62-65 | The 2x2 block is a still life: one step returns it unchanged |
| Patterns.BlinkerTurns | GameOfLife/GameOfLife.cs:62-65 | A row of three becomes the column of three through its middle cell |
| Patterns.BlinkerReturns | GameOfLife/GameOfLife.cs:62-65 | The column turns back into the row, so the blinker has period 2 |
| Engine.ComputeNextDead | GameOfLife/GameOfLife.cs:133-148 | The result is exactly the adjacent cells not in the given live set: at most 8, disjoint from it, never the cell itself |
| Engine.CountAliveAround | GameOfLife/GameOfLife.cs:78-86 | Rule 1's counter after k offsets is at most k; its exact value is the next row |
| Engine.CountAliveAroundCard | GameOfLife/GameOfLife.cs:78-86 | Rule 1's counter after k offsets is the number of distinct live cells those offsets reach |
| Engine.AliveNeighbourCount | GameOfLife/GameOfLife.cs:76-87 | Rule 1's count for a cell equals its number of live neighbours |
| Engine.CountDeadOccurrences | GameOfLife/GameOfLife.cs:154-170 | Each dead-neighbour set contributes at most one occurrence, so the count is at most the number of live cells |
| Engine.Survivors | GameOfLife/GameOfLife.cs:76-95 | Rule 1 keeps exactly the live cells with 2 or 3 live neighbours |
| Engine.Births | GameOfLife/GameOfLife.cs:99-112 | Every cell that Rule 2 adds comes from some live cell's dead-neighbour set |
| Engine.Refresh | GameOfLife/GameOfLife.cs:119-122 | Refreshing keeps the key set and leaves every key mapped to its neighbours outside the key set |
| Engine.ComputeNextState | GameOfLife/GameOfLife.cs:116-126 | The next state satisfies the dead-neighbour invariant for its own keys; an empty state steps to an empty state |
| Engine.SurvivorsKept | GameOfLife/GameOfLife.cs:76-95 | A live cell with 2 or 3 live neighbours is a key of the next state, whatever its dead-neighbour set holds |
| Engine.NothingElseEnters | GameOfLife/GameOfLife.cs:68-127 | Every key of the next state is a current key or a member of some current dead-neighbour set |
| Engine.OccurrencesCountLiveNeighbours | GameOfLife/GameOfLife.cs:154-170 | While each key maps to its neighbours outside a set `alive`, a cell's occurrence count is 0 inside `alive` and its live-neighbour count outside it |
| Engine.BirthsHaveThreeLiveNeighbours | GameOfLife/GameOfLife.cs:99-112 | Under that invariant, Rule 2 adds exactly the cells outside `alive` with three live neighbours, and finds every one of them |
| Engine.CrowdedOrLonelyCellsDie | GameOfLife/GameOfLife.cs:88-112 | Under the strict invariant, a live cell with fewer than 2 or more than 3 live neighbours is absent from the next state |
| Engine.StepFollowsLife | GameOfLife/GameOfLife.cs:68-127 | Under the invariant for any live subset, the next keys obey the Game of Life rule cell by cell |
| Engine.StepIsLifeStep | GameOfLife/GameOfLife.cs:62-67 | Under the invariant for any live subset, the next keys are the reference step of the current keys |
| Engine.StepKeepsWellFormed | GameOfLife/GameOfLife.cs:116-122 | A state that tracks some live subset steps to one that does too, and its keys move by the reference step |
| Engine.CountDeadOccurrencesBound | GameOfLife/DesignApproach.cs:224-240 | The occurrence count is at most the number of keys, and at most 8 under the invariant |
| Engine.LiveBirthsAlreadySurvive | GameOfLife/DesignApproach.cs:169-182 | A live cell that Rule 2 would add again is already a Rule 1 survivor, so the repeated add changes nothing |
| Engine.RunIterationsFollowLife | GameOfLife/GameOfLife.cs:36-43 | Every appended state satisfies the strict invariant and obeys the rule relative to the state before it |
| Engine.RunIterationsAreGenerations | GameOfLife/GameOfLife.cs:38-43 | The keys of the j-th appended state are the j-th reference generation of the last given keys |
| Engine.ExtinctionPersists | GameOfLife/GameOfLife.cs:76-112 | Once the last state is empty, every appended state is empty |
| History.RunIterations | GameOfLife/GameOfLife.cs:36-43 | With n > 0 iterations, exactly n states are appended, each the step of the one before, and earlier entries are unchanged. With n <= 0 nothing is appended. An empty history throws |
| History.RunIterationsCompose | GameOfLife/DesignApproach.cs:106-113 | Running a and then b iterations gives the same history as running a + b |
| History.FixedPointRepeats | GameOfLife/DesignApproach.cs:108-113 | A last state that the step leaves unchanged is repeated in every appended position |
| Setup.Points | GameOfLife/DesignApproach.cs:40-50 | The point set holds exactly the points of the lines with two numbers, and has no more points than lines |
| Setup.PointsCollapseRepeats | GameOfLife/DesignApproach.cs:44-47 | The set has one point per line exactly when every line names a point and no point is typed twice |
| Setup.InitialState | GameOfLife/DesignApproach.cs:59-63 | Generation 0 has the typed points as keys, and each maps to all eight of its neighbours: the weak invariant with nothing live |
| Setup.InitialStateNotConsistent | GameOfLife/DesignApproach.cs:60-63 | As soon as two typed points are adjacent, generation 0 breaks the strict invariant |
| Setup.FirstStepFollowsLife | GameOfLife/DesignApproach.cs:138-197 | Despite the weak invariant, the first step's keys are the reference step of the typed points |
| Setup.Run | GameOfLife/DesignApproach.cs:56-66 | The driver's history starts with generation 0 and holds one more entry per positive iteration |
| Setup.RunIsGenerations | GameOfLife/DesignApproach.cs:65-66 | Entry j of the driver's history holds the j-th reference generation of the typed points |
| Points.Equals | GameOfLife/Point.cs:33-36 | Equals answers true exactly for a point with the same X and Y. It answers false for null and throws for an object of another class |
| Points.GetHashCode | GameOfLife/Point.cs:28-31 | The hash XORed with X's hash gives Y's hash, and every point on the diagonal hashes to 0 |
| Points.EqualsNullIsFalse | GameOfLife/Point.cs:35 | Equals(null) is false |
| Points.EqualsReflexive | GameOfLife/Point.cs:33-36 | Every point equals itself |
| Points.EqualsSymmetric | GameOfLife/Point.cs:33-36 | p.Equals(q) and q.Equals(p) agree |
| Points.EqualPointsHashAlike | GameOfLife/Point.cs:28-36 | Equal points hash alike, whatever the hash of a `long` is |
| Points.MirrorCollides | GameOfLife/Point.cs:28-31 | Point(x, y) and Point(y, x) always hash alike, yet they are equal only on the diagonal |
| Points.EqualsThrowsOnOtherClass | GameOfLife/Point.cs:35 | As written, Equals with a non-null object of another class throws a null reference exception |
| Points.EqualsChecked | GameOfLife/Point.cs:33-36 | The corrected equality never throws and answers true exactly for an equal point |
| Points.EqualsCheckedAgrees | GameOfLife/Point.cs:33-36 | The corrected and the written equality differ only on objects of another class |
| Board.ContainsKeyIsMembership | GameOfLife/GameOfLifeBoard.cs:78-85 | Probing the dictionary with a freshly built point finds it exactly when an equal point is stored |
| Board.OffsetsAgree | GameOfLife/GameOfLifeBoard.cs:14 | Each `Point` offset lands on the cell the tuple offset reaches |
| Board.ComputeNextDead | GameOfLife/GameOfLifeBoard.cs:133-148 | The result's cells are the tuple engine's result for the corresponding cell and live set; at most 8, disjoint from the live set, never the cell |
| Board.CountAliveAround | GameOfLife/GameOfLifeBoard.cs:78-86 | Rule 1's counter over points equals the tuple counter on the corresponding cells |
| Board.AliveNeighbourCount | GameOfLife/GameOfLifeBoard.cs:76-87 | Rule 1's count for a point is its cell's number of live neighbours |
| Board.CountDeadOccurrences | GameOfLife/GameOfLifeBoard.cs:154-170 | The occurrence count is at most the number of live points |
| Board.Survivors | GameOfLife/GameOfLifeBoard.cs:76-95 | Rule 1 keeps exactly the live points whose cells have 2 or 3 live neighbours |
| Board.Births | GameOfLife/GameOfLifeBoard.cs:99-112 | Every point that Rule 2 adds comes from some live point's dead-neighbour set |
| Board.CountDeadOccurrencesAgree | GameOfLife/GameOfLifeBoard.cs:158-167 | The occurrence count of a point is the tuple engine's count of its cell |
| Board.SurvivorsAgree | GameOfLife/GameOfLifeBoard.cs:76-95 | Rule 1 keeps the points whose cells the tuple engine keeps |
| Board.BirthsAgree | GameOfLife/GameOfLifeBoard.cs:99-112 | Rule 2 adds the points whose cells the tuple engine adds |
| Board.Refresh | GameOfLife/GameOfLifeBoard.cs:119-122 | Refreshing keeps the key set and leaves every key mapped to its neighbours outside the key set |
| Board.RefreshAgrees | GameOfLife/GameOfLifeBoard.cs:116-122 | Refreshing points and refreshing their cells yield corresponding states |
| Board.ComputeNextState | GameOfLife/GameOfLifeBoard.cs:116-126 | The next state satisfies the dead-neighbour invariant for its own keys; an empty state steps to an empty state |
| Board.ComputeNextStateAgrees | GameOfLife/GameOfLifeBoard.cs:68-127 | Under `Point(x, y)` ↦ `(x, y)` the step yields the same keys and dead-neighbour sets as the tuple engine |
| Board.StepIsLifeStep | GameOfLife/GameOfLifeBoard.cs:62-67 | Under the invariant for any live subset, the next cells are the reference step of the current cells |
| Board.SurvivorsKept | GameOfLife/GameOfLifeBoard.cs:88-92 | A live point with 2 or 3 live neighbours is kept |
| Board.BirthsHaveThreeLiveNeighbours | GameOfLife/GameOfLifeBoard.cs:101-112 | Under the invariant, a point outside the live subset is added exactly when its cell has three live neighbours |
| Board.RunIterationsAreGenerations | GameOfLife/GameOfLifeBoard.cs:36-43 | The cells of the j-th appended state are the j-th reference generation of the last given cells |

## Left out

- Console input and output are not modelled: prompts, the default iteration count, printing each generation, timing and the play-again loop. They are plain I/O.
- Setup.Points takes each typed line already split into numbers. The split and the conversion through `double` to `long` are framework parsing and floating point.
- Coordinates are mathematical integers. `long` addition at the edge of its range would wrap, and that is not modelled.
- Points.GetHashCode takes the runtime's hash of a `long` as a parameter `int -> bv32`; its definition belongs to the runtime.
- Dictionary and hash set enumeration order is not modelled. States are Dafny maps and sets, and order only affects what is printed.
- `Point` has public setters. It is an immutable datatype here, and no key is ever mutated.
- `GameState` is a bare container, so it is modelled as the map type itself.
- The driver builds generation 0 by filling a dictionary after it has been wrapped in the initial state. Setup.Run takes the filled dictionary as the first history entry, which is what the shared reference gives.
- The refresh loop assigns values to existing keys while it enumerates the keys. This is modelled as a plain value replacement, which assumes the runtime lets that enumeration continue.
- `ComputeNextState` reads `States.Last()` and throws on an empty history. Here it takes the last state as its argument, and the throw is modelled where the loop calls it, in History.RunIterations.
- The `Point` board stores `Point`-keyed dictionaries into the tuple-typed `GameState`, and its driver hands tuples to `GameOfLifeBoard.ComputeNextDead`. That wiring does not type-check as shown, so only the algorithm over `Point` keys is modelled.
- Every `Point`-keyed set and map of the `Point` engine uses Dafny's structural equality. The source relies on `GetHashCode` and `Equals` at each such use: the `ContainsKey` probe of Rule 1, the `Equals` test of the occurrence count, `HashSet<Point>.Contains` in `ComputeNextDead`, the `TryAdd` keys of Rules 1 and 2, and `Keys.ToHashSet()` in the refresh. Board.ContainsKeyIsMembership shows that a hash-then-`Equals` lookup of a `Point` is structural membership, and Points.EqualPointsHashAlike shows the hash is consistent with `Equals`; the same argument covers every one of these uses.

## Findings

| source | as written | input that shows it | evidently intended | confidence | as-written member | corrected member |
|---|---|---|---|---|---|---|
| GameOfLife/Point.cs:35 | `(obj as Point)!.X` yields null for a non-null object of another class, and reading `X` throws a null reference exception | `new Point(0, 0).Equals("a")` | `Equals` answers false for any object that is not an equal `Point`, as the `object.Equals` contract requires | medium, not executed | Points.EqualsThrowsOnOtherClass | Points.EqualsChecked |
