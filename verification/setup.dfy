/**
 The start of a run in the interactive driver: the coordinate lines the user
 typed go into a hash set of points, and each point becomes a live cell whose
 dead-neighbour set is filled with all eight of its neighbours, because the
 driver passes an empty set of live cells when it fills them in.
 */
module Setup {
  import opened Coordinates
  import opened Life
  import opened Engine
  import History

  /** A typed line counts as a point when it holds exactly two numbers. */
  predicate IsPoint(line: seq<int>) {
    |line| == 2
  }

  /** The point a two-number line names. */
  function PointOf(line: seq<int>): Coord
    requires IsPoint(line)
  {
    Coord(line[0], line[1])
  }

  /** The hash set of points after adding every line that holds two numbers; other lines are skipped. */
  function Points(lines: seq<seq<int>>): (points: set<Coord>)
    ensures forall c :: c in points <==> exists i :: 0 <= i < |lines| && IsPoint(lines[i]) && PointOf(lines[i]) == c
    ensures |points| <= |lines|
  {
    if |lines| == 0 then {}
    else
      var init := lines[..|lines| - 1];
      var line := lines[|lines| - 1];
      var before := Points(init);
      var added := if IsPoint(line) then {PointOf(line)} else {};
      assert forall i :: 0 <= i < |init| ==> init[i] == lines[i];
      before + added
  }

  /** Every line names a point and no two lines name the same one. */
  predicate DistinctPoints(lines: seq<seq<int>>) {
    && (forall i :: 0 <= i < |lines| ==> IsPoint(lines[i]))
    && (forall i, j :: 0 <= i < j < |lines| ==> PointOf(lines[i]) != PointOf(lines[j]))
  }

  /** The lines are distinct points when the earlier ones are and the last names a new point. */
  lemma DistinctPointsSnoc(lines: seq<seq<int>>)
    requires |lines| > 0
    ensures DistinctPoints(lines) <==>
      && DistinctPoints(lines[..|lines| - 1])
      && IsPoint(lines[|lines| - 1])
      && PointOf(lines[|lines| - 1]) !in Points(lines[..|lines| - 1])
  {
    var n := |lines|;
    var init := lines[..n - 1];
    assert forall i :: 0 <= i < |init| ==> init[i] == lines[i];
    if DistinctPoints(lines) {
      forall i | 0 <= i < |init| && IsPoint(init[i])
        ensures PointOf(init[i]) != PointOf(lines[n - 1])
      {
        assert init[i] == lines[i];
      }
    }
    if DistinctPoints(init) && IsPoint(lines[n - 1]) && PointOf(lines[n - 1]) !in Points(init) {
      forall i, j | 0 <= i < j < n
        ensures PointOf(lines[i]) != PointOf(lines[j])
      {
        if j < n - 1 {
          assert PointOf(init[i]) != PointOf(init[j]);
        } else {
          assert IsPoint(init[i]) && init[i] == lines[i];
        }
      }
    }
  }

  /**
   The hash set has one point per line exactly when every line names a point and
   no point is typed twice: a repeated point or a skipped line leaves fewer points.
   */
  lemma {:induction false} PointsCollapseRepeats(lines: seq<seq<int>>)
    ensures |Points(lines)| == |lines| <==> DistinctPoints(lines)
  {
    if |lines| > 0 {
      var init := lines[..|lines| - 1];
      var line := lines[|lines| - 1];
      PointsCollapseRepeats(init);
      DistinctPointsSnoc(lines);
      var before := Points(init);
      assert |before| <= |init|;
      if IsPoint(line) && PointOf(line) !in before {
        assert Points(lines) == before + {PointOf(line)};
      } else {
        assert Points(lines) == before;
      }
    }
  }

  /** Generation 0: every point maps to all eight of its neighbours, whichever of them are live. */
  function InitialState(points: set<Coord>): (m: State)
    ensures m.Keys == points
    ensures forall k :: k in m ==> m[k] == Neighbours(k)
    ensures Tracks(m, {})
  {
    map cell | cell in points :: ComputeNextDead(cell, {})
  }

  /**
   Generation 0 satisfies only the weak invariant: as soon as two typed points
   are adjacent, one is listed among the other's dead neighbours.
   */
  lemma InitialStateNotConsistent(points: set<Coord>, a: Coord, b: Coord)
    requires a in points && b in points && Adjacent(a, b)
    ensures !Consistent(InitialState(points))
  {
    var m := InitialState(points);
    assert b in m[a];
  }

  /** Despite the weak invariant, the first step follows the Game of Life rule. */
  lemma FirstStepFollowsLife(points: set<Coord>)
    ensures IsSuccessor(points, ComputeNextState(InitialState(points)).Keys)
    ensures ComputeNextState(InitialState(points)).Keys == Step(points)
  {
    StepFollowsLife(InitialState(points), {});
    StepIsLifeStep(InitialState(points), {});
  }

  /** The history after the driver's run: generation 0 from the typed lines, then `iterations` steps. */
  function Run(lines: seq<seq<int>>, iterations: int): (r: seq<State>)
    ensures |r| == 1 + (if iterations > 0 then iterations else 0)
    ensures r[0] == InitialState(Points(lines))
  {
    var r := History.RunIterations([InitialState(Points(lines))], iterations, ComputeNextState).value;
    assert iterations > 0 ==> r[0] == r[..1][0];
    r
  }

  /** Entry `j` of the driver's history holds the `j`-th generation of the typed points. */
  lemma RunIsGenerations(lines: seq<seq<int>>, iterations: int, j: nat)
    requires j <= iterations
    ensures j < |Run(lines, iterations)|
    ensures Run(lines, iterations)[j].Keys == Generations(Points(lines), j)
  {
    var m := InitialState(Points(lines));
    assert {} <= m.Keys && Tracks(m, {});
    assert WellFormed(m);
    RunIterationsAreGenerations([m], iterations, j);
  }
}
