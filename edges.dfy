/** Directed segments between two points: Chebyshev length, vertical and
    horizontal tests, the gradient with its sentinels, the orientation of three
    points, segment intersection, parallelism, and the lattice sampler that
    walks from one end to the other. */
module Edges {
  import opened Common
  import opened Points

  /** A directed edge from `origin` to `termination`. */
  datatype Edge = Edge(origin: Point, termination: Point)

  /** `_x_diff`: positive exactly when the origin lies right of the
      termination, zero exactly when the two share an x coordinate. */
  function XDiff(e: Edge): (d: int)
    ensures d > 0 <==> e.origin.x > e.termination.x
    ensures d == 0 <==> e.origin.x == e.termination.x
  {
    e.origin.x - e.termination.x
  }

  /** `_y_diff`: positive exactly when the origin lies above the
      termination, zero exactly when the two share a y coordinate. */
  function YDiff(e: Edge): (d: int)
    ensures d > 0 <==> e.origin.y > e.termination.y
    ensures d == 0 <==> e.origin.y == e.termination.y
  {
    e.origin.y - e.termination.y
  }

  function Abs(v: int): nat
  {
    if v < 0 then -v else v
  }

  /** The Chebyshev distance between the two ends: the larger of the two axis
      distances. */
  function DiagonalDistance(e: Edge): (d: nat)
    ensures d >= Abs(XDiff(e)) && d >= Abs(YDiff(e))
    ensures d == Abs(XDiff(e)) || d == Abs(YDiff(e))
  {
    var xDelta := e.origin.x - e.termination.x;
    var yDelta := e.origin.y - e.termination.y;
    Max(Abs(xDelta), Abs(yDelta))
  }

  /** The distance does not depend on the direction of the edge. */
  lemma DiagonalDistanceReversed(e: Edge)
    ensures DiagonalDistance(Edge(e.termination, e.origin)) == DiagonalDistance(e)
  {
  }

  lemma DiagonalDistanceScenarios()
    ensures DiagonalDistance(Edge(Point(1, 1), Point(3, 3))) == 2
    ensures DiagonalDistance(Edge(Point(2, 4), Point(8, 16))) == 12
  {
  }

  /** A vertical edge has no x extent: its diagonal distance is its y
      extent. */
  predicate IsVertical(e: Edge)
    ensures IsVertical(e) <==> XDiff(e) == 0
    ensures IsVertical(e) ==> DiagonalDistance(e) == Abs(YDiff(e))
  {
    e.origin.x == e.termination.x
  }

  /** A horizontal edge has no y extent: its diagonal distance is its x
      extent. */
  predicate IsHorizontal(e: Edge)
    ensures IsHorizontal(e) <==> YDiff(e) == 0
    ensures IsHorizontal(e) ==> DiagonalDistance(e) == Abs(XDiff(e))
  {
    e.origin.y == e.termination.y
  }

  /** The slope dy/dx, exact. A vertical edge (the degenerate one included,
      since that test comes first) reports 1, a horizontal one 0. */
  function Gradient(e: Edge): (g: real)
    ensures IsVertical(e) ==> g == 1.0
    ensures !IsVertical(e) && IsHorizontal(e) ==> g == 0.0
    ensures !IsVertical(e) ==> g * XDiff(e) as real == YDiff(e) as real
  {
    if IsVertical(e) then 1.0
    else if IsHorizontal(e) then 0.0
    else YDiff(e) as real / XDiff(e) as real
  }

  /** Reversing an edge negates both differences and keeps the gradient. */
  lemma GradientReversed(e: Edge)
    ensures Gradient(Edge(e.termination, e.origin)) == Gradient(e)
  {
    var r := Edge(e.termination, e.origin);
    if !IsVertical(e) && !IsHorizontal(e) {
      assert XDiff(r) as real == -(XDiff(e) as real);
      assert Gradient(r) * XDiff(e) as real == Gradient(e) * XDiff(e) as real;
    }
  }

  lemma GradientScenarios()
    ensures Gradient(Edge(Point(2, 4), Point(8, 16))) == 2.0
    ensures Gradient(Edge(Point(1, 1), Point(5, 5))) == Gradient(Edge(Point(1, 1), Point(900, 900)))
    ensures Gradient(Edge(Point(1, 1), Point(900, 900))) != Gradient(Edge(Point(1, 1), Point(900, 901)))
  {
  }

  /** The 2D cross product of the turn a -> b -> c, written with the point
      operations: the crossed product of (c - b) and (b - a), x minus y. */
  function Turn(a: Point, b: Point, c: Point): int
  {
    var m := Mul(Sub(c, b), Sub(b, a));
    m.x - m.y
  }

  /** A turn with two consecutive points equal has no area: `val` is 0. */
  lemma TurnDegenerate(a: Point, b: Point, c: Point)
    requires a == b || b == c
    ensures Turn(a, b, c) == 0
  {
  }

  /** The cross product of a turn written out in coordinates. */
  lemma TurnFormula(a: Point, b: Point, c: Point)
    ensures Turn(a, b, c) == (b.y - a.y) * (c.x - b.x) - (b.x - a.x) * (c.y - b.y)
  {
  }

  /** The orientation of three points, as the source computes it: 1 when the
      cross product exceeds 1, -1 when it is negative, and 0 otherwise. A turn
      whose cross product is exactly 1 is therefore reported as 0. */
  function Orientation(a: Point, b: Point, c: Point): (r: int)
    ensures r == 1 <==> Turn(a, b, c) > 1
    ensures r == -1 <==> Turn(a, b, c) < 0
    ensures r == 0 <==> 0 <= Turn(a, b, c) <= 1
  {
    var edge1 := Edge(b, a);
    var edge2 := Edge(c, b);
    var val := YDiff(edge1) * XDiff(edge2) - XDiff(edge1) * YDiff(edge2);
    if val > 1 then 1
    else if val < 0 then -1
    else 0
  }

  /** The orientation scenarios of the edge tests: the short diagonal
      followed by either end of the edge that crosses it. */
  lemma OrientationScenarios()
    ensures Orientation(Point(2, 4), Point(8, 16), Point(2, 16)) == -1
    ensures Orientation(Point(2, 4), Point(8, 16), Point(8, 4)) == 1
  {
  }

  /** The scenarios of the point tests, which expect an orientation on Point;
      the orientation of Edge gives the values they expect: a turn to the
      left -1, to the right 1, straight on 0. */
  lemma PointOrientationScenarios()
    ensures Orientation(Point(5, 5), Point(5, 10), Point(1, 10)) == -1
    ensures Orientation(Point(5, 5), Point(5, 10), Point(10, 10)) == 1
    ensures Orientation(Point(5, 5), Point(5, 10), Point(5, 15)) == 0
  {
  }

  /** The turn (1,1) -> (1,2) -> (2,2) has cross product 1, so its three
      points are not on one line. */
  lemma UnitTurn()
    ensures Turn(Point(1, 1), Point(1, 2), Point(2, 2)) == 1
  {
    TurnFormula(Point(1, 1), Point(1, 2), Point(2, 2));
  }

  /** Walking a triple backwards negates its cross product. */
  lemma TurnAntisymmetric(a: Point, b: Point, c: Point)
    ensures Turn(c, b, a) == -Turn(a, b, c)
  {
    TurnFormula(a, b, c);
    TurnFormula(c, b, a);
  }

  /** The threshold `val > 1` reports every turn whose cross product is 1 (such
      as the one of UnitTurn) as collinear (0), and the same triple walked
      backwards as -1, so the result is not antisymmetric there; the sign of the
      cross product reports such a turn as 1. */
  lemma OrientationUnitTurnAsWritten(a: Point, b: Point, c: Point)
    requires Turn(a, b, c) == 1
    ensures Orientation(a, b, c) == 0
    ensures Orientation(c, b, a) == -1
    ensures SignOrientation(a, b, c) == 1
  {
    TurnAntisymmetric(a, b, c);
  }

  /** The orientation with the threshold at 0: the sign of the cross product. */
  function SignOrientation(a: Point, b: Point, c: Point): (r: int)
    ensures r == 0 <==> Turn(a, b, c) == 0
    ensures r == 1 <==> Turn(a, b, c) > 0
    ensures r == -1 <==> Turn(a, b, c) < 0
  {
    var val := Turn(a, b, c);
    if val > 0 then 1
    else if val < 0 then -1
    else 0
  }

  /** Walking a triple backwards flips the sign of the corrected orientation. */
  lemma SignOrientationAntisymmetric(a: Point, b: Point, c: Point)
    ensures SignOrientation(c, b, a) == -SignOrientation(a, b, c)
  {
    TurnAntisymmetric(a, b, c);
  }

  /** The two orientations agree on every triple except those whose cross
      product is exactly 1. */
  lemma OrientationAgreesWithSign(a: Point, b: Point, c: Point)
    ensures Turn(a, b, c) != 1 ==> Orientation(a, b, c) == SignOrientation(a, b, c)
    ensures Turn(a, b, c) == 1 ==> Orientation(a, b, c) == 0 && SignOrientation(a, b, c) == 1
  {
  }

  /** Two segments intersect when each one's ends lie on different sides of
      the other, as judged by the orientation above. A degenerate edge (a
      single point) never intersects anything, nor does anything intersect
      it; and segments on one line are never reported as intersecting, even
      when they overlap: the test only sees proper crossings. */
  predicate Intersects(e: Edge, f: Edge)
    ensures Intersects(e, f) ==> e.origin != e.termination && f.origin != f.termination
    ensures Intersects(e, f) ==>
      Turn(e.origin, f.origin, f.termination) != 0 || Turn(e.termination, f.origin, f.termination) != 0
  {
    var acd := Orientation(e.origin, f.origin, f.termination);
    var bcd := Orientation(e.termination, f.origin, f.termination);
    var abc := Orientation(e.origin, e.termination, f.origin);
    var abd := Orientation(e.origin, e.termination, f.termination);
    acd != bcd && abc != abd
  }

  /** Every proper crossing is reported: when the ends of each edge lie
      strictly on opposite sides of the other, the orientations differ even
      with the `val > 1` threshold, since a cross product of 1 reads as 0 and
      its opposite side still reads as -1. The converse fails
      (DisjointEdgesIntersectAsWritten). */
  lemma ProperCrossingIntersects(e: Edge, f: Edge)
    requires SignOrientation(e.origin, f.origin, f.termination) * SignOrientation(e.termination, f.origin, f.termination) < 0
    requires SignOrientation(e.origin, e.termination, f.origin) * SignOrientation(e.origin, e.termination, f.termination) < 0
    ensures Intersects(e, f)
  {
    OrientationAgreesWithSign(e.origin, f.origin, f.termination);
    OrientationAgreesWithSign(e.termination, f.origin, f.termination);
    OrientationAgreesWithSign(e.origin, e.termination, f.origin);
    OrientationAgreesWithSign(e.origin, e.termination, f.termination);
  }

  lemma IntersectsScenarios()
    ensures Intersects(Edge(Point(1, 1), Point(5, 5)), Edge(Point(5, 1), Point(1, 5)))
    ensures !Intersects(Edge(Point(1, 1), Point(5, 5)), Edge(Point(2, 2), Point(6, 6)))
    ensures Intersects(Edge(Point(2, 4), Point(8, 16)), Edge(Point(2, 16), Point(8, 4)))
    ensures !Intersects(Edge(Point(2, 4), Point(8, 16)), Edge(Point(1, 1), Point(1, 1000)))
  {
    assert Orientation(Point(1, 1), Point(5, 1), Point(1, 5)) == -1;
    assert Orientation(Point(5, 5), Point(5, 1), Point(1, 5)) == 1;
    assert Orientation(Point(1, 1), Point(5, 5), Point(5, 1)) == 1;
    assert Orientation(Point(1, 1), Point(5, 5), Point(1, 5)) == -1;
    assert Orientation(Point(1, 1), Point(2, 2), Point(6, 6)) == 0;
    assert Orientation(Point(5, 5), Point(2, 2), Point(6, 6)) == 0;
    assert Orientation(Point(2, 4), Point(2, 16), Point(8, 4)) == 1;
    assert Orientation(Point(8, 16), Point(2, 16), Point(8, 4)) == -1;
    assert Orientation(Point(2, 4), Point(8, 16), Point(2, 16)) == -1;
    assert Orientation(Point(2, 4), Point(8, 16), Point(8, 4)) == 1;
    assert Orientation(Point(2, 4), Point(1, 1), Point(1, 1000)) == 1;
    assert Orientation(Point(8, 16), Point(1, 1), Point(1, 1000)) == 1;
  }

  /** The `val > 1` threshold makes disjoint edges cross: the vertical edge
      (1,2)-(1,1) and the horizontal edge (1,3)-(2,3) share no point, yet
      their turns 1, 2, 0 and -1 read as orientations 0, 1, 0 and -1. With
      the sign of val, both ends of the first edge turn the same way about
      the second, so the test would reject the pair. */
  lemma DisjointEdgesIntersectAsWritten()
    ensures Intersects(Edge(Point(1, 2), Point(1, 1)), Edge(Point(1, 3), Point(2, 3)))
    ensures SignOrientation(Point(1, 2), Point(1, 3), Point(2, 3)) ==
            SignOrientation(Point(1, 1), Point(1, 3), Point(2, 3))
  {
    assert Orientation(Point(1, 2), Point(1, 3), Point(2, 3)) == 0;
    assert Orientation(Point(1, 1), Point(1, 3), Point(2, 3)) == 1;
    assert Orientation(Point(1, 2), Point(1, 1), Point(1, 3)) == 0;
    assert Orientation(Point(1, 2), Point(1, 1), Point(2, 3)) == -1;
  }

  /** Parallel as the source decides it: both horizontal, both vertical, or
      equal gradients. The vertical case adds nothing, since two vertical
      edges share the sentinel gradient 1; the horizontal case does, for a
      single-point edge (gradient 1) against a horizontal one (gradient 0). */
  predicate IsParallelTo(e: Edge, f: Edge)
    ensures IsParallelTo(e, f) <==> (IsHorizontal(e) && IsHorizontal(f)) || Gradient(e) == Gradient(f)
  {
    if IsHorizontal(e) && IsHorizontal(f) then true
    else if IsVertical(e) && IsVertical(f) then true
    else Gradient(e) == Gradient(f)
  }

  lemma IsParallelToReflexive(e: Edge)
    ensures IsParallelTo(e, e)
  {
  }

  lemma ParallelScenarios()
    ensures IsParallelTo(Edge(Point(5, 5), Point(995, 995)), Edge(Point(994, 994), Point(1094, 1094)))
    ensures !IsParallelTo(Edge(Point(5, 5), Point(995, 995)), Edge(Point(994, 994), Point(1094, 1095)))
    ensures IsParallelTo(Edge(Point(1, 1), Point(1, 1000)), Edge(Point(2, 1), Point(2, 1000)))
    ensures !IsParallelTo(Edge(Point(1, 1), Point(2, 1000)), Edge(Point(2, 1), Point(2, 1000)))
  {
  }

  /** The gradient sentinel 1 of a vertical edge equals the gradient of every
      45-degree edge, so a vertical edge is reported parallel to one. */
  lemma VerticalParallelToDiagonalAsWritten()
    ensures IsParallelTo(Edge(Point(0, 0), Point(0, 5)), Edge(Point(0, 0), Point(3, 3)))
    ensures !CorrectedIsParallelTo(Edge(Point(0, 0), Point(0, 5)), Edge(Point(0, 0), Point(3, 3)))
  {
  }

  /** Parallelism with the vertical case kept apart from the gradient test. */
  predicate CorrectedIsParallelTo(e: Edge, f: Edge)
  {
    if IsHorizontal(e) && IsHorizontal(f) then true
    else if IsVertical(e) && IsVertical(f) then true
    else if IsVertical(e) || IsVertical(f) then false
    else Gradient(e) == Gradient(f)
  }

  /** For proper (non-degenerate) edges, the corrected test holds exactly when
      the two directions are proportional, i.e. their cross product is 0. */
  lemma CorrectedIsParallelToIffCross(e: Edge, f: Edge)
    requires e.origin != e.termination && f.origin != f.termination
    ensures CorrectedIsParallelTo(e, f) <==> XDiff(e) * YDiff(f) == YDiff(e) * XDiff(f)
  {
    var ex, ey, fx, fy := XDiff(e), YDiff(e), XDiff(f), YDiff(f);
    if IsHorizontal(e) && IsHorizontal(f) {
      assert ey == 0 && fy == 0;
    } else if IsVertical(e) && IsVertical(f) {
      assert ex == 0 && fx == 0;
    } else if IsVertical(e) {
      assert ex == 0 && ey != 0 && fx != 0;
      NonZeroProduct(ey, fx);
    } else if IsVertical(f) {
      assert fx == 0 && fy != 0 && ex != 0;
      NonZeroProduct(ex, fy);
    } else {
      QuotientsEqual(ey, ex, fy, fx);
      assert Gradient(e) == ey as real / ex as real || ey == 0;
      if ey == 0 {
        assert Gradient(e) == 0.0 == ey as real / ex as real;
      }
      if fy == 0 {
        assert Gradient(f) == 0.0 == fy as real / fx as real;
      }
    }
  }

  lemma NonZeroProduct(a: int, b: int)
    requires a != 0 && b != 0
    ensures a * b != 0
  {
  }

  /** Two exact quotients are equal exactly when the cross products are. */
  lemma QuotientsEqual(a: int, b: int, c: int, d: int)
    requires b != 0 && d != 0
    ensures (a as real / b as real == c as real / d as real) <==> a * d == c * b
  {
    var q1, q2 := a as real / b as real, c as real / d as real;
    assert q1 * b as real == a as real;
    assert q2 * d as real == c as real;
    assert (a * d) as real == q1 * (b as real * d as real);
    assert (c * b) as real == q2 * (b as real * d as real);
    assert b as real * d as real != 0.0 by {
      NonZeroProduct(b, d);
    }
  }

  /** The corrected test is symmetric. */
  lemma CorrectedIsParallelToSymmetric(e: Edge, f: Edge)
    ensures CorrectedIsParallelTo(e, f) == CorrectedIsParallelTo(f, e)
  {
  }

  /** Python's `round` on an exact value: to the nearest integer, ties to the
      even one. */
  function RoundHalfEven(v: real): (r: int)
    ensures -0.5 <= r as real - v <= 0.5
    ensures (r as real - v == 0.5 || v - r as real == 0.5) ==> r % 2 == 0
  {
    var f := Floor(v);
    var frac := v - f as real;
    if frac < 0.5 then f
    else if frac > 0.5 then f + 1
    else if f % 2 == 0 then f
    else f + 1
  }

  /** The point a fraction t of the way from start to end, rounded. */
  function Interpolate(start: int, end: int, t: real): (r: int)
    ensures t == 0.0 ==> r == start
    ensures t == 1.0 ==> r == end
    ensures 0.0 <= t <= 1.0 ==> Min(start, end) <= r <= Max(start, end)
  {
    var difference := end - start;
    var portion := difference as real * t;
    var result := start as real + portion;
    InterpolationInRange(start, end, t);
    RoundHalfEven(result)
  }

  /** The exact interpolant for t in [0, 1] lies between the two ends. */
  lemma InterpolationInRange(start: int, end: int, t: real)
    ensures 0.0 <= t <= 1.0 ==>
      Min(start, end) as real <= start as real + (end - start) as real * t <= Max(start, end) as real
  {
    if 0.0 <= t <= 1.0 {
      var d := (end - start) as real;
      ScaledBetween(d, t);
      if start <= end {
        assert 0.0 <= d * t <= d;
        assert Min(start, end) == start && Max(start, end) == end;
      } else {
        assert d <= d * t <= 0.0;
        assert Min(start, end) == end && Max(start, end) == start;
      }
    }
  }

  /** Scaling by a fraction in [0, 1] stays between 0 and the scaled value. */
  lemma ScaledBetween(d: real, t: real)
    requires 0.0 <= t <= 1.0
    ensures d >= 0.0 ==> 0.0 <= d * t <= d
    ensures d < 0.0 ==> d <= d * t <= 0.0
  {
    if d >= 0.0 {
      assert d * t <= d * 1.0;
    } else {
      assert (-d) * t <= (-d) * 1.0;
    }
  }

  /** The number of steps `intermediary_points` walks: the one given, or the
      diagonal distance when none is. */
  function StepCount(e: Edge, steps: Option<int>): (n: int)
    ensures steps.Some? ==> n == steps.value
    ensures steps.None? ==> n >= Abs(XDiff(e)) && n >= Abs(YDiff(e))
    ensures steps.None? ==> (n == 0 <==> e.origin == e.termination)
  {
    if steps.None? then DiagonalDistance(e) else steps.value
  }

  /** The interior point for `step` of `steps`. */
  function Sample(e: Edge, step: int, steps: int): (p: Point)
    requires steps > 0
    ensures step == 0 ==> p == e.origin
    ensures step == steps ==> p == e.termination
  {
    var t := step as real / steps as real;
    Point(Interpolate(e.origin.x, e.termination.x, t), Interpolate(e.origin.y, e.termination.y, t))
  }

  /** The last interior sample lands on the termination, and every sample lies
      in the bounding box of the edge. */
  lemma SampleInBox(e: Edge, step: int, steps: int)
    requires 1 <= step <= steps
    ensures step == steps ==> Sample(e, step, steps) == e.termination
    ensures Min(e.origin.x, e.termination.x) <= Sample(e, step, steps).x <= Max(e.origin.x, e.termination.x)
    ensures Min(e.origin.y, e.termination.y) <= Sample(e, step, steps).y <= Max(e.origin.y, e.termination.y)
  {
    var t := step as real / steps as real;
    assert 0.0 < t <= 1.0;
    assert step == steps ==> t == 1.0;
  }

  /** The sampled points of an edge: origin first, termination last, and the
      `steps` interior samples in order between them (each inserted just before
      the last element). A count below 1 samples nothing. */
  method IntermediaryPoints(e: Edge, steps: Option<int>) returns (points: seq<Point>)
    ensures |points| == Max(StepCount(e, steps), 0) + 2
    ensures points[0] == e.origin && points[|points| - 1] == e.termination
    ensures forall k | 1 <= k <= StepCount(e, steps) :: points[k] == Sample(e, k, StepCount(e, steps))
  {
    points := [e.origin, e.termination];
    var n := if steps.None? then DiagonalDistance(e) else steps.value;
    var step := 1;
    while step < n + 1
      invariant 1 <= step && (n >= 1 ==> step <= n + 1) && (n < 1 ==> step == 1)
      invariant |points| == step + 1
      invariant points[0] == e.origin && points[|points| - 1] == e.termination
      invariant forall k | 1 <= k < step :: points[k] == Sample(e, k, n)
    {
      var t := step as real / n as real;
      var x := Interpolate(e.origin.x, e.termination.x, t);
      var y := Interpolate(e.origin.y, e.termination.y, t);
      points := points[..|points| - 1] + [Point(x, y)] + [points[|points| - 1]];
      step := step + 1;
    }
  }
}
