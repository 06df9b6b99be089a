/**
 The geometric kernel of the polygon clipper: points, oriented planes, the
 "above" test and the intersection of an edge with a plane.

 Coordinates are exact reals. The source works on 64-bit floats; rounding is
 not modelled, everything else (the formulas, the strictness of the test, the
 same-side rule of the intersection) is.
 */
module Geometry {

  datatype Option<T> = None | Some(value: T)

  /** A point in space, three coordinates. */
  datatype Point = Point(x: real, y: real, z: real)

  /** The plane a*x + b*y + c*z + d = 0; its "above" side is where the left-hand side is positive. */
  datatype Plane = Plane(a: real, b: real, c: real, d: real)

  /** The left-hand side of the plane's equation at p. */
  function Eval(p: Point, pl: Plane): real
  {
    pl.a * p.x + pl.b * p.y + pl.c * p.z + pl.d
  }

  /**
   The source divides Eval by the length of the normal (a, b, c) and compares
   the quotient with zero. Dividing by a positive number keeps the sign, so the
   test is on Eval itself; points on the plane are not above it.
   */
  predicate Above(p: Point, pl: Plane)
  {
    Eval(p, pl) > 0.0
  }

  /** The normalisation by the length of the normal does not change the classification. */
  lemma AboveIgnoresNormalisation(p: Point, pl: Plane, norm: real)
    requires norm > 0.0 && norm * norm == pl.a * pl.a + pl.b * pl.b + pl.c * pl.c
    ensures (Eval(p, pl) / norm > 0.0) <==> Above(p, pl)
  {
  }

  /** The point p1 + (p2 - p1) * t of the line through p1 and p2. */
  function Lerp(p1: Point, p2: Point, t: real): Point
  {
    Point(p1.x + (p2.x - p1.x) * t, p1.y + (p2.y - p1.y) * t, p1.z + (p2.z - p1.z) * t)
  }

  /**
   The parameter t at which the edge p1 -> p2 meets the plane, computed as the
   source does. Its denominator is Eval(p1) - Eval(p2), which is not zero when
   the two points are on different sides.
   */
  function CrossingParameter(p1: Point, p2: Point, pl: Plane): (t: real)
    requires Above(p1, pl) != Above(p2, pl)
    ensures 0.0 <= t <= 1.0
  {
    var den := pl.a * (p1.x - p2.x) + pl.b * (p1.y - p2.y) + pl.c * (p1.z - p2.z);
    assert den == Eval(p1, pl) - Eval(p2, pl);
    CrossingParameterBounds(Eval(p1, pl), Eval(p2, pl));
    Eval(p1, pl) / den
  }

  lemma CrossingParameterBounds(e1: real, e2: real)
    requires (e1 > 0.0) != (e2 > 0.0)
    ensures e1 - e2 != 0.0
    ensures 0.0 <= e1 / (e1 - e2) <= 1.0
  {
    if e1 > 0.0 {
      assert e1 - e2 >= e1;
    } else {
      assert e2 - e1 > -e1;
      assert e1 / (e1 - e2) == (-e1) / (e2 - e1);
    }
  }

  /**
   Where the edge p1 -> p2 crosses the plane: nothing when both end points are
   on the same side (both above, or both on or below), otherwise the point of
   the edge at the crossing parameter.
   */
  function Intersect(p1: Point, p2: Point, pl: Plane): (r: Option<Point>)
    ensures r.None? <==> Above(p1, pl) == Above(p2, pl)
  {
    if Above(p1, pl) == Above(p2, pl) then None
    else Some(Lerp(p1, p2, CrossingParameter(p1, p2, pl)))
  }

  /** The crossing parameter solves Eval(p1) + (Eval(p2) - Eval(p1)) * t == 0. */
  lemma CrossingParameterSolves(p1: Point, p2: Point, pl: Plane)
    requires Above(p1, pl) != Above(p2, pl)
    ensures CrossingParameter(p1, p2, pl) * (Eval(p1, pl) - Eval(p2, pl)) == Eval(p1, pl)
  {
    CrossingParameterBounds(Eval(p1, pl), Eval(p2, pl));
  }

  /** A degenerate edge from a point to itself never crosses the plane. */
  lemma IntersectSelf(p: Point, pl: Plane)
    ensures Intersect(p, p, pl) == None
  {
  }

  /** An edge that leaves the plane upwards crosses it at its start point. */
  lemma IntersectFromPlane(p1: Point, p2: Point, pl: Plane)
    requires Eval(p1, pl) == 0.0 && Above(p2, pl)
    ensures Intersect(p1, p2, pl) == Some(p1)
  {
    var t := CrossingParameter(p1, p2, pl);
    CrossingParameterSolves(p1, p2, pl);
    assert t * (0.0 - Eval(p2, pl)) == 0.0;
    assert t == 0.0;
  }

  /** An edge that comes down onto the plane crosses it at its end point. */
  lemma IntersectOntoPlane(p1: Point, p2: Point, pl: Plane)
    requires Above(p1, pl) && Eval(p2, pl) == 0.0
    ensures Intersect(p1, p2, pl) == Some(p2)
  {
    var t := CrossingParameter(p1, p2, pl);
    CrossingParameterSolves(p1, p2, pl);
    assert t * Eval(p1, pl) == Eval(p1, pl);
    assert t == 1.0;
  }

  /** An edge whose end points are equally far from the plane on either side crosses it at its midpoint. */
  lemma MidpointCrossing(p1: Point, p2: Point, pl: Plane)
    requires Eval(p1, pl) == -Eval(p2, pl) != 0.0
    ensures Intersect(p1, p2, pl) == Some(Point((p1.x + p2.x) / 2.0, (p1.y + p2.y) / 2.0, (p1.z + p2.z) / 2.0))
  {
    var t, e := CrossingParameter(p1, p2, pl), Eval(p1, pl);
    CrossingParameterSolves(p1, p2, pl);
    assert Eval(p1, pl) - Eval(p2, pl) == 2.0 * e;
    assert t == e / (2.0 * e);
    HalfOf(e);
  }

  lemma HalfOf(e: real)
    requires e != 0.0
    ensures e / (2.0 * e) == 0.5
  {
    assert (2.0 * e) * 0.5 == e;
  }

  /** Eval is affine along a line. */
  lemma {:induction false} EvalLerp(p1: Point, p2: Point, t: real, pl: Plane)
    ensures Eval(Lerp(p1, p2, t), pl) == Eval(p1, pl) + (Eval(p2, pl) - Eval(p1, pl)) * t
  {
    var q := Lerp(p1, p2, t);
    calc {
      Eval(q, pl);
      pl.a * (p1.x + (p2.x - p1.x) * t) + pl.b * (p1.y + (p2.y - p1.y) * t) + pl.c * (p1.z + (p2.z - p1.z) * t) + pl.d;
      { assert pl.a * ((p2.x - p1.x) * t) == (pl.a * p2.x - pl.a * p1.x) * t;
        assert pl.b * ((p2.y - p1.y) * t) == (pl.b * p2.y - pl.b * p1.y) * t;
        assert pl.c * ((p2.z - p1.z) * t) == (pl.c * p2.z - pl.c * p1.z) * t; }
      Eval(p1, pl) + (pl.a * p2.x - pl.a * p1.x) * t + (pl.b * p2.y - pl.b * p1.y) * t + (pl.c * p2.z - pl.c * p1.z) * t;
      Eval(p1, pl) + (Eval(p2, pl) - Eval(p1, pl)) * t;
    }
  }

  /** The crossing point lies on the plane itself. */
  lemma {:induction false} CrossingOnPlane(p1: Point, p2: Point, pl: Plane)
    requires Intersect(p1, p2, pl).Some?
    ensures Eval(Intersect(p1, p2, pl).value, pl) == 0.0
    ensures !Above(Intersect(p1, p2, pl).value, pl)
  {
    var t := CrossingParameter(p1, p2, pl);
    var e1, e2 := Eval(p1, pl), Eval(p2, pl);
    EvalLerp(p1, p2, t, pl);
    assert t == e1 / (e1 - e2);
    assert (e2 - e1) * t == -e1;
  }

  /**
   A closed half-space is convex: a point between two points on or above a
   plane h is on or above h too.
   */
  lemma {:induction false} HalfSpaceConvex(p1: Point, p2: Point, t: real, h: Plane)
    requires Eval(p1, h) >= 0.0 && Eval(p2, h) >= 0.0 && 0.0 <= t <= 1.0
    ensures Eval(Lerp(p1, p2, t), h) >= 0.0
  {
    EvalLerp(p1, p2, t, h);
    var e1, e2 := Eval(p1, h), Eval(p2, h);
    assert e1 + (e2 - e1) * t == e1 * (1.0 - t) + e2 * t;
    assert e1 * (1.0 - t) >= 0.0;
    assert e2 * t >= 0.0;
  }

  /** The crossing point of an edge whose end points are on or above h is on or above h. */
  lemma {:induction false} CrossingInHalfSpace(p1: Point, p2: Point, pl: Plane, h: Plane)
    requires Intersect(p1, p2, pl).Some?
    requires Eval(p1, h) >= 0.0 && Eval(p2, h) >= 0.0
    ensures Eval(Intersect(p1, p2, pl).value, h) >= 0.0
  {
    HalfSpaceConvex(p1, p2, CrossingParameter(p1, p2, pl), h);
  }
}
