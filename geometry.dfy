/** Points, the quadratic Bezier curve and the camera projection of
    make_backdrop.py, over exact reals instead of IEEE doubles. */
module Geometry {
  import opened Errors

  datatype Point2 = Point2(x: real, y: real)
  datatype Point3 = Point3(x: real, y: real, z: real)

  /** CAMERA_POS: the eye, 2.5 units in front of the image plane y = 0. */
  const CameraPos := Point3(0.5, -2.5, 1.0)

  /** BEZIER_POINTS: start, control and end point of the wall's curve. */
  const CurveStart := Point2(0.0, 0.0)
  const CurveControl := Point2(0.5, 1.0)
  const CurveEnd := Point2(1.0, 0.0)

  /** The quadratic Bezier blend of three control points at parameter t. */
  function BezierAt(p1: Point2, p2: Point2, p3: Point2, t: real): Point2
  {
    Point2((1.0 - t) * (1.0 - t) * p1.x + 2.0 * (1.0 - t) * t * p2.x + t * t * p3.x,
           (1.0 - t) * (1.0 - t) * p1.y + 2.0 * (1.0 - t) * t * p2.y + t * t * p3.y)
  }

  /** `bezier`: the curve as a function of t; it starts at p1 and ends at p3. */
  function Bezier(p1: Point2, p2: Point2, p3: Point2): (curve: real -> Point2)
    ensures curve(0.0) == p1 && curve(1.0) == p3
  {
    t => BezierAt(p1, p2, p3, t)
  }

  /** The curve `make_wall` builds from BEZIER_POINTS. */
  function WallCurve(): real -> Point2
  {
    Bezier(CurveStart, CurveControl, CurveEnd)
  }

  /** The wall curve is the parabola y = 2x(1 - x), traversed with x == t. */
  lemma WallCurveIsParabola(t: real)
    ensures WallCurve()(t) == Point2(t, 2.0 * t * (1.0 - t))
  {
    assert (1.0 - t) * (1.0 - t) * 0.0 + 2.0 * (1.0 - t) * t * 0.5 + t * t * 1.0 == t;
  }

  lemma WallCurveMidpoint()
    ensures WallCurve()(0.5) == Point2(0.5, 0.5)
  {
  }

  function Midpoint(p: Point2, q: Point2): Point2
  {
    Point2((p.x + q.x) / 2.0, (p.y + q.y) / 2.0)
  }

  /** The point a fraction s of the way from p to q along the segment pq. */
  function Lerp(p: Point2, q: Point2, s: real): Point2
  {
    Point2(p.x + s * (q.x - p.x), p.y + s * (q.y - p.y))
  }

  /** Collinear control points (the control point halfway between the ends)
      degrade the curve to the straight segment, traversed at constant speed. */
  lemma StraightBezier(p1: Point2, p3: Point2, t: real)
    ensures Bezier(p1, Midpoint(p1, p3), p3)(t) == Lerp(p1, p3, t)
  {
    var u := 1.0 - t;
    assert u * u + 2.0 * u * t + t * t == 1.0 by {
      assert u + t == 1.0;
      assert (u + t) * (u + t) == u * u + 2.0 * u * t + t * t;
    }
    assert u * u * p1.x + 2.0 * u * t * ((p1.x + p3.x) / 2.0) + t * t * p3.x
        == p1.x + t * (p3.x - p1.x);
    assert u * u * p1.y + 2.0 * u * t * ((p1.y + p3.y) / 2.0) + t * t * p3.y
        == p1.y + t * (p3.y - p1.y);
  }

  /** p lies on the line through a and b: the cross product of p - a and
      b - a vanishes. */
  predicate OnLine(a: Point3, b: Point3, p: Point3)
  {
    && (p.y - a.y) * (b.z - a.z) == (p.z - a.z) * (b.y - a.y)
    && (p.z - a.z) * (b.x - a.x) == (p.x - a.x) * (b.z - a.z)
    && (p.x - a.x) * (b.y - a.y) == (p.y - a.y) * (b.x - a.x)
  }

  /** The point a fraction s of the way from a to b. */
  function Along(a: Point3, b: Point3, s: real): Point3
  {
    Point3(a.x + s * (b.x - a.x), a.y + s * (b.y - a.y), a.z + s * (b.z - a.z))
  }

  lemma AlongOnLine(a: Point3, b: Point3, s: real)
    ensures OnLine(a, b, Along(a, b, s))
  {
    var p := Along(a, b, s);
    assert p.x - a.x == s * (b.x - a.x);
    assert p.y - a.y == s * (b.y - a.y);
    assert p.z - a.z == s * (b.z - a.z);
  }

  /** `project_to_plane`: where the line from `from` through `to` meets the
      plane y = 0. The division fails when both points have the same depth. */
  function ProjectToPlane(from: Point3, to: Point3): (r: Result<Point3>)
    ensures r.Err? <==> to.y == from.y
    ensures r.Err? ==> r.fault == ZeroDivision
    ensures r.Ok? ==> r.value.y == 0.0
    ensures to.y == 0.0 && from.y != 0.0 ==> r == Ok(to)
  {
    if to.y == from.y then Err(ZeroDivision)
    else
      var frac := (0.0 - from.y) / (to.y - from.y);
      assert to.y == 0.0 ==> frac == 1.0 by {
        if to.y == 0.0 {
          var d := 0.0 - from.y;
          assert d / d == 1.0;
        }
      }
      Ok(Along(from, to, frac))
  }

  /** The projection lies on the line of sight from `from` through `to`. */
  lemma ProjectionOnLine(from: Point3, to: Point3)
    requires to.y != from.y
    ensures OnLine(from, to, ProjectToPlane(from, to).value)
  {
    AlongOnLine(from, to, (0.0 - from.y) / (to.y - from.y));
  }

  /** The projection is the only point of the plane y = 0 on the line. */
  lemma ProjectionUnique(from: Point3, to: Point3, s: real)
    requires to.y != from.y
    requires Along(from, to, s).y == 0.0
    ensures ProjectToPlane(from, to) == Ok(Along(from, to, s))
  {
    var d := to.y - from.y;
    assert s * d == -from.y;
    assert s == (0.0 - from.y) / d;
  }

  /** Projecting a point that already lies on the plane changes nothing. */
  lemma ProjectionIdempotent(from: Point3, to: Point3)
    requires from.y != 0.0 && to.y != from.y
    ensures ProjectToPlane(from, to).Ok?
    ensures ProjectToPlane(from, ProjectToPlane(from, to).value) == ProjectToPlane(from, to)
  {
  }
}
