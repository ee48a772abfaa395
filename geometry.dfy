/** The geometry kernel of the sweep: points as vectors, the parabola and
    bisector helpers and circumcentres.
    Coordinates are exact reals; the two helpers that need a square root
    (`distance` and `breakpoint_at_x`) are not defined here: callers receive
    them as function-typed parameters of the types below. */
module Geometry {
  import opened Wrappers

  datatype Point = Point(x: real, y: real)

  /** An edge of the diagram: the source stores it as a two-element array. */
  datatype Segment = Segment(start: Point, end: Point)

  datatype BoundingBox = BoundingBox(xMin: real, xMax: real, yMin: real, yMax: real)

  /** Euclidean distance between two points (uninterpreted here). */
  type DistanceFn = (Point, Point) -> real

  /** x-coordinate where the parabolas with foci l and r and directrix y = yl
      cross (uninterpreted here). */
  type BreakpointAtXFn = (Point, Point, real) -> real

  function Add(p: Point, q: Point): Point { Point(p.x + q.x, p.y + q.y) }

  function Sub(p: Point, q: Point): Point { Point(p.x - q.x, p.y - q.y) }

  function Scale(p: Point, k: real): Point { Point(p.x * k, p.y * k) }

  function Dot(p: Point, q: Point): real { p.x * q.x + p.y * q.y }

  /** z-component of the cross product of two vectors. */
  function Cross(p: Point, q: Point): real { p.x * q.y - p.y * q.x }

  function SqDist(p: Point, q: Point): real
  {
    (p.x - q.x) * (p.x - q.x) + (p.y - q.y) * (p.y - q.y)
  }

  predicate Inside(p: Point, box: BoundingBox)
  {
    box.xMin <= p.x <= box.xMax && box.yMin <= p.y <= box.yMax
  }

  predicate OnWall(p: Point, box: BoundingBox)
  {
    p.x == box.xMin || p.x == box.xMax || p.y == box.yMin || p.y == box.yMax
  }

  /** The point of the parabola with the given focus and directrix y = yl
      that lies above x. When the focus is on the directrix the parabola is
      degenerate and the source answers with the midpoint of focus.x and x
      on the directrix. */
  function PointOnArcAtX(focus: Point, yl: real, x: real): Point
  {
    var dx := x - focus.x;
    var dx2 := dx * dx;
    var dy := focus.y - yl;
    if dy == 0.0 then
      Point((focus.x + x) / 2.0, yl)
    else
      Point(x, dx2 / (dy * 2.0) + (focus.y + yl) / 2.0)
  }

  /** The point lies above x on the parabola: as far from the focus as from
      the directrix. */
  lemma PointOnArcAtXFacts(focus: Point, yl: real, x: real)
    ensures focus.y == yl ==> PointOnArcAtX(focus, yl, x) == Point((focus.x + x) / 2.0, yl)
    ensures focus.y != yl ==>
              var r := PointOnArcAtX(focus, yl, x);
              r.x == x && SqDist(r, focus) == (r.y - yl) * (r.y - yl)
  {
    if focus.y != yl {
      ParabolaPoint(focus, yl, x, PointOnArcAtX(focus, yl, x).y);
    }
  }

  /** The point (x, y) computed for a non-degenerate parabola is as far from
      the focus as from the directrix. */
  lemma ParabolaPoint(focus: Point, yl: real, x: real, y: real)
    requires focus.y != yl
    requires y == (x - focus.x) * (x - focus.x) / ((focus.y - yl) * 2.0) + (focus.y + yl) / 2.0
    ensures SqDist(Point(x, y), focus) == (y - yl) * (y - yl)
  {
    var dx2 := (x - focus.x) * (x - focus.x);
    var dy := focus.y - yl;
    var h := dx2 / (dy * 2.0);
    assert h * (dy * 2.0) == dx2;
    assert y - yl == h + dy / 2.0;
    assert y - focus.y == h - dy / 2.0;
    calc {
      (y - yl) * (y - yl) - (y - focus.y) * (y - focus.y);
      (h + dy / 2.0) * (h + dy / 2.0) - (h - dy / 2.0) * (h - dy / 2.0);
      2.0 * h * dy;
      dx2;
    }
  }

  /** The vector rotated a quarter turn counter-clockwise. */
  function NormalVector(p: Point): Point
  {
    Point(-p.y, p.x)
  }

  /** The quarter turn is perpendicular to p, as long as p, and turns
      counter-clockwise. */
  lemma NormalVectorFacts(p: Point)
    ensures Dot(NormalVector(p), p) == 0.0
    ensures Dot(NormalVector(p), NormalVector(p)) == Dot(p, p)
    ensures Cross(p, NormalVector(p)) == Dot(p, p)
  {
  }

  /** Two quarter turns are a half turn. */
  lemma NormalVectorTwice(p: Point)
    ensures NormalVector(NormalVector(p)) == Scale(p, -1.0)
  {
  }

  /** The perpendicular bisector of p and q as the source writes it:
      BisectorA(p, q) * x + BisectorB(p, q) * y == BisectorC(p, q). */
  function BisectorA(p: Point, q: Point): real { (p.x - q.x) * -2.0 }

  function BisectorB(p: Point, q: Point): real { (p.y - q.y) * -2.0 }

  function BisectorC(p: Point, q: Point): real { q.x * q.x + q.y * q.y - p.x * p.x - p.y * p.y }

  /** The centre of the circle through a, b and c, or None where the source
      panics because the three points are collinear. */
  function Circumcenter(a: Point, b: Point, c: Point): (r: Option<Point>)
    ensures r.None? <==> Cross(Sub(b, a), Sub(c, a)) == 0.0
    ensures r.Some? ==> SqDist(r.value, a) == SqDist(r.value, c)
    ensures r.Some? ==> SqDist(r.value, b) == SqDist(r.value, c)
  {
    DenominatorIsCross(a, b, c);
    if Denominator(a, b, c) == 0.0 then
      None
    else
      CenterOfEquidistant(a, b, c);
      Some(CenterOf(a, b, c))
  }

  /** The determinant of the source's two bisector equations. */
  function Denominator(a: Point, b: Point, c: Point): real
  {
    Det2(BisectorA(a, c), BisectorB(a, c), BisectorA(b, c), BisectorB(b, c))
  }

  function Det2(a1: real, b1: real, a2: real, b2: real): real { b1 * a2 - b2 * a1 }

  /** Cramer's rule as the source applies it to a1·x + b1·y = c1 and
      a2·x + b2·y = c2: y from the determinant, then x from whichever
      equation has a non-zero x-coefficient. */
  function Cramer(a1: real, b1: real, c1: real, a2: real, b2: real, c2: real): Point
    requires Det2(a1, b1, a2, b2) != 0.0
  {
    var y := (c1 * a2 - c2 * a1) / Det2(a1, b1, a2, b2);
    var x := if a2 != 0.0 then (c2 - b2 * y) / a2 else (c1 - b1 * y) / a1;
    Point(x, y)
  }

  /** The centre the source computes for a, b and c. */
  function CenterOf(a: Point, b: Point, c: Point): Point
    requires Denominator(a, b, c) != 0.0
  {
    Cramer(BisectorA(a, c), BisectorB(a, c), BisectorC(a, c), BisectorA(b, c), BisectorB(b, c), BisectorC(b, c))
  }

  lemma CenterOfEquidistant(a: Point, b: Point, c: Point)
    requires Denominator(a, b, c) != 0.0
    ensures SqDist(CenterOf(a, b, c), a) == SqDist(CenterOf(a, b, c), c)
    ensures SqDist(CenterOf(a, b, c), b) == SqDist(CenterOf(a, b, c), c)
  {
    var p := SolvesBisectors(BisectorA(a, c), BisectorB(a, c), BisectorC(a, c),
                             BisectorA(b, c), BisectorB(b, c), BisectorC(b, c));
    CenterEquidistant(a, b, c, p);
  }

  /** A point on the bisectors of (a, c) and of (b, c) is as far from a and
      from b as from c. */
  lemma CenterEquidistant(a: Point, b: Point, c: Point, z: Point)
    requires BisectorA(a, c) * z.x + BisectorB(a, c) * z.y == BisectorC(a, c)
    requires BisectorA(b, c) * z.x + BisectorB(b, c) * z.y == BisectorC(b, c)
    ensures SqDist(z, a) == SqDist(z, c)
    ensures SqDist(z, b) == SqDist(z, c)
  {
    BisectorEquation(a, c, z);
    BisectorEquation(b, c, z);
  }

  /** The three sites of the source's three-point test: the Voronoi vertex
      they meet at is (500, 437.5), at distance 312.5 from each. */
  lemma CircumcenterOfThreeSites()
    ensures Circumcenter(Point(250.0, 250.0), Point(500.0, 750.0), Point(750.0, 250.0)) == Some(Point(500.0, 437.5))
    ensures SqDist(Point(500.0, 437.5), Point(500.0, 750.0)) == 312.5 * 312.5
  {
    var a, b, c := Point(250.0, 250.0), Point(500.0, 750.0), Point(750.0, 250.0);
    assert BisectorA(a, c) == 1000.0 && BisectorB(a, c) == 0.0 && BisectorC(a, c) == 500000.0;
    assert BisectorA(b, c) == 500.0 && BisectorB(b, c) == -1000.0 && BisectorC(b, c) == -187500.0;
    assert Denominator(a, b, c) == 1000000.0;
    var y := (500000.0 * 500.0 - -187500.0 * 1000.0) / 1000000.0;
    assert y == 437.5;
    assert (-187500.0 - -1000.0 * y) / 500.0 == 500.0;
    assert CenterOf(a, b, c) == Point(500.0, 437.5);
  }

  lemma DenominatorIsCross(a: Point, b: Point, c: Point)
    ensures Denominator(a, b, c) == -4.0 * Cross(Sub(b, a), Sub(c, a))
  {
  }

  /** Cramer's rule gives a common solution of the two equations. */
  lemma SolvesBisectors(a1: real, b1: real, c1: real, a2: real, b2: real, c2: real) returns (p: Point)
    requires Det2(a1, b1, a2, b2) != 0.0
    ensures p == Cramer(a1, b1, c1, a2, b2, c2)
    ensures a1 * p.x + b1 * p.y == c1
    ensures a2 * p.x + b2 * p.y == c2
  {
    p := Cramer(a1, b1, c1, a2, b2, c2);
    var denom := Det2(a1, b1, a2, b2);
    var y := p.y;
    var x := p.x;
    assert y == (c1 * a2 - c2 * a1) / denom;
    assert y * denom == c1 * a2 - c2 * a1;
    if a2 != 0.0 {
      assert x == (c2 - b2 * y) / a2;
      assert x * a2 == c2 - b2 * y;
      assert a2 * (a1 * x + b1 * y) == a1 * (c2 - b2 * y) + a2 * b1 * y;
      assert a2 * (a1 * x + b1 * y) == a2 * c1;
    } else {
      assert a1 != 0.0;
      assert x == (c1 - b1 * y) / a1;
      assert x * a1 == c1 - b1 * y;
      assert -b2 * a1 * y == -c2 * a1;
    }
  }

  /** A point satisfies the source's linear equation for the pair (p, q)
      exactly when it is equidistant from p and q. */
  lemma BisectorEquation(p: Point, q: Point, z: Point)
    ensures BisectorA(p, q) * z.x + BisectorB(p, q) * z.y == BisectorC(p, q)
            <==> SqDist(z, p) == SqDist(z, q)
  {
  }
}
