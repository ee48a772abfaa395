/** Rays of the geometry kernel: where two rays cross, and where a ray from
    inside the bounding box leaves it. */
module Rays {
  import opened Wrappers
  import opened Geometry

  /** f64::signum over the reals: zero counts as positive. */
  function Sign(v: real): real { if v < 0.0 then -1.0 else 1.0 }

  function Det(ad: Point, bd: Point): real { bd.x * ad.y - bd.y * ad.x }

  /** Parameter along the first ray of the crossing point. */
  function ParamA(ao: Point, ad: Point, bo: Point, bd: Point): real
    requires Det(ad, bd) != 0.0
  {
    ((bo.y - ao.y) * bd.x - (bo.x - ao.x) * bd.y) / Det(ad, bd)
  }

  /** Parameter along the second ray of the crossing point. */
  function ParamB(ao: Point, ad: Point, bo: Point, bd: Point): real
    requires Det(ad, bd) != 0.0
  {
    ((bo.y - ao.y) * ad.x - (bo.x - ao.x) * ad.y) / Det(ad, bd)
  }

  /** Where the rays ao + u·ad and bo + v·bd cross, when the directions are
      not parallel and u and v have the same sign. */
  function Intersection(ao: Point, ad: Point, bo: Point, bd: Point): (r: Option<Point>)
    ensures Det(ad, bd) == 0.0 ==> r.None?
    ensures Det(ad, bd) != 0.0 ==>
              (r.Some? <==> Sign(ParamA(ao, ad, bo, bd)) == Sign(ParamB(ao, ad, bo, bd)))
    ensures r.Some? ==> r.value == Add(Scale(ad, ParamA(ao, ad, bo, bd)), ao)
    ensures r.Some? ==> r.value == Add(Scale(bd, ParamB(ao, ad, bo, bd)), bo)
  {
    if Det(ad, bd) == 0.0 then
      None
    else
      var u := ParamA(ao, ad, bo, bd);
      var v := ParamB(ao, ad, bo, bd);
      if Sign(u) != Sign(v) then
        None
      else
        RaysMeet(ao, ad, bo, bd);
        Some(Add(Scale(ad, u), ao))
  }

  /** The two parametrisations name the same point. */
  lemma RaysMeet(ao: Point, ad: Point, bo: Point, bd: Point)
    requires Det(ad, bd) != 0.0
    ensures Add(Scale(ad, ParamA(ao, ad, bo, bd)), ao) == Add(Scale(bd, ParamB(ao, ad, bo, bd)), bo)
  {
    var det := Det(ad, bd);
    var dx := bo.x - ao.x;
    var dy := bo.y - ao.y;
    var u := ParamA(ao, ad, bo, bd);
    var v := ParamB(ao, ad, bo, bd);
    assert u * det == dy * bd.x - dx * bd.y;
    assert v * det == dy * ad.x - dx * ad.y;
    assert (u * ad.x - v * bd.x) * det == dx * det;
    assert (u * ad.y - v * bd.y) * det == dy * det;
  }

  /** Any common point of the two lines has the parameters the source
      computes: the crossing is unique when the directions are not parallel. */
  lemma IntersectionUnique(ao: Point, ad: Point, bo: Point, bd: Point, u: real, v: real)
    requires Det(ad, bd) != 0.0
    requires Add(Scale(ad, u), ao) == Add(Scale(bd, v), bo)
    ensures u == ParamA(ao, ad, bo, bd) && v == ParamB(ao, ad, bo, bd)
  {
    var det := Det(ad, bd);
    var dx := bo.x - ao.x;
    var dy := bo.y - ao.y;
    assert u * ad.x - v * bd.x == dx;
    assert u * ad.y - v * bd.y == dy;
    assert dy * bd.x - dx * bd.y == u * det;
    assert dy * ad.x - dx * ad.y == v * det;
  }

  /** Distance factor, along the direction, to the first wall the ray
      leaves the box through; an axis with zero direction is ignored. */
  function ClipFactor(origin: Point, direction: Point, box: BoundingBox): (c: real)
    ensures Inside(origin, box) ==> c >= 0.0
  {
    var cx := if direction.x == 0.0 then 0.0
              else if direction.x < 0.0 then (box.xMin - origin.x) / direction.x
              else (box.xMax - origin.x) / direction.x;
    var cy := if direction.y == 0.0 then 0.0
              else if direction.y < 0.0 then (box.yMin - origin.y) / direction.y
              else (box.yMax - origin.y) / direction.y;
    if direction.x == 0.0 then cy
    else if direction.y == 0.0 then cx
    else if cx <= cy then cx else cy
  }

  /** The ray from origin along direction, clipped to the box; what the
      clipped end satisfies is stated by BoundedSegmentInBox. */
  function BoundedSegment(origin: Point, direction: Point, box: BoundingBox): Segment
  {
    Segment(origin, Add(origin, Scale(direction, ClipFactor(origin, direction, box))))
  }

  /** From a point inside the box, the segment starts at the origin and
      ends on the ray along the direction, inside the box and, unless the
      direction is zero, on one of its walls. */
  lemma BoundedSegmentInBox(origin: Point, direction: Point, box: BoundingBox)
    requires Inside(origin, box)
    ensures BoundedSegment(origin, direction, box).start == origin
    ensures exists c: real :: c >= 0.0 && BoundedSegment(origin, direction, box).end == Add(origin, Scale(direction, c))
    ensures Inside(BoundedSegment(origin, direction, box).end, box)
    ensures direction != Point(0.0, 0.0) ==> OnWall(BoundedSegment(origin, direction, box).end, box)
  {
    var c, hx, hy := ClipBounds(origin, direction, box);
    ClippedEnd(origin, direction, box, c, hx, hy);
  }

  /** Stepping c along the direction, with c and the hit distances related
      as ClipBounds states, ends inside the box and, for a non-zero
      direction, on a wall. */
  lemma ClippedEnd(origin: Point, direction: Point, box: BoundingBox, c: real, hx: real, hy: real)
    requires Inside(origin, box) && c >= 0.0
    requires direction.x < 0.0 ==> direction.x * hx == box.xMin - origin.x
    requires direction.x > 0.0 ==> direction.x * hx == box.xMax - origin.x
    requires direction.y < 0.0 ==> direction.y * hy == box.yMin - origin.y
    requires direction.y > 0.0 ==> direction.y * hy == box.yMax - origin.y
    requires direction.x != 0.0 ==> c <= hx
    requires direction.y != 0.0 ==> c <= hy
    requires direction != Point(0.0, 0.0) ==> (direction.x != 0.0 && c == hx) || (direction.y != 0.0 && c == hy)
    ensures Inside(Add(origin, Scale(direction, c)), box)
    ensures direction != Point(0.0, 0.0) ==> OnWall(Add(origin, Scale(direction, c)), box)
  {
    var ex := AxisClip(origin.x, direction.x, box.xMin, box.xMax, c, hx);
    var ey := AxisClip(origin.y, direction.y, box.yMin, box.yMax, c, hy);
    assert Add(origin, Scale(direction, c)) == Point(ex, ey);
  }

  /** The clip factor c and the hit distances hx and hy of the two axes:
      c is at most each hit distance of a moving axis and, unless the
      direction is zero, equal to one of them. */
  lemma ClipBounds(origin: Point, direction: Point, box: BoundingBox) returns (c: real, hx: real, hy: real)
    requires Inside(origin, box)
    ensures c == ClipFactor(origin, direction, box) && c >= 0.0
    ensures direction.x < 0.0 ==> direction.x * hx == box.xMin - origin.x
    ensures direction.x > 0.0 ==> direction.x * hx == box.xMax - origin.x
    ensures direction.y < 0.0 ==> direction.y * hy == box.yMin - origin.y
    ensures direction.y > 0.0 ==> direction.y * hy == box.yMax - origin.y
    ensures direction.x != 0.0 ==> c <= hx
    ensures direction.y != 0.0 ==> c <= hy
    ensures direction != Point(0.0, 0.0) ==> (direction.x != 0.0 && c == hx) || (direction.y != 0.0 && c == hy)
  {
    var (dx, dy) := (direction.x, direction.y);
    hx := if dx == 0.0 then 0.0 else if dx < 0.0 then (box.xMin - origin.x) / dx else (box.xMax - origin.x) / dx;
    hy := if dy == 0.0 then 0.0 else if dy < 0.0 then (box.yMin - origin.y) / dy else (box.yMax - origin.y) / dy;
    c := ClipFactor(origin, direction, box);
  }

  /** One axis of the clip: stepping c along d from x stays in [lo, hi] when
      c is at most the hit distance h of a moving axis, and reaches a wall
      when c equals it. */
  lemma AxisClip(x: real, d: real, lo: real, hi: real, c: real, h: real) returns (e: real)
    requires lo <= x <= hi && c >= 0.0
    requires d < 0.0 ==> d * h == lo - x
    requires d > 0.0 ==> d * h == hi - x
    requires d != 0.0 ==> c <= h
    ensures e == x + d * c
    ensures lo <= e <= hi
    ensures d != 0.0 && c == h ==> e == lo || e == hi
  {
    e := x + d * c;
    if d < 0.0 {
      assert d * c >= d * h by {
        assert d * (h - c) <= 0.0;
      }
      assert d * c <= 0.0;
    } else if d > 0.0 {
      assert d * c <= d * h by {
        assert d * (h - c) >= 0.0;
      }
      assert d * c >= 0.0;
    }
  }

  /** Test vector of the source: a vertical ray up from the centre of the
      box [0, 1000] x [0, 1000] ends on the top wall. */
  lemma BoundedSegmentUp()
    ensures BoundedSegment(Point(500.0, 500.0), Point(0.0, 500.0), BoundingBox(0.0, 1000.0, 0.0, 1000.0))
            == Segment(Point(500.0, 500.0), Point(500.0, 1000.0))
  {
    assert ClipFactor(Point(500.0, 500.0), Point(0.0, 500.0), BoundingBox(0.0, 1000.0, 0.0, 1000.0)) == 1.0;
  }

  /** Test vector of the source: a vertical ray down ends on the bottom wall. */
  lemma BoundedSegmentDown()
    ensures BoundedSegment(Point(750.0, 500.0), Point(0.0, -500.0), BoundingBox(0.0, 1000.0, 0.0, 1000.0))
            == Segment(Point(750.0, 500.0), Point(750.0, 0.0))
  {
    assert ClipFactor(Point(750.0, 500.0), Point(0.0, -500.0), BoundingBox(0.0, 1000.0, 0.0, 1000.0)) == 1.0;
  }
}
