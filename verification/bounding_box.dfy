/** Axis-aligned bounding boxes (maths/BoundingBox.hpp). */
module BoundingBoxes {

  datatype Point = Point(x: real, y: real, z: real)

  datatype Box = Box(min: Point, max: Point, center: Point)

  function Lesser(a: real, b: real): real { if a > b then b else a }
  function Greater(a: real, b: real): real { if a < b then b else a }

  /** The centre as the source computes it, from min and max. */
  function CenterOf(min: Point, max: Point): Point {
    Point(min.x + 0.5 * (max.x - min.x), min.y + 0.5 * (max.y - min.y), min.z + 0.5 * (max.z - min.z))
  }

  /** The centre lies halfway between the corners on every axis. */
  predicate Centred(b: Box) {
    && b.center.x == (b.min.x + b.max.x) / 2.0
    && b.center.y == (b.min.y + b.max.y) / 2.0
    && b.center.z == (b.min.z + b.max.z) / 2.0
  }

  predicate Inside(b: Box, p: Point) {
    && b.min.x <= p.x <= b.max.x
    && b.min.y <= p.y <= b.max.y
    && b.min.z <= p.z <= b.max.z
  }

  /** The six-bound constructor. */
  function MakeBox(minx: real, maxx: real, miny: real, maxy: real, minz: real, maxz: real): (b: Box)
    ensures Centred(b)
    ensures forall p :: Inside(b, p) <==> minx <= p.x <= maxx && miny <= p.y <= maxy && minz <= p.z <= maxz
  {
    var min := Point(minx, miny, minz);
    var max := Point(maxx, maxy, maxz);
    Box(min, max, CenterOf(min, max))
  }

  /** updateWith(box): grow to hold the other box as well. */
  function UpdateWithBox(b: Box, other: Box): (r: Box)
    ensures Centred(r)
    ensures forall p :: Inside(b, p) || Inside(other, p) ==> Inside(r, p)
    ensures (forall p :: Inside(other, p) ==> Inside(b, p)) && other.min.x <= other.max.x
              && other.min.y <= other.max.y && other.min.z <= other.max.z
            ==> r.min == b.min && r.max == b.max
  {
    var min := Point(Lesser(b.min.x, other.min.x), Lesser(b.min.y, other.min.y), Lesser(b.min.z, other.min.z));
    var max := Point(Greater(b.max.x, other.max.x), Greater(b.max.y, other.max.y), Greater(b.max.z, other.max.z));
    ContainedCorners(b, other);
    Box(min, max, CenterOf(min, max))
  }

  /** A non-empty box inside another has its corners inside it. */
  lemma ContainedCorners(b: Box, other: Box)
    ensures (forall p :: Inside(other, p) ==> Inside(b, p)) && other.min.x <= other.max.x
              && other.min.y <= other.max.y && other.min.z <= other.max.z
            ==> Inside(b, other.min) && Inside(b, other.max)
  {
    if (forall p :: Inside(other, p) ==> Inside(b, p)) && other.min.x <= other.max.x
       && other.min.y <= other.max.y && other.min.z <= other.max.z {
      assert Inside(other, other.min) && Inside(other, other.max);
    }
  }

  /** updateWith(point): grow to hold the point. */
  function UpdateWithPoint(b: Box, p: Point): (r: Box)
    ensures Centred(r)
    ensures Inside(r, p)
    ensures forall q :: Inside(b, q) ==> Inside(r, q)
    ensures Inside(b, p) ==> r.min == b.min && r.max == b.max
  {
    var min := Point(Lesser(b.min.x, p.x), Lesser(b.min.y, p.y), Lesser(b.min.z, p.z));
    var max := Point(Greater(b.max.x, p.x), Greater(b.max.y, p.y), Greater(b.max.z, p.z));
    Box(min, max, CenterOf(min, max))
  }

  /** A point is a degenerate box; growing by it or by its box agree. */
  lemma PointIsDegenerateBox(b: Box, p: Point)
    ensures UpdateWithPoint(b, p) == UpdateWithBox(b, MakeBox(p.x, p.x, p.y, p.y, p.z, p.z))
  {
  }

  function Along(o: Point, v: Point, t: real): Point {
    Point(o.x + t * v.x, o.y + t * v.y, o.z + t * v.z)
  }

  /** canIntersect: true when the origin is in the box, or when the ray
      meets one of the faces it is heading towards, tried along x, then y,
      then z. */
  function CanIntersect(b: Box, o: Point, v: Point): bool {
    if Inside(b, o) then true
    else if v.x < 0.0 && o.x >= b.max.x && HitsX(b, o, v, b.max.x) then true
    else if v.x > 0.0 && o.x <= b.min.x && HitsX(b, o, v, b.min.x) then true
    else if v.y < 0.0 && o.y >= b.max.y && HitsY(b, o, v, b.max.y) then true
    else if v.y > 0.0 && o.y <= b.min.y && HitsY(b, o, v, b.min.y) then true
    else if v.z < 0.0 && o.z >= b.max.z && HitsZ(b, o, v, b.max.z) then true
    else if v.z > 0.0 && o.z <= b.min.z && HitsZ(b, o, v, b.min.z) then true
    else false
  }

  /** The yz-plane at x == face is reached inside the y and z bounds. */
  predicate HitsX(b: Box, o: Point, v: Point, face: real)
    requires v.x != 0.0
  {
    var d := (face - o.x) / v.x;
    b.min.y <= o.y + d * v.y <= b.max.y && b.min.z <= o.z + d * v.z <= b.max.z
  }

  predicate HitsY(b: Box, o: Point, v: Point, face: real)
    requires v.y != 0.0
  {
    var d := (face - o.y) / v.y;
    b.min.x <= o.x + d * v.x <= b.max.x && b.min.z <= o.z + d * v.z <= b.max.z
  }

  predicate HitsZ(b: Box, o: Point, v: Point, face: real)
    requires v.z != 0.0
  {
    var d := (face - o.z) / v.z;
    b.min.y <= o.y + d * v.y <= b.max.y && b.min.x <= o.x + d * v.x <= b.max.x
  }

  /** A ray that starts inside the box can reach it. */
  lemma InsideOriginIntersects(b: Box, o: Point, v: Point)
    requires Inside(b, o)
    ensures CanIntersect(b, o, v)
  {
  }

  /** Corners in order on every axis, as a box built from points has. */
  predicate Ordered(b: Box) {
    b.min.x <= b.max.x && b.min.y <= b.max.y && b.min.z <= b.max.z
  }

  /** Whenever canIntersect answers true for an ordered box, some point of
      the ray at a non-negative distance lies in the box. */
  lemma {:induction false} CanIntersectSound(b: Box, o: Point, v: Point)
    requires Ordered(b) && CanIntersect(b, o, v)
    ensures exists t: real :: t >= 0.0 && Inside(b, Along(o, v, t))
  {
    if Inside(b, o) {
      assert Along(o, v, 0.0) == o;
    } else if v.x < 0.0 && o.x >= b.max.x && HitsX(b, o, v, b.max.x) {
      HitXSound(b, o, v, b.max.x);
    } else if v.x > 0.0 && o.x <= b.min.x && HitsX(b, o, v, b.min.x) {
      HitXSound(b, o, v, b.min.x);
    } else if v.y < 0.0 && o.y >= b.max.y && HitsY(b, o, v, b.max.y) {
      HitYSound(b, o, v, b.max.y);
    } else if v.y > 0.0 && o.y <= b.min.y && HitsY(b, o, v, b.min.y) {
      HitYSound(b, o, v, b.min.y);
    } else if v.z < 0.0 && o.z >= b.max.z && HitsZ(b, o, v, b.max.z) {
      HitZSound(b, o, v, b.max.z);
    } else {
      HitZSound(b, o, v, b.min.z);
    }
  }

  lemma HitXSound(b: Box, o: Point, v: Point, face: real)
    requires Ordered(b) && (face == b.min.x || face == b.max.x)
    requires (v.x < 0.0 && o.x >= face) || (v.x > 0.0 && o.x <= face)
    requires HitsX(b, o, v, face)
    ensures exists t: real :: t >= 0.0 && Inside(b, Along(o, v, t))
  {
    FaceReached(face, o.x, v.x);
    var d := (face - o.x) / v.x;
    assert Inside(b, Along(o, v, d));
  }

  lemma HitYSound(b: Box, o: Point, v: Point, face: real)
    requires Ordered(b) && (face == b.min.y || face == b.max.y)
    requires (v.y < 0.0 && o.y >= face) || (v.y > 0.0 && o.y <= face)
    requires HitsY(b, o, v, face)
    ensures exists t: real :: t >= 0.0 && Inside(b, Along(o, v, t))
  {
    FaceReached(face, o.y, v.y);
    var d := (face - o.y) / v.y;
    assert Inside(b, Along(o, v, d));
  }

  lemma HitZSound(b: Box, o: Point, v: Point, face: real)
    requires Ordered(b) && (face == b.min.z || face == b.max.z)
    requires (v.z < 0.0 && o.z >= face) || (v.z > 0.0 && o.z <= face)
    requires HitsZ(b, o, v, face)
    ensures exists t: real :: t >= 0.0 && Inside(b, Along(o, v, t))
  {
    FaceReached(face, o.z, v.z);
    var d := (face - o.z) / v.z;
    assert Inside(b, Along(o, v, d));
  }

  /** Heading towards a face reaches it at a non-negative distance, exactly
      on the face. */
  lemma FaceReached(face: real, oa: real, va: real)
    requires (va < 0.0 && oa >= face) || (va > 0.0 && oa <= face)
    ensures (face - oa) / va >= 0.0
    ensures oa + (face - oa) / va * va == face
  {
    var d := (face - oa) / va;
    assert d * va == face - oa;
    if va < 0.0 {
      assert d == (oa - face) / (-va);
    }
  }
}
