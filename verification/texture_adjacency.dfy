/** The discrete bookkeeping of the reference-sample triangulation
    (structures/Texture.cpp): sample colours reduced to chromaticities,
    segments between two sample points, triangular areas over three
    points with their neighbours, and the searches over the lists of
    segments and areas. Points, segments and areas are referred to by
    their index in the sample's lists. */
module TextureAdjacency {

  import opened RealArith
  /** The error marker of the texture code (kERROR). */
  const Error: int := -1

  // ---------------------------------------------------------------------
  // SampleColor

  /** A sample colour: its chromaticities r and g and the sum R + G + B. */
  datatype SampleColor = SampleColor(r: real, g: real, sum: real)

  /** SetRGB: the chromaticities of (R, G, B), all zero for black. */
  function SetRGB(red: real, green: real, blue: real): (c: SampleColor)
    ensures c.sum == red + green + blue
    ensures c.sum == 0.0 ==> c.r == 0.0 && c.g == 0.0
    ensures c.sum != 0.0 ==> c.r * c.sum == red && c.g * c.sum == green
  {
    var s := red + green + blue;
    if s != 0.0 then SampleColor(red / s, green / s, s) else SampleColor(0.0, 0.0, 0.0)
  }

  lemma DivScale(x: real, d: real, k: real)
    requires d != 0.0 && k != 0.0
    ensures (k * x) / (k * d) == x / d
  {
    var c := x / d;
    assert c * d == x;
    assert k * x == c * (k * d);
  }

  /** Chromaticities do not depend on intensity: scaling a colour scales
      only its sum. */
  lemma ChromaticityScale(red: real, green: real, blue: real, k: real)
    requires k > 0.0
    ensures SetRGB(k * red, k * green, k * blue).r == SetRGB(red, green, blue).r
    ensures SetRGB(k * red, k * green, k * blue).g == SetRGB(red, green, blue).g
    ensures SetRGB(k * red, k * green, k * blue).sum == k * SetRGB(red, green, blue).sum
  {
    var s := red + green + blue;
    var d := SetRGB(k * red, k * green, k * blue);
    ScaleSum(red, green, blue, k);
    if s != 0.0 {
      ProductNonZero(k, s);
      assert d == SampleColor((k * red) / (k * s), (k * green) / (k * s), k * s);
      DivScale(red, s, k);
      DivScale(green, s, k);
    } else {
      assert k * s == 0.0;
      assert d == SampleColor(0.0, 0.0, 0.0);
    }
  }

  lemma ScaleSum(red: real, green: real, blue: real, k: real)
    ensures k * red + k * green + k * blue == k * (red + green + blue)
  {
  }

  lemma ProductNonZero(k: real, s: real)
    requires k != 0.0 && s != 0.0
    ensures k * s != 0.0
  {
  }

  /** For a colour of non-negative components the chromaticities lie in
      [0, 1] and add up to at most 1. */
  lemma ChromaticityBounds(red: real, green: real, blue: real)
    requires red >= 0.0 && green >= 0.0 && blue >= 0.0
    ensures var c := SetRGB(red, green, blue);
            0.0 <= c.r && 0.0 <= c.g && c.r + c.g <= 1.0
  {
    var s := red + green + blue;
    if s != 0.0 {
      var c := SetRGB(red, green, blue);
      assert c.r * s == red && c.g * s == green && s > 0.0;
      assert c.r + c.g == (red + green) / s;
      QuotientAtMostOne(red + green, s);
      FactorNonNegative(c.r, s);
      FactorNonNegative(c.g, s);
    }
  }

  lemma QuotientAtMostOne(n: real, s: real)
    requires s > 0.0 && n <= s
    ensures n / s <= 1.0
  {
  }

  lemma FactorNonNegative(x: real, s: real)
    requires s > 0.0 && x * s >= 0.0
    ensures x >= 0.0
  {
  }

  /** GetDistanceFrom: the squared distance of the chromaticities. */
  function DistanceFrom(a: SampleColor, b: SampleColor): (d: real)
    ensures d >= 0.0
  {
    SquareSign(a.r - b.r);
    SquareSign(a.g - b.g);
    Square(a.r - b.r) + Square(a.g - b.g)
  }

  /** The distance is symmetric and vanishes exactly between colours of
      the same chromaticity. */
  lemma DistanceLaws(a: SampleColor, b: SampleColor)
    ensures DistanceFrom(a, b) == DistanceFrom(b, a)
    ensures DistanceFrom(a, b) == 0.0 <==> a.r == b.r && a.g == b.g
  {
    var x, y := a.r - b.r, a.g - b.g;
    assert Square(b.r - a.r) == Square(x) && Square(b.g - a.g) == Square(y);
    SquareSign(x);
    SquareSign(y);
    if x != 0.0 {
      SquareSign(x);
    }
    if y != 0.0 {
      SquareSign(y);
    }
  }

  // ---------------------------------------------------------------------
  // SampleSegment

  /** A segment between two points, with the area on its first side and
      the border of that area it lies on. */
  datatype Segment = Segment(point1: int, point2: int, area1: int, borderArea1: int)

  /** The SampleSegment constructor: no area attached yet. */
  function NewSegment(first: int, second: int): (s: Segment)
    ensures s.point1 == first && s.point2 == second
    ensures s.area1 == Error && s.borderArea1 == Error
  {
    Segment(first, second, Error, Error)
  }

  /** SampleSegment::Contains: the point is one of the two ends. */
  function SegmentContains(s: Segment, point: int): (b: bool)
    ensures b <==> point in {s.point1, s.point2}
  {
    s.point1 == point || s.point2 == point
  }

  /** SetArea1 attaches an area and border and keeps the ends. */
  function SetArea1(s: Segment, area: int, border: int): (r: Segment)
    ensures r.point1 == s.point1 && r.point2 == s.point2
    ensures r.area1 == area && r.borderArea1 == border
  {
    s.(area1 := area, borderArea1 := border)
  }

  // ---------------------------------------------------------------------
  // SampleArea

  /** A triangle over three points and the areas across its three
      borders. */
  datatype Area = Area(point1: int, point2: int, point3: int,
                       neighbor1: int, neighbor2: int, neighbor3: int)
  {
    function Vertices(): set<int> {
      {point1, point2, point3}
    }

    predicate DistinctVertices() {
      point1 != point2 && point1 != point3 && point2 != point3
    }
  }

  /** The SampleArea constructors: from three points, or from a segment
      and a third point; no neighbours yet. The location matrix they also
      compute is geometry and is not part of this model. */
  function NewArea(first: int, second: int, third: int): (a: Area)
    ensures a.point1 == first && a.point2 == second && a.point3 == third
    ensures a.neighbor1 == Error && a.neighbor2 == Error && a.neighbor3 == Error
  {
    Area(first, second, third, Error, Error, Error)
  }

  function AreaFromSegment(s: Segment, third: int): (a: Area)
    ensures a == NewArea(s.point1, s.point2, third)
  {
    NewArea(s.point1, s.point2, third)
  }

  /** SampleArea::Contains as written: the segment's first end is matched
      against the vertices in order, then its second end against the two
      other vertices. */
  function AreaContains(a: Area, s: Segment): bool {
    if s.point1 == a.point1 then s.point2 == a.point2 || s.point2 == a.point3
    else if s.point1 == a.point2 then s.point2 == a.point1 || s.point2 == a.point3
    else if s.point1 == a.point3 then s.point2 == a.point1 || s.point2 == a.point2
    else false
  }

  /** The segment joins two different vertices of the triangle. */
  predicate IsEdge(a: Area, s: Segment) {
    s.point1 in a.Vertices() && s.point2 in a.Vertices() && s.point1 != s.point2
  }

  /** For a proper triangle Contains recognises exactly its edges, in
      either orientation. */
  lemma ContainsIsEdge(a: Area, s: Segment)
    requires a.DistinctVertices()
    ensures AreaContains(a, s) <==> IsEdge(a, s)
    ensures AreaContains(a, s) <==> AreaContains(a, Segment(s.point2, s.point1, s.area1, s.borderArea1))
  {
  }

  /** SampleArea::ThirdPoint: the first vertex that is not an end of the
      segment, the third vertex when the first two both are. */
  function ThirdPoint(a: Area, s: Segment): (p: int)
    ensures p in a.Vertices()
    ensures (exists v | v in a.Vertices() :: !SegmentContains(s, v)) ==> !SegmentContains(s, p)
  {
    if a.point1 != s.point1 && a.point1 != s.point2 then a.point1
    else if a.point2 != s.point1 && a.point2 != s.point2 then a.point2
    else a.point3
  }

  /** An edge and the vertex opposite to it span the whole triangle: the
      area rebuilt from them has the same vertices. */
  lemma EdgeAndThirdPoint(a: Area, s: Segment)
    requires a.DistinctVertices() && AreaContains(a, s)
    ensures AreaFromSegment(s, ThirdPoint(a, s)).Vertices() == a.Vertices()
    ensures AreaFromSegment(s, ThirdPoint(a, s)).DistinctVertices()
  {
    ContainsIsEdge(a, s);
  }

  function Neighbor(a: Area, border: int): int {
    if border == 1 then a.neighbor1
    else if border == 2 then a.neighbor2
    else if border == 3 then a.neighbor3
    else Error
  }

  /** SetNeighbor: the neighbour across border 1, 2 or 3 is replaced; any
      other border number leaves the area as it is. */
  function SetNeighbor(a: Area, neighbor: int, border: int): (r: Area)
    ensures border in {1, 2, 3} ==> Neighbor(r, border) == neighbor
    ensures forall b | b in {1, 2, 3} && b != border :: Neighbor(r, b) == Neighbor(a, b)
    ensures r.Vertices() == a.Vertices() && r.point1 == a.point1 && r.point2 == a.point2 && r.point3 == a.point3
    ensures border !in {1, 2, 3} ==> r == a
  {
    if border == 1 then a.(neighbor1 := neighbor)
    else if border == 2 then a.(neighbor2 := neighbor)
    else if border == 3 then a.(neighbor3 := neighbor)
    else a
  }

  // ---------------------------------------------------------------------
  // Searches over the lists of the reference sample

  /** The segment joins the two points, in either orientation. */
  predicate Joins(s: Segment, p: int, q: int) {
    (s.point1 == p && s.point2 == q) || (s.point1 == q && s.point2 == p)
  }

  /** FindSegment from position i on: the first index whose segment joins
      the two points, else -1. */
  function FindSegmentFrom(segments: seq<Segment>, p: int, q: int, i: nat): (r: int)
    requires i <= |segments|
    ensures r == Error || i <= r < |segments|
    ensures r == Error <==> forall k | i <= k < |segments| :: !Joins(segments[k], p, q)
    ensures r != Error ==> Joins(segments[r], p, q) && forall k | i <= k < r :: !Joins(segments[k], p, q)
    decreases |segments| - i
  {
    if i == |segments| then Error
    else if segments[i].point1 == p && segments[i].point2 == q then i
    else if segments[i].point1 == q && segments[i].point2 == p then i
    else FindSegmentFrom(segments, p, q, i + 1)
  }

  function FindSegment(segments: seq<Segment>, p: int, q: int): (r: int)
    ensures r == Error || 0 <= r < |segments|
  {
    FindSegmentFrom(segments, p, q, 0)
  }

  /** The search does not depend on the order of the two points, and it
      finds the first segment joining them. */
  lemma FindSegmentLaws(segments: seq<Segment>, p: int, q: int)
    ensures FindSegment(segments, p, q) == FindSegment(segments, q, p)
    ensures FindSegment(segments, p, q) == Error <==> forall k | 0 <= k < |segments| :: !Joins(segments[k], p, q)
    ensures var r := FindSegment(segments, p, q);
            r != Error ==> Joins(segments[r], p, q) && forall k | 0 <= k < r :: !Joins(segments[k], p, q)
  {
  }

  /** TheSegmentAlreadyExists: some segment joins the two points. */
  function SegmentAlreadyExists(segments: seq<Segment>, p: int, q: int): (b: bool)
    ensures b <==> exists k | 0 <= k < |segments| :: Joins(segments[k], p, q)
  {
    FindSegment(segments, p, q) != Error
  }

  /** The number of areas that contain the segment. */
  function CountContaining(areas: seq<Area>, s: Segment): nat {
    if areas == [] then 0
    else CountContaining(areas[..|areas| - 1], s) + (if AreaContains(areas[|areas| - 1], s) then 1 else 0)
  }

  /** The first area containing the segment (the list's length if none). */
  function FirstContaining(areas: seq<Area>, s: Segment): (i: nat)
    ensures i <= |areas|
    ensures i < |areas| ==> AreaContains(areas[i], s)
    ensures forall k | 0 <= k < i :: !AreaContains(areas[k], s)
  {
    if areas == [] then 0
    else if AreaContains(areas[0], s) then 0
    else 1 + FirstContaining(areas[1..], s)
  }

  lemma {:induction false} CountNone(areas: seq<Area>, s: Segment, i: nat)
    requires i <= |areas|
    requires forall k | 0 <= k < i :: !AreaContains(areas[k], s)
    ensures CountContaining(areas[..i], s) == 0
  {
    if i > 0 {
      assert areas[..i][..i - 1] == areas[..i - 1];
      CountNone(areas, s, i - 1);
    }
  }

  /** IndexOfTheThirdPoint: the vertex opposite to the segment in the one
      area that contains it; -1 when no area contains it and -2 as soon as
      a second one does. */
  method IndexOfTheThirdPoint(areas: seq<Area>, s: Segment) returns (r: int)
    ensures CountContaining(areas, s) == 0 ==> r == Error
    ensures CountContaining(areas, s) == 1 ==>
              FirstContaining(areas, s) < |areas| && r == ThirdPoint(areas[FirstContaining(areas, s)], s)
    ensures CountContaining(areas, s) >= 2 ==> r == -2
  {
    var third := Error;
    var count := 0;
    var i := 0;
    while i < |areas|
      invariant 0 <= i <= |areas|
      invariant count == CountContaining(areas[..i], s) && count <= 1
      invariant count == 0 ==> third == Error && FirstContaining(areas, s) >= i
      invariant count == 1 ==> FirstContaining(areas, s) < i && third == ThirdPoint(areas[FirstContaining(areas, s)], s)
    {
      assert areas[..i + 1][..i] == areas[..i];
      if count == 0 {
        CountNone(areas, s, i);
      }
      if AreaContains(areas[i], s) {
        third := ThirdPoint(areas[i], s);
        count := count + 1;
      }
      if count > 1 {
        CountGrows(areas, s, i + 1);
        return -2;
      }
      i := i + 1;
    }
    assert areas[..i] == areas;
    r := third;
  }

  /** Counting over a longer prefix never finds fewer areas. */
  lemma {:induction false} CountGrows(areas: seq<Area>, s: Segment, i: nat)
    requires i <= |areas|
    ensures CountContaining(areas[..i], s) <= CountContaining(areas, s)
    decreases |areas| - i
  {
    if i < |areas| {
      CountGrows(areas, s, i + 1);
      assert areas[..i + 1][..i] == areas[..i];
    } else {
      assert areas[..i] == areas;
    }
  }
}
