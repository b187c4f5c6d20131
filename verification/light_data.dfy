/** One spectral band of polarised light (structures/LightData.hpp): a
    band index, the total radiance and the three Stokes components. */
module Light {

  /** The index a default-constructed band carries. */
  const NoIndex: int := -100000000

  datatype LightData = LightData(index: int, radiance: real, linear0: real, linear45: real, circular: real)

  /** Two bands carry the same light, whatever their indices. */
  predicate SameLight(a: LightData, b: LightData) {
    a.radiance == b.radiance && a.linear0 == b.linear0 && a.linear45 == b.linear45 && a.circular == b.circular
  }

  /** The default constructor: no band, no light. */
  const Dark: LightData := LightData(NoIndex, 0.0, 0.0, 0.0, 0.0)

  function SetIndex(d: LightData, index: int): (r: LightData)
    ensures r.index == index && SameLight(r, d)
  {
    d.(index := index)
  }

  /** setRadiance: unpolarised light of the given radiance. */
  function SetRadiance(d: LightData, radiance: real): (r: LightData)
    ensures r.index == d.index && r.radiance == radiance
    ensures Unpolarised(r)
  {
    d.(radiance := radiance, linear0 := 0.0, linear45 := 0.0, circular := 0.0)
  }

  predicate Unpolarised(d: LightData) {
    d.linear0 == 0.0 && d.linear45 == 0.0 && d.circular == 0.0
  }

  /** The P-polarised radiance: the negative part of linear0. */
  function PPolarised(d: LightData): (p: real)
    ensures p >= 0.0
  {
    if d.linear0 < 0.0 then -d.linear0 else 0.0
  }

  /** The S-polarised radiance: the positive part of linear0. */
  function SPolarised(d: LightData): (s: real)
    ensures s >= 0.0
  {
    if d.linear0 > 0.0 then d.linear0 else 0.0
  }

  /** The two polarised parts split linear0: at most one is positive, and
      their difference gives linear0 back. */
  lemma PolarisedParts(d: LightData)
    ensures !(PPolarised(d) > 0.0 && SPolarised(d) > 0.0)
    ensures SPolarised(d) - PPolarised(d) == d.linear0
    ensures Unpolarised(d) ==> PPolarised(d) == 0.0 && SPolarised(d) == 0.0
  {
  }

  /** operator+: component-wise sum, keeping the left operand's index. */
  function Plus(a: LightData, b: LightData): (r: LightData)
    ensures r.index == a.index
  {
    LightData(a.index, a.radiance + b.radiance, a.linear0 + b.linear0,
              a.linear45 + b.linear45, a.circular + b.circular)
  }

  /** mul: every component scaled. */
  function Mul(d: LightData, factor: real): (r: LightData)
    ensures r.index == d.index
  {
    LightData(d.index, d.radiance * factor, d.linear0 * factor, d.linear45 * factor, d.circular * factor)
  }

  /** The light of a sum does not depend on the order of the operands, and
      no light is its neutral element. */
  lemma PlusLaws(a: LightData, b: LightData, c: LightData)
    ensures SameLight(Plus(a, b), Plus(b, a))
    ensures Plus(Plus(a, b), c) == Plus(a, Plus(b, c))
    ensures Plus(a, SetRadiance(b, 0.0)) == a
    ensures SameLight(Plus(SetRadiance(a, 0.0), b), b)
  {
  }

  /** The default band is dark and unpolarised, and adding it to a band
      changes nothing. */
  lemma DarkNeutral(a: LightData)
    ensures Dark.index == NoIndex && Dark.radiance == 0.0 && Unpolarised(Dark)
    ensures Plus(a, Dark) == a
  {
  }

  /** Scaling distributes over sums, composes, and 1 leaves a band alone;
      scaling by a sum of factors is the sum of the scaled bands, so a band
      added to itself is the band doubled, and scaling by 0 leaves no light. */
  lemma MulLaws(a: LightData, b: LightData, f: real, g: real)
    ensures Mul(Plus(a, b), f) == Plus(Mul(a, f), Mul(b, f))
    ensures Mul(Mul(a, f), g) == Mul(a, f * g)
    ensures Mul(a, 1.0) == a
    ensures Mul(a, f + g) == Plus(Mul(a, f), Mul(a, g))
    ensures Plus(a, a) == Mul(a, 2.0)
    ensures SameLight(Mul(a, 0.0), Dark)
  {
    MulComposes(a, f, g);
    MulDistributes(a, b, f);
    MulAdditive(a, f, g);
    MulAdditive(a, 1.0, 1.0);
  }

  lemma MulAdditive(a: LightData, f: real, g: real)
    ensures Mul(a, f + g) == Plus(Mul(a, f), Mul(a, g))
  {
    ScaleBySum(a.radiance, f, g);
    ScaleBySum(a.linear0, f, g);
    ScaleBySum(a.linear45, f, g);
    ScaleBySum(a.circular, f, g);
  }

  lemma ScaleBySum(x: real, f: real, g: real)
    ensures x * (f + g) == x * f + x * g
  {
  }

  lemma MulComposes(a: LightData, f: real, g: real)
    ensures Mul(Mul(a, f), g) == Mul(a, f * g)
  {
    ScaleTwice(a.radiance, f, g);
    ScaleTwice(a.linear0, f, g);
    ScaleTwice(a.linear45, f, g);
    ScaleTwice(a.circular, f, g);
  }

  lemma MulDistributes(a: LightData, b: LightData, f: real)
    ensures Mul(Plus(a, b), f) == Plus(Mul(a, f), Mul(b, f))
  {
    ScaleSum(a.radiance, b.radiance, f);
    ScaleSum(a.linear0, b.linear0, f);
    ScaleSum(a.linear45, b.linear45, f);
    ScaleSum(a.circular, b.circular, f);
  }

  lemma ScaleTwice(x: real, f: real, g: real)
    ensures (x * f) * g == x * (f * g)
  {
  }

  lemma ScaleSum(x: real, y: real, f: real)
    ensures (x + y) * f == x * f + y * f
  {
  }

  /** applyReflectance with the Mueller matrix of a surface whose parallel
      and orthogonal reflectances are rPara and rOrth. A supplementary
      radiance other than -1 is blended in with weight alpha. The band
      index of the destination is kept. */
  function ApplyReflectance(dst: LightData, source: LightData, rPara: real, rOrth: real,
                            supRadiance: real, alpha: real): (r: LightData)
    ensures r.index == dst.index
    ensures r.linear45 == source.linear45 && r.circular == source.circular
  {
    var a := (rOrth + rPara) * 0.5;
    var b := (rOrth - rPara) * 0.5;
    var mixed := source.radiance * a + source.linear0 * b;
    var radiance := if supRadiance == -1.0 then mixed
                    else mixed * (1.0 - alpha) + supRadiance * alpha;
    dst.(radiance := radiance, linear0 := source.radiance * b + source.linear0 * a,
         linear45 := source.linear45, circular := source.circular)
  }

  /** A perfect mirror copies the light; equal reflectances r scale the
      radiance and linear0 by r. */
  lemma ReflectanceLaws(dst: LightData, source: LightData, r: real, alpha: real)
    ensures SameLight(ApplyReflectance(dst, source, 1.0, 1.0, -1.0, alpha), source)
    ensures var o := ApplyReflectance(dst, source, r, r, -1.0, alpha);
            o.radiance == source.radiance * r && o.linear0 == source.linear0 * r
  {
  }

  /** flip: mirrored propagation negates linear45 and circular. */
  function Flip(d: LightData): (r: LightData)
    ensures r.index == d.index && r.radiance == d.radiance && r.linear0 == d.linear0
    ensures r.linear45 == -d.linear45 && r.circular == -d.circular
  {
    d.(linear45 := d.linear45 * -1.0, circular := d.circular * -1.0)
  }

  /** Flipping twice restores the band, and flipping commutes with sums. */
  lemma FlipInvolution(a: LightData, b: LightData)
    ensures Flip(Flip(a)) == a
    ensures Flip(Plus(a, b)) == Plus(Flip(a), Flip(b))
  {
  }

  /** rotate, with cos 2A and sin 2A given: the linear components turn in
      their plane. */
  function Rotate(d: LightData, cos2A: real, sin2A: real): (r: LightData)
    ensures r.index == d.index && r.radiance == d.radiance && r.circular == d.circular
  {
    d.(linear0 := d.linear0 * cos2A + d.linear45 * sin2A,
       linear45 := -d.linear0 * sin2A + d.linear45 * cos2A)
  }

  /** Turning by A then by -A restores the band, and a rotation keeps the
      degree of linear polarisation. */
  lemma {:induction false} RotateInverse(d: LightData, c: real, s: real)
    requires c * c + s * s == 1.0
    ensures Rotate(Rotate(d, c, s), c, -s) == d
    ensures var r := Rotate(d, c, s);
            r.linear0 * r.linear0 + r.linear45 * r.linear45
              == d.linear0 * d.linear0 + d.linear45 * d.linear45
  {
    var x, y := d.linear0, d.linear45;
    TurnBack(x, y, c, s, x * c + y * s, -x * s + y * c);
    TurnKeepsNorm(x, y, c, s);
  }

  /** The plane rotation by (c, s) followed by (c, -s) on one point. */
  lemma TurnBack(x: real, y: real, c: real, s: real, x1: real, y1: real)
    requires c * c + s * s == 1.0
    requires x1 == x * c + y * s && y1 == -x * s + y * c
    ensures x1 * c + y1 * -s == x && -x1 * -s + y1 * c == y
  {
    assert x1 * c - y1 * s == x * (c * c + s * s) by {
      assert x1 * c == x * c * c + y * s * c;
      assert y1 * s == -x * s * s + y * c * s;
    }
    assert x1 * s + y1 * c == y * (c * c + s * s) by {
      assert x1 * s == x * c * s + y * s * s;
      assert y1 * c == -x * s * c + y * c * c;
    }
  }

  /** The plane rotation by (c, s) keeps the squared length of a point. */
  lemma TurnKeepsNorm(x: real, y: real, c: real, s: real)
    requires c * c + s * s == 1.0
    ensures (x * c + y * s) * (x * c + y * s) + (-x * s + y * c) * (-x * s + y * c) == x * x + y * y
  {
    var x1 := x * c + y * s;
    var y1 := -x * s + y * c;
    assert x1 * x1 + y1 * y1 == (x * x + y * y) * (c * c + s * s) by {
      assert x1 * x1 == x * x * c * c + 2.0 * x * y * c * s + y * y * s * s;
      assert y1 * y1 == x * x * s * s - 2.0 * x * y * s * c + y * y * c * c;
    }
  }

  /** applyLinearFilter, with cos 2A and sin 2A given: an ideal linear
      polariser tilted by A. */
  function LinearFilter(d: LightData, cos2: real, sin2: real): (r: LightData)
    ensures r.index == d.index && r.circular == 0.0
  {
    var (radiance, linear0, linear45) := (d.radiance, d.linear0, d.linear45);
    d.(radiance := 0.5 * (radiance + cos2 * linear0 + sin2 * linear45),
       linear0 := 0.5 * (cos2 * radiance + cos2 * cos2 * linear0 + sin2 * cos2 * linear45),
       linear45 := 0.5 * (sin2 * radiance + cos2 * sin2 * linear0 + sin2 * sin2 * linear45),
       circular := 0.0)
  }

  /** A second identical polariser lets everything through: the filter is
      idempotent. */
  lemma {:induction false} LinearFilterIdempotent(d: LightData, c: real, s: real)
    requires c * c + s * s == 1.0
    ensures LinearFilter(LinearFilter(d, c, s), c, s) == LinearFilter(d, c, s)
  {
    var v := d.radiance + c * d.linear0 + s * d.linear45;
    var f := LinearFilter(d, c, s);
    assert f.radiance == 0.5 * v && f.linear0 == 0.5 * c * v && f.linear45 == 0.5 * s * v;
    assert f.radiance + c * f.linear0 + s * f.linear45 == 0.5 * v * (1.0 + c * c + s * s);
    assert f.radiance + c * f.linear0 + s * f.linear45 == v;
  }
}
