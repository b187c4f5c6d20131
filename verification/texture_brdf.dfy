/** The discrete part of the textured BRDF (materials/TextureBRDF.cpp):
    the wrapping of the surface coordinates into the texture tile, the
    alpha blend between the texture and the embedded material, and the
    guards that clear the outgoing light. Radiances are the per-band
    values of a light vector; the texture lookups are parameters. */
module TextureBrdf {

  import opened RealArith
  /** Texture::TEXTURE_REPEAT_MODE. */
  datatype RepeatMode = RepeatOff | RepeatOn | RepeatMirror

  /** The wrapping of one coordinate, as done for u and for v. The parity
      test ent % 2 == 0 has the same outcome under C++ truncating and
      Dafny Euclidean remainder. */
  function Wrap(mode: RepeatMode, u: real): (w: real)
    ensures mode == RepeatOff ==> w == u
    ensures mode == RepeatOn ==> w == u - Trunc(u) as real
    ensures mode == RepeatMirror && Trunc(u) % 2 == 0 ==> w == u - Trunc(u) as real
    ensures mode == RepeatMirror && Trunc(u) % 2 != 0 ==> w == 1.0 + Trunc(u) as real - u
  {
    var ent := Trunc(u);
    if mode == RepeatOn then u - ent as real
    else if mode == RepeatMirror && ent % 2 == 0 then u - ent as real
    else if mode == RepeatMirror && ent % 2 != 0 then 1.0 + ent as real - u
    else u
  }

  /** For a non-negative coordinate every repeating mode lands in the tile
      [0, 1]; plain repetition even in [0, 1). */
  lemma WrapInTile(mode: RepeatMode, u: real)
    ensures mode != RepeatOff && u >= 0.0 ==> 0.0 <= Wrap(mode, u) <= 1.0
    ensures mode == RepeatOn && u >= 0.0 ==> Wrap(mode, u) < 1.0
  {
  }

  /** A tile further along gives the same repeated coordinate. */
  lemma RepeatPeriodic(u: real)
    requires u >= 0.0
    ensures Wrap(RepeatOn, u + 1.0) == Wrap(RepeatOn, u)
  {
    assert Trunc(u + 1.0) == Trunc(u) + 1;
  }

  /** Mirroring has period two... */
  lemma MirrorPeriodic(u: real)
    requires u >= 0.0
    ensures Wrap(RepeatMirror, u + 2.0) == Wrap(RepeatMirror, u)
  {
    assert Trunc(u + 2.0) == Trunc(u) + 2;
  }

  /** ... and reflects the second tile onto the first: the texture meets
      itself at u = 1, which is the point of the mirror mode. */
  lemma MirrorReflects(u: real)
    requires 0.0 <= u <= 2.0
    ensures Wrap(RepeatMirror, 2.0 - u) == Wrap(RepeatMirror, u)
  {
    if u < 1.0 {
      assert Trunc(u) == 0;
      if u > 0.0 {
        assert Trunc(2.0 - u) == 1;
      } else {
        assert Trunc(2.0 - u) == 2;
      }
    } else if u == 1.0 {
      assert Trunc(u) == 1;
    } else if u < 2.0 {
      assert Trunc(u) == 1 && Trunc(2.0 - u) == 0;
    } else {
      assert Trunc(u) == 2 && Trunc(2.0 - u) == 0;
    }
  }

  /** The per-material texture settings. */
  datatype TextureSettings = TextureSettings(tileU: real, tileV: real,
                                             modeU: RepeatMode, modeV: RepeatMode,
                                             alphaOn: bool, amount: real)

  /** The point of the texture read for surface coordinate (su, sv). */
  function TexturePoint(t: TextureSettings, su: real, sv: real): (p: (real, real))
    ensures t.modeU != RepeatOff && su * t.tileU >= 0.0 ==> 0.0 <= p.0 <= 1.0
    ensures t.modeV != RepeatOff && sv * t.tileV >= 0.0 ==> 0.0 <= p.1 <= 1.0
  {
    WrapInTile(t.modeU, su * t.tileU);
    WrapInTile(t.modeV, sv * t.tileV);
    (Wrap(t.modeU, su * t.tileU), Wrap(t.modeV, sv * t.tileV))
  }

  /** The alpha blend of one band: the embedded material's radiance
      weighted by 1 - alpha plus the texture's weighted by alpha. */
  function Blend(embedded: real, texture: real, alpha: real): (r: real)
    ensures alpha == 0.0 ==> r == embedded
    ensures alpha == 1.0 ==> r == texture
    ensures r - embedded == alpha * (texture - embedded)
  {
    embedded * (1.0 - alpha) + texture * alpha
  }

  /** A blend weight in [0, 1] gives a radiance between the two it mixes. */
  lemma BlendBetween(embedded: real, texture: real, alpha: real)
    requires 0.0 <= alpha <= 1.0
    ensures embedded <= texture ==> embedded <= Blend(embedded, texture, alpha) <= texture
    ensures texture <= embedded ==> texture <= Blend(embedded, texture, alpha) <= embedded
  {
    var d := texture - embedded;
    assert Blend(embedded, texture, alpha) - embedded == alpha * d;
    if d >= 0.0 {
      assert alpha * d <= 1.0 * d;
      assert alpha * d >= 0.0;
    } else {
      assert alpha * d >= 1.0 * d;
      assert alpha * d <= 0.0;
    }
  }

  /** The texture's own reflection of band i: incident radiance times
      cosOi / pi times the texture value times the amount. */
  function MapReflection(incident: seq<real>, texel: seq<real>, cosOi: real, oneOverPi: real,
                         amount: real, n: nat): (r: seq<real>)
    requires |incident| >= n && |texel| >= n
    ensures |r| == n
    ensures forall i | 0 <= i < n :: r[i] == incident[i] * oneOverPi * cosOi * texel[i] * amount
  {
    seq(n, i requires 0 <= i < n => incident[i] * oneOverPi * cosOi * texel[i] * amount)
  }

  /** The texture's reflection is linear in the amount, vanishes for
      light arriving grazing (cosOi == 0), and is never negative for
      non-negative radiances, texels, cosine and amount. */
  lemma MapReflectionLaws(incident: seq<real>, texel: seq<real>, cosOi: real, oneOverPi: real,
                          a: real, b: real, c: real, n: nat)
    requires |incident| >= n && |texel| >= n
    ensures forall i | 0 <= i < n ::
              MapReflection(incident, texel, cosOi, oneOverPi, a + b, n)[i]
              == MapReflection(incident, texel, cosOi, oneOverPi, a, n)[i]
                 + MapReflection(incident, texel, cosOi, oneOverPi, b, n)[i]
    ensures forall i | 0 <= i < n ::
              MapReflection(incident, texel, cosOi, oneOverPi, c * a, n)[i]
              == c * MapReflection(incident, texel, cosOi, oneOverPi, a, n)[i]
    ensures cosOi == 0.0 ==> forall i | 0 <= i < n :: MapReflection(incident, texel, cosOi, oneOverPi, a, n)[i] == 0.0
    ensures (forall i | 0 <= i < n :: incident[i] >= 0.0 && texel[i] >= 0.0)
            && cosOi >= 0.0 && oneOverPi >= 0.0 && a >= 0.0 ==>
              forall i | 0 <= i < n :: MapReflection(incident, texel, cosOi, oneOverPi, a, n)[i] >= 0.0
  {
    var ma, mb := MapReflection(incident, texel, cosOi, oneOverPi, a, n), MapReflection(incident, texel, cosOi, oneOverPi, b, n);
    var mab, mca := MapReflection(incident, texel, cosOi, oneOverPi, a + b, n), MapReflection(incident, texel, cosOi, oneOverPi, c * a, n);
    forall i | 0 <= i < n
      ensures mab[i] == ma[i] + mb[i] && mca[i] == c * ma[i]
    {
      var k := incident[i] * oneOverPi * cosOi * texel[i];
      assert ma[i] == k * a && mb[i] == k * b;
      assert mab[i] == k * (a + b);
      assert mca[i] == k * (c * a);
    }
    if (forall i | 0 <= i < n :: incident[i] >= 0.0 && texel[i] >= 0.0)
       && cosOi >= 0.0 && oneOverPi >= 0.0 && a >= 0.0 {
      forall i | 0 <= i < n
        ensures ma[i] >= 0.0
      {
        var p := incident[i] * oneOverPi;
        assert p >= 0.0;
        var q := p * cosOi;
        assert q >= 0.0;
        var u := q * texel[i];
        assert u >= 0.0;
        assert ma[i] == u * a;
      }
    }
  }

  /** getSpecularReemited clears the light when it leaves below the
      surface or arrives exactly grazing; getDiffuseReemited also when it
      arrives from below. */
  predicate SpecularCleared(cosOi: real, cosOv: real) {
    cosOv <= 0.0 || cosOi == 0.0
  }

  predicate DiffuseCleared(cosOi: real, cosOv: real) {
    cosOv <= 0.0 || cosOi <= 0.0
  }

  /** The diffuse guard is the stricter one; they differ exactly on light
      arriving from below towards a viewer above. */
  lemma GuardsCompare(cosOi: real, cosOv: real)
    ensures SpecularCleared(cosOi, cosOv) ==> DiffuseCleared(cosOi, cosOv)
    ensures DiffuseCleared(cosOi, cosOv) && !SpecularCleared(cosOi, cosOv)
            <==> cosOv > 0.0 && cosOi < 0.0
  {
  }

  /** The outgoing radiances of n bands, once the guard has passed: the
      texture's reflection alone without alpha, else its blend with the
      embedded material's (all zero when there is no embedded material)
      using the texture's alpha at the same point. */
  function Reemited(t: TextureSettings, n: nat,
                    incident: seq<real>, texel: seq<real>, embedded: seq<real>, alpha: real,
                    cosOi: real, oneOverPi: real): (r: seq<real>)
    requires |incident| >= n && |texel| >= n && |embedded| >= n
    ensures |r| == n
    ensures !t.alphaOn ==>
              r == MapReflection(incident, texel, cosOi, oneOverPi, t.amount, n)
    ensures t.alphaOn && alpha == 1.0 ==>
              r == MapReflection(incident, texel, cosOi, oneOverPi, t.amount, n)
    ensures t.alphaOn ==>
              forall i | 0 <= i < n ::
                r[i] == Blend(embedded[i], MapReflection(incident, texel, cosOi, oneOverPi, t.amount, n)[i], alpha)
    ensures t.alphaOn && alpha == 0.0 ==> r == embedded[..n]
    ensures t.alphaOn && 0.0 <= alpha <= 1.0 ==>
              forall i | 0 <= i < n ::
                var m := MapReflection(incident, texel, cosOi, oneOverPi, t.amount, n)[i];
                (embedded[i] <= m ==> embedded[i] <= r[i] <= m) &&
                (m <= embedded[i] ==> m <= r[i] <= embedded[i])
  {
    var m := MapReflection(incident, texel, cosOi, oneOverPi, t.amount, n);
    if !t.alphaOn then m
    else
      var r := seq(n, i requires 0 <= i < n => Blend(embedded[i], m[i], alpha));
      assert 0.0 <= alpha <= 1.0 ==>
        forall i | 0 <= i < n ::
          (embedded[i] <= m[i] ==> embedded[i] <= r[i] <= m[i]) &&
          (m[i] <= embedded[i] ==> m[i] <= r[i] <= embedded[i]) by {
        if 0.0 <= alpha <= 1.0 {
          forall i | 0 <= i < n
            ensures (embedded[i] <= m[i] ==> embedded[i] <= r[i] <= m[i]) &&
                    (m[i] <= embedded[i] ==> m[i] <= r[i] <= embedded[i])
          {
            BlendBetween(embedded[i], m[i], alpha);
          }
        }
      }
      r
  }

  /** getSpecularReemited and getDiffuseReemited: the textured light for
      surface point (su, sv), cleared by the respective guard. `lookup`
      and `alphaAt` stand for the texture map, read at the wrapped point;
      `embedded` is what the embedded material gives for the same rays. */
  function TexturedReemited(diffuse: bool, t: TextureSettings, n: nat, su: real, sv: real,
                            cosOi: real, cosOv: real, oneOverPi: real,
                            incident: seq<real>, embedded: seq<real>,
                            lookup: (real, real) -> seq<real>, alphaAt: (real, real) -> real): (r: seq<real>)
    requires |incident| >= n && |embedded| >= n
    requires forall x: real, y: real :: |lookup(x, y)| >= n
    ensures |r| == n
    ensures (if diffuse then DiffuseCleared(cosOi, cosOv) else SpecularCleared(cosOi, cosOv)) ==>
              forall i | 0 <= i < n :: r[i] == 0.0
    ensures !(if diffuse then DiffuseCleared(cosOi, cosOv) else SpecularCleared(cosOi, cosOv)) ==>
              var p := TexturePoint(t, su, sv);
              r == Reemited(t, n, incident, lookup(p.0, p.1), embedded, alphaAt(p.0, p.1),
                            cosOi, oneOverPi)
  {
    var cleared := if diffuse then DiffuseCleared(cosOi, cosOv) else SpecularCleared(cosOi, cosOv);
    var p := TexturePoint(t, su, sv);
    if cleared then seq(n, i => 0.0)
    else Reemited(t, n, incident, lookup(p.0, p.1), embedded, alphaAt(p.0, p.1), cosOi, oneOverPi)
  }
}
