/** Multi-channel float images (structures/Image.cpp): a row-major raster
    of width * height pixels of nbChannels values each, with clamped
    pixel access and bilinear interpolation. */
module Images {

  import opened IntArith
  import opened RealArith

  datatype Image = Image(width: nat, height: nat, nbChannels: nat, raster: seq<real>)
  {
    /** The raster holds every channel of every pixel. A zero width or
        height makes the source's clamping index out of the raster, so
        images here are non-empty. */
    predicate Valid() {
      width > 0 && height > 0 && |raster| == width * height * nbChannels
    }
  }

  /** A coordinate pulled into [0, n - 1]. */
  function Clamp(x: int, n: nat): (r: nat)
    requires n > 0
    ensures r < n
    ensures 0 <= x < n ==> r == x
    ensures x < 0 ==> r == 0
    ensures x >= n ==> r == n - 1
  {
    if x < 0 then 0 else if x >= n then n - 1 else x
  }

  /** The first raster cell of pixel (x, y). */
  function Offset(img: Image, x: nat, y: nat): (o: nat)
    requires img.Valid() && x < img.width && y < img.height
    ensures o + img.nbChannels <= |img.raster|
  {
    RowMajorBound(y, x, img.width, img.height);
    MulMono(y * img.width + x + 1, img.width * img.height, img.nbChannels);
    MulSucc(y * img.width + x, img.nbChannels);
    (y * img.width + x) * img.nbChannels
  }

  /** getPixel: the channels of the clamped pixel. */
  function GetPixel(img: Image, x: int, y: int): (p: seq<real>)
    requires img.Valid()
    ensures |p| == img.nbChannels
  {
    var o := Offset(img, Clamp(x, img.width), Clamp(y, img.height));
    img.raster[o..o + img.nbChannels]
  }

  /** setPixel: overwrite the channels of the clamped pixel. */
  function SetPixel(img: Image, x: int, y: int, pixel: seq<real>): (r: Image)
    requires img.Valid() && |pixel| == img.nbChannels
    ensures r.Valid()
    ensures r.width == img.width && r.height == img.height && r.nbChannels == img.nbChannels
  {
    var o := Offset(img, Clamp(x, img.width), Clamp(y, img.height));
    img.(raster := img.raster[..o] + pixel + img.raster[o + img.nbChannels..])
  }

  /** clear: every channel of every pixel 0. */
  function Clear(img: Image): (r: Image)
    requires img.Valid()
    ensures r.Valid() && r.width == img.width && r.height == img.height && r.nbChannels == img.nbChannels
    ensures forall x, y :: forall k | 0 <= k < img.nbChannels :: GetPixel(r, x, y)[k] == 0.0
  {
    img.(raster := seq(|img.raster|, _ => 0.0))
  }

  /** Distinct pixels own disjoint runs of the raster. */
  lemma DisjointPixels(img: Image, x1: nat, y1: nat, x2: nat, y2: nat)
    requires img.Valid() && x1 < img.width && y1 < img.height && x2 < img.width && y2 < img.height
    requires (x1, y1) != (x2, y2)
    ensures Offset(img, x1, y1) + img.nbChannels <= Offset(img, x2, y2)
         || Offset(img, x2, y2) + img.nbChannels <= Offset(img, x1, y1)
  {
    var p, q := y1 * img.width + x1, y2 * img.width + x2;
    if p == q {
      RowMajorUnique(y1, x1, y2, x2, img.width);
    }
    if p < q {
      MulMono(p + 1, q, img.nbChannels);
      MulSucc(p, img.nbChannels);
    } else {
      MulMono(q + 1, p, img.nbChannels);
      MulSucc(q, img.nbChannels);
    }
  }

  /** After setPixel, the written pixel reads back as written, and every
      other pixel reads as before. */
  lemma SetThenGet(img: Image, x: int, y: int, pixel: seq<real>, px: int, py: int)
    requires img.Valid() && |pixel| == img.nbChannels
    ensures var same := Clamp(px, img.width) == Clamp(x, img.width) && Clamp(py, img.height) == Clamp(y, img.height);
            GetPixel(SetPixel(img, x, y, pixel), px, py) == if same then pixel else GetPixel(img, px, py)
  {
    var c := img.nbChannels;
    var cx, cy := Clamp(x, img.width), Clamp(y, img.height);
    var qx, qy := Clamp(px, img.width), Clamp(py, img.height);
    var o, q := Offset(img, cx, cy), Offset(img, qx, qy);
    var r := SetPixel(img, x, y, pixel);
    assert r.raster == img.raster[..o] + pixel + img.raster[o + c..];
    assert Offset(r, qx, qy) == q;
    if (qx, qy) == (cx, cy) {
      assert r.raster[o..o + c] == pixel;
    } else {
      DisjointPixels(img, cx, cy, qx, qy);
      forall j | q <= j < q + c ensures r.raster[j] == img.raster[j] {
        if j < o {
          assert r.raster[j] == img.raster[..o][j];
        } else {
          assert j >= o + c;
        }
      }
      assert r.raster[q..q + c] == img.raster[q..q + c];
    }
  }

  /** One channel weighted by the bilinear factors. */
  function Bilinear(p11: real, p12: real, p21: real, p22: real, xf1: real, yf1: real): real {
    var xf2 := 1.0 - xf1;
    var yf2 := 1.0 - yf1;
    p11 * xf1 * yf1 + p12 * xf1 * yf2 + p21 * xf2 * yf1 + p22 * xf2 * yf2
  }

  /** getInterpolatedPixel: the four neighbouring pixels (clamped) mixed
      with weights 1 - x + int(x) and x - int(x), likewise for y. */
  function GetInterpolatedPixel(img: Image, x: real, y: real): (p: seq<real>)
    requires img.Valid()
    ensures |p| == img.nbChannels
  {
    var x1, y1 := Trunc(x), Trunc(y);
    var xf1 := 1.0 - x + x1 as real;
    var yf1 := 1.0 - y + y1 as real;
    var a, b := GetPixel(img, x1, y1), GetPixel(img, x1, y1 + 1);
    var c, d := GetPixel(img, x1 + 1, y1), GetPixel(img, x1 + 1, y1 + 1);
    seq(img.nbChannels, i requires 0 <= i < img.nbChannels => Bilinear(a[i], b[i], c[i], d[i], xf1, yf1))
  }

  /** The four weights sum to 1, so a constant neighbourhood is reproduced. */
  lemma WeightsSumToOne(v: real, xf1: real, yf1: real)
    ensures Bilinear(v, v, v, v, xf1, yf1) == v
  {
    var xf2, yf2 := 1.0 - xf1, 1.0 - yf1;
    assert xf1 * yf1 + xf1 * yf2 + xf2 * yf1 + xf2 * yf2 == 1.0;
    assert v * xf1 * yf1 + v * xf1 * yf2 + v * xf2 * yf1 + v * xf2 * yf2
        == v * (xf1 * yf1 + xf1 * yf2 + xf2 * yf1 + xf2 * yf2);
  }

  /** At integer coordinates the interpolation returns the stored pixel. */
  lemma InterpolationAtPixel(img: Image, x: int, y: int)
    requires img.Valid()
    ensures GetInterpolatedPixel(img, x as real, y as real) == GetPixel(img, x, y)
  {
    assert Trunc(x as real) == x;
    assert Trunc(y as real) == y;
    var p := GetInterpolatedPixel(img, x as real, y as real);
    var a := GetPixel(img, x, y);
    forall i | 0 <= i < img.nbChannels ensures p[i] == a[i] {
      var b, c, d := GetPixel(img, x, y + 1)[i], GetPixel(img, x + 1, y)[i], GetPixel(img, x + 1, y + 1)[i];
      assert p[i] == Bilinear(a[i], b, c, d, 1.0, 1.0);
    }
  }
}
