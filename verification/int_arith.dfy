/** Small facts about products of natural numbers, shared by the
    row-major index computations of several modules. */
module IntArith {

  lemma MulMono(a: nat, b: nat, c: nat)
    ensures a <= b ==> a * c <= b * c
  {
    if a <= b {
      assert b * c == a * c + (b - a) * c;
    }
  }

  lemma MulSucc(a: nat, c: nat)
    ensures (a + 1) * c == a * c + c
  {
  }

  lemma MulCancel(k: nat, a: nat, b: nat)
    requires k > 0 && k * a == k * b
    ensures a == b
  {
  }

  /** Row-major decomposition is unique. */
  lemma RowMajorUnique(h1: nat, w1: nat, h2: nat, w2: nat, width: nat)
    requires w1 < width && w2 < width
    requires h1 * width + w1 == h2 * width + w2
    ensures h1 == h2 && w1 == w2
  {
    MulMono(h1 + 1, h2, width);
    MulMono(h2 + 1, h1, width);
    MulSucc(h1, width);
    MulSucc(h2, width);
  }

  /** Row and column of the row-major index h*width + w. */
  lemma RowMajorOf(h: nat, w: nat, width: nat)
    requires w < width
    ensures (h * width + w) / width == h && (h * width + w) % width == w
  {
    var idx := h * width + w;
    assert idx == (idx / width) * width + idx % width;
    RowMajorUnique(idx / width, idx % width, h, w, width);
  }

  /** An index below width*height splits into a column below width and a row below height. */
  lemma RowMajorSplit(idx: nat, width: nat, height: nat)
    requires width > 0 && idx < width * height
    ensures idx % width < width && idx / width < height
    ensures idx == (idx / width) * width + idx % width
  {
  }

  /** A row-major index of an in-range cell stays below the cell count. */
  lemma RowMajorBound(h: nat, w: nat, width: nat, height: nat)
    requires w < width && h < height
    ensures h * width + w < width * height
  {
    MulMono(h + 1, height, width);
    MulSucc(h, width);
  }

  /** Adding a multiple of the modulus does not change the remainder. */
  lemma ModAddMultiple(x: nat, q: nat, c: nat)
    requires c > 0
    ensures (x + q * c) % c == x % c
  {
    RowMajorOf(x / c + q, x % c, c);
    assert x == (x / c) * c + x % c;
    assert (x / c + q) * c == (x / c) * c + q * c;
  }

  /** The remainder may be taken before an addition. */
  lemma ModAdd(a: nat, b: nat, c: nat)
    requires c > 0
    ensures (a % c + b) % c == (a + b) % c
  {
    assert a == (a / c) * c + a % c;
    ModAddMultiple(a % c + b, a / c, c);
  }

  /** Quotient and remainder of naturals are naturals. */
  lemma DivModNat(a: nat, b: nat)
    requires b > 0
    ensures a / b >= 0 && 0 <= a % b < b
  {
  }
}
