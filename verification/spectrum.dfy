/** Sampled spectra (structures/Spectrum.hpp): one value per global
    wavelength, with element-wise algebra, a binary search over the
    wavelength table and three normalisations. */
module Spectra {

  import opened Wrappers
  import RealArith

  /** The global wavelength table, in nanometres, strictly increasing. */
  predicate SortedTable(wl: seq<real>) {
    forall i, j | 0 <= i < j < |wl| :: wl[i] < wl[j]
  }

  /** clear: every value 0. */
  function Clear(n: nat): (r: seq<real>)
    ensures |r| == n && forall i | 0 <= i < n :: r[i] == 0.0
  {
    seq(n, _ => 0.0)
  }

  /** add: element-wise sum. */
  function Add(a: seq<real>, b: seq<real>): (r: seq<real>)
    requires |a| == |b|
    ensures |r| == |a|
  {
    seq(|a|, i requires 0 <= i < |a| => a[i] + b[i])
  }

  /** mul: every value scaled. */
  function Mul(a: seq<real>, factor: real): (r: seq<real>)
    ensures |r| == |a|
  {
    seq(|a|, i requires 0 <= i < |a| => a[i] * factor)
  }

  /** The algebra acts band by band: a cleared spectrum is neutral for add,
      add commutes, mul distributes over add, and scaling by a sum of
      factors is the sum of the scaled spectra, so a spectrum added to
      itself is the spectrum doubled and 1 leaves it alone. */
  lemma SpectrumAlgebra(a: seq<real>, b: seq<real>, f: real, g: real)
    requires |a| == |b|
    ensures Add(a, Clear(|a|)) == a
    ensures Add(a, b) == Add(b, a)
    ensures Mul(Add(a, b), f) == Add(Mul(a, f), Mul(b, f))
    ensures Mul(a, 0.0) == Clear(|a|)
    ensures Mul(a, f + g) == Add(Mul(a, f), Mul(a, g))
    ensures Add(a, a) == Mul(a, 2.0)
    ensures Mul(a, 1.0) == a
  {
    var l, r := Mul(Add(a, b), f), Add(Mul(a, f), Mul(b, f));
    forall i | 0 <= i < |a| ensures l[i] == r[i] {
      assert l[i] == (a[i] + b[i]) * f;
    }
    MulAdditive(a, f, g);
    MulAdditive(a, 1.0, 1.0);
  }

  lemma MulAdditive(a: seq<real>, f: real, g: real)
    ensures Mul(a, f + g) == Add(Mul(a, f), Mul(a, g))
  {
    var l, r := Mul(a, f + g), Add(Mul(a, f), Mul(a, g));
    forall i | 0 <= i < |a| ensures l[i] == r[i] {
      assert l[i] == a[i] * (f + g);
    }
  }

  // ---------------------------------------------------------------------
  // getIndexOfWavelength

  /** The band index for a wavelength: `i` brackets `w` within the table,
      with the first and last bands catching everything outside it. */
  predicate Brackets(wl: seq<real>, w: real, i: int) {
    && 0 <= i <= |wl| - 2
    && (i == 0 || wl[i] <= w)
    && (i == |wl| - 2 || w < wl[i + 1])
  }

  /** The binary search of getIndexOfWavelength. A table of fewer than two
      wavelengths makes the source loop forever or read out of bounds. */
  method GetIndexOfWavelength(wl: seq<real>, w: real) returns (i: nat)
    requires |wl| >= 2 && SortedTable(wl)
    ensures Brackets(wl, w, i)
  {
    var lo, hi := 0, |wl| - 1;
    while lo < hi - 1
      invariant 0 <= lo < hi <= |wl| - 1
      invariant lo == 0 || wl[lo] <= w
      invariant hi == |wl| - 1 || w < wl[hi]
      decreases hi - lo
    {
      var pivot := (lo + hi) / 2;
      if w < wl[pivot] {
        hi := pivot;
      } else {
        lo := pivot;
      }
    }
    i := lo;
  }

  /** The bracketing band is unique, so the search agrees with a linear
      scan for the last band starting at or below w. */
  lemma BracketUnique(wl: seq<real>, w: real, i: int, j: int)
    requires |wl| >= 2 && SortedTable(wl)
    requires Brackets(wl, w, i) && Brackets(wl, w, j)
    ensures i == j
  {
  }

  /** Linear reference: the last index among 0..n-2 whose wavelength is at
      most w, 0 if none. */
  function LinearIndex(wl: seq<real>, w: real, k: nat): (i: nat)
    requires 0 < k <= |wl| - 1
    ensures i < k
    ensures i == 0 || wl[i] <= w
    ensures forall j | i < j < k :: w < wl[j]
  {
    if k == 1 then 0
    else if wl[k - 1] <= w then k - 1
    else LinearIndex(wl, w, k - 1)
  }

  lemma {:induction false} LinearBrackets(wl: seq<real>, w: real)
    requires |wl| >= 2 && SortedTable(wl)
    ensures Brackets(wl, w, LinearIndex(wl, w, |wl| - 1))
  {
    var i := LinearIndex(wl, w, |wl| - 1);
    if i < |wl| - 2 {
      assert w < wl[i + 1];
    }
  }

  /** The binary search and the linear scan pick the same band. */
  lemma SearchIsScan(wl: seq<real>, w: real, i: int)
    requires |wl| >= 2 && SortedTable(wl) && Brackets(wl, w, i)
    ensures i == LinearIndex(wl, w, |wl| - 1)
  {
    LinearBrackets(wl, w);
    BracketUnique(wl, w, i, LinearIndex(wl, w, |wl| - 1));
  }

  /** Inside the table the band satisfies wl[i] <= w < wl[i+1]. */
  lemma InsideTable(wl: seq<real>, w: real, i: int)
    requires |wl| >= 2 && SortedTable(wl) && Brackets(wl, w, i)
    requires wl[0] <= w < wl[|wl| - 1]
    ensures wl[i] <= w < wl[i + 1]
  {
  }

  // ---------------------------------------------------------------------
  // Normalisations

  /** The running maximum of normalize, started at 0. */
  function MaxFrom0(a: seq<real>): (m: real)
    ensures m >= 0.0
    ensures forall i | 0 <= i < |a| :: a[i] <= m
    ensures m == 0.0 || exists i | 0 <= i < |a| :: a[i] == m
  {
    if a == [] then 0.0
    else
      var m := MaxFrom0(a[..|a| - 1]);
      assert forall i | 0 <= i < |a| - 1 :: a[..|a| - 1][i] == a[i];
      if a[|a| - 1] > m then a[|a| - 1] else m
  }

  function Sum(a: seq<real>): real {
    if a == [] then 0.0 else Sum(a[..|a| - 1]) + a[|a| - 1]
  }

  /** Division of every value by d. A zero divisor gives the source
      non-finite values; here it is a failure. */
  function DivideBy(a: seq<real>, d: real): (r: seq<real>)
    requires d != 0.0
    ensures |r| == |a|
  {
    seq(|a|, i requires 0 <= i < |a| => a[i] / d)
  }

  /** normalize: divide by the largest value, measured from 0. */
  function Normalize(a: seq<real>): (r: Result<seq<real>>)
    ensures r.Failure? <==> forall i | 0 <= i < |a| :: a[i] <= 0.0
    ensures r.Success? ==> |r.value| == |a|
    ensures r.Success? ==> forall i | 0 <= i < |a| :: r.value[i] <= 1.0
    ensures r.Success? ==> exists i | 0 <= i < |a| :: r.value[i] == 1.0
  {
    var m := MaxFrom0(a);
    MaxZeroIff(a);
    if m == 0.0 then Failure("division by a zero maximum")
    else
      DividedByMax(a, m);
      Success(DivideBy(a, m))
  }

  /** Divided by its positive maximum, a spectrum peaks at exactly 1. */
  lemma DividedByMax(a: seq<real>, m: real)
    requires m == MaxFrom0(a) && m != 0.0
    ensures forall i | 0 <= i < |a| :: DivideBy(a, m)[i] <= 1.0
    ensures exists i | 0 <= i < |a| :: DivideBy(a, m)[i] == 1.0
  {
    var r := DivideBy(a, m);
    forall i | 0 <= i < |a| ensures r[i] <= 1.0 {
      assert r[i] == a[i] / m;
      DivideAtMost(a[i], m);
    }
    var k :| 0 <= k < |a| && a[k] == m;
    RealArith.DivideSelf(m);
    assert r[k] == a[k] / m;
  }

  /** The maximum from 0 is 0 exactly when no value is positive. */
  lemma MaxZeroIff(a: seq<real>)
    ensures MaxFrom0(a) == 0.0 <==> forall i | 0 <= i < |a| :: a[i] <= 0.0
  {
    var m := MaxFrom0(a);
    if m != 0.0 {
      var k :| 0 <= k < |a| && a[k] == m;
      assert a[k] > 0.0;
    }
  }

  lemma DivideAtMost(x: real, m: real)
    requires m > 0.0 && x <= m
    ensures x / m <= 1.0
  {
  }

  /** normalize560: divide by the value of the band holding 560 nm, unless
      that value is 0. */
  function Normalize560(a: seq<real>, band560: nat): (r: seq<real>)
    requires band560 < |a|
    ensures |r| == |a|
    ensures a[band560] == 0.0 ==> r == a
    ensures a[band560] != 0.0 ==> r[band560] == 1.0 && r == DivideBy(a, a[band560])
  {
    if a[band560] != 0.0 then DivideBy(a, a[band560]) else a
  }

  /** Once normalised at 560 nm, a spectrum stays as it is. */
  lemma Normalize560Idempotent(a: seq<real>, band560: nat)
    requires band560 < |a|
    ensures Normalize560(Normalize560(a, band560), band560) == Normalize560(a, band560)
  {
    var r := Normalize560(a, band560);
    if a[band560] != 0.0 {
      assert DivideBy(r, 1.0) == r;
    }
  }

  /** normalizePower: divide by the sum of the values. */
  function NormalizePower(a: seq<real>): (r: Result<seq<real>>)
    ensures r.Failure? <==> Sum(a) == 0.0
    ensures r.Success? ==> |r.value| == |a| && Sum(r.value) == 1.0
  {
    var s := Sum(a);
    if s == 0.0 then Failure("division by a zero sum")
    else
      SumDivide(a, s);
      RealArith.DivideSelf(s);
      Success(DivideBy(a, s))
  }

  lemma {:induction false} SumDivide(a: seq<real>, d: real)
    requires d != 0.0
    ensures Sum(DivideBy(a, d)) == Sum(a) / d
  {
    if a != [] {
      var r := DivideBy(a, d);
      assert r[..|r| - 1] == DivideBy(a[..|a| - 1], d);
      SumDivide(a[..|a| - 1], d);
      assert Sum(a[..|a| - 1]) / d + a[|a| - 1] / d == Sum(a) / d;
    }
  }
}
