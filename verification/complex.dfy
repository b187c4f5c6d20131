/** Complex numbers of the optics code (maths/Complex.hpp): the field
    operations on pairs of reals, with their mixed real/complex
    overloads. The transcendental members (abs, arg, sqrt, cos, sin,
    setFromTrigo) are not part of this model. */
module Complexes {

  import opened RealArith
  datatype Complex = Complex(re: real, im: real)

  /** A real seen as a complex number. */
  function FromReal(x: real): Complex {
    Complex(x, 0.0)
  }

  /** Complex::i(). */
  function I(): Complex {
    Complex(0.0, 1.0)
  }

  /** i * i = -1. */
  lemma ISquared()
    ensures Mul(I(), I()) == FromReal(-1.0)
  {
  }

  function Conjugate(c: Complex): Complex
  {
    Complex(c.re, -c.im)
  }

  function SquareAbs(c: Complex): (r: real)
    ensures r >= 0.0
    ensures r == 0.0 <==> c == Complex(0.0, 0.0)
  {
    NormZero(c.re, c.im);
    c.re * c.re + c.im * c.im
  }

  lemma NormZero(x: real, y: real)
    ensures x * x + y * y >= 0.0
    ensures x * x + y * y == 0.0 <==> x == 0.0 && y == 0.0
  {
    SquareSign(x);
    SquareSign(y);
    assert x * x + y * y == Square(x) + Square(y);
  }

  // ---------------------------------------------------------------------
  // The operators between two complex numbers

  function Add(a: Complex, b: Complex): Complex
  {
    Complex(a.re + b.re, a.im + b.im)
  }

  function Sub(a: Complex, b: Complex): Complex
  {
    Complex(a.re - b.re, a.im - b.im)
  }

  function Mul(a: Complex, b: Complex): Complex
  {
    Complex(a.re * b.re - a.im * b.im, a.re * b.im + a.im * b.re)
  }

  /** Division by a nonzero divisor; it is the inverse of multiplication. */
  function Div(a: Complex, b: Complex): (r: Complex)
    requires b != Complex(0.0, 0.0)
    ensures Mul(r, b) == a
  {
    var n := b.re * b.re + b.im * b.im;
    NormZero(b.re, b.im);
    var r := Complex((a.re * b.re + a.im * b.im) / n, (a.im * b.re - a.re * b.im) / n);
    DivisionUndone(a, b, n, r);
    r
  }

  lemma DivisionUndone(a: Complex, b: Complex, n: real, r: Complex)
    requires n == b.re * b.re + b.im * b.im && n != 0.0
    requires r == Complex((a.re * b.re + a.im * b.im) / n, (a.im * b.re - a.re * b.im) / n)
    ensures Mul(r, b) == a
  {
    var p, q := a.re * b.re + a.im * b.im, a.im * b.re - a.re * b.im;
    assert r.re * n == p && r.im * n == q;
    assert (r.re * b.re - r.im * b.im) * n == p * b.re - q * b.im;
    assert p * b.re - q * b.im == a.re * n;
    assert (r.re * b.im + r.im * b.re) * n == p * b.im + q * b.re;
    assert p * b.im + q * b.re == a.im * n;
    MulCancelReal(r.re * b.re - r.im * b.im, a.re, n);
    MulCancelReal(r.re * b.im + r.im * b.re, a.im, n);
  }

  // ---------------------------------------------------------------------
  // Field laws

  lemma ConjugateLaws(a: Complex, b: Complex)
    ensures Conjugate(Conjugate(a)) == a
    ensures Conjugate(Mul(a, b)) == Mul(Conjugate(a), Conjugate(b))
    ensures Conjugate(Add(a, b)) == Add(Conjugate(a), Conjugate(b))
    ensures Mul(a, Conjugate(a)) == FromReal(SquareAbs(a))
  {
  }

  lemma AddLaws(a: Complex, b: Complex, c: Complex)
    ensures Add(a, b) == Add(b, a)
    ensures Add(Add(a, b), c) == Add(a, Add(b, c))
    ensures Add(a, FromReal(0.0)) == a
    ensures Sub(Add(a, b), b) == a
    ensures Add(Sub(a, b), b) == a
  {
  }

  lemma MulLaws(a: Complex, b: Complex, c: Complex)
    ensures Mul(a, b) == Mul(b, a)
    ensures Mul(a, FromReal(1.0)) == a
    ensures Mul(a, Add(b, c)) == Add(Mul(a, b), Mul(a, c))
  {
  }

  lemma {:induction false} MulAssociative(a: Complex, b: Complex, c: Complex)
    ensures Mul(Mul(a, b), c) == Mul(a, Mul(b, c))
  {
    var ab, bc := Mul(a, b), Mul(b, c);
    assert Mul(ab, c).re == a.re * b.re * c.re - a.im * b.im * c.re - a.re * b.im * c.im - a.im * b.re * c.im;
    assert Mul(a, bc).re == a.re * b.re * c.re - a.im * b.im * c.re - a.re * b.im * c.im - a.im * b.re * c.im;
    assert Mul(ab, c).im == a.re * b.re * c.im - a.im * b.im * c.im + a.re * b.im * c.re + a.im * b.re * c.re;
    assert Mul(a, bc).im == a.re * b.re * c.im - a.im * b.im * c.im + a.re * b.im * c.re + a.im * b.re * c.re;
  }

  /** The multiplicative inverse: the product of the conjugate and the
      squared modulus' inverse is undone by multiplication, and z / z = 1. */
  lemma DivSelf(z: Complex)
    requires z != Complex(0.0, 0.0)
    ensures Div(z, z) == FromReal(1.0)
  {
    var n := SquareAbs(z);
    assert n != 0.0;
    assert (z.re * z.re + z.im * z.im) / n == 1.0;
    assert (z.im * z.re - z.re * z.im) / n == 0.0;
  }

  // ---------------------------------------------------------------------
  // Mixed real / complex overloads

  function AddRealComplex(x: real, c: Complex): (r: Complex)
    ensures r == Add(FromReal(x), c)
  {
    Complex(x + c.re, c.im)
  }

  function AddComplexReal(c: Complex, x: real): (r: Complex)
    ensures r == Add(c, FromReal(x))
  {
    Complex(c.re + x, c.im)
  }

  /** operator-(Real, Complex) as written: the imaginary part of the
      subtrahend is kept, not negated. */
  function SubRealComplexAsWritten(x: real, c: Complex): Complex
  {
    Complex(x - c.re, c.im)
  }

  /** The written operator agrees with complex subtraction exactly on
      real subtrahends: 0 - i yields i instead of -i. */
  lemma SubRealComplexAsWrittenDiffers(x: real, c: Complex)
    ensures SubRealComplexAsWritten(x, c) == Sub(FromReal(x), c) <==> c.im == 0.0
  {
    var d := Sub(FromReal(x), c);
    assert d == Complex(x - c.re, 0.0 - c.im);
    assert SubRealComplexAsWritten(x, c) == Complex(x - c.re, c.im);
  }

  /** The smallest input that shows it: 0 - i evaluates to i. */
  lemma ZeroMinusIAsWritten()
    ensures SubRealComplexAsWritten(0.0, I()) == I()
  {
  }

  /** operator-(Real, Complex) as intended: the difference of the real
      seen as a complex number and c, so that adding c back gives x. */
  function SubRealComplex(x: real, c: Complex): (r: Complex)
    ensures Add(r, c) == FromReal(x)
    ensures r == Sub(FromReal(x), c)
  {
    Complex(x - c.re, -c.im)
  }

  /** ... where the intended operator gives -i. */
  lemma ZeroMinusI()
    ensures SubRealComplex(0.0, I()) == Complex(0.0, -1.0)
  {
    var i := Complex(0.0, 1.0);
    assert I() == i;
    assert SubRealComplex(0.0, i) == Complex(0.0, -1.0);
  }

  function SubComplexReal(c: Complex, x: real): (r: Complex)
    ensures r == Sub(c, FromReal(x))
  {
    Complex(c.re - x, c.im)
  }

  function MulRealComplex(x: real, c: Complex): (r: Complex)
    ensures r == Mul(FromReal(x), c)
  {
    Complex(x * c.re, x * c.im)
  }

  function MulComplexReal(c: Complex, x: real): (r: Complex)
    ensures r == Mul(c, FromReal(x))
  {
    Complex(c.re * x, c.im * x)
  }

  function DivRealComplex(x: real, c: Complex): (r: Complex)
    requires c != Complex(0.0, 0.0)
    ensures r == Div(FromReal(x), c)
  {
    var n := c.re * c.re + c.im * c.im;
    NormZero(c.re, c.im);
    var r := Complex((x * c.re) / n, (-x * c.im) / n);
    assert x * c.re == x * c.re + 0.0 * c.im;
    assert -x * c.im == 0.0 * c.re - x * c.im;
    r
  }

  function DivComplexReal(c: Complex, x: real): (r: Complex)
    requires x != 0.0
    ensures r == Div(c, FromReal(x))
  {
    var r := Complex(c.re / x, c.im / x);
    DivCancel(c.re, x);
    DivCancel(c.im, x);
    assert c.re * x + c.im * 0.0 == c.re * x && c.im * x - c.re * 0.0 == c.im * x;
    assert x * x + 0.0 * 0.0 == x * x;
    r
  }

  lemma DivCancel(a: real, x: real)
    requires x != 0.0
    ensures x * x != 0.0
    ensures (a * x) / (x * x) == a / x
  {
    SquareSign(x);
    var q := a / x;
    assert q * x == a;
    assert q * (x * x) == a * x;
    assert ((a * x) / (x * x)) * (x * x) == a * x;
    MulCancelReal((a * x) / (x * x), q, x * x);
  }
}
