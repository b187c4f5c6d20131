/** Facts about reals shared by the geometric and numeric modules: the
    C-style conversion to an integer and the square with its sign and
    monotonicity. */
module RealArith {

  /** The conversion of a real to an integer in C++ ((int) x) and in
      Python (int(x)): truncation toward zero. */
  function Trunc(x: real): (i: int)
    ensures x >= 0.0 ==> i as real <= x < i as real + 1.0
    ensures x < 0.0 ==> i as real - 1.0 < x <= i as real
  {
    if x >= 0.0 then x.Floor else -((-x).Floor)
  }

  function Square(x: real): real {
    x * x
  }

  lemma SquareSign(x: real)
    ensures Square(x) >= 0.0
    ensures x != 0.0 ==> Square(x) > 0.0
  {
    if x < 0.0 {
      assert Square(x) / (-x) == -x;
    } else if x > 0.0 {
      assert Square(x) / x == x;
    }
  }

  lemma SquareMono(a: real, b: real)
    requires 0.0 <= b <= a
    ensures Square(b) <= Square(a)
  {
    assert Square(a) - Square(b) == (a - b) * (a + b);
  }

  lemma SquareNeg(a: real)
    ensures Square(-a) == Square(a)
  {
  }

  lemma DivideSelf(m: real)
    requires m != 0.0
    ensures m / m == 1.0
  {
  }

  lemma MulCancelReal(x: real, y: real, n: real)
    requires n != 0.0 && x * n == y * n
    ensures x == y
  {
    assert (x - y) * n == 0.0;
  }
}
