/** The two library functions of Python's `math` module that the core calls,
    the power operator, and the small facts of real arithmetic the proofs use. */
module RealMath {

  /** What the model assumes of the `sqrt` parameter that stands for
      `math.sqrt`: it returns the non-negative square root of a non-negative
      argument. Lemmas that depend on it carry it as a precondition. */
  ghost predicate IsSqrt(sqrt: real -> real) {
    forall x: real :: 0.0 <= x ==> 0.0 <= sqrt(x) && sqrt(x) * sqrt(x) == x
  }

  /** `b ** n` for a natural exponent, as in `factor ** 40`. */
  function Pow(b: real, n: nat): (r: real)
    ensures 0.0 < b ==> 0.0 < r
  {
    if n == 0 then 1.0
    else
      var p := Pow(b, n - 1);
      if 0.0 < b then MulPositive(b, p); b * p else b * p
  }

  /** A product of two positive reals is positive. */
  lemma MulPositive(a: real, b: real)
    requires 0.0 < a && 0.0 < b
    ensures 0.0 < a * b
  {
  }

  /** A product of two non-negative reals is non-negative. */
  lemma MulNonNegative(a: real, b: real)
    requires 0.0 <= a && 0.0 <= b
    ensures 0.0 <= a * b
  {
  }

  /** A square is non-negative. */
  lemma SquareNonNegative(a: real)
    ensures 0.0 <= a * a
  {
    if a < 0.0 {
      assert a * a == (-a) * (-a);
      MulPositive(-a, -a);
    } else if 0.0 < a {
      MulPositive(a, a);
    }
  }

  /** Squaring is monotone on the non-negative reals. */
  lemma SquareLe(a: real, b: real)
    requires 0.0 <= a <= b
    ensures a * a <= b * b
  {
    assert b * b - a * a == (b - a) * (b + a);
    MulNonNegative(b - a, b + a);
  }

  /** Of two non-negative reals, the one with the smaller square is the smaller. */
  lemma SquareMonotone(s: real, t: real)
    requires 0.0 <= s && 0.0 <= t
    requires s * s <= t * t
    ensures s <= t
  {
    if s > t {
      assert (s - t) * (s + t) == s * s - t * t;
      MulPositive(s - t, s + t);
    }
  }

  /** The square root of a square is the base, when the base is non-negative. */
  lemma SqrtOfSquare(sqrt: real -> real, a: real)
    requires IsSqrt(sqrt)
    requires 0.0 <= a
    ensures sqrt(a * a) == a
  {
    var s := sqrt(a * a);
    assert 0.0 <= s && s * s == a * a;
    SquareMonotone(s, a);
    SquareMonotone(a, s);
  }

  /** `sqrt` vanishes exactly at zero. */
  lemma SqrtZeroIff(sqrt: real -> real, x: real)
    requires IsSqrt(sqrt)
    requires 0.0 <= x
    ensures sqrt(x) == 0.0 <==> x == 0.0
  {
    var s := sqrt(x);
    assert s * s == x;
    if x == 0.0 {
      SqrtOfSquare(sqrt, 0.0);
    }
  }

  /** Only zero squares to zero. */
  lemma SquareZero(a: real)
    requires a * a == 0.0
    ensures a == 0.0
  {
    if 0.0 <= a {
      SquareMonotone(a, 0.0);
    } else {
      assert (-a) * (-a) == a * a;
      SquareMonotone(-a, 0.0);
    }
  }
}
