/**
  Scalar arithmetic of the engine. Every `f32` of the program is modelled by
  an exact `real`: there is no rounding, NaN or overflow in this model.
  The float constants the code names are kept at their exact binary values.
 */
module Scalars {

  /** `f32::EPSILON`: the gap between 1.0 and the next float, 2^-23. */
  const EPSILON: real := 1.0 / 8388608.0

  /** `f32::MAX`: (2 - 2^-23) * 2^127. */
  const F32_MAX: real := 340282346638528859811704183484516925440.0

  /** `std::f32::consts::PI`: the float nearest to pi. */
  const PI: real := 3.1415927410125732421875

  function Abs(x: real): (r: real)
    ensures r >= 0.0
    ensures r == x || r == -x
  {
    if x < 0.0 then -x else x
  }

  /** `f32::min` on numbers. */
  function Min(a: real, b: real): (r: real)
    ensures r <= a && r <= b
    ensures r == a || r == b
  {
    if a <= b then a else b
  }

  /** `f32::max` on numbers. */
  function Max(a: real, b: real): (r: real)
    ensures r >= a && r >= b
    ensures r == a || r == b
  {
    if a >= b then a else b
  }

  /** `f32::clamp`: the nearest point of [lo, hi]; the library asserts lo <= hi. */
  function Clamp(x: real, lo: real, hi: real): (r: real)
    requires lo <= hi
    ensures lo <= r <= hi
    ensures lo <= x <= hi ==> r == x
    ensures x < lo ==> r == lo
    ensures x > hi ==> r == hi
  {
    if x < lo then lo else if x > hi then hi else x
  }

  /**
    The square root the program takes through `f32::sqrt`, `magnitude`,
    `distance` and `normalize`. It is not defined here: members that need it
    take it as a parameter and require that it is a square root on the
    non-negative reals.
   */
  ghost predicate IsSqrt(sqrt: real -> real) {
    forall x: real {:trigger sqrt(x)} :: x >= 0.0 ==> sqrt(x) >= 0.0 && sqrt(x) * sqrt(x) == x
  }

  /** A product of two positive numbers is positive. */
  lemma PositiveProduct(x: real, y: real)
    requires x > 0.0 && y > 0.0
    ensures x * y > 0.0
  {
  }

  /** Multiplying by a positive number keeps the sign. */
  lemma SignOfProduct(x: real, f: real)
    requires f > 0.0
    ensures x * f >= 0.0 <==> x >= 0.0
  {
    if x > 0.0 {
      PositiveProduct(x, f);
    } else if x < 0.0 {
      PositiveProduct(-x, f);
    }
  }

  lemma NegSquare(x: real)
    ensures (-x) * (-x) == x * x
  {
  }

  /** The square of a non-zero number is positive. */
  lemma SquarePositive(x: real)
    requires x != 0.0
    ensures x * x > 0.0
  {
    if x > 0.0 {
      PositiveProduct(x, x);
    } else {
      NegSquare(x);
      PositiveProduct(-x, -x);
    }
  }

  lemma SquareNonNegative(x: real)
    ensures x * x >= 0.0
  {
    if x != 0.0 {
      SquarePositive(x);
    }
  }

  /** Squaring is strictly monotone on the non-negative reals. */
  lemma SquareLess(a: real, b: real)
    requires 0.0 <= a < b
    ensures a * a < b * b
  {
    assert a * (b - a) >= 0.0;
    assert b * (b - a) > 0.0;
  }

  /** The square root of a square is the non-negative base. */
  lemma SqrtOfSquare(sqrt: real -> real, y: real)
    requires IsSqrt(sqrt)
    requires y >= 0.0
    ensures sqrt(y * y) == y
  {
    var s := sqrt(y * y);
    if s < y {
      SquareLess(s, y);
    } else if y < s {
      SquareLess(y, s);
    }
  }

  /** The two facts a square root gives at one argument. */
  lemma SqrtFacts(sqrt: real -> real, x: real)
    requires IsSqrt(sqrt)
    requires x >= 0.0
    ensures sqrt(x) >= 0.0 && sqrt(x) * sqrt(x) == x
  {
  }

  /** The square root of a number known to be y * y is y. */
  lemma SqrtOf(sqrt: real -> real, x: real, y: real)
    requires IsSqrt(sqrt)
    requires y >= 0.0 && x == y * y
    ensures sqrt(x) == y
  {
    SqrtOfSquare(sqrt, y);
  }

  /** A square root is zero exactly at zero. */
  lemma SqrtZero(sqrt: real -> real, x: real)
    requires IsSqrt(sqrt)
    requires x >= 0.0
    ensures sqrt(x) == 0.0 <==> x == 0.0
  {
    SqrtOfSquare(sqrt, 0.0);
  }

  /** Comparing a square root with a bound is comparing squares. */
  lemma SqrtLess(sqrt: real -> real, x: real, y: real)
    requires IsSqrt(sqrt)
    requires x >= 0.0
    ensures sqrt(x) < y <==> y > 0.0 && x < y * y
  {
    var s := sqrt(x);
    if s < y {
      SquareLess(s, y);
    } else if y > 0.0 {
      if y < s {
        SquareLess(y, s);
      }
    }
  }

  /** A square root exceeds a non-negative bound exactly when its argument exceeds the bound's square. */
  lemma SqrtGreater(sqrt: real -> real, x: real, y: real)
    requires IsSqrt(sqrt)
    requires x >= 0.0 && y >= 0.0
    ensures sqrt(x) > y <==> x > y * y
  {
    var s := sqrt(x);
    if s > y {
      SquareLess(y, s);
    } else if s < y {
      SquareLess(s, y);
    }
  }

  /** Square roots are monotone. */
  lemma SqrtMonotone(sqrt: real -> real, x: real, y: real)
    requires IsSqrt(sqrt)
    requires 0.0 <= x <= y
    ensures sqrt(x) <= sqrt(y)
  {
    if sqrt(y) < sqrt(x) {
      SquareLess(sqrt(y), sqrt(x));
    }
  }

  /** Dividing by 1/m is multiplying by m. */
  lemma DivByInverse(a: real, m: real)
    requires m != 0.0
    ensures a / (1.0 / m) == a * m
  {
    assert (1.0 / m) * m == 1.0;
    assert (a * m) * (1.0 / m) == a;
  }
}
