/** Numeric and optional-value helpers shared by the dot grid and the dashboard.
    JavaScript numbers are modelled as mathematical reals and integers. */
module JsNumbers {

  datatype Option<+T> = None | Some(value: T)

  function Max0(n: int): nat
  {
    if n < 0 then 0 else n
  }

  /** `Math.round`: the nearest integer, with halves rounded up (towards +infinity). */
  function Round(x: real): (n: int)
    ensures n as real - 0.5 <= x < n as real + 0.5
  {
    (x + 0.5).Floor
  }

  lemma RoundMonotone(x: real, y: real)
    requires x <= y
    ensures Round(x) <= Round(y)
  {
  }

  lemma RoundOfInt(k: int)
    ensures Round(k as real) == k
  {
  }

  /** Rounding a value that lies between two integers stays between them. */
  lemma RoundBetween(lo: int, x: real, hi: int)
    requires lo as real <= x <= hi as real
    ensures lo <= Round(x) <= hi
  {
    RoundMonotone(lo as real, x);
    RoundMonotone(x, hi as real);
    RoundOfInt(lo);
    RoundOfInt(hi);
  }

  /** JavaScript's `a % 12` on integers: the remainder truncates towards zero, so it takes the sign of `a`. */
  function JsRem12(a: int): (r: int)
    ensures -12 < r < 12
    ensures a >= 0 ==> r == a % 12
    ensures a < 0 ==> r <= 0
    ensures r == 0 <==> a % 12 == 0
    ensures (a - r) % 12 == 0
  {
    if a >= 0 then a % 12 else -((-a) % 12)
  }

  // ----- small facts of real arithmetic that the solver does not find unaided -----

  lemma MulSign(a: real, b: real)
    requires a >= 0.0 && b > 0.0
    ensures a * b >= 0.0
    ensures a > 0.0 ==> a * b > 0.0
  {
  }

  lemma MulDistributes(a: real, b: real, g: real)
    ensures (a - b) * g == a * g - b * g
  {
  }

  /** Squaring keeps the order of non-negative numbers, strictly. */
  lemma SquareLess(a: real, b: real)
    requires 0.0 <= a < b
    ensures a * a < b * b
  {
    calc {
      a * a;
    <=
      a * b;
    <
      b * b;
    }
  }

  /** Scaling by `d` scales the square by `d * d`. */
  lemma ScaleSquare(u: real, d: real, x: real)
    requires u * d == x
    ensures u * u * (d * d) == x * x
  {
  }

  /** A factor that leaves a non-zero square unchanged is 1. */
  lemma CancelSquare(s: real, d: real)
    requires d != 0.0 && s * (d * d) == d * d
    ensures s == 1.0
  {
  }

  /** A sum of two squares is zero only at the origin. */
  lemma SquaresZero(x: real, y: real)
    requires x * x + y * y == 0.0
    ensures x == 0.0 && y == 0.0
  {
    if x != 0.0 {
      calc {
        0.0;
      ==
        x * x + y * y;
      >= { assert y * y >= 0.0; }
        x * x;
      >
        0.0;
      }
    } else if y != 0.0 {
      calc {
        0.0;
      ==
        x * x + y * y;
      >= { assert x * x >= 0.0; }
        y * y;
      >
        0.0;
      }
    }
  }
}
