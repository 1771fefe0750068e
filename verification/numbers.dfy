/** Python's numeric conversions on exact reals: `abs`, `round`, `int()` and
    powers of ten. Dafny's reals are exact, so binary floating-point effects
    are not modelled (see README, Left out).
 */
module Numbers {

  function Abs(x: int): nat
  {
    if x < 0 then -x else x
  }

  function AbsReal(x: real): real
  {
    if x < 0.0 then -x else x
  }

  function MinReal(a: real, b: real): real
  {
    if a <= b then a else b
  }

  lemma MulNonnegative(a: real, b: real)
    requires a >= 0.0 && b >= 0.0
    ensures a * b >= 0.0
  {
  }

  lemma MulPositive(a: real, b: real)
    requires a > 0.0 && b > 0.0
    ensures a * b > 0.0
  {
  }

  /** Python's `round(x)`: the nearest integer, ties going to the even one. */
  function Round(x: real): (n: int)
    ensures x - 0.5 <= n as real <= x + 0.5
    ensures n as real - x == 0.5 || x - n as real == 0.5 ==> n % 2 == 0
  {
    var f := x.Floor;
    var d := x - f as real;
    if d < 0.5 then f
    else if d > 0.5 then f + 1
    else if f % 2 == 0 then f
    else f + 1
  }

  /** Rounding an integral value gives that value back. */
  lemma RoundIntegral(k: int)
    ensures Round(k as real) == k
  {
  }

  /** Rounding stays between two integer bounds of its argument. */
  lemma RoundBetween(x: real, lo: int, hi: int)
    requires lo as real <= x <= hi as real
    ensures lo <= Round(x) <= hi
  {
  }

  /** Rounding never reverses the order of two values. */
  lemma RoundMonotone(x: real, y: real)
    requires x <= y
    ensures Round(x) <= Round(y)
  {
  }

  /** Python's `int(x)` on a float: truncation toward zero. */
  function Trunc(x: real): (n: int)
    ensures x >= 0.0 ==> 0 <= n && n as real <= x < n as real + 1.0
    ensures x < 0.0 ==> n <= 0 && n as real - 1.0 < x <= n as real
  {
    if x >= 0.0 then x.Floor else -((-x).Floor)
  }

  /** Truncating an integral value gives that value back. */
  lemma TruncIntegral(k: int)
    ensures Trunc(k as real) == k
  {
    if k < 0 {
      assert -(k as real) == (-k) as real;
    }
  }

  function Pow10(n: nat): (p: nat)
    ensures p >= 1
  {
    if n == 0 then 1 else 10 * Pow10(n - 1)
  }

  /** `v / 10**places`: the decimal point moved `places` digits left. */
  function Shift(v: real, places: nat): (r: real)
    ensures v >= 0.0 ==> 0.0 <= r <= v
    ensures v > 0.0 ==> r > 0.0
  {
    v / Pow10(places) as real
  }
}
