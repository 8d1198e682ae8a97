/** Integer conversions used by the PHP sources, written out explicitly because
    Dafny's `/` on `int` is Euclidean while PHP's `(int)` cast truncates, `ceil`
    rounds up and `round` rounds half away from zero. */
module Numeric {

  function Abs(x: int): nat {
    if x < 0 then -x else x
  }

  /** `(int)(a / b)` in PHP: the quotient truncated toward zero. */
  function TruncDiv(a: int, b: int): (q: int)
    requires b > 0
    ensures Abs(q) * b <= Abs(a) < (Abs(q) + 1) * b
    ensures a >= 0 ==> q >= 0
    ensures a <= 0 ==> q <= 0
  {
    if a >= 0 then
      DivBounds(a, b);
      a / b
    else
      DivBounds(-a, b);
      -((-a) / b)
  }

  /** The floor quotient of a natural number brackets it. */
  lemma DivBounds(a: nat, b: int)
    requires b > 0
    ensures a / b >= 0 && (a / b) * b <= a < (a / b + 1) * b
  {
    assert a == (a / b) * b + a % b;
  }

  /** `(int)ceil(a / b)` in PHP: the least integer not below a / b. */
  function CeilDiv(a: int, b: int): (q: int)
    requires b > 0
    ensures (q - 1) * b < a <= q * b
  {
    -((-a) / b)
  }

  /** PHP `round($x)` on an exact value: nearest integer, halves away from zero. */
  function RoundHalfAway(x: real): (r: int)
    ensures x - 0.5 <= r as real <= x + 0.5
    ensures x >= 0.0 ==> r as real > x - 0.5
    ensures x <= 0.0 ==> (r as real) < x + 0.5
  {
    if x >= 0.0 then (x + 0.5).Floor else -((-x + 0.5).Floor)
  }

  /** `r` is `x` rounded to two decimals with halves away from zero: a whole
      number of hundredths, within half a hundredth of `x`, and on the far
      side of zero when `x` lies exactly halfway. */
  predicate RoundedTo2(r: real, x: real) {
    && (r * 100.0).Floor as real == r * 100.0
    && x - 0.005 <= r <= x + 0.005
    && (x >= 0.0 ==> r > x - 0.005)
    && (x <= 0.0 ==> r < x + 0.005)
  }

  /** PHP `round($x, 2)` on an exact value. */
  function Round2(x: real): (r: real)
    ensures RoundedTo2(r, x)
  {
    var n := RoundHalfAway(x * 100.0);
    assert (n as real / 100.0) * 100.0 == n as real;
    n as real / 100.0
  }

  /** Two-place rounding has one answer: whatever meets `RoundedTo2` is what
      `Round2` returns. */
  lemma Round2Unique(r: real, x: real)
    requires RoundedTo2(r, x)
    ensures r == Round2(x)
  {
    var q := Round2(x);
    var n := (r * 100.0).Floor;
    var m := (q * 100.0).Floor;
    assert n as real == r * 100.0 && m as real == q * 100.0;
    assert -1.0 < n as real - m as real < 1.0;
    assert n == m;
  }

  function Max(a: int, b: int): (m: int)
    ensures m >= a && m >= b && (m == a || m == b)
  {
    if a >= b then a else b
  }
}
