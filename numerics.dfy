/** The two numeric conversions the collector applies to RTT values. */
module Numerics {

  /** Ruby's `Float#round(2)`: to the nearest hundredth, halves away from zero. */
  function Round2(x: real): (r: real)
    ensures (r * 100.0).Floor as real == r * 100.0
    ensures -1.0 / 200.0 <= r - x <= 1.0 / 200.0
    ensures 0.0 <= x ==> 0.0 <= r
    ensures x <= 0.0 ==> r <= 0.0
  {
    var n := if x >= 0.0 then (x * 100.0 + 0.5).Floor else -(((-x) * 100.0 + 0.5).Floor);
    OnGrid(n);
    n as real / 100.0
  }

  /** A whole number of hundredths, scaled back up, is that whole number. */
  lemma OnGrid(n: int)
    ensures ((n as real / 100.0) * 100.0).Floor == n
  {
    assert (n as real / 100.0) * 100.0 == n as real;
  }

  /** Halves are rounded away from zero, so rounding commutes with negation. */
  lemma Round2Negate(x: real)
    ensures Round2(-x) == -Round2(x)
  {
  }

  /** Rounding never reverses the order of two values. */
  lemma Round2Monotone(x: real, y: real)
    requires x <= y
    ensures Round2(x) <= Round2(y)
  {
    if 0.0 <= x {
      assert (x * 100.0 + 0.5).Floor <= (y * 100.0 + 0.5).Floor;
    } else if y <= 0.0 {
      assert ((-y) * 100.0 + 0.5).Floor <= ((-x) * 100.0 + 0.5).Floor;
    }
  }

  /** A value already on the hundredths grid is left alone. */
  lemma Round2OfHundredths(n: int)
    ensures Round2(n as real / 100.0) == n as real / 100.0
  {
    var x := n as real / 100.0;
    if n >= 0 {
      assert x * 100.0 + 0.5 == n as real + 0.5;
      assert (x * 100.0 + 0.5).Floor == n;
    } else {
      assert (-x) * 100.0 + 0.5 == (-n) as real + 0.5;
      assert ((-x) * 100.0 + 0.5).Floor == -n;
    }
  }

  /**
   * Where rounding crosses a threshold on the hundredths grid: the rounded
   * value exceeds c/100 exactly when the value is at least half a hundredth above it.
   */
  lemma Round2Above(x: real, c: nat)
    ensures Round2(x) > c as real / 100.0 <==> x * 100.0 >= c as real + 0.5
  {
    if x >= 0.0 {
      var f := (x * 100.0 + 0.5).Floor;
      assert Round2(x) == f as real / 100.0;
      assert f as real / 100.0 > c as real / 100.0 <==> f >= c + 1;
      assert f >= c + 1 <==> x * 100.0 + 0.5 >= (c + 1) as real;
    }
  }

  /** Ruby's `Numeric#to_i`: truncation toward zero. */
  function Truncate(x: real): (r: int)
    ensures 0.0 <= x ==> 0 <= r && r as real <= x < r as real + 1.0
    ensures x < 0.0 ==> r <= 0 && r as real - 1.0 < x <= r as real
  {
    if x >= 0.0 then x.Floor else -((-x).Floor)
  }
}
