/** Python's `round`, on exact values rather than binary floats. */
module Rounding {

  /** `round(x)`: the nearest integer, ties to the even neighbour. */
  function RoundHalfEven(x: real): (n: int)
    ensures n as real - 0.5 <= x <= n as real + 0.5
    ensures x == n as real - 0.5 || x == n as real + 0.5 ==> n % 2 == 0
  {
    var f := x.Floor;
    var frac := x - f as real;
    if frac < 0.5 then f
    else if frac > 0.5 then f + 1
    else if f % 2 == 0 then f else f + 1
  }

  /** An integer is its own rounding. */
  lemma RoundHalfEvenOfInt(k: int)
    ensures RoundHalfEven(k as real) == k
  {
    var n := RoundHalfEven(k as real);
    assert (n - k) as real <= 0.5 && (k - n) as real <= 0.5;
  }

  /** `round(minutes / 60, 2)` counted in hundredths of an hour. A whole
      number of minutes is never exactly half-way between two hundredths,
      so the result is within a third of a hundredth of the exact value. */
  function MinutesToCentihours(minutes: nat): (c: nat)
    ensures 3 * c - 1 <= 5 * minutes <= 3 * c + 1
  {
    var c := RoundHalfEven(minutes as real * 100.0 / 60.0);
    assert 3 * c - 1 <= 5 * minutes <= 3 * c + 1 by {
      var q := 5 * minutes / 3;
      var x := minutes as real * 100.0 / 60.0;
      assert x == (5 * minutes) as real / 3.0;
      assert 5 * minutes == 3 * q + 5 * minutes % 3;
    }
    c
  }

  /** More minutes never round to fewer hundredths. */
  lemma MinutesToCentihoursMonotone(a: nat, b: nat)
    requires a <= b
    ensures MinutesToCentihours(a) <= MinutesToCentihours(b)
  {
  }

  /** Whole hours convert exactly. */
  lemma MinutesToCentihoursWholeHours(h: nat)
    ensures MinutesToCentihours(60 * h) == 100 * h
  {
  }
}
