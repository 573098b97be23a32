/** Attendance percentages and the eligibility test.

    The dashboard computes `(attended / total) * 100` with true division and
    compares it with the target. Here that value is an exact `real`, so each
    comparison is the exact rational comparison (no float rounding). */
module Percentage {

  /** `(x / y) * 100`: the attendance percentage of x classes out of y. */
  function Percent(x: int, y: int): (r: real)
    requires y > 0
  {
    (x as real / y as real) * 100.0
  }

  /** The eligibility test, without division: x out of y is at least
      target percent. */
  predicate MeetsTarget(x: int, y: int, target: int)
  {
    100 * x >= target * y
  }

  /** Multiplying the quotient back by the divisor gives the dividend. */
  lemma QuotientTimesDivisor(x: int, y: int)
    requires y > 0
    ensures (x as real / y as real) * y as real == x as real
  {
  }

  /** The script's comparison `(x / y) * 100 >= target` is the eligibility test. */
  lemma MeetsTargetIff(x: int, y: int, target: int)
    requires y > 0
    ensures Percent(x, y) >= target as real <==> MeetsTarget(x, y, target)
  {
    var q := x as real / y as real;
    var d := y as real;
    QuotientTimesDivisor(x, y);
    assert q * d == x as real;
    if q * 100.0 >= target as real {
      assert q * 100.0 * d >= target as real * d;
      assert (100 * x) as real >= (target * y) as real;
    } else {
      assert q * 100.0 * d < target as real * d;
      assert (100 * x) as real < (target * y) as real;
    }
  }

  /** With a non-negative count, a larger divisor never raises the percentage. */
  lemma PercentAntitoneInTotal(x: int, y: int, z: int)
    requires x >= 0 && 0 < y <= z
    ensures Percent(x, z) <= Percent(x, y)
  {
    var qy := x as real / y as real;
    var qz := x as real / z as real;
    var d := y as real;
    var e := z as real;
    QuotientTimesDivisor(x, y);
    QuotientTimesDivisor(x, z);
    assert qz >= 0.0 && e - d >= 0.0;
    calc {
      qz * d;
      <= { assert qz * (e - d) >= 0.0; }
      qz * e;
      == x as real;
      == qy * d;
    }
    assert (qy - qz) * d >= 0.0;
  }

  /** Percentages over one divisor subtract as their counts do. */
  lemma PercentDifference(x: int, f: int, y: int)
    requires y > 0
    ensures Percent(x + f, y) - Percent(x, y) == Percent(f, y)
  {
    var d := y as real;
    QuotientTimesDivisor(x + f, y);
    QuotientTimesDivisor(x, y);
    QuotientTimesDivisor(f, y);
    var a := (x + f) as real / d;
    var b := x as real / d;
    var c := f as real / d;
    assert (a - b - c) * d == 0.0;
    assert a - b == c;
  }

  /** A non-negative count gives a non-negative percentage. */
  lemma PercentNonNegative(x: int, y: int)
    requires x >= 0 && y > 0
    ensures Percent(x, y) >= 0.0
  {
  }
}
