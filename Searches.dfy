/** The two step-by-step searches of the dashboard's predictions panel.

    ClassesNeeded attends one more class per step (attended and total both
    grow) until the percentage reaches the target. ClassesCanMiss skips one
    more class per step (only total grows) while the percentage stays at or
    above the target, and then takes one off the count. */
module Searches {
  import opened Percentage

  /** The eligibility test after attending k more classes in a row. */
  predicate MeetsAfterAttending(attended: int, total: int, target: int, k: int)
  {
    MeetsTarget(attended + k, total + k, target)
  }

  /** The eligibility test after missing k more classes in a row. */
  predicate MeetsAfterMissing(attended: int, total: int, target: int, k: int)
  {
    MeetsTarget(attended, total + k, target)
  }

  /** n is the fewest consecutive attended classes that bring the percentage
      up to the target: after n it is reached, after any fewer it is not. */
  predicate IsLeastNeeded(attended: int, total: int, target: int, n: int)
  {
    && n >= 0
    && MeetsAfterAttending(attended, total, target, n)
    && forall k :: 0 <= k < n ==> !MeetsAfterAttending(attended, total, target, k)
  }

  /** m is the most consecutive missed classes that keep the percentage at or
      above the target (m = -1 when it is already below): every count of
      misses up to m keeps it, one more does not. */
  predicate IsMostMissable(attended: int, total: int, target: int, m: int)
  {
    && m >= -1
    && (forall k :: 0 <= k <= m ==> MeetsAfterMissing(attended, total, target, k))
    && !MeetsAfterMissing(attended, total, target, m + 1)
  }

  /** After k attended classes the target is met exactly when the k steps,
      each closing the gap by 100 - target, have closed the initial gap. */
  lemma AttendStepIff(attended: int, total: int, target: int, k: int)
    requires total > 0 && k >= 0
    ensures MeetsAfterAttending(attended, total, target, k)
        <==> (100 - target) * k >= target * total - 100 * attended
  {
    assert target * (total + k) == target * total + target * k;
    assert (100 - target) * k == 100 * k - target * k;
  }

  /** After k missed classes the target is still met exactly when the k
      steps, each costing target, fit within the initial surplus. */
  lemma MissStepIff(attended: int, total: int, target: int, k: int)
    requires total > 0 && k >= 0
    ensures MeetsAfterMissing(attended, total, target, k)
        <==> target * k <= 100 * attended - target * total
  {
    assert target * (total + k) == target * total + target * k;
  }

  /** Multiplying by a non-negative factor keeps the order. */
  lemma MulMonotone(c: int, x: int, y: int)
    requires c >= 0 && x <= y
    ensures c * x <= c * y
  {
    assert c * y - c * x == c * (y - x);
  }

  /** The classes-needed search, as the dashboard runs it. It stops only when
      the target is reachable: a target below 100, or a current count that
      is already at least the total. */
  method ClassesNeeded(attended: int, total: int, target: int) returns (needed: int)
    requires attended >= 0 && total >= 1 && 1 <= target <= 100
    requires target < 100 || attended >= total
    ensures IsLeastNeeded(attended, total, target, needed)
    ensures !MeetsTarget(attended, total, target) ==> needed >= 1
    ensures target < 100 ==> needed == NeededFormula(attended, total, target)
  {
    needed := 0;
    var futureAttended := attended;
    var futureTotal := total;
    MeetsTargetIff(futureAttended, futureTotal, target);
    while Percent(futureAttended, futureTotal) < target as real
      invariant futureAttended == attended + needed && futureTotal == total + needed
      invariant futureAttended - futureTotal == attended - total && needed >= 0
      invariant forall k :: 0 <= k < needed ==> !MeetsAfterAttending(attended, total, target, k)
      invariant Percent(futureAttended, futureTotal) >= target as real
            <==> MeetsTarget(futureAttended, futureTotal, target)
      decreases target * futureTotal - 100 * futureAttended
    {
      assert !MeetsAfterAttending(attended, total, target, needed);
      needed := needed + 1;
      futureAttended := futureAttended + 1;
      futureTotal := futureTotal + 1;
      assert target * futureTotal == target * (futureTotal - 1) + target;
      MeetsTargetIff(futureAttended, futureTotal, target);
    }
    assert MeetsAfterAttending(attended, total, target, needed);
    if target < 100 {
      NeededFormulaIsLeast(attended, total, target);
      LeastNeededUnique(attended, total, target, needed, NeededFormula(attended, total, target));
    }
  }

  /** The classes-can-miss search, as the dashboard runs it, including the
      final decrement. It stops because every miss lowers the percentage by
      a positive step while the target is at least 1. */
  method ClassesCanMiss(attended: int, total: int, target: int) returns (canMiss: int)
    requires attended >= 0 && total >= 1 && 1 <= target <= 100
    ensures IsMostMissable(attended, total, target, canMiss)
    ensures MeetsTarget(attended, total, target) <==> canMiss >= 0
    ensures canMiss == MissFormula(attended, total, target)
  {
    canMiss := 0;
    var futureAttended := attended;
    var futureTotal := total;
    MeetsTargetIff(futureAttended, futureTotal, target);
    while Percent(futureAttended, futureTotal) >= target as real
      invariant futureAttended == attended
      invariant futureTotal == total + canMiss && canMiss >= 0
      invariant forall k :: 0 <= k < canMiss ==> MeetsAfterMissing(attended, total, target, k)
      invariant Percent(futureAttended, futureTotal) >= target as real
            <==> MeetsTarget(futureAttended, futureTotal, target)
      decreases 100 * futureAttended - target * futureTotal
    {
      assert MeetsAfterMissing(attended, total, target, canMiss);
      canMiss := canMiss + 1;
      futureTotal := futureTotal + 1;
      assert target * futureTotal == target * (futureTotal - 1) + target;
      MeetsTargetIff(futureAttended, futureTotal, target);
    }
    assert !MeetsAfterMissing(attended, total, target, canMiss);
    canMiss := canMiss - 1;
    MissFormulaIsMost(attended, total, target);
    MostMissableUnique(attended, total, target, canMiss, MissFormula(attended, total, target));
  }

  /** The closed form of the classes-needed count: the gap
      `target * total - 100 * attended`, divided by what one attended class
      closes, `100 - target`, rounded up; 0 when the target is already met. */
  function NeededFormula(attended: int, total: int, target: int): (n: int)
    requires target < 100
  {
    var gap := target * total - 100 * attended;
    if gap <= 0 then 0 else (gap + (100 - target) - 1) / (100 - target)
  }

  /** The closed form of the classes-can-miss count: the largest total the
      attended classes still cover, `(100 * attended) / target`, minus the
      current total; -1 when the target is already missed. */
  function MissFormula(attended: int, total: int, target: int): (m: int)
    requires target >= 1
  {
    var spare := (100 * attended) / target - total;
    if spare < -1 then -1 else spare
  }

  /** The closed form is the least number of classes needed. */
  lemma NeededFormulaIsLeast(attended: int, total: int, target: int)
    requires total >= 1 && 1 <= target < 100
    ensures IsLeastNeeded(attended, total, target, NeededFormula(attended, total, target))
  {
    var gap := target * total - 100 * attended;
    var d := 100 - target;
    var n := NeededFormula(attended, total, target);
    if gap <= 0 {
      AttendStepIff(attended, total, target, 0);
    } else {
      var q := gap + d - 1;
      var r := q % d;
      assert n == q / d;
      assert q == d * n + r && 0 <= r < d;
      assert d * (n - 1) == d * n - d;
      assert d * n >= gap && d * (n - 1) < gap;
      AttendStepIff(attended, total, target, n);
      forall k | 0 <= k < n
        ensures !MeetsAfterAttending(attended, total, target, k)
      {
        MulMonotone(d, k, n - 1);
        AttendStepIff(attended, total, target, k);
      }
    }
  }

  /** The closed form is the most classes that can be missed. */
  lemma MissFormulaIsMost(attended: int, total: int, target: int)
    requires attended >= 0 && total >= 1 && 1 <= target <= 100
    ensures IsMostMissable(attended, total, target, MissFormula(attended, total, target))
  {
    var c := 100 * attended;
    var q := c / target;
    assert c == target * q + c % target && 0 <= c % target < target;
    assert target * (q + 1) == target * q + target;
    var m := MissFormula(attended, total, target);
    assert m >= 0 ==> total + m == q;
    assert total + m + 1 >= q + 1;
    forall k | 0 <= k <= m
      ensures MeetsAfterMissing(attended, total, target, k)
    {
      MulMonotone(target, total + k, q);
      MissStepIff(attended, total, target, k);
    }
    MulMonotone(target, q + 1, total + m + 1);
    MissStepIff(attended, total, target, m + 1);
  }

  /** At most one count is the least number needed. */
  lemma LeastNeededUnique(attended: int, total: int, target: int, n1: int, n2: int)
    requires total > 0
    requires IsLeastNeeded(attended, total, target, n1)
    requires IsLeastNeeded(attended, total, target, n2)
    ensures n1 == n2
  {
  }

  /** At most one count is the most that can be missed. */
  lemma MostMissableUnique(attended: int, total: int, target: int, m1: int, m2: int)
    requires total > 0
    requires IsMostMissable(attended, total, target, m1)
    requires IsMostMissable(attended, total, target, m2)
    ensures m1 == m2
  {
  }

  /** With a target of 100 and fewer classes attended than held, no number of
      attended classes ever reaches the target: the search would not stop. */
  lemma FullTargetUnreachable(attended: int, total: int)
    requires total >= 1 && attended < total
    ensures forall n :: n >= 0 ==> !MeetsAfterAttending(attended, total, 100, n)
    ensures forall n :: !IsLeastNeeded(attended, total, 100, n)
  {
  }

  /** Once reached by attending classes, the target stays reached after
      attending more. */
  lemma AttendMonotone(attended: int, total: int, target: int, k: int, j: int)
    requires total > 0 && target <= 100 && 0 <= k <= j
    requires MeetsAfterAttending(attended, total, target, k)
    ensures MeetsAfterAttending(attended, total, target, j)
  {
    AttendStepIff(attended, total, target, k);
    AttendStepIff(attended, total, target, j);
    MulMonotone(100 - target, k, j);
  }

  /** Once lost by missing classes, the target stays lost after missing more. */
  lemma MissMonotone(attended: int, total: int, target: int, k: int, j: int)
    requires total > 0 && target >= 1 && 0 <= k <= j
    requires !MeetsAfterMissing(attended, total, target, k)
    ensures !MeetsAfterMissing(attended, total, target, j)
  {
    MissStepIff(attended, total, target, k);
    MissStepIff(attended, total, target, j);
    MulMonotone(target, k, j);
  }

  /** More classes attended so far never means more classes needed. */
  lemma NeededAntitoneInAttended(a1: int, a2: int, total: int, target: int, n1: int, n2: int)
    requires total > 0 && a1 <= a2
    requires IsLeastNeeded(a1, total, target, n1)
    requires IsLeastNeeded(a2, total, target, n2)
    ensures n2 <= n1
  {
    AttendStepIff(a1, total, target, n1);
    AttendStepIff(a2, total, target, n1);
  }

  /** More classes attended so far never means fewer classes that can be missed. */
  lemma CanMissMonotoneInAttended(a1: int, a2: int, total: int, target: int, m1: int, m2: int)
    requires total > 0 && a1 <= a2
    requires IsMostMissable(a1, total, target, m1)
    requires IsMostMissable(a2, total, target, m2)
    ensures m1 <= m2
  {
    if m2 < m1 {
      assert MeetsAfterMissing(a1, total, target, m2 + 1);
      MissStepIff(a1, total, target, m2 + 1);
      MissStepIff(a2, total, target, m2 + 1);
    }
  }

  /** 60 of 100 attended against a 75% target: 60 more classes are needed,
      since 120 of 160 is exactly 75%. */
  lemma NeededExample(n: int)
    requires IsLeastNeeded(60, 100, 75, n)
    ensures n == 60
  {
    NeededFormulaIsLeast(60, 100, 75);
    assert NeededFormula(60, 100, 75) == 60;
    LeastNeededUnique(60, 100, 75, n, 60);
  }

  /** 75 of 100 attended against a 75% target: no class can be missed,
      since 75 of 101 is below 75%. */
  lemma CanMissExampleAtTarget(m: int)
    requires IsMostMissable(75, 100, 75, m)
    ensures m == 0
  {
    MissFormulaIsMost(75, 100, 75);
    assert MissFormula(75, 100, 75) == 0;
    MostMissableUnique(75, 100, 75, m, 0);
  }

  /** 20 of 20 attended against a 75% target: 6 classes can be missed,
      since 20 of 26 stays above 75% and 20 of 27 does not. */
  lemma CanMissExampleFull(m: int)
    requires IsMostMissable(20, 20, 75, m)
    ensures m == 6
  {
    MissFormulaIsMost(20, 20, 75);
    assert MissFormula(20, 20, 75) == 6;
    MostMissableUnique(20, 20, 75, m, 6);
  }
}
