/** One evaluation of the attendance dashboard: from the four inputs to the
    values it displays (current percentage, eligibility, the one prediction
    that applies, and the four-bar projection chart). */
module Dashboard {
  import opened Percentage
  import opened Searches

  datatype Option<T> = None | Some(value: T)

  /** The scenarios of the projection chart, in the order it shows them. */
  datatype Scenario = CurrentPct | TargetPct | AttendAll(upcoming: int) | MissAll(upcoming: int)

  /** One bar of the projection chart. */
  datatype Bar = Bar(scenario: Scenario, percentage: real)

  /** Everything the dashboard shows for one set of inputs. Exactly one of
      `needed` and `canMiss` is present, as `meetsTarget` selects. */
  datatype Report = Report(
    current: real,
    meetsTarget: bool,
    needed: Option<int>,
    canMiss: Option<int>,
    projection: seq<Bar>)

  /** The projection chart: current, target, attending every upcoming class
      and missing every upcoming class. Missing them all never shows more
      than now or than attending them all, and the two outcomes differ by
      exactly the upcoming classes' share of the new total. */
  function Projection(attended: int, total: int, target: int, future: int): (bars: seq<Bar>)
    requires attended >= 0 && total >= 1 && future >= 1
    ensures |bars| == 4
    ensures bars[0] == Bar(CurrentPct, Percent(attended, total))
    ensures bars[1] == Bar(TargetPct, target as real)
    ensures bars[2] == Bar(AttendAll(future), Percent(attended + future, total + future))
    ensures bars[3] == Bar(MissAll(future), Percent(attended, total + future))
    ensures bars[3].percentage <= bars[0].percentage
    ensures bars[3].percentage <= bars[2].percentage
    ensures bars[2].percentage - bars[3].percentage == Percent(future, total + future)
  {
    PercentAntitoneInTotal(attended, total, total + future);
    PercentDifference(attended, future, total + future);
    PercentNonNegative(future, total + future);
    [ Bar(CurrentPct, Percent(attended, total)),
      Bar(TargetPct, target as real),
      Bar(AttendAll(future), Percent(attended + future, total + future)),
      Bar(MissAll(future), Percent(attended, total + future)) ]
  }

  /** One run of the dashboard script. Nothing is shown unless the total is
      positive. The prediction panel runs the classes-needed search when the
      percentage is below the target and the classes-can-miss search
      otherwise, matching the eligibility banner. */
  method Evaluate(attended: int, total: int, target: int, future: int) returns (report: Option<Report>)
    requires attended >= 0 && 1 <= target <= 100 && future >= 1
    requires total <= 0 || target < 100 || attended >= total
    ensures total <= 0 ==> report.None?
    ensures total >= 1 ==>
      && report.Some?
      && report.value.current == Percent(attended, total)
      && (report.value.meetsTarget <==> 100 * attended >= target * total)
      && (report.value.needed.Some? <==> !report.value.meetsTarget)
      && (report.value.canMiss.Some? <==> report.value.meetsTarget)
      && (report.value.needed.Some? ==>
            report.value.needed.value >= 1
            && IsLeastNeeded(attended, total, target, report.value.needed.value))
      && (report.value.canMiss.Some? ==>
            report.value.canMiss.value >= 0
            && IsMostMissable(attended, total, target, report.value.canMiss.value))
      && report.value.projection == Projection(attended, total, target, future)
  {
    if total <= 0 {
      return None;
    }
    var percentage := Percent(attended, total);
    var meetsTarget := percentage >= target as real;
    MeetsTargetIff(attended, total, target);

    var needed: Option<int> := None;
    if percentage < target as real {
      var n := ClassesNeeded(attended, total, target);
      needed := Some(n);
    }

    var canMiss: Option<int> := None;
    if percentage >= target as real {
      var m := ClassesCanMiss(attended, total, target);
      canMiss := Some(m);
    }

    report := Some(Report(percentage, meetsTarget, needed, canMiss,
                          Projection(attended, total, target, future)));
  }

  /** The "attend all" bar reaches the target exactly when the upcoming
      classes are at least the number the classes-needed search reports. */
  lemma AttendAllMeetsIffEnough(attended: int, total: int, target: int, future: int, needed: int)
    requires total >= 1 && target <= 100 && future >= 0
    requires IsLeastNeeded(attended, total, target, needed)
    ensures MeetsTarget(attended + future, total + future, target) <==> future >= needed
    ensures attended >= 0 && future >= 1 ==>
      (Projection(attended, total, target, future)[2].percentage >= target as real <==> future >= needed)
  {
    MeetsTargetIff(attended + future, total + future, target);
    if future >= needed {
      AttendMonotone(attended, total, target, needed, future);
    } else {
      assert !MeetsAfterAttending(attended, total, target, future);
    }
  }

  /** The "miss all" bar stays at the target exactly when the upcoming
      classes are at most the number the classes-can-miss search reports. */
  lemma MissAllMeetsIffWithin(attended: int, total: int, target: int, future: int, canMiss: int)
    requires total >= 1 && target >= 1 && future >= 0
    requires IsMostMissable(attended, total, target, canMiss)
    ensures MeetsTarget(attended, total + future, target) <==> future <= canMiss
    ensures attended >= 0 && future >= 1 ==>
      (Projection(attended, total, target, future)[3].percentage >= target as real <==> future <= canMiss)
  {
    MeetsTargetIff(attended, total + future, target);
    if future <= canMiss {
      assert MeetsAfterMissing(attended, total, target, future);
    } else {
      MissMonotone(attended, total, target, canMiss + 1, future);
    }
  }
}
