/** Daily and weekly overtime allocation (`calculate_daily_overtime`,
    `calculate_weekly_overtime`). Hours and thresholds are whole hundredths
    of an hour, so every `round(…, 2)` the allocation applies is exact and
    leaves its value unchanged. */
module Overtime {
  import opened Sums

  /** One day's hours divided into regular and overtime hours. */
  datatype Split = Split(regular: int, overtime: int) {
    function Total(): int {
      regular + overtime
    }
  }

  function Min(a: int, b: int): int {
    if a <= b then a else b
  }

  function Max(a: int, b: int): int {
    if a <= b then b else a
  }

  function RegularOf(s: Split): int {
    s.regular
  }

  function OvertimeOf(s: Split): int {
    s.overtime
  }

  function TotalOf(s: Split): int {
    s.Total()
  }

  function Identity(x: int): int {
    x
  }

  /** `calculate_daily_overtime`: hours up to the daily threshold are
      regular, the excess is overtime. */
  function DailySplit(hours: int, dailyThreshold: int): (s: Split)
    ensures s.Total() == hours
    ensures s.regular == Min(hours, dailyThreshold)
    ensures s.overtime == Max(0, hours - dailyThreshold)
  {
    if hours <= dailyThreshold then Split(hours, 0)
    else Split(dailyThreshold, hours - dailyThreshold)
  }

  /** One step of the weekly pass: when the day's regular hours would carry
      the running regular total past the weekly threshold, only what is left
      of the threshold stays regular and the rest becomes overtime. */
  function WeeklyStep(day: Split, cumulative: int, weeklyThreshold: int): (s: Split)
    ensures s.Total() == day.Total()
    ensures cumulative <= weeklyThreshold ==> s.regular <= day.regular
    ensures cumulative <= weeklyThreshold ==> cumulative + s.regular <= weeklyThreshold
    ensures 0 <= day.regular ==> 0 <= s.regular
  {
    if cumulative + day.regular > weeklyThreshold then
      var allowed := Max(0, weeklyThreshold - cumulative);
      Split(allowed, day.overtime + (day.regular - allowed))
    else day
  }

  /** The running regular total of the weekly pass after its first `k` days
      (`cumulative_regular` at the top of iteration `k`). */
  function RunningRegular(days: seq<int>, weeklyThreshold: int, dailyThreshold: int, k: nat): (c: int)
    requires k <= |days|
    ensures 0 <= weeklyThreshold ==> c <= weeklyThreshold
    decreases k
  {
    if k == 0 then 0
    else
      var before := RunningRegular(days, weeklyThreshold, dailyThreshold, k - 1);
      before + WeeklyStep(DailySplit(days[k - 1], dailyThreshold), before, weeklyThreshold).regular
  }

  /** Day `k` of the weekly pass: its daily split, adjusted against the
      running regular total of the days before it. */
  function WeeklyDay(days: seq<int>, weeklyThreshold: int, dailyThreshold: int, k: nat): (s: Split)
    requires k < |days|
    ensures s.Total() == days[k]
    ensures 0 <= weeklyThreshold ==>
              s.regular <= Min(days[k], dailyThreshold) && s.overtime >= Max(0, days[k] - dailyThreshold)
    ensures 0 <= dailyThreshold && 0 <= days[k] ==> 0 <= s.regular
  {
    WeeklyStep(DailySplit(days[k], dailyThreshold),
               RunningRegular(days, weeklyThreshold, dailyThreshold, k), weeklyThreshold)
  }

  /** `calculate_weekly_overtime`: one (regular, overtime) pair per day, in
      the order of the days, splitting each day's hours exactly. With a
      non-negative weekly threshold no day keeps more regular hours (or
      fewer overtime hours) than the daily rule alone gives it. */
  function WeeklySplit(days: seq<int>, weeklyThreshold: int, dailyThreshold: int): (r: seq<Split>)
    ensures |r| == |days|
    ensures forall i :: 0 <= i < |days| ==> r[i].Total() == days[i]
    ensures 0 <= weeklyThreshold ==>
              forall i :: 0 <= i < |days| ==>
                r[i].regular <= Min(days[i], dailyThreshold)
                && r[i].overtime >= Max(0, days[i] - dailyThreshold)
    ensures (0 <= dailyThreshold && forall i :: 0 <= i < |days| ==> 0 <= days[i]) ==>
              forall i :: 0 <= i < |days| ==> 0 <= r[i].regular
  {
    seq(|days|, (k: int) requires 0 <= k < |days| => WeeklyDay(days, weeklyThreshold, dailyThreshold, k))
  }

  /** The regular hours the weekly pass hands out over its first `k` days
      are its running total. */
  lemma WeeklyRegularPrefix(days: seq<int>, weeklyThreshold: int, dailyThreshold: int, k: nat)
    requires k <= |days|
    ensures SumBy(WeeklySplit(days, weeklyThreshold, dailyThreshold)[..k], RegularOf)
              == RunningRegular(days, weeklyThreshold, dailyThreshold, k)
  {
    DaysRegularPrefix(WeeklySplit(days, weeklyThreshold, dailyThreshold), days, weeklyThreshold, dailyThreshold, k);
  }

  /** `WeeklyRegularPrefix` for any sequence holding the weekly pass's days. */
  lemma {:induction false} DaysRegularPrefix(r: seq<Split>, days: seq<int>, weeklyThreshold: int, dailyThreshold: int, k: nat)
    requires |r| == |days| && k <= |days|
    requires forall i :: 0 <= i < |days| ==> r[i] == WeeklyDay(days, weeklyThreshold, dailyThreshold, i)
    ensures SumBy(r[..k], RegularOf) == RunningRegular(days, weeklyThreshold, dailyThreshold, k)
  {
    if k == 0 {
      assert r[..0] == [];
    } else {
      DaysRegularPrefix(r, days, weeklyThreshold, dailyThreshold, k - 1);
      SumByPrefixStep(r, k - 1, RegularOf);
      assert RegularOf(r[k - 1]) == WeeklyDay(days, weeklyThreshold, dailyThreshold, k - 1).regular;
    }
  }

  /** Cumulative regular hours over any prefix of the days stay within the
      weekly threshold; the threshold is never reset inside the range. */
  lemma WeeklyCap(days: seq<int>, weeklyThreshold: int, dailyThreshold: int, k: nat)
    requires 0 <= weeklyThreshold
    requires k <= |days|
    ensures SumBy(WeeklySplit(days, weeklyThreshold, dailyThreshold)[..k], RegularOf) <= weeklyThreshold
  {
    WeeklyRegularPrefix(days, weeklyThreshold, dailyThreshold, k);
  }

  // A reference definition of the weekly pass: the daily-rule regular hours
  // fill the weekly threshold in order, and whatever does not fit is overtime.

  /** The regular hours the daily rule alone gives a day. */
  function DailyRegular(dailyThreshold: int): int -> int {
    hours => Min(hours, dailyThreshold)
  }

  /** Daily-rule regular hours summed over `days`. */
  function DailyRegularSum(days: seq<int>, dailyThreshold: int): int {
    SumBy(days, DailyRegular(dailyThreshold))
  }

  /** How much of the weekly threshold the first `k` days fill. */
  function Filled(days: seq<int>, weeklyThreshold: int, dailyThreshold: int, k: nat): int
    requires k <= |days|
  {
    Min(DailyRegularSum(days[..k], dailyThreshold), weeklyThreshold)
  }

  /** Day `i` is regular for exactly the part of the threshold it fills. */
  function ReferenceSplit(days: seq<int>, weeklyThreshold: int, dailyThreshold: int, i: nat): Split
    requires i < |days|
  {
    var regular := Filled(days, weeklyThreshold, dailyThreshold, i + 1)
                   - Filled(days, weeklyThreshold, dailyThreshold, i);
    Split(regular, days[i] - regular)
  }

  /** One weekly step moves the running regular total from
      `min(sum, threshold)` to `min(sum + regular, threshold)`. */
  lemma WeeklyStepFills(day: Split, sum: int, weeklyThreshold: int)
    requires 0 <= weeklyThreshold && 0 <= sum && 0 <= day.regular
    ensures Min(sum, weeklyThreshold) + WeeklyStep(day, Min(sum, weeklyThreshold), weeklyThreshold).regular
              == Min(sum + day.regular, weeklyThreshold)
  {
  }

  /** For non-negative hours and thresholds the running regular total is
      the filled part of the weekly threshold. */
  lemma {:induction false} RunningRegularIsFilled(days: seq<int>, weeklyThreshold: int, dailyThreshold: int, k: nat)
    requires 0 <= weeklyThreshold && 0 <= dailyThreshold
    requires forall i :: 0 <= i < |days| ==> 0 <= days[i]
    requires k <= |days|
    ensures 0 <= DailyRegularSum(days[..k], dailyThreshold)
    ensures RunningRegular(days, weeklyThreshold, dailyThreshold, k) == Filled(days, weeklyThreshold, dailyThreshold, k)
  {
    if k == 0 {
      assert days[..0] == [];
    } else {
      RunningRegularIsFilled(days, weeklyThreshold, dailyThreshold, k - 1);
      SumByPrefixStep(days, k - 1, DailyRegular(dailyThreshold));
      var sum := DailyRegularSum(days[..k - 1], dailyThreshold);
      WeeklyStepFills(DailySplit(days[k - 1], dailyThreshold), sum, weeklyThreshold);
    }
  }

  /** For non-negative hours and thresholds the weekly pass is the
      reference allocation, day by day. */
  lemma WeeklyMatchesReference(days: seq<int>, weeklyThreshold: int, dailyThreshold: int)
    requires 0 <= weeklyThreshold && 0 <= dailyThreshold
    requires forall i :: 0 <= i < |days| ==> 0 <= days[i]
    ensures forall i :: 0 <= i < |days| ==>
              WeeklySplit(days, weeklyThreshold, dailyThreshold)[i] == ReferenceSplit(days, weeklyThreshold, dailyThreshold, i)
  {
    forall i | 0 <= i < |days|
      ensures WeeklySplit(days, weeklyThreshold, dailyThreshold)[i] == ReferenceSplit(days, weeklyThreshold, dailyThreshold, i)
    {
      WeeklyDayIsReference(days, weeklyThreshold, dailyThreshold, i);
    }
  }

  /** Day `i` of the weekly pass is the reference split of day `i`. */
  lemma WeeklyDayIsReference(days: seq<int>, weeklyThreshold: int, dailyThreshold: int, i: nat)
    requires 0 <= weeklyThreshold && 0 <= dailyThreshold
    requires forall i :: 0 <= i < |days| ==> 0 <= days[i]
    requires i < |days|
    ensures WeeklyDay(days, weeklyThreshold, dailyThreshold, i) == ReferenceSplit(days, weeklyThreshold, dailyThreshold, i)
  {
    RunningRegularIsFilled(days, weeklyThreshold, dailyThreshold, i);
    RunningRegularIsFilled(days, weeklyThreshold, dailyThreshold, i + 1);
    assert RunningRegular(days, weeklyThreshold, dailyThreshold, i + 1)
        == RunningRegular(days, weeklyThreshold, dailyThreshold, i)
           + WeeklyDay(days, weeklyThreshold, dailyThreshold, i).regular;
  }

  /** Over the whole range the regular hours are the daily-rule regular
      hours capped once by the weekly threshold; the rest is overtime. */
  lemma WeeklyTotals(days: seq<int>, weeklyThreshold: int, dailyThreshold: int)
    requires 0 <= weeklyThreshold && 0 <= dailyThreshold
    requires forall i :: 0 <= i < |days| ==> 0 <= days[i]
    ensures SumBy(WeeklySplit(days, weeklyThreshold, dailyThreshold), RegularOf)
              == Min(DailyRegularSum(days, dailyThreshold), weeklyThreshold)
    ensures SumBy(WeeklySplit(days, weeklyThreshold, dailyThreshold), OvertimeOf)
              == SumBy(days, Identity) - Min(DailyRegularSum(days, dailyThreshold), weeklyThreshold)
  {
    var r := WeeklySplit(days, weeklyThreshold, dailyThreshold);
    assert r[..|days|] == r && days[..|days|] == days;
    WeeklyRegularPrefix(days, weeklyThreshold, dailyThreshold, |days|);
    RunningRegularIsFilled(days, weeklyThreshold, dailyThreshold, |days|);
    SumByPlus(r, RegularOf, OvertimeOf, TotalOf);
    SumByCorresponding(r, TotalOf, days, Identity);
  }

  /** When no day passes the daily threshold and the range's hours stay
      within the weekly threshold, nothing is overtime. */
  lemma NoOvertimeUnderThresholds(days: seq<int>, weeklyThreshold: int, dailyThreshold: int)
    requires 0 <= dailyThreshold
    requires forall i :: 0 <= i < |days| ==> 0 <= days[i] <= dailyThreshold
    requires SumBy(days, Identity) <= weeklyThreshold
    ensures forall i :: 0 <= i < |days| ==> WeeklySplit(days, weeklyThreshold, dailyThreshold)[i] == Split(days[i], 0)
  {
    SumByNonNegative(days, Identity);
    WeeklyMatchesReference(days, weeklyThreshold, dailyThreshold);
    forall k | 0 <= k <= |days|
      ensures Filled(days, weeklyThreshold, dailyThreshold, k) == SumBy(days[..k], Identity)
    {
      SumByCorresponding(days[..k], DailyRegular(dailyThreshold), days[..k], Identity);
      SumByPrefixAtMost(days, k, Identity);
    }
    forall i | 0 <= i < |days|
      ensures WeeklySplit(days, weeklyThreshold, dailyThreshold)[i] == Split(days[i], 0)
    {
      SumByPrefixStep(days, i, Identity);
    }
  }

  /** While a day's daily-rule regular hours still fit under the weekly
      threshold, the weekly pass leaves the day's daily split alone. */
  lemma ThresholdNotReached(days: seq<int>, weeklyThreshold: int, dailyThreshold: int, k: nat)
    requires k < |days|
    requires RunningRegular(days, weeklyThreshold, dailyThreshold, k) + Min(days[k], dailyThreshold) <= weeklyThreshold
    ensures WeeklySplit(days, weeklyThreshold, dailyThreshold)[k] == DailySplit(days[k], dailyThreshold)
  {
    assert WeeklySplit(days, weeklyThreshold, dailyThreshold)[k] == WeeklyDay(days, weeklyThreshold, dailyThreshold, k);
  }

  /** The day whose daily-rule regular hours cross the weekly threshold
      keeps as regular only what is left of the threshold. */
  lemma ThresholdCrossed(days: seq<int>, weeklyThreshold: int, dailyThreshold: int, k: nat)
    requires k < |days|
    requires RunningRegular(days, weeklyThreshold, dailyThreshold, k) <= weeklyThreshold
    requires weeklyThreshold < RunningRegular(days, weeklyThreshold, dailyThreshold, k) + Min(days[k], dailyThreshold)
    ensures WeeklySplit(days, weeklyThreshold, dailyThreshold)[k]
              == var left := weeklyThreshold - RunningRegular(days, weeklyThreshold, dailyThreshold, k);
                 Split(left, days[k] - left)
  {
    assert WeeklySplit(days, weeklyThreshold, dailyThreshold)[k] == WeeklyDay(days, weeklyThreshold, dailyThreshold, k);
  }

  /** Once the running regular total has reached the weekly threshold, a
      day with non-negative hours is all overtime. */
  lemma ThresholdReached(days: seq<int>, weeklyThreshold: int, dailyThreshold: int, k: nat)
    requires k < |days|
    requires 0 <= dailyThreshold && 0 <= days[k]
    requires weeklyThreshold <= RunningRegular(days, weeklyThreshold, dailyThreshold, k)
    ensures WeeklySplit(days, weeklyThreshold, dailyThreshold)[k] == Split(0, days[k])
  {
    assert WeeklySplit(days, weeklyThreshold, dailyThreshold)[k] == WeeklyDay(days, weeklyThreshold, dailyThreshold, k);
  }

  /** Five ten-hour days against 8-hour and 40-hour thresholds: the daily
      rule already leaves exactly 40 regular hours, so every day is 8 regular
      and 2 overtime. */
  lemma FiveTenHourDays(days: seq<int>)
    requires days == [1000, 1000, 1000, 1000, 1000]
    ensures WeeklySplit(days, 4000, 800)
              == [Split(800, 200), Split(800, 200), Split(800, 200), Split(800, 200), Split(800, 200)]
  {
    assert RunningRegular(days, 4000, 800, 0) == 0;
    assert RunningRegular(days, 4000, 800, 1) == 800;
    assert RunningRegular(days, 4000, 800, 2) == 1600;
    assert RunningRegular(days, 4000, 800, 3) == 2400;
    assert RunningRegular(days, 4000, 800, 4) == 3200;
  }

  /** Five full days then a half day: the half day crosses the weekly
      threshold and is all overtime. */
  lemma HalfDayLast(days: seq<int>)
    requires days == [800, 800, 800, 800, 800, 400]
    ensures WeeklySplit(days, 4000, 800)[5] == Split(0, 400)
  {
    assert RunningRegular(days, 4000, 800, 0) == 0;
    assert RunningRegular(days, 4000, 800, 1) == 800;
    assert RunningRegular(days, 4000, 800, 2) == 1600;
    assert RunningRegular(days, 4000, 800, 3) == 2400;
    assert RunningRegular(days, 4000, 800, 4) == 3200;
    assert RunningRegular(days, 4000, 800, 5) == 4000;
    ThresholdReached(days, 4000, 800, 5);
  }

  /** The same days reversed: the half day is now all regular and the last
      full day absorbs the reclassified hours instead. */
  lemma HalfDayFirst(days: seq<int>)
    requires days == [400, 800, 800, 800, 800, 800]
    ensures WeeklySplit(days, 4000, 800)[0] == Split(400, 0)
    ensures WeeklySplit(days, 4000, 800)[5] == Split(400, 400)
  {
    assert RunningRegular(days, 4000, 800, 0) == 0;
    assert RunningRegular(days, 4000, 800, 1) == 400;
    assert RunningRegular(days, 4000, 800, 2) == 1200;
    assert RunningRegular(days, 4000, 800, 3) == 2000;
    assert RunningRegular(days, 4000, 800, 4) == 2800;
    assert RunningRegular(days, 4000, 800, 5) == 3600;
    ThresholdNotReached(days, 4000, 800, 0);
    ThresholdCrossed(days, 4000, 800, 5);
  }

  /** The threshold is not reset after seven days: with eight 8-hour days
      at 8/40 the fifth day is all regular and the sixth, seventh and eighth
      days are all overtime. */
  lemma NoWeeklyReset(days: seq<int>)
    requires |days| == 8 && forall i :: 0 <= i < 8 ==> days[i] == 800
    ensures WeeklySplit(days, 4000, 800)[4] == Split(800, 0)
    ensures forall k :: 5 <= k < 8 ==> WeeklySplit(days, 4000, 800)[k] == Split(0, 800)
  {
    EightDaysRunning(days);
    ThresholdNotReached(days, 4000, 800, 4);
    AllOvertimeAfterCap(days, 4000, 800, 5);
  }

  /** The running regular total of eight 8-hour days at 8/40 reaches the
      weekly threshold after five days. */
  lemma EightDaysRunning(days: seq<int>)
    requires |days| == 8 && forall i :: 0 <= i < 8 ==> days[i] == 800
    ensures RunningRegular(days, 4000, 800, 4) == 3200
    ensures RunningRegular(days, 4000, 800, 5) == 4000
  {
    CapNotReached(days, 4000, 800, 0);
    CapNotReached(days, 4000, 800, 1);
    CapNotReached(days, 4000, 800, 2);
    CapNotReached(days, 4000, 800, 3);
    CapNotReached(days, 4000, 800, 4);
  }

  /** A day that does not cross the weekly threshold adds its daily-rule
      regular hours to the running total. */
  lemma CapNotReached(days: seq<int>, weeklyThreshold: int, dailyThreshold: int, k: nat)
    requires k < |days|
    requires RunningRegular(days, weeklyThreshold, dailyThreshold, k) + Min(days[k], dailyThreshold) <= weeklyThreshold
    ensures RunningRegular(days, weeklyThreshold, dailyThreshold, k + 1)
              == RunningRegular(days, weeklyThreshold, dailyThreshold, k) + Min(days[k], dailyThreshold)
  {
    assert RunningRegular(days, weeklyThreshold, dailyThreshold, k + 1)
        == RunningRegular(days, weeklyThreshold, dailyThreshold, k) + WeeklyDay(days, weeklyThreshold, dailyThreshold, k).regular;
  }

  /** Once the running total has reached the weekly threshold it stays
      where it is: later days add no regular hours. */
  lemma {:induction false} CapHolds(days: seq<int>, weeklyThreshold: int, dailyThreshold: int, k: nat, j: nat)
    requires k <= j <= |days|
    requires 0 <= dailyThreshold && forall i :: k <= i < |days| ==> 0 <= days[i]
    requires weeklyThreshold <= RunningRegular(days, weeklyThreshold, dailyThreshold, k)
    ensures RunningRegular(days, weeklyThreshold, dailyThreshold, j) == RunningRegular(days, weeklyThreshold, dailyThreshold, k)
    decreases j - k
  {
    if j > k {
      CapHolds(days, weeklyThreshold, dailyThreshold, k, j - 1);
      assert RunningRegular(days, weeklyThreshold, dailyThreshold, j)
          == RunningRegular(days, weeklyThreshold, dailyThreshold, j - 1) + WeeklyDay(days, weeklyThreshold, dailyThreshold, j - 1).regular;
    }
  }

  /** Once the weekly threshold is reached, every later day of the range is
      all overtime: nothing resets the running total. */
  lemma AllOvertimeAfterCap(days: seq<int>, weeklyThreshold: int, dailyThreshold: int, k: nat)
    requires k <= |days|
    requires 0 <= dailyThreshold && forall i :: k <= i < |days| ==> 0 <= days[i]
    requires weeklyThreshold <= RunningRegular(days, weeklyThreshold, dailyThreshold, k)
    ensures forall j :: k <= j < |days| ==> WeeklySplit(days, weeklyThreshold, dailyThreshold)[j] == Split(0, days[j])
  {
    forall j | k <= j < |days|
      ensures WeeklySplit(days, weeklyThreshold, dailyThreshold)[j] == Split(0, days[j])
    {
      CapHolds(days, weeklyThreshold, dailyThreshold, k, j);
      ThresholdReached(days, weeklyThreshold, dailyThreshold, j);
    }
  }

  /** The pass depends on the order of the days: reversing the days does
      not reverse the split. */
  lemma OrderMatters(days: seq<int>, back: seq<int>)
    requires days == [800, 800, 800, 800, 800, 400]
    requires back == [400, 800, 800, 800, 800, 800]
    ensures WeeklySplit(days, 4000, 800)[5] != WeeklySplit(back, 4000, 800)[0]
  {
    HalfDayLast(days);
    HalfDayFirst(back);
  }
}
