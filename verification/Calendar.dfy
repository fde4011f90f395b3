/** Pay-period date logic (`get_week_dates`, `get_biweekly_dates`).
    A date is its proleptic Gregorian ordinal, as Python's `date.toordinal()`
    numbers it: 0001-01-01 is day 1 and a Monday. */
module Calendar {
  import opened Results

  const MinDay: int := 1        // 0001-01-01
  const MaxDay: int := 3652059  // 9999-12-31
  /** Monday 2025-01-06, the first day of a biweekly pay period. */
  const AnchorMonday: int := 739257

  /** A value of Python's `date` type. */
  type Day = d: int | MinDay <= d <= MaxDay witness MinDay

  /** `date.weekday()`: 0 for Monday up to 6 for Sunday. */
  function Weekday(d: int): (w: int)
    ensures 0 <= w < 7
    ensures (d - w - AnchorMonday) % 7 == 0
  {
    (d - 1) % 7
  }

  /** The Monday on or before `d`. */
  function WeekStart(d: int): (s: int)
    ensures Weekday(s) == 0
    ensures s <= d < s + 7
  {
    d - Weekday(d)
  }

  /** A Monday-start week: first day, last day and its seven dates. */
  datatype Week = Week(start: Day, end: Day, dates: seq<Day>)

  /** `get_week_dates`: the Monday-start week holding `reference`. Stepping
      past the last representable date raises `OverflowError`. */
  function GetWeekDates(reference: Day): (r: Result<Week>)
    ensures r.Ok? <==> WeekStart(reference) + 6 <= MaxDay
    ensures r.Ok? ==>
              && Weekday(r.value.start) == 0
              && r.value.start <= reference <= r.value.end
              && r.value.end == r.value.start + 6
              && |r.value.dates| == 7
              && r.value.dates[0] == r.value.start && r.value.dates[6] == r.value.end
              && forall i :: 0 <= i < 7 ==> r.value.dates[i] == r.value.start + i
    ensures r.Err? ==> r.error == DateOverflow
  {
    var start := WeekStart(reference);
    if start + 6 <= MaxDay then
      var dates := seq(7, (i: int) requires 0 <= i < 7 => (start + i) as Day);
      Ok(Week(dates[0], dates[6], dates))
    else Err(DateOverflow)
  }

  /** A Monday-start week is the only one holding its days. */
  lemma WeekStartUnique(d: int, s: int)
    requires Weekday(s) == 0 && s <= d < s + 7
    ensures s == WeekStart(d)
  {
  }

  /** First day of the biweekly period holding `d`: the Monday of its week,
      or the Monday before when the week is an odd number of weeks from the
      anchor (counted with floor division). */
  function PeriodStart(d: int): int {
    var weekStart := WeekStart(d);
    var weeksDiff := (weekStart - AnchorMonday) / 7;
    if weeksDiff % 2 == 0 then weekStart else weekStart - 7
  }

  /** The period start is a Monday a whole number of fortnights from the
      anchor, and the period's fourteen days hold `d`. */
  lemma PeriodStartTiles(d: int)
    ensures (PeriodStart(d) - AnchorMonday) % 14 == 0
    ensures Weekday(PeriodStart(d)) == 0
    ensures PeriodStart(d) <= d <= PeriodStart(d) + 13
  {
    var ws := WeekStart(d);
    var q := (ws - AnchorMonday) / 7;
    assert ws - AnchorMonday == 7 * q;
    if q % 2 == 0 {
      assert ws - AnchorMonday == 14 * (q / 2);
    } else {
      assert ws - 7 - AnchorMonday == 14 * (q / 2);
    }
  }

  /** The periods tile the calendar: a fortnight-aligned start whose
      fourteen days hold `d` is the period start of `d`. */
  lemma PeriodStartUnique(d: int, s: int)
    requires (s - AnchorMonday) % 14 == 0
    requires s <= d <= s + 13
    ensures s == PeriodStart(d)
  {
    PeriodStartTiles(d);
    var p := PeriodStart(d);
    var a := (s - AnchorMonday) / 14;
    var b := (p - AnchorMonday) / 14;
    assert s - AnchorMonday == 14 * a;
    assert p - AnchorMonday == 14 * b;
    assert -14 < 14 * (a - b) < 14;
  }

  /** Every day of a period belongs to that same period. */
  lemma SamePeriod(d: int, e: int)
    requires PeriodStart(d) <= e <= PeriodStart(d) + 13
    ensures PeriodStart(e) == PeriodStart(d)
  {
    PeriodStartTiles(d);
    PeriodStartUnique(e, PeriodStart(d));
  }

  /** `get_biweekly_dates`: first and last day of the fourteen-day pay
      period holding `reference`. Leaving the representable dates raises
      `OverflowError`. */
  function GetBiweeklyDates(reference: Day): (r: Result<(Day, Day)>)
    ensures r.Ok? <==> MinDay <= PeriodStart(reference) && PeriodStart(reference) + 13 <= MaxDay
    ensures r.Ok? ==>
              && (r.value.0 - AnchorMonday) % 14 == 0
              && Weekday(r.value.0) == 0
              && r.value.0 <= reference <= r.value.1
              && r.value.1 == r.value.0 + 13
    ensures r.Err? ==> r.error == DateOverflow
  {
    PeriodStartTiles(reference);
    var start := PeriodStart(reference);
    if start < MinDay || start + 13 > MaxDay then Err(DateOverflow)
    else Ok((start as Day, (start + 13) as Day))
  }

  /** Any two days of one pay period report the same period. */
  lemma BiweeklyStable(reference: Day, other: Day)
    requires GetBiweeklyDates(reference).Ok?
    requires GetBiweeklyDates(reference).value.0 <= other <= GetBiweeklyDates(reference).value.1
    ensures GetBiweeklyDates(other) == GetBiweeklyDates(reference)
  {
    SamePeriod(reference, other);
  }

  /** The anchor week starts a period, the week after belongs to it, and the
      week after that starts the next one. */
  lemma BiweeklyExamples()
    ensures GetBiweeklyDates(AnchorMonday) == Ok((AnchorMonday, AnchorMonday + 13))
    ensures GetBiweeklyDates(AnchorMonday + 7) == Ok((AnchorMonday, AnchorMonday + 13))
    ensures GetBiweeklyDates(AnchorMonday + 14) == Ok((AnchorMonday + 14, AnchorMonday + 27))
    ensures GetBiweeklyDates(AnchorMonday - 1) == Ok((AnchorMonday - 14, AnchorMonday - 1))
  {
  }
}
