/** Shift-hours arithmetic of the payroll engine (`parse_time` and
    `calculate_shift_hours`). Hours are counted in hundredths of an hour. */
module ShiftTime {
  import opened Results
  import opened Text
  import opened Rounding

  const MinutesPerDay: int := 24 * 60

  /** `parse_time`: the hour before the first colon and the minute after it
      (0 when there is no colon). Neither field is range-checked; a field
      `int()` refuses raises `ValueError`. */
  function ParseTime(s: string): (r: Result<(int, int)>)
    ensures r.Ok? <==> ParseInt(Split(s, ':')[0]).Some?
                       && (|Split(s, ':')| > 1 ==> ParseInt(Split(s, ':')[1]).Some?)
  {
    var parts := Split(s, ':');
    var h := ParseInt(parts[0]);
    if h.None? then Err(InvalidTimeFormat)
    else if |parts| > 1 then
      var m := ParseInt(parts[1]);
      if m.None? then Err(InvalidTimeFormat) else Ok((h.value, m.value))
    else Ok((h.value, 0))
  }

  /** Without a colon the whole text is the hour and the minute is 0. */
  lemma ParseTimeWithoutColon(s: string)
    requires ':' !in s && ParseInt(s).Some?
    ensures ParseTime(s) == Ok((ParseInt(s).value, 0))
  {
    SplitNone(s, ':');
  }

  /** Text written as `HH:MM` reads back as the same hour and minute. */
  lemma ParseTimeOfFormat(h: int, m: int)
    ensures ParseTime(Format02(h) + ":" + Format02(m)) == Ok((h, m))
  {
    var a, b := Format02(h), Format02(m);
    SplitNone(b, ':');
    SplitPrefix(a, ':', b);
    assert a + ":" + b == a + [':'] + b;
    ParseIntOfFormat02(h);
    ParseIntOfFormat02(m);
  }

  /** Minutes from `start` to `end`, where an end earlier than the start is
      on the next day. */
  function SpanMinutes(start: int, end: int): (d: int)
    ensures end - start <= d
    ensures 0 <= start < MinutesPerDay && 0 <= end < MinutesPerDay ==>
              d == (end - start) % MinutesPerDay
  {
    if end < start then end + MinutesPerDay - start else end - start
  }

  /** Minutes a lunch break takes off a shift: its length when positive,
      otherwise nothing. */
  function LunchMinutes(lunchStart: int, lunchEnd: int): (d: nat)
    ensures d == 0 <==> lunchEnd <= lunchStart
    ensures d > 0 ==> d == lunchEnd - lunchStart
  {
    if lunchEnd - lunchStart > 0 then lunchEnd - lunchStart else 0
  }

  /** Python truthiness of an optional string: neither `None` nor `""`. */
  predicate Given(field: Option<string>) {
    field.Some? && field.value != ""
  }

  function Minutes(t: (int, int)): int {
    t.0 * 60 + t.1
  }

  /** `calculate_shift_hours`: worked time in hundredths of an hour, never
      negative, with a lunch deducted only when both of its bounds are given. */
  function ShiftHours(start: string, end: string,
                      lunchStart: Option<string>, lunchEnd: Option<string>): (r: Result<nat>)
    ensures r.Ok? <==> ParseTime(start).Ok? && ParseTime(end).Ok?
                       && (Given(lunchStart) && Given(lunchEnd) ==>
                             ParseTime(lunchStart.value).Ok? && ParseTime(lunchEnd.value).Ok?)
    ensures r.Ok? ==>
              var span := SpanMinutes(Minutes(ParseTime(start).value), Minutes(ParseTime(end).value));
              r.value <= MinutesToCentihours(if span < 0 then 0 else span)
    ensures r.Ok? && !(Given(lunchStart) && Given(lunchEnd)) ==>
              var span := SpanMinutes(Minutes(ParseTime(start).value), Minutes(ParseTime(end).value));
              r.value == MinutesToCentihours(if span < 0 then 0 else span)
  {
    var s :- ParseTime(start);
    var e :- ParseTime(end);
    var span := SpanMinutes(Minutes(s), Minutes(e));
    var lunch :- if Given(lunchStart) && Given(lunchEnd) then
                   var ls :- ParseTime(lunchStart.value);
                   var le :- ParseTime(lunchEnd.value);
                   Ok(LunchMinutes(Minutes(ls), Minutes(le)))
                 else Ok(0);
    var worked := span - lunch;
    var spanOrZero := if span < 0 then 0 else span;
    MinutesToCentihoursMonotone(if worked < 0 then 0 else worked, spanOrZero);
    Ok(MinutesToCentihours(if worked < 0 then 0 else worked))
  }

  /** Without a lunch, a shift of valid clock times lasts the time from its
      start to its end around the clock. */
  lemma ShiftHoursOnClock(start: string, end: string, s: (int, int), e: (int, int))
    requires ParseTime(start) == Ok(s) && ParseTime(end) == Ok(e)
    requires 0 <= Minutes(s) < MinutesPerDay && 0 <= Minutes(e) < MinutesPerDay
    ensures ShiftHours(start, end, None, None) == Ok(MinutesToCentihours(SpanMinutes(Minutes(s), Minutes(e))))
  {
  }

  /** With both lunch bounds given and valid, the shift loses the lunch's
      length when positive, and never goes below zero. */
  lemma ShiftHoursWithLunch(start: string, end: string, lunchStart: string, lunchEnd: string,
                            s: (int, int), e: (int, int), ls: (int, int), le: (int, int), worked: int)
    requires ParseTime(start) == Ok(s) && ParseTime(end) == Ok(e)
    requires ParseTime(lunchStart) == Ok(ls) && ParseTime(lunchEnd) == Ok(le)
    requires lunchStart != "" && lunchEnd != ""
    requires worked == SpanMinutes(Minutes(s), Minutes(e)) - LunchMinutes(Minutes(ls), Minutes(le))
    ensures ShiftHours(start, end, Some(lunchStart), Some(lunchEnd))
              == Ok(MinutesToCentihours(if worked < 0 then 0 else worked))
  {
  }

  lemma ParseClockText(h: int, m: int, t: string)
    requires t == Format02(h) + ":" + Format02(m)
    ensures ParseTime(t) == Ok((h, m))
  {
    ParseTimeOfFormat(h, m);
  }

  /** `HH:00` for a two-digit hour reads back as that hour. */
  lemma ParseWholeHour(h: nat, t: string)
    requires 10 <= h < 24
    requires t == [DigitChar(h / 10), DigitChar(h % 10), ':', '0', '0']
    ensures ParseTime(t) == Ok((h, 0))
  {
    assert NatToString(h) == NatToString(h / 10) + [DigitChar(h % 10)];
    assert Format02(0) == "00";
    ParseClockText(h, 0, t);
  }

  /** Worked example: a day shift from 10 AM to 6 PM is eight hours. */
  lemma DayShiftExample(start: string, end: string)
    requires start == "10:00" && end == "18:00"
    ensures ShiftHours(start, end, None, None) == Ok(800)
  {
    ParseWholeHour(10, start);
    ParseWholeHour(18, end);
    ShiftHoursOnClock(start, end, (10, 0), (18, 0));
    MinutesToCentihoursWholeHours(8);
  }

  /** Worked example: an overnight shift from 10 PM to 6 AM is eight hours. */
  lemma OvernightShiftExample(start: string, end: string)
    requires start == "22:00" && end == "06:00"
    ensures ShiftHours(start, end, None, None) == Ok(800)
  {
    ParseWholeHour(22, start);
    assert Format02(6) == "06" && Format02(0) == "00";
    ParseClockText(6, 0, end);
    ShiftHoursOnClock(start, end, (22, 0), (6, 0));
    MinutesToCentihoursWholeHours(8);
  }

  /** Worked example: the day shift with an hour's lunch is seven hours. */
  lemma LunchExample(start: string, end: string, lunchStart: string, lunchEnd: string)
    requires start == "10:00" && end == "18:00"
    requires lunchStart == "15:00" && lunchEnd == "16:00"
    ensures ShiftHours(start, end, Some(lunchStart), Some(lunchEnd)) == Ok(700)
  {
    ParseWholeHour(10, start);
    ParseWholeHour(18, end);
    ParseWholeHour(15, lunchStart);
    ParseWholeHour(16, lunchEnd);
    ShiftHoursWithLunch(start, end, lunchStart, lunchEnd, (10, 0), (18, 0), (15, 0), (16, 0), 420);
    MinutesToCentihoursWholeHours(7);
  }

  /** Worked example: with the lunch's ends swapped the lunch counts for
      nothing. */
  lemma SwappedLunchExample(start: string, end: string, lunchStart: string, lunchEnd: string)
    requires start == "10:00" && end == "18:00"
    requires lunchStart == "16:00" && lunchEnd == "15:00"
    ensures ShiftHours(start, end, Some(lunchStart), Some(lunchEnd)) == Ok(800)
  {
    ParseWholeHour(10, start);
    ParseWholeHour(18, end);
    ParseWholeHour(16, lunchStart);
    ParseWholeHour(15, lunchEnd);
    ShiftHoursWithLunch(start, end, lunchStart, lunchEnd, (10, 0), (18, 0), (16, 0), (15, 0), 480);
    MinutesToCentihoursWholeHours(8);
  }

  /** Worked example: a lunch with a blank end is ignored. */
  lemma BlankLunchExample(start: string, end: string, lunchEnd: string)
    requires start == "10:00" && end == "18:00" && lunchEnd == "16:00"
    ensures ShiftHours(start, end, Some(""), Some(lunchEnd)) == Ok(800)
  {
    DayShiftExample(start, end);
  }
}
