/** The time-of-day helpers of the scheduling pages: 12-hour labels, the
    default lunch rule, and the 15-minute grid of the time pickers with its
    lookups. Clock text is `HH:MM` in 24-hour form. */
module TimeOptions {
  import opened Results
  import opened Text
  import opened Rounding
  import opened ShiftTime

  /** One field of `strptime(s, "%H:%M")`: one or two ASCII digits whose
      value is at most `max`. */
  predicate ClockField(f: string, max: nat) {
    1 <= |f| <= 2 && AllDigits(f) && DigitsValue(f) <= max
  }

  /** `datetime.strptime(s, "%H:%M")`: an hour 0-23 and a minute 0-59, each
      written with one or two digits, separated by one colon and nothing
      else; anything else raises `ValueError`, modelled as `None`. */
  function ParseClock(s: string): (r: Option<(int, int)>)
    ensures r.Some? ==> 0 <= r.value.0 <= 23 && 0 <= r.value.1 <= 59
    ensures r.Some? ==> 3 <= |s| <= 5
    ensures r.Some? ==> ParseTime(s) == Ok(r.value)
  {
    var parts := Split(s, ':');
    if |parts| == 2 && ClockField(parts[0], 23) && ClockField(parts[1], 59) then
      JoinSplit(s, ':');
      assert Join(parts, ':') == parts[0] + [':'] + parts[1];
      Some((DigitsValue(parts[0]), DigitsValue(parts[1])))
    else None
  }

  /** A digit string has no other characters in it. */
  lemma DigitsOnly(s: string, c: char)
    requires AllDigits(s)
    requires !IsDigit(c)
    ensures c !in s
  {
    forall i | 0 <= i < |s|
      ensures s[i] != c
    {
      assert IsDigit(s[i]);
    }
  }

  /** Every clock time written `HH:MM` is accepted and read back. */
  lemma ParseClockOfFormat(h: int, m: int)
    requires 0 <= h <= 23 && 0 <= m <= 59
    ensures ParseClock(Format02(h) + ":" + Format02(m)) == Some((h, m))
  {
    var a, b := Format02(h), Format02(m);
    DigitsOnly(a, ':');
    DigitsOnly(b, ':');
    SplitNone(b, ':');
    SplitPrefix(a, ':', b);
    assert a + ":" + b == a + [':'] + b;
    ParseIntOfFormat02(h);
    ParseIntOfFormat02(m);
  }

  /** Every clock time is accepted whether each field is written with or
      without a leading zero (`9:5`, `9:05`, `09:5`, `09:05`). */
  lemma ParseClockOfFields(h: int, m: int, hourText: string, minuteText: string)
    requires 0 <= h <= 23 && 0 <= m <= 59
    requires hourText == NatToString(h) || hourText == Format02(h)
    requires minuteText == NatToString(m) || minuteText == Format02(m)
    ensures ParseClock(hourText + ":" + minuteText) == Some((h, m))
  {
    FieldReads(h, hourText);
    FieldReads(m, minuteText);
    DigitsOnly(hourText, ':');
    DigitsOnly(minuteText, ':');
    SplitNone(minuteText, ':');
    SplitPrefix(hourText, ':', minuteText);
    assert hourText + ":" + minuteText == hourText + [':'] + minuteText;
  }

  /** A field written with or without a leading zero is one or two digits
      worth its number. */
  lemma FieldReads(n: int, text: string)
    requires 0 <= n <= 59
    requires text == NatToString(n) || text == Format02(n)
    ensures 1 <= |text| <= 2 && AllDigits(text) && DigitsValue(text) == n
  {
    if text == NatToString(n) {
      DigitsValueOfNatToString(n);
    } else {
      ParseIntOfFormat02(n);
    }
  }

  /** And only those writings: a text that is accepted is its hour, with or
      without a leading zero, one colon, and its minute written the same way
      (no sign, no blank, no third field). */
  lemma ParseClockOnlyFields(s: string)
    requires ParseClock(s).Some?
    ensures var parts, h, m := Split(s, ':'), ParseClock(s).value.0, ParseClock(s).value.1;
      |parts| == 2 && s == parts[0] + ":" + parts[1]
      && (parts[0] == NatToString(h) || parts[0] == Format02(h))
      && (parts[1] == NatToString(m) || parts[1] == Format02(m))
  {
    var parts := Split(s, ':');
    JoinSplit(s, ':');
    assert Join(parts, ':') == parts[0] + [':'] + parts[1];
    FieldIsWritten(parts[0]);
    FieldIsWritten(parts[1]);
  }

  /** One or two digits are their value printed with or without a leading
      zero. */
  lemma FieldIsWritten(f: string)
    requires 1 <= |f| <= 2 && AllDigits(f)
    ensures f == NatToString(DigitsValue(f)) || f == Format02(DigitsValue(f))
  {
    var v := DigitsValue(f);
    if |f| == 1 {
      assert v == DigitsValue(f[..0]) * 10 + DigitValue(f[0]);
      assert DigitsValue(f[..0]) == 0;
      assert NatToString(v) == [f[0]];
    } else {
      var hi, lo := DigitValue(f[0]), DigitValue(f[1]);
      assert f[..|f| - 1] == [f[0]];
      assert DigitsValue([f[0]]) == hi by { assert [f[0]][..0] == []; }
      assert v == hi * 10 + lo;
      if hi == 0 {
        assert Format02(v) == "0" + [DigitChar(lo)];
        assert f == [f[0], f[1]];
      } else {
        assert v / 10 == hi && v % 10 == lo;
        assert NatToString(v) == [DigitChar(hi)] + [DigitChar(lo)];
        assert f == [f[0], f[1]];
      }
    }
  }

  /** The 12-hour label of `hour:minute`, as `format_time_12h` and the grid
      build it: the hour 1-12 (0 and 12 both print as 12), the minutes only
      when not zero, then AM before noon and PM from noon on. */
  function Label12(hour: nat, minute: nat): (text: string)
    ensures 3 <= |text|
    ensures text[|text| - 2..] == (if hour < 12 then "AM" else "PM")
    ensures ':' in text <==> minute != 0
    ensures '-' !in text
    ensures hour % 12 == 0 ==> text[..2] == "12"
    ensures text[0] != '0'
    ensures NatToString(Hour12(hour)) <= text
    ensures |text| == |NatToString(Hour12(hour))| + (if minute == 0 then 0 else 1 + |Format02(minute)|) + 2
    ensures 0 < minute < 100 ==> text[|text| - 5..|text| - 2] == ":" + Format02(minute)
  {
    var body, period := LabelBody(Hour12(hour), minute), Period(hour);
    LabelBodyShape(Hour12(hour), minute);
    assert (body + period)[..|body|] == body;
    assert 0 < minute < 100 ==> (body + period)[|body| - 3..|body|] == body[|body| - 3..];
    body + period
  }

  /** `AM` before noon, `PM` from noon on. */
  function Period(hour: nat): (p: string)
    ensures |p| == 2 && ':' !in p && '-' !in p
  {
    if hour < 12 then "AM" else "PM"
  }

  /** The hour and minutes part of a label: `h` on the hour, else `h:mm`. */
  function LabelBody(h12: nat, minute: nat): (body: string)
    ensures 1 <= |body|
    ensures ':' in body <==> minute != 0
    ensures '-' !in body
    ensures h12 == 12 ==> 2 <= |body| && body[..2] == "12"
  {
    var digits := NatToString(h12);
    DigitsOnly(digits, ':');
    DigitsOnly(digits, '-');
    assert h12 == 12 ==> digits == "12" by {
      if h12 == 12 {
        assert NatToString(1) == "1";
      }
    }
    if minute == 0 then
      digits
    else
      var mm := Format02(minute);
      DigitsOnly(mm, ':');
      DigitsOnly(mm, '-');
      var body := digits + ":" + mm;
      assert body[|digits|] == ':';
      body
  }

  /** The body starts with the hour as `str` prints it, so never with a
      zero, and ends with a non-zero minute as `:` and two digits. */
  lemma LabelBodyShape(h12: nat, minute: nat)
    ensures var body := LabelBody(h12, minute);
            && NatToString(h12) <= body
            && (1 <= h12 ==> body[0] != '0')
            && |body| == |NatToString(h12)| + (if minute == 0 then 0 else 1 + |Format02(minute)|)
            && (0 < minute < 100 ==> 3 <= |body| && body[|body| - 3..] == ":" + Format02(minute))
  {
    var digits, body := NatToString(h12), LabelBody(h12, minute);
    if minute != 0 {
      assert body == digits + ":" + Format02(minute);
      assert body[..|digits|] == digits;
    }
  }

  /** Reads a 12-hour label back into the 24-hour hour and minute. */
  function DecodeLabel(text: string): Option<(int, int)> {
    if |text| < 3 then None
    else
      var period, body := text[|text| - 2..], text[..|text| - 2];
      if period == "AM" then DecodeClock12(body, false)
      else if period == "PM" then DecodeClock12(body, true)
      else None
  }

  /** Reads `h` or `h:mm` with `h` from 1 to 12 into the 24-hour hour and
      minute, before noon unless `pm`. */
  function DecodeClock12(body: string, pm: bool): Option<(int, int)> {
    var parts := Split(body, ':');
    if |parts| > 2 then None
    else
      match ParseInt(parts[0])
      case None => None
      case Some(h12) =>
        var minute := if |parts| == 1 then Some(0) else ParseInt(parts[1]);
        if !(1 <= h12 <= 12) || minute.None? then None
        else Some((h12 % 12 + (if pm then 12 else 0), minute.value))
  }

  /** The hour and minutes part of a label reads back, with its period, as
      the time of day it was made from. */
  lemma DecodeClock12OfLabel(hour: nat, minute: nat)
    requires hour < 24
    ensures DecodeClock12(LabelBody(Hour12(hour), minute), hour >= 12) == Some((hour, minute))
  {
    var h12 := Hour12(hour);
    var pm := hour >= 12;
    assert h12 % 12 + (if pm then 12 else 0) == hour;
    if minute == 0 {
      assert LabelBody(h12, minute) == NatToString(h12);
      DecodeWholeHour(h12, pm);
    } else {
      assert LabelBody(h12, minute) == NatToString(h12) + ":" + Format02(minute);
      DecodeHourMinute(h12, minute, pm);
    }
  }

  /** A label body without minutes reads back as the whole hour. */
  lemma DecodeWholeHour(h12: nat, pm: bool)
    requires 1 <= h12 <= 12
    ensures DecodeClock12(NatToString(h12), pm) == Some((h12 % 12 + (if pm then 12 else 0), 0))
  {
    var digits := NatToString(h12);
    DigitsOnly(digits, ':');
    ParseIntOfIntToString(h12);
    SplitNone(digits, ':');
  }

  /** A label body with minutes reads back as the hour and minute. */
  lemma DecodeHourMinute(h12: nat, minute: nat, pm: bool)
    requires 1 <= h12 <= 12
    ensures DecodeClock12(NatToString(h12) + ":" + Format02(minute), pm)
              == Some((h12 % 12 + (if pm then 12 else 0), minute))
  {
    var digits := NatToString(h12);
    DigitsOnly(digits, ':');
    ParseIntOfIntToString(h12);
    var mm := Format02(minute);
    DigitsOnly(mm, ':');
    assert digits + ":" + mm == digits + [':'] + mm;
    SplitNone(mm, ':');
    SplitPrefix(digits, ':', mm);
    ParseIntOfFormat02(minute);
  }

  /** The hour on a 12-hour clock, 12 for noon and midnight. */
  function Hour12(hour: nat): (h12: nat)
    ensures 1 <= h12 <= 12
    ensures hour < 24 ==> h12 % 12 + (if hour >= 12 then 12 else 0) == hour
  {
    if hour % 12 == 0 then 12 else hour % 12
  }

  /** A label splits into its body and its two-letter period. */
  lemma DecodeLabelParts(body: string, hour: nat)
    ensures DecodeLabel(body + Period(hour)) == DecodeClock12(body, hour >= 12)
  {
    var text := body + Period(hour);
    assert text[|text| - 2..] == Period(hour);
    assert text[..|text| - 2] == body;
  }

  /** A label of a time of day reads back as that time. */
  lemma DecodeLabel12(hour: nat, minute: nat)
    requires hour < 24
    ensures DecodeLabel(Label12(hour, minute)) == Some((hour, minute))
  {
    DecodeLabelParts(LabelBody(Hour12(hour), minute), hour);
    DecodeClock12OfLabel(hour, minute);
  }

  /** Different times of day have different labels. */
  lemma Label12Injective(h1: nat, m1: nat, h2: nat, m2: nat)
    requires h1 < 24 && h2 < 24
    requires Label12(h1, m1) == Label12(h2, m2)
    ensures h1 == h2 && m1 == m2
  {
    DecodeLabel12(h1, m1);
    DecodeLabel12(h2, m2);
  }

  /** `format_time_12h`: the 12-hour label of a valid `HH:MM`, otherwise the
      text unchanged. */
  function FormatTime12h(time: string): (r: string)
    ensures ParseClock(time).None? ==> r == time
    ensures ParseClock(time).Some? ==> DecodeLabel(r) == ParseClock(time)
    ensures ParseClock(time).Some? ==> '-' !in r
    ensures ParseClock(time).Some? ==> r == Label12(ParseClock(time).value.0, ParseClock(time).value.1)
  {
    match ParseClock(time)
    case None => time
    case Some((h, m)) =>
      DecodeLabel12(h, m);
      Label12(h, m)
  }

  /** Two texts without a hyphen, joined by one, split back apart. */
  lemma SplitAtHyphen(a: string, b: string)
    requires '-' !in a && '-' !in b
    ensures Split(a + "-" + b, '-') == [a, b]
  {
    SplitNone(b, '-');
    SplitPrefix(a, '-', b);
    assert a + "-" + b == a + ['-'] + b;
  }

  /** `format_time_range`: both ends formatted, joined by a hyphen. When both
      ends are valid times the hyphen splits the range back into its ends. */
  function FormatTimeRange(start: string, end: string): (r: string)
    ensures ParseClock(start).Some? && ParseClock(end).Some? ==>
              Split(r, '-') == [FormatTime12h(start), FormatTime12h(end)]
  {
    var a, b := FormatTime12h(start), FormatTime12h(end);
    // Both branches build the same text; the test only decides whether the
    // splitting fact for two labels is available to the proof.
    if ParseClock(start).Some? && ParseClock(end).Some? then
      SplitAtHyphen(a, b);
      a + "-" + b
    else
      a + "-" + b
  }

  /** The hour field `int(time.split(':')[0])` of a shift time. */
  function HourField(time: string): Option<int> {
    ParseInt(Split(time, ':')[0])
  }

  const LunchStart := "15:00"
  const LunchEnd := "16:00"

  /** `get_default_lunch`: a lunch from 3 to 4 PM unless the shift starts at
      4 PM or later or ends at 4 PM or earlier (by hour alone). When either
      hour does not read as a number the lunch is given anyway. `None` stands
      for the pair `(None, None)`. */
  function DefaultLunch(startTime: string, endTime: string): (r: Option<(string, string)>)
    ensures r.Some? ==> r.value == (LunchStart, LunchEnd)
    ensures r.None? <==> && HourField(startTime).Some? && HourField(endTime).Some?
                         && (HourField(startTime).value >= 16 || HourField(endTime).value <= 16)
  {
    var startHour := HourField(startTime);
    var endHour := HourField(endTime);
    if startHour.None? || endHour.None? then Some((LunchStart, LunchEnd))
    else if startHour.value >= 16 then None
    else if endHour.value <= 16 then None
    else Some((LunchStart, LunchEnd))
  }

  /** `should_have_lunch`: whether the default lunch is given. */
  function ShouldHaveLunch(startTime: string, endTime: string): (b: bool)
    ensures b <==> !(&& HourField(startTime).Some? && HourField(endTime).Some?
                     && (HourField(startTime).value >= 16 || HourField(endTime).value <= 16))
  {
    DefaultLunch(startTime, endTime).Some?
  }

  /** Adding an hour of minutes adds exactly a hundred hundredths. */
  lemma MinutesToCentihoursPlusHour(minutes: nat)
    ensures MinutesToCentihours(minutes + 60) == MinutesToCentihours(minutes) + 100
  {
    var c, d := MinutesToCentihours(minutes), MinutesToCentihours(minutes + 60);
    assert 3 * (d - 100) - 1 <= 5 * minutes <= 3 * (d - 100) + 1;
  }

  /** A same-day shift longer than an hour loses exactly the hour of the
      default lunch. */
  lemma LunchHourOff(startTime: string, endTime: string, lunchStart: string, lunchEnd: string,
                     s: (int, int), e: (int, int))
    requires lunchStart == LunchStart && lunchEnd == LunchEnd
    requires ParseTime(startTime) == Ok(s) && ParseTime(endTime) == Ok(e)
    requires 0 <= Minutes(s) && Minutes(e) < MinutesPerDay && Minutes(s) + 60 < Minutes(e)
    ensures ShiftHours(startTime, endTime, Some(lunchStart), Some(lunchEnd))
              == Ok(MinutesToCentihours(Minutes(e) - Minutes(s) - 60))
    ensures ShiftHours(startTime, endTime, None, None) == Ok(MinutesToCentihours(Minutes(e) - Minutes(s)))
  {
    LunchTimes(lunchStart, lunchEnd);
    ShiftHoursWithLunch(startTime, endTime, lunchStart, lunchEnd, s, e, (15, 0), (16, 0),
                        Minutes(e) - Minutes(s) - 60);
    ShiftHoursOnClock(startTime, endTime, s, e);
  }

  /** The default lunch reads as 3 PM to 4 PM. */
  lemma LunchTimes(lunchStart: string, lunchEnd: string)
    requires lunchStart == LunchStart && lunchEnd == LunchEnd
    ensures ParseTime(lunchStart) == Ok((15, 0)) && ParseTime(lunchEnd) == Ok((16, 0))
  {
    ParseWholeHour(15, lunchStart);
    ParseWholeHour(16, lunchEnd);
  }

  /** A same-day shift of valid clock times that gets the default lunch
      starts before 4 PM, ends at 5 PM or later, and is paid exactly one
      hour less with the lunch than without it. */
  lemma DefaultLunchCostsOneHour(startTime: string, endTime: string, s: (int, int), e: (int, int))
    requires ParseTime(startTime) == Ok(s) && ParseTime(endTime) == Ok(e)
    requires 0 <= s.0 && 0 <= s.1 < 60 && 0 <= e.0 < 24 && 0 <= e.1 < 60
    requires DefaultLunch(startTime, endTime).Some?
    ensures Minutes(s) < 16 * 60 && 17 * 60 <= Minutes(e)
    ensures ShiftHours(startTime, endTime, Some(LunchStart), Some(LunchEnd)).Ok?
    ensures ShiftHours(startTime, endTime, Some(LunchStart), Some(LunchEnd)).value + 100
              == ShiftHours(startTime, endTime, None, None).value
  {
    assert s.0 < 16 && 16 < e.0 by {
      assert HourField(startTime) == Some(s.0) && HourField(endTime) == Some(e.0);
    }
    LunchHourOff(startTime, endTime, LunchStart, LunchEnd, s, e);
    MinutesToCentihoursPlusHour(Minutes(e) - Minutes(s) - 60);
  }

  /** The number of steps of `step` that start below `d`. */
  lemma CeilDiv(d: int, step: nat)
    requires 0 < d && 0 < step
    ensures var c := (d + step - 1) / step;
            1 <= c && (c - 1) * step < d <= c * step
  {
    var c, r := (d + step - 1) / step, (d + step - 1) % step;
    assert d + step - 1 == c * step + r;
    assert (c - 1) * step == c * step - step;
  }

  /** A smaller factor gives a smaller product. */
  lemma MulAtMost(i: int, j: int, step: nat)
    requires 0 <= i <= j
    ensures i * step <= j * step
  {
    assert j * step == i * step + (j - i) * step;
  }

  /** Python's `range(lo, hi, step)` for a positive step: `lo`, `lo + step`,
      `lo + 2 * step`, … as long as they stay below `hi`. */
  function Range(lo: int, hi: int, step: nat): (r: seq<int>)
    requires 0 < step
    ensures forall i :: 0 <= i < |r| ==> r[i] == lo + i * step
    ensures forall i :: 0 <= i < |r| ==> lo <= r[i] < hi
    ensures hi <= lo + |r| * step
    ensures |r| == if lo < hi then (hi - lo + step - 1) / step else 0
  {
    var count := if lo < hi then (hi - lo + step - 1) / step else 0;
    if lo < hi then
      CeilDiv(hi - lo, step);
      assert forall i :: 0 <= i < count ==> 0 <= i * step <= (count - 1) * step by {
        forall i | 0 <= i < count
          ensures 0 <= i * step <= (count - 1) * step
        {
          MulAtMost(0, i, step);
          MulAtMost(i, count - 1, step);
        }
      }
      seq(count, (i: int) requires 0 <= i < count => lo + i * step)
    else
      []
  }

  /** The grid runs from 8:45 AM to 11:15 PM in steps of 15 minutes,
      counted in minutes after midnight. */
  const FirstMinutes := 8 * 60 + 45
  const LastMinutes := 23 * 60 + 15

  /** A minute on the quarter hour. */
  predicate IsQuarter(m: int) {
    m == 0 || m == 15 || m == 30 || m == 45
  }

  /** Minutes after midnight of the `i`-th grid time. */
  function GridTime(i: int): int {
    FirstMinutes + 15 * i
  }

  /** The `(time_24, label)` entry of `get_time_options` for a time given in
      minutes after midnight. */
  function OptionAt(total: nat): (string, string) {
    (Format02(total / 60) + ":" + Format02(total % 60), Label12(total / 60, total % 60))
  }

  /** `get_time_options` (`TIME_OPTIONS`): one entry per 15 minutes from 8:45
      AM to 11:15 PM inclusive, 59 in all. */
  function Options(): (opts: seq<(string, string)>)
    ensures |opts| == 59
    ensures forall i :: 0 <= i < |opts| ==> opts[i] == OptionAt(GridTime(i))
  {
    seq(59, GridEntry)
  }

  /** The `i`-th entry of the grid. */
  function GridEntry(i: int): (string, string)
    requires 0 <= i < 59
  {
    OptionAt(GridTime(i))
  }

  /** The grid's times are those of the loop of `get_time_options`,
      `range(8 * 60 + 45, 23 * 60 + 15 + 1, 15)`. */
  lemma GridTimesAreRange()
    ensures var mins := Range(FirstMinutes, LastMinutes + 1, 15);
            |mins| == 59 && forall i :: 0 <= i < |mins| ==> mins[i] == GridTime(i)
  {
  }

  /** `TIME_LABELS`: the labels of the grid in order. */
  function TimeLabels(): (labels: seq<string>)
    ensures |labels| == |Options()|
    ensures forall i :: 0 <= i < |labels| ==> labels[i] == Options()[i].1
  {
    Values(Options())
  }

  /** The values of a list of pairs, in order. */
  function Values(pairs: seq<(string, string)>): (vs: seq<string>)
    ensures |vs| == |pairs|
    ensures forall i :: 0 <= i < |pairs| ==> vs[i] == pairs[i].1
  {
    if |pairs| == 0 then []
    else [pairs[0].1] + Values(pairs[1..])
  }

  /** No later pair has the same key as pair `i`. */
  ghost predicate LastWithKey(pairs: seq<(string, string)>, i: int)
    requires 0 <= i < |pairs|
  {
    forall j :: i < j < |pairs| ==> pairs[j].0 != pairs[i].0
  }

  /** The keys of a list of pairs, in order. */
  function Keys(pairs: seq<(string, string)>): (ks: seq<string>)
    ensures |ks| == |pairs|
    ensures forall i :: 0 <= i < |pairs| ==> ks[i] == pairs[i].0
  {
    if |pairs| == 0 then []
    else [pairs[0].0] + Keys(pairs[1..])
  }

  /** Every key of the pairs, and only those, is in `m`. */
  ghost predicate SameKeys(pairs: seq<(string, string)>, m: map<string, string>) {
    forall k :: k in m <==> k in Keys(pairs)
  }

  /** Every entry of `m` is one of the pairs. */
  ghost predicate EntriesFrom(pairs: seq<(string, string)>, m: map<string, string>) {
    forall k :: k in m ==> (k, m[k]) in pairs
  }

  /** The last pair with each key gives that key's value in `m`. */
  ghost predicate LastWins(pairs: seq<(string, string)>, m: map<string, string>) {
    forall i :: 0 <= i < |pairs| && LastWithKey(pairs, i) ==> pairs[i].0 in m && m[pairs[i].0] == pairs[i].1
  }

  /** What the dict built from `pairs` holds: every key of the pairs, each
      mapped to the value of a pair with that key, the last one when the key
      repeats. */
  ghost predicate DictOf(pairs: seq<(string, string)>, m: map<string, string>) {
    SameKeys(pairs, m) && EntriesFrom(pairs, m) && LastWins(pairs, m)
  }

  /** Entering one more pair into the dict of the pairs before it. */
  lemma DictOfSnoc(pairs: seq<(string, string)>, front: map<string, string>)
    requires 0 < |pairs|
    requires DictOf(pairs[..|pairs| - 1], front)
    ensures DictOf(pairs, front[pairs[|pairs| - 1].0 := pairs[|pairs| - 1].1])
  {
    var n := |pairs| - 1;
    var m := front[pairs[n].0 := pairs[n].1];
    SnocKeys(pairs, front, m);
    SnocEntries(pairs, front, m);
    SnocLastWins(pairs, front, m);
  }

  lemma SnocKeys(pairs: seq<(string, string)>, front: map<string, string>, m: map<string, string>)
    requires 0 < |pairs| && SameKeys(pairs[..|pairs| - 1], front)
    requires m == front[pairs[|pairs| - 1].0 := pairs[|pairs| - 1].1]
    ensures SameKeys(pairs, m)
  {
    var n := |pairs| - 1;
    assert Keys(pairs) == Keys(pairs[..n]) + [pairs[n].0];
  }

  lemma SnocEntries(pairs: seq<(string, string)>, front: map<string, string>, m: map<string, string>)
    requires 0 < |pairs| && EntriesFrom(pairs[..|pairs| - 1], front)
    requires m == front[pairs[|pairs| - 1].0 := pairs[|pairs| - 1].1]
    ensures EntriesFrom(pairs, m)
  {
    var n := |pairs| - 1;
    assert pairs == pairs[..n] + [pairs[n]];
  }

  lemma SnocLastWins(pairs: seq<(string, string)>, front: map<string, string>, m: map<string, string>)
    requires 0 < |pairs| && LastWins(pairs[..|pairs| - 1], front)
    requires m == front[pairs[|pairs| - 1].0 := pairs[|pairs| - 1].1]
    ensures LastWins(pairs, m)
  {
    var n := |pairs| - 1;
    forall i | 0 <= i < |pairs| && LastWithKey(pairs, i)
      ensures pairs[i].0 in m && m[pairs[i].0] == pairs[i].1
    {
      if i < n {
        assert pairs[n].0 != pairs[i].0;
        assert LastWithKey(pairs[..n], i);
      }
    }
  }

  /** A dict comprehension `{k: v for (k, v) in pairs}`: later pairs
      override earlier ones. */
  function ToMap(pairs: seq<(string, string)>): map<string, string> {
    if |pairs| == 0 then map[]
    else
      var n := |pairs| - 1;
      ToMap(pairs[..n])[pairs[n].0 := pairs[n].1]
  }

  /** The dict comprehension holds what `DictOf` says. */
  lemma {:induction false} ToMapIsDict(pairs: seq<(string, string)>)
    ensures DictOf(pairs, ToMap(pairs))
    decreases |pairs|
  {
    if |pairs| > 0 {
      var n := |pairs| - 1;
      ToMapIsDict(pairs[..n]);
      DictOfSnoc(pairs, ToMap(pairs[..n]));
    }
  }

  /** `TIME_24_TO_LABEL`: grid time to label. */
  function Time24ToLabel(): map<string, string> {
    ToMap(Options())
  }

  /** `TIME_24_TO_LABEL` is the dict of the grid's entries. */
  lemma Time24Dict()
    ensures DictOf(Options(), Time24ToLabel())
  {
    ToMapIsDict(Options());
  }

  /** Each pair with its two sides exchanged. */
  function Swapped(pairs: seq<(string, string)>): (r: seq<(string, string)>)
    ensures |r| == |pairs|
    ensures forall i :: 0 <= i < |pairs| ==> r[i] == (pairs[i].1, pairs[i].0)
  {
    if |pairs| == 0 then []
    else [(pairs[0].1, pairs[0].0)] + Swapped(pairs[1..])
  }

  /** `TIME_LABEL_TO_24`: label to grid time. */
  function TimeLabelTo24(): map<string, string> {
    ToMap(Swapped(Options()))
  }

  /** `TIME_LABEL_TO_24` is the dict of the swapped entries, keyed by exactly
      the grid's labels. */
  lemma LabelTo24Dict()
    ensures DictOf(Swapped(Options()), TimeLabelTo24())
    ensures forall l :: l in TimeLabelTo24() <==> l in TimeLabels()
  {
    ToMapIsDict(Swapped(Options()));
    SwappedKeys(Options(), TimeLabels());
  }

  /** The keys of the swapped pairs are the values of the pairs. */
  lemma SwappedKeys(pairs: seq<(string, string)>, values: seq<string>)
    requires |values| == |pairs|
    requires forall i :: 0 <= i < |pairs| ==> values[i] == pairs[i].1
    ensures Keys(Swapped(pairs)) == values
  {
  }

  function GridHour(i: int): int {
    GridTime(i) / 60
  }

  function GridMinute(i: int): int {
    GridTime(i) % 60
  }

  /** The hour and minute of the `i`-th grid time. */
  lemma GridClockValues(i: int)
    requires 0 <= i < 59
    ensures 8 <= GridHour(i) <= 23 && IsQuarter(GridMinute(i))
    ensures GridTime(i) == 60 * GridHour(i) + GridMinute(i)
  {
    GridClockFields(i);
    var q, r := (35 + i) / 4, (35 + i) % 4;
    assert 35 + i == 4 * q + r && 0 <= r < 4;
    assert GridMinute(i) == 15 * r;
    if r == 0 {
      assert GridMinute(i) == 0;
    } else if r == 1 {
      assert GridMinute(i) == 15;
    } else if r == 2 {
      assert GridMinute(i) == 30;
    } else {
      assert GridMinute(i) == 45;
    }
  }

  /** The hour and minute of the `i`-th grid time, as quotient and
      remainder of the quarter hours since midnight. */
  lemma GridClockFields(i: int)
    ensures GridHour(i) == (35 + i) / 4 && GridMinute(i) == 15 * ((35 + i) % 4)
    ensures GridTime(i) == 60 * GridHour(i) + GridMinute(i)
  {
    var q, r := (35 + i) / 4, (35 + i) % 4;
    assert GridTime(i) == 60 * q + 15 * r;
    ClockOfMinutes(GridTime(i), q, 15 * r);
  }

  /** The `i`-th entry is the grid time written `HH:MM` and its label, and
      the time reads back both ways. */
  lemma GridClock(i: int)
    requires 0 <= i < |Options()|
    ensures 8 <= GridHour(i) <= 23 && IsQuarter(GridMinute(i))
    ensures Options()[i].0 == Format02(GridHour(i)) + ":" + Format02(GridMinute(i))
    ensures Options()[i].1 == Label12(GridHour(i), GridMinute(i))
    ensures ParseTime(Options()[i].0) == Ok((GridHour(i), GridMinute(i)))
    ensures ParseClock(Options()[i].0) == Some((GridHour(i), GridMinute(i)))
  {
    var h, m := GridHour(i), GridMinute(i);
    GridClockValues(i);
    OptionAtClock(GridTime(i), h, m);
    ParseTimeOfFormat(h, m);
    ParseClockOfFormat(h, m);
  }

  /** The entry of a time given as hour and minute. */
  lemma OptionAtClock(t: nat, h: nat, m: nat)
    requires t == 60 * h + m && m < 60
    ensures OptionAt(t) == (Format02(h) + ":" + Format02(m), Label12(h, m))
  {
    ClockOfMinutes(t, h, m);
  }

  /** The hour and minute of a time given in minutes after midnight. */
  lemma ClockOfMinutes(t: int, h: int, m: int)
    requires t == 60 * h + m && 0 <= m < 60
    ensures t / 60 == h && t % 60 == m
  {
  }

  /** A time written with two digits for the hour. */
  lemma TwoDigits(n: nat, text: string)
    requires 10 <= n < 100 && text == [DigitChar(n / 10), DigitChar(n % 10)]
    ensures NatToString(n) == text && Format02(n) == text
  {
    assert NatToString(n) == NatToString(n / 10) + [DigitChar(n % 10)];
  }

  /** A label with minutes is the hour, a colon, the two-digit minutes and
      the period. */
  lemma LabelWithMinutes(hour: nat, minute: nat, hourText: string, minuteText: string)
    requires 0 < minute && NatToString(Hour12(hour)) == hourText && Format02(minute) == minuteText
    ensures Label12(hour, minute) == hourText + ":" + minuteText + Period(hour)
  {
  }

  /** The first grid time, 8:45 AM. */
  lemma Label845(h: nat, m: nat)
    requires h == 8 && m == 45
    ensures Format02(h) + ":" + Format02(m) == "08:45"
    ensures Label12(h, m) == "8:45AM"
  {
    assert NatToString(h) == "8";
    TwoDigits(m, "45");
    LabelWithMinutes(h, m, "8", "45");
  }

  /** The last grid time, 11:15 PM. */
  lemma Label2315(h: nat, m: nat)
    requires h == 23 && m == 15
    ensures Format02(h) + ":" + Format02(m) == "23:15"
    ensures Label12(h, m) == "11:15PM"
  {
    TwoDigits(h, "23");
    TwoDigits(m, "15");
    TwoDigits(11, "11");
    LabelWithMinutes(h, m, "11", "15");
  }

  /** The entry for 8:45 AM. */
  lemma FirstEntry(t: nat)
    requires t == FirstMinutes
    ensures OptionAt(t) == ("08:45", "8:45AM")
  {
    OptionAtClock(t, 8, 45);
    Label845(8, 45);
  }

  /** The entry for 11:15 PM. */
  lemma LastEntry(t: nat)
    requires t == LastMinutes
    ensures OptionAt(t) == ("23:15", "11:15PM")
  {
    OptionAtClock(t, 23, 15);
    Label2315(23, 15);
  }

  /** The grid starts at 8:45 AM and ends at 11:15 PM. */
  lemma OptionsEnds()
    ensures Options()[0] == ("08:45", "8:45AM")
    ensures Options()[|Options()| - 1] == ("23:15", "11:15PM")
  {
    FirstEntry(GridTime(0));
    LastEntry(GridTime(58));
  }

  /** Grid times strictly increase along the grid, and the grid has no
      repeated time and no repeated label. */
  lemma OptionsOrdered(i: int, j: int)
    requires 0 <= i < j < |Options()|
    ensures ParseTime(Options()[i].0).Ok? && ParseTime(Options()[j].0).Ok?
    ensures Minutes(ParseTime(Options()[i].0).value) < Minutes(ParseTime(Options()[j].0).value)
    ensures Options()[i].0 != Options()[j].0
    ensures Options()[i].1 != Options()[j].1
  {
    GridClock(i);
    GridClock(j);
    GridClockValues(i);
    GridClockValues(j);
    OptionsDistinct(i, j);
  }

  /** Every label of the grid is `format_time_12h` of its grid time. */
  lemma LabelsAreFormatted(i: int)
    requires 0 <= i < |Options()|
    ensures FormatTime12h(Options()[i].0) == Options()[i].1
  {
    GridClock(i);
  }

  /** Each grid entry is the last, indeed the only, entry with its time and
      the only one with its label. */
  lemma OptionUnique(i: int)
    requires 0 <= i < |Options()|
    ensures LastWithKey(Options(), i)
    ensures LastWithKey(Swapped(Options()), i)
  {
    forall j | i < j < |Options()|
      ensures Options()[j].0 != Options()[i].0 && Options()[j].1 != Options()[i].1
    {
      OptionsDistinct(i, j);
    }
    SwappedLast(Options(), i);
  }

  /** Two grid entries differ in both time and label. */
  lemma OptionsDistinct(i: int, j: int)
    requires 0 <= i < j < |Options()|
    ensures Options()[j].0 != Options()[i].0 && Options()[j].1 != Options()[i].1
  {
    var hi, mi, hj, mj := GridHour(i), GridMinute(i), GridHour(j), GridMinute(j);
    GridClock(i);
    GridClock(j);
    GridClockValues(i);
    GridClockValues(j);
    if Options()[j].1 == Options()[i].1 {
      Label12Injective(hi, mi, hj, mj);
    }
  }

  /** A pair whose value no later pair repeats is the last with its key once
      the pairs are swapped. */
  lemma SwappedLast(pairs: seq<(string, string)>, i: int)
    requires 0 <= i < |pairs|
    requires forall j :: i < j < |pairs| ==> pairs[j].1 != pairs[i].1
    ensures LastWithKey(Swapped(pairs), i)
  {
  }

  /** The two tables are inverse on the grid. */
  lemma TablesInverse(i: int)
    requires 0 <= i < |Options()|
    ensures Options()[i].0 in Time24ToLabel() && Time24ToLabel()[Options()[i].0] == Options()[i].1
    ensures Options()[i].1 in TimeLabelTo24() && TimeLabelTo24()[Options()[i].1] == Options()[i].0
  {
    OptionUnique(i);
    Time24Dict();
    LabelTo24Dict();
    DictLookup(Options(), Time24ToLabel(), i);
    DictLookup(Swapped(Options()), TimeLabelTo24(), i);
  }

  /** The dict built from pairs maps the key of a pair that no later pair
      overrides to that pair's value. */
  lemma DictLookup(pairs: seq<(string, string)>, m: map<string, string>, i: int)
    requires DictOf(pairs, m) && 0 <= i < |pairs| && LastWithKey(pairs, i)
    ensures pairs[i].0 in m && m[pairs[i].0] == pairs[i].1
  {
    assert Keys(pairs)[i] == pairs[i].0;
  }

  /** The fallback of `label_to_time`. */
  const DefaultTime := "10:00"

  /** `label_to_time`: the grid time of a grid label, which
      `TIME_24_TO_LABEL` maps back to that label; any other text gives the
      fallback 10:00. */
  function LabelToTime(text: string): (r: string)
    ensures text in TimeLabels() ==> r in Time24ToLabel() && Time24ToLabel()[r] == text
    ensures text !in TimeLabels() ==> r == DefaultTime
  {
    var table := TimeLabelTo24();
    LabelTo24Dict();
    if text in table then
      LabelLookup(text);
      table[text]
    else DefaultTime
  }

  /** A grid label is a key of `TIME_LABEL_TO_24`, and its time is a key of
      `TIME_24_TO_LABEL` that maps back to the label. */
  lemma LabelLookup(text: string)
    requires text in TimeLabels()
    ensures text in TimeLabelTo24()
    ensures TimeLabelTo24()[text] in Time24ToLabel() && Time24ToLabel()[TimeLabelTo24()[text]] == text
  {
    var i :| 0 <= i < |TimeLabels()| && TimeLabels()[i] == text;
    LabelAt(i);
    TablesInverse(i);
  }

  /** On the grid, `label_to_time` undoes `TIME_24_TO_LABEL` and
      `time_to_label` undoes `label_to_time`. */
  lemma GridRoundTrip(i: int)
    requires 0 <= i < |Options()|
    ensures Options()[i].0 in Time24ToLabel() && LabelToTime(Time24ToLabel()[Options()[i].0]) == Options()[i].0
    ensures LabelToTime(TimeLabels()[i]) == Options()[i].0
  {
    TablesInverse(i);
    var key, text := Options()[i].0, Options()[i].1;
    assert LabelToTime(text) == key;
    LabelAt(i);
  }

  /** `xs.index(x)` when `x` occurs: the position of its first occurrence. */
  function IndexOf(xs: seq<string>, x: string): (r: Option<nat>)
    ensures r.None? <==> x !in xs
    ensures r.Some? ==> r.value < |xs| && xs[r.value] == x
    ensures r.Some? ==> forall j :: 0 <= j < r.value ==> xs[j] != x
  {
    if |xs| == 0 then None
    else if xs[0] == x then Some(0)
    else
      match IndexOf(xs[1..], x)
      case None => None
      case Some(k) => Some(k + 1)
  }

  /** The default of `get_time_index`. */
  const DefaultLabel := "10AM"

  /** `get_time_index`: the position of `text` in the grid, else that of
      `defaultLabel`, else 0. */
  function GetTimeIndex(text: string, defaultLabel: string): (r: nat)
    ensures r < |TimeLabels()|
    ensures text in TimeLabels() ==> TimeLabels()[r] == text
    ensures text !in TimeLabels() && defaultLabel in TimeLabels() ==> TimeLabels()[r] == defaultLabel
    ensures text !in TimeLabels() && defaultLabel !in TimeLabels() ==> r == 0
  {
    match IndexOf(TimeLabels(), text)
    case Some(i) => i
    case None =>
      match IndexOf(TimeLabels(), defaultLabel)
      case Some(i) => i
      case None => 0
  }

  /** The sixth label of the grid is 10 AM. */
  lemma TenAM(i: int)
    requires i == 5
    ensures TimeLabels()[i] == DefaultLabel
  {
    GridLabelAt(i, 10, 0);
    TenAMLabel(10, 0);
  }

  /** The label of the `i`-th grid time, given as hour and minute. */
  lemma GridLabelAt(i: int, h: nat, m: nat)
    requires 0 <= i < 59 && GridTime(i) == 60 * h + m && m < 60
    ensures TimeLabels()[i] == Label12(h, m)
  {
    OptionAtClock(GridTime(i), h, m);
    LabelAt(i);
  }

  /** 10:00 is labelled `10AM`. */
  lemma TenAMLabel(h: nat, m: nat)
    requires h == 10 && m == 0
    ensures Label12(h, m) == DefaultLabel
  {
    TwoDigits(h, "10");
    assert Label12(h, m) == LabelBody(h, m) + Period(h);
  }

  /** 10 AM is the sixth entry of the grid, so an unknown label picks it. */
  lemma DefaultLabelIndex(text: string)
    requires text !in TimeLabels()
    ensures GetTimeIndex(text, DefaultLabel) == 5
  {
    TenAM(5);
    LabelsBeforeTenAM();
    FirstIndex(TimeLabels(), DefaultLabel, 5);
  }

  /** No label before the sixth is 10 AM. */
  lemma LabelsBeforeTenAM()
    ensures forall j :: 0 <= j < 5 ==> TimeLabels()[j] != TimeLabels()[5]
  {
    forall j | 0 <= j < 5
      ensures TimeLabels()[j] != TimeLabels()[5]
    {
      OptionsDistinct(j, 5);
      LabelAt(j);
      LabelAt(5);
    }
  }

  /** `xs.index(x)` finds the position of `x` when nothing before it is
      `x`. */
  lemma FirstIndex(xs: seq<string>, x: string, k: int)
    requires 0 <= k < |xs| && xs[k] == x
    requires forall j :: 0 <= j < k ==> xs[j] != x
    ensures IndexOf(xs, x) == Some(k)
  {
  }

  /** A whole number of minutes is never exactly half-way between two
      quarters, so `round(m / 15)` is the quotient of `m + 7` by 15. */
  lemma QuarterRound(m: int)
    ensures RoundHalfEven(m as real / 15.0) == (m + 7) / 15
  {
    var n := RoundHalfEven(m as real / 15.0);
    var x := m as real / 15.0;
    assert x * 15.0 == m as real;
    assert (n as real - 0.5) * 15.0 <= m as real <= (n as real + 0.5) * 15.0;
    assert 15 * n - 7 <= m <= 15 * n + 7;
  }

  /** `HH:MM` splits at its colon into the two fields. */
  lemma ClockSplit(h: int, m: int)
    ensures Split(Format02(h) + ":" + Format02(m), ':') == [Format02(h), Format02(m)]
  {
    var a, b := Format02(h), Format02(m);
    assert ':' !in a && ':' !in b by {
      ParseIntOfFormat02(h);
      ParseIntOfFormat02(m);
      if 0 <= h { DigitsOnly(a, ':'); } else { DigitsOnly(a[1..], ':'); assert a == "-" + a[1..]; }
      if 0 <= m { DigitsOnly(b, ':'); } else { DigitsOnly(b[1..], ':'); assert b == "-" + b[1..]; }
    }
    SplitNone(b, ':');
    SplitPrefix(a, ':', b);
    assert a + ":" + b == a + [':'] + b;
  }

  /** Every value of `TIME_24_TO_LABEL` is a grid label. */
  lemma TableValues(key: string)
    requires key in Time24ToLabel()
    ensures Time24ToLabel()[key] in TimeLabels()
  {
    Time24Dict();
    var i := EntryOf(Options(), Time24ToLabel(), key);
    LabelAt(i);
  }

  /** The shape of `TIME_OPTIONS`: the `i`-th entry is the `i`-th grid
      time. */
  ghost predicate IsGrid(opts: seq<(string, string)>) {
    && |opts| == 59
    && forall i :: 0 <= i < |opts| ==> opts[i].0 == Format02(GridHour(i)) + ":" + Format02(GridMinute(i))
  }

  /** `TIME_OPTIONS` has that shape. */
  lemma OptionsIsGrid()
    ensures IsGrid(Options())
  {
    forall i | 0 <= i < |Options()|
      ensures Options()[i].0 == Format02(GridHour(i)) + ":" + Format02(GridMinute(i))
    {
      GridClock(i);
    }
  }

  /** A time, in minutes after midnight, that is on the grid. */
  predicate IsGridTime(t: int) {
    FirstMinutes <= t <= LastMinutes && (t - FirstMinutes) % 15 == 0
  }

  /** The index of a grid time on the grid. */
  function GridIndexOf(t: int): int {
    (t - FirstMinutes) / 15
  }

  /** The `i`-th grid time is on the grid at index `i`. */
  lemma GridIndex(t: int, i: int)
    requires 0 <= i < 59 && t == GridTime(i)
    ensures IsGridTime(t) && GridIndexOf(t) == i
  {
    ExactQuarters(t - FirstMinutes, i);
  }

  /** A time on the grid is the grid time at its index. */
  lemma GridOfTime(t: int)
    requires IsGridTime(t)
    ensures 0 <= GridIndexOf(t) < 59 && GridTime(GridIndexOf(t)) == t
  {
    var d := t - FirstMinutes;
    assert d == 15 * (d / 15) + d % 15;
    assert d == 15 * (d / 15);
  }

  /** A whole number of quarter hours divides exactly. */
  lemma ExactQuarters(d: int, k: int)
    requires d == 15 * k
    ensures d % 15 == 0 && d / 15 == k
  {
    var q, r := d / 15, d % 15;
    assert d == 15 * q + r && 0 <= r < 15;
    assert 15 * (k - q) == r;
  }

  /** A key of a dict built from the grid names a grid time, and the dict
      maps it to the label of that time's entry. */
  lemma GridKeyOf(opts: seq<(string, string)>, table: map<string, string>, h: int, m: int, t: int)
    returns (i: int)
    requires IsGrid(opts) && DictOf(opts, table) && t == 60 * h + m
    requires Format02(h) + ":" + Format02(m) in table
    ensures 0 <= i < 59 && t == GridTime(i)
    ensures IsGridTime(t) && GridIndexOf(t) == i
    ensures table[Format02(h) + ":" + Format02(m)] == opts[i].1
  {
    var key := Format02(h) + ":" + Format02(m);
    i := EntryOf(opts, table, key);
    SameClockText(h, m, GridHour(i), GridMinute(i));
    GridClockFields(i);
    GridIndex(t, i);
  }

  /** A key of a dict built from pairs comes from one of the pairs. */
  lemma EntryOf(pairs: seq<(string, string)>, table: map<string, string>, key: string) returns (i: int)
    requires DictOf(pairs, table) && key in table
    ensures 0 <= i < |pairs| && pairs[i] == (key, table[key])
  {
    assert (key, table[key]) in pairs;
    i :| 0 <= i < |pairs| && pairs[i] == (key, table[key]);
  }

  /** Equal `HH:MM` texts are the same hour and minute. */
  lemma SameClockText(h1: int, m1: int, h2: int, m2: int)
    requires Format02(h1) + ":" + Format02(m1) == Format02(h2) + ":" + Format02(m2)
    ensures h1 == h2 && m1 == m2
  {
    ParseTimeOfFormat(h1, m1);
    ParseTimeOfFormat(h2, m2);
  }

  /** A grid time written `HH:MM` is a key of a dict built from the grid,
      mapped to the label of its entry. */
  lemma GridTimeKeyOf(opts: seq<(string, string)>, table: map<string, string>, h: int, m: int, t: int)
    returns (i: int)
    requires IsGrid(opts) && DictOf(opts, table) && 0 <= m < 60 && t == 60 * h + m
    requires IsGridTime(t)
    ensures i == GridIndexOf(t) && 0 <= i < 59
    ensures Format02(h) + ":" + Format02(m) in table
    ensures table[Format02(h) + ":" + Format02(m)] == opts[i].1
  {
    i := GridIndexOf(t);
    GridOfTime(t);
    ClockOfMinutes(t, h, m);
    assert GridHour(i) == h && GridMinute(i) == m;
    assert Keys(opts)[i] == Format02(h) + ":" + Format02(m);
    var k := GridKeyOf(opts, table, h, m, t);
  }

  /** `HH:MM` text of a time is a key of a dict built from the grid exactly
      when the time is on the grid, and then it maps to that time's label. */
  lemma KeyInGrid(opts: seq<(string, string)>, table: map<string, string>, h: int, m: int, t: int)
    requires IsGrid(opts) && DictOf(opts, table) && 0 <= m < 60 && t == 60 * h + m
    ensures Format02(h) + ":" + Format02(m) in table <==> IsGridTime(t)
    ensures Format02(h) + ":" + Format02(m) in table ==>
              table[Format02(h) + ":" + Format02(m)] == opts[GridIndexOf(t)].1
  {
    if Format02(h) + ":" + Format02(m) in table {
      var i := GridKeyOf(opts, table, h, m, t);
    } else if IsGridTime(t) {
      var i := GridTimeKeyOf(opts, table, h, m, t);
    }
  }

  /** `HH:MM` text of a time is a key of `TIME_24_TO_LABEL` exactly when the
      time is on the grid, and then it maps to that grid time's label. */
  lemma KeyInTable(h: int, m: int, t: int)
    requires 0 <= m < 60 && t == 60 * h + m
    ensures Format02(h) + ":" + Format02(m) in Time24ToLabel() <==> IsGridTime(t)
    ensures Format02(h) + ":" + Format02(m) in Time24ToLabel() ==>
              Time24ToLabel()[Format02(h) + ":" + Format02(m)] == TimeLabels()[GridIndexOf(t)]
  {
    OptionsIsGrid();
    Time24Dict();
    KeyInGrid(Options(), Time24ToLabel(), h, m, t);
    if IsGridTime(t) {
      GridOfTime(t);
      LabelAt(GridIndexOf(t));
    }
  }

  /** The `i`-th grid label is the label of the `i`-th entry. */
  lemma LabelAt(i: int)
    requires 0 <= i < 59
    ensures TimeLabels()[i] == Options()[i].1
  {
  }

  /** The first step of `time_to_label`: the minute rounded to the nearest
      quarter hour, a full hour carrying into the hour on a 24-hour clock. */
  function RoundToQuarter(hour: int, minute: int): (hm: (int, int))
    ensures hm.1 % 15 == 0
    ensures 0 <= minute < 60 ==> 0 <= hm.1 < 60
  {
    var k := RoundHalfEven(minute as real / 15.0);
    QuarterRound(minute);
    var q := k * 15;
    if q == 60 then ((hour + 1) % 24, 0) else (hour, q)
  }

  /** Minutes after midnight rounded to the nearest quarter hour. */
  function NearestQuarter(t: int): int {
    15 * ((t + 7) / 15)
  }

  /** For a clock time, `RoundToQuarter` is the nearest quarter hour, taken
      modulo a day; it wraps to midnight only from 23:53 on. */
  lemma RoundToQuarterNearest(hour: int, minute: int)
    requires 0 <= hour < 24 && 0 <= minute < 60
    ensures var hm := RoundToQuarter(hour, minute);
            0 <= hm.0 < 24 && 60 * hm.0 + hm.1 == NearestQuarter(60 * hour + minute) % 1440
    ensures var t := 60 * hour + minute;
            -7 <= NearestQuarter(t) - t <= 7 && NearestQuarter(t) % 15 == 0
    ensures var hm := RoundToQuarter(hour, minute);
            60 * hm.0 + hm.1 == NearestQuarter(60 * hour + minute) <==> 60 * hour + minute < 1433
  {
    QuarterRound(minute);
    var k := (minute + 7) / 15;
    assert (60 * hour + minute + 7) / 15 == 4 * hour + k;
  }

  /** The second step of `time_to_label`: the label of the rounded time,
      falling back to the first label, or to the last one late in the
      evening. */
  function LabelOfRounded(h: int, m: int): (r: string)
    ensures r in TimeLabels()
  {
    var rounded := Format02(h) + ":" + Format02(m);
    var table := Time24ToLabel();
    var labels := TimeLabels();
    if rounded in table then
      TableValues(rounded);
      table[rounded]
    else if h < 9 || (h == 8 && m < 45) then labels[0]
    else if h >= 23 && m > 15 then labels[|labels| - 1]
    else labels[0]
  }

  /** `time_to_label` once the hour and minute are read. */
  function RoundedLabel(hour: int, minute: int): (r: string)
    ensures r in TimeLabels()
  {
    var hm := RoundToQuarter(hour, minute);
    LabelOfRounded(hm.0, hm.1)
  }

  /** The reading step of `time_to_label`: `int()` of the text before the
      first colon and of the text after it; raises (`None`) when there is no
      colon or either field is not a number. */
  function ReadClock(time24: string): (r: Option<(int, int)>)
    ensures var parts := Split(time24, ':');
            r.Some? <==> 2 <= |parts| && ParseInt(parts[0]).Some? && ParseInt(parts[1]).Some?
  {
    var parts := Split(time24, ':');
    if |parts| < 2 then None
    else
      match (ParseInt(parts[0]), ParseInt(parts[1]))
      case (Some(h), Some(m)) => Some((h, m))
      case _ => None
  }

  /** `HH:MM` text reads back as the hour and minute it was written from. */
  lemma ReadClockOfFormat(h: int, m: int)
    ensures ReadClock(Format02(h) + ":" + Format02(m)) == Some((h, m))
  {
    ClockSplit(h, m);
    ParseIntOfFormat02(h);
    ParseIntOfFormat02(m);
  }

  /** `time_to_label`: the label of `time24` rounded to a quarter hour, or
      a fallback label; raises (`None`) when the text cannot be read. */
  function TimeToLabel(time24: string): (r: Option<string>)
    ensures r.Some? <==> ReadClock(time24).Some?
    ensures r.Some? ==> r.value in TimeLabels()
  {
    match ReadClock(time24)
    case Some(hm) => Some(RoundedLabel(hm.0, hm.1))
    case None => None
  }

  /** A time read from `HH:MM` text. */
  lemma TimeToLabelOfClock(h: int, m: int)
    ensures TimeToLabel(Format02(h) + ":" + Format02(m)) == Some(RoundedLabel(h, m))
  {
    ReadClockOfFormat(h, m);
  }

  /** A quarter hour rounds to itself. */
  lemma QuarterFixed(m: int)
    requires IsQuarter(m)
    ensures RoundToQuarter(0, m).1 == m
  {
    QuarterRound(m);
  }

  /** The label lookup on a rounded grid time gives that time's label. */
  lemma LabelOfRoundedOnGrid(h: int, m: int, t: int)
    requires 0 <= m < 60 && t == 60 * h + m && IsGridTime(t)
    ensures LabelOfRounded(h, m) == TimeLabels()[GridIndexOf(t)]
    ensures ClampIndex(GridIndexOf(t)) == GridIndexOf(t)
  {
    GridOfTime(t);
    KeyInTable(h, m, t);
  }

  /** The label lookup on a rounded time before the grid gives the first
      label. */
  lemma LabelOfRoundedEarly(h: int, m: int, t: int)
    requires 0 <= m < 60 && t == 60 * h + m && t < FirstMinutes
    ensures LabelOfRounded(h, m) == TimeLabels()[0]
    ensures ClampIndex(GridIndexOf(t)) == 0
  {
    ClampOffGrid(t);
    KeyInTable(h, m, t);
  }

  /** The label lookup on a rounded time of the day after the grid gives the
      last label. */
  lemma LabelOfRoundedLate(h: int, m: int, t: int)
    requires h < 24 && 0 <= m < 60 && t == 60 * h + m && LastMinutes < t
    ensures LabelOfRounded(h, m) == TimeLabels()[|TimeLabels()| - 1]
    ensures ClampIndex(GridIndexOf(t)) == 58
  {
    ClampOffGrid(t);
    KeyInTable(h, m, t);
  }

  /** Times before the grid clamp to its first index, times after it to its
      last. */
  lemma ClampOffGrid(t: int)
    ensures t < FirstMinutes ==> ClampIndex(GridIndexOf(t)) == 0
    ensures LastMinutes < t ==> ClampIndex(GridIndexOf(t)) == 58
  {
  }

  /** A quarter hour within the grid's span is on the grid. */
  lemma QuarterOnGrid(h: int, m: int, t: int)
    requires m % 15 == 0 && t == 60 * h + m && FirstMinutes <= t <= LastMinutes
    ensures IsGridTime(t)
  {
    var k := m / 15;
    assert m == 15 * k;
    assert t - FirstMinutes == 15 * (4 * h + k - 35);
  }

  /** Every grid time maps to its own label. */
  lemma TimeToLabelOnGrid(i: int)
    requires 0 <= i < |Options()|
    ensures TimeToLabel(Options()[i].0) == Some(TimeLabels()[i])
  {
    var h, m := GridHour(i), GridMinute(i);
    GridClock(i);
    GridClockValues(i);
    TimeToLabelOfClock(h, m);
    QuarterFixed(m);
    assert RoundToQuarter(h, m) == (h, m);
    GridIndex(GridTime(i), i);
    LabelOfRoundedOnGrid(h, m, GridTime(i));
  }

  /** Distance between two times in minutes. */
  function Dist(a: int, b: int): nat {
    if a < b then b - a else a - b
  }

  /** An index held within the grid's bounds. */
  function ClampIndex(k: int): (i: int)
    ensures 0 <= i < 59
    ensures 0 <= k < 59 ==> i == k
  {
    if k < 0 then 0 else if k > 58 then 58 else k
  }

  /** The grid index of the grid time nearest to `t` minutes after
      midnight: its quarter hour, clamped to the grid's ends. */
  function NearestIndex(t: int): (i: int)
    ensures 0 <= i < 59
  {
    ClampIndex(GridIndexOf(NearestQuarter(t)))
  }

  /** No grid time is closer to `t` than the one `NearestIndex` picks. */
  lemma NearestIndexIsNearest(t: int, j: int)
    requires 0 <= j < 59
    ensures Dist(GridTime(NearestIndex(t)), t) <= Dist(GridTime(j), t)
  {
    var k := (t + 7) / 15;
    assert t + 7 - 14 <= 15 * k <= t + 7;
    assert GridIndexOf(NearestQuarter(t)) == k - 35;
  }

  /** `time_to_label` as its comment describes it: the label of the grid time
      nearest to the given time, clamped to 8:45 AM before the grid and to
      11:15 PM after it, with no wrap past midnight. */
  function ClampedLabel(hour: int, minute: int): (r: string)
    ensures r in TimeLabels()
  {
    TimeLabels()[NearestIndex(60 * hour + minute)]
  }

  /** `time_to_label` with the clamping of `ClampedLabel`. */
  function TimeToLabelClamped(time24: string): (r: Option<string>)
    ensures r.Some? <==> ReadClock(time24).Some?
    ensures r.Some? ==> r.value in TimeLabels()
  {
    match ReadClock(time24)
    case Some(hm) => Some(ClampedLabel(hm.0, hm.1))
    case None => None
  }

  /** A time read from `HH:MM` text, clamped. */
  lemma TimeToLabelClampedOfClock(h: int, m: int)
    ensures TimeToLabelClamped(Format02(h) + ":" + Format02(m)) == Some(ClampedLabel(h, m))
  {
    ReadClockOfFormat(h, m);
  }

  /** Up to 23:52 `time_to_label` as written and the clamped label agree on
      every clock time. */
  lemma RoundedLabelIsClamped(hour: int, minute: int)
    requires 0 <= hour < 24 && 0 <= minute < 60 && 60 * hour + minute < 1433
    ensures RoundedLabel(hour, minute) == ClampedLabel(hour, minute)
  {
    var hm := RoundToQuarter(hour, minute);
    var idx := RoundedIndex(hour, minute, hm);
    assert RoundedLabel(hour, minute) == LabelOfRounded(hm.0, hm.1);
    assert ClampedLabel(hour, minute) == TimeLabels()[NearestIndex(60 * hour + minute)];
  }

  /** Where the rounded clock time falls on the grid, by index. */
  lemma RoundedIndex(hour: int, minute: int, hm: (int, int)) returns (idx: int)
    requires 0 <= hour < 24 && 0 <= minute < 60 && 60 * hour + minute < 1433
    requires hm == RoundToQuarter(hour, minute)
    ensures idx == NearestIndex(60 * hour + minute)
    ensures LabelOfRounded(hm.0, hm.1) == TimeLabels()[idx]
  {
    RoundToQuarterNearest(hour, minute);
    var t := NearestQuarter(60 * hour + minute);
    idx := ClampIndex(GridIndexOf(t));
    LabelOfRoundedAt(hm.0, hm.1, t);
  }

  /** The label lookup on a rounded clock time gives the label at its grid
      index, clamped to the grid's ends. */
  lemma LabelOfRoundedAt(h: int, m: int, t: int)
    requires 0 <= h < 24 && 0 <= m < 60 && m % 15 == 0 && t == 60 * h + m
    ensures LabelOfRounded(h, m) == TimeLabels()[ClampIndex(GridIndexOf(t))]
  {
    if t < FirstMinutes {
      LabelOfRoundedEarly(h, m, t);
    } else if LastMinutes < t {
      LabelOfRoundedLate(h, m, t);
    } else {
      QuarterOnGrid(h, m, t);
      LabelOfRoundedOnGrid(h, m, t);
    }
  }

  /** From 23:53 to 23:59 the minute rounds up to the next day's midnight,
      which lies before the grid. */
  lemma LateEveningRounded(minute: int)
    requires 53 <= minute < 60
    ensures RoundedLabel(23, minute) == "8:45AM"
  {
    RoundsToMidnight(minute);
    LabelOfRoundedEarly(0, 0, 0);
    OptionsEnds();
    LabelAt(0);
  }

  /** From 23:53 on the minute rounds up to midnight. */
  lemma RoundsToMidnight(minute: int)
    requires 53 <= minute < 60
    ensures RoundToQuarter(23, minute) == (0, 0)
  {
    QuarterRound(minute);
    assert (minute + 7) / 15 == 4;
  }

  /** From 23:53 to 23:59 the nearest grid time is the last one. */
  lemma LateEveningClamped(minute: int)
    requires 53 <= minute < 60
    ensures ClampedLabel(23, minute) == "11:15PM"
  {
    var t := 60 * 23 + minute;
    LateNearest(t);
    LastLabel(NearestIndex(t));
  }

  /** The last label of the grid is 11:15 PM. */
  lemma LastLabel(k: int)
    requires k == 58
    ensures TimeLabels()[k] == "11:15PM"
  {
    OptionsEnds();
    LabelAt(k);
  }

  /** From 23:53 on the nearest grid time is the last one. */
  lemma LateNearest(t: int)
    requires 60 * 23 + 53 <= t < 60 * 24
    ensures NearestIndex(t) == 58
  {
    assert (t + 7) / 15 == 96;
  }

  /** From 23:53 to 23:59 `time_to_label` as written rounds up to midnight,
      misses the grid and returns the first label, 8:45 AM, where the
      nearest grid time is the last one, 11:15 PM. */
  lemma LateEveningWraps(minute: int)
    requires 53 <= minute < 60
    ensures TimeToLabel(Format02(23) + ":" + Format02(minute)) == Some("8:45AM")
    ensures TimeToLabelClamped(Format02(23) + ":" + Format02(minute)) == Some("11:15PM")
  {
    ReadClockOfFormat(23, minute);
    LateEveningRounded(minute);
    LateEveningClamped(minute);
  }
}
