# Payroll engine and time-of-day helpers, in Dafny

This project models the computation at the heart of a small shift-scheduling
and payroll application:

- the payroll engine of `payroll.py`:
  - parsing shift times and computing shift hours, with overnight wrap and
    an optional lunch break;
  - the daily overtime split;
  - the weekly overtime fold, which reclassifies regular hours beyond the
    weekly threshold;
  - the Monday-start week and the biweekly pay period anchored at Monday
    2025-01-06;
  - the per-employee payroll and the payroll report over all active
    employees;
- the time-of-day helpers of `app.py`:
  - 24-hour to 12-hour labels and time ranges;
  - the default 3-4 PM lunch rule;
  - the 15-minute grid of the time pickers (08:45 to 23:15) with its two
    lookup tables;
  - rounding a time to a grid label, reading a label back, and finding a
    label's picker index.

Units and representations:

- Hours are exact integers counting hundredths of an hour. Money is integer
  cents.
- A shift's minutes become hundredths by rounding `minutes * 100 / 60` half
  to even. `round(x, 2)` of a sum or difference of hundredths is the
  identity, so the fold needs no rounding.
- Pay is `RoundHalfEven` of an exact real product. `round(·, 2)` agrees with
  this on the decimal value.
- A date is its proleptic Gregorian ordinal, as `date.toordinal()` gives it:
  0001-01-01 is day 1 and a Monday, and 9999-12-31 is day 3652059. The
  `OverflowError` raised when date arithmetic leaves that range is the error
  `DateOverflow`.
- The data store is plain maps:
  - the employees table is keyed by id;
  - the shifts table is keyed by (employee id, date), which the uniqueness
    constraint of `database.py` makes a function;
  - the active-employee listing is a sequence, described by
    `Payroll.IsActiveListing`.
- Exceptions become `Result`/`Option` values:
  - `ValueError` from `int()` is `InvalidTimeFormat`;
  - an unknown employee is `EmployeeNotFound`;
  - an exception that `format_time_12h` or `get_default_lunch` catches
    becomes their fallback value.

Modules:

- `Results`: `Option`, `Result` and the error kinds.
- `Text`:
  - `int()` on ASCII text (`ParseInt`);
  - `str()` and the `:02d` format (`NatToString`, `Format02`);
  - `str.split` (`Split`).
- `Sums`: `sum()` over a sequence.
- `Rounding`: round half to even, and minutes to hundredths of an hour.
- `Calendar`: week and biweekly period dates.
- `ShiftTime`: `parse_time` and `calculate_shift_hours`.
- `Overtime`:
  - `calculate_daily_overtime` and `calculate_weekly_overtime`;
  - an independent closed-form reference for the fold.
- `Payroll`: `calculate_employee_payroll` and `calculate_payroll_report`.
- `TimeOptions`: the `app.py` helpers, lines 47-161.

## Model

| member | source | states |
|---|---|---|
| Rounding.RoundHalfEven | payroll.py:67 | the result is within one half of the argument, and a tie goes to the even integer |
| Rounding.MinutesToCentihours | payroll.py:67 | minutes in hundredths of an hour, within a third of a hundredth of minutes/60 |
| Rounding.MinutesToCentihoursMonotone | payroll.py:67 | more minutes never give fewer hours |
| Rounding.MinutesToCentihoursWholeHours | payroll.py:67 | whole hours convert exactly |
| ShiftTime.ParseTime | payroll.py:36-39 | succeeds exactly when the field before the first colon, and the field after it if there is one, read as integers |
| ShiftTime.ParseTimeWithoutColon | payroll.py:39 | without a colon the minute is 0 |
| ShiftTime.ParseTimeOfFormat | payroll.py:36-39 | `HH:MM` text reads back as the hour and minute it was written from |
| ShiftTime.SpanMinutes | payroll.py:48-55 | an end before the start is on the next day: for clock times the span is (end - start) mod 1440 |
| ShiftTime.LunchMinutes | payroll.py:58-65 | a lunch is deducted only when it ends after it starts, and then by its full length |
| ShiftTime.ShiftHours | payroll.py:42-67 | succeeds exactly when the times read; never more than the span, never negative; equal to the span when either lunch field is missing or blank |
| ShiftTime.ShiftHoursOnClock | payroll.py:42-67 | without lunch, the hours are the overnight-wrapped span converted to hundredths |
| ShiftTime.ShiftHoursWithLunch | payroll.py:42-67 | with both lunch fields given, the hours are max(0, span - positive lunch length) converted to hundredths |
| ShiftTime.DayShiftExample | payroll.py:42-67 | 10:00 to 18:00 is 8 hours |
| ShiftTime.OvernightShiftExample | payroll.py:51-53 | 22:00 to 06:00 wraps to 8 hours |
| ShiftTime.LunchExample | payroll.py:57-65 | a 15:00-16:00 lunch takes one hour off |
| ShiftTime.SwappedLunchExample | payroll.py:64-65 | a lunch that ends before it starts takes nothing off |
| ShiftTime.BlankLunchExample | payroll.py:58 | a blank lunch field takes nothing off |
| Overtime.DailySplit | payroll.py:70-80 | regular is min(hours, threshold) and overtime is max(0, hours - threshold); they add up to the day's hours |
| Overtime.WeeklyStep | payroll.py:99-105 | keeps the day's total; below the cap it never raises regular hours and keeps the running total within the cap |
| Overtime.RunningRegular | payroll.py:93-107 | the running regular total never exceeds a non-negative weekly threshold |
| Overtime.WeeklyDay | payroll.py:95-108 | one day of the fold adds up to that day's hours; regular never exceeds the daily-rule regular, and overtime never falls below the daily-rule overtime |
| Overtime.WeeklySplit | payroll.py:83-110 | one pair per day, in input order, each adding up to the day's hours; the weekly pass only moves regular hours into overtime; regular hours stay non-negative |
| Overtime.WeeklyRegularPrefix | payroll.py:107 | the regular hours of the first k days are the running total after k days |
| Overtime.DaysRegularPrefix | payroll.py:107 | the same, for any sequence whose days are the fold's days |
| Overtime.WeeklyCap | payroll.py:97-107 | the cumulative regular hours of every prefix stay within the weekly threshold |
| Overtime.WeeklyStepFills | payroll.py:99-107 | one step fills the capped running total by exactly the day's regular hours, up to the cap |
| Overtime.RunningRegularIsFilled | payroll.py:92-110 | the running total equals the closed form min(daily-rule regular so far, weekly threshold) |
| Overtime.WeeklyMatchesReference | payroll.py:92-110 | every day of the fold equals the closed-form reference split |
| Overtime.WeeklyDayIsReference | payroll.py:92-110 | one day of the fold equals the reference split |
| Overtime.WeeklyTotals | payroll.py:92-110 | over the range, regular = min(sum of daily-rule regular, weekly threshold) and overtime is the rest |
| Overtime.NoOvertimeUnderThresholds | payroll.py:100-105 | when every day is within the daily threshold and the total is within the weekly one, there is no overtime |
| Overtime.ThresholdNotReached | payroll.py:100 | a day that does not cross the cap keeps its daily split |
| Overtime.ThresholdCrossed | payroll.py:100-105 | the crossing day keeps the remainder of the cap as regular hours and the rest as overtime |
| Overtime.ThresholdReached | payroll.py:102-105 | once the cap is reached, a day is all overtime |
| Overtime.FiveTenHourDays | payroll.py:92-110 | five 10-hour days at 8/40 give (8, 2) each day |
| Overtime.HalfDayLast | payroll.py:100-105 | a half day after five full days is all overtime |
| Overtime.HalfDayFirst | payroll.py:100-105 | the same week with the half day first puts the overtime on the last day |
| Overtime.NoWeeklyReset | payroll.py:92-110 | eight 8-hour days at 8/40: the fifth is all regular and the sixth, seventh and eighth all overtime, so the threshold is not reset after seven days |
| Overtime.CapNotReached | payroll.py:100-107 | a day that does not cross the weekly threshold adds its daily-rule regular hours to the running total |
| Overtime.CapHolds | payroll.py:99-107 | once the running total has reached the weekly threshold it stays fixed for every later day |
| Overtime.AllOvertimeAfterCap | payroll.py:92-110 | once the running total has reached the weekly threshold, every later day of the range is all overtime |
| Overtime.OrderMatters | payroll.py:100-105 | the day that crosses the cap absorbs the reclassified hours, so the split depends on the order of the days |
| Calendar.Weekday | payroll.py:125 | a value 0-6 that is congruent to the day's distance from a Monday |
| Calendar.WeekStart | payroll.py:125 | a Monday no later than the day and fewer than seven days before it |
| Calendar.WeekStartUnique | payroll.py:125 | it is the only such Monday |
| Calendar.GetWeekDates | payroll.py:113-128 | seven consecutive dates from the Monday on or before the reference, holding it, end = start + 6; overflow exactly when the week passes the last date |
| Calendar.PeriodStartTiles | payroll.py:261-273 | the period start is a Monday a whole number of fortnights from 2025-01-06, and its fourteen days hold the date |
| Calendar.PeriodStartUnique | payroll.py:261-273 | any fortnight-aligned start whose fourteen days hold the date is the period start |
| Calendar.SamePeriod | payroll.py:261-276 | every date of a period has the same period start |
| Calendar.GetBiweeklyDates | payroll.py:252-276 | start is an aligned Monday, end = start + 13, and start <= reference <= end; overflow exactly when the period leaves the date range |
| Calendar.BiweeklyStable | payroll.py:252-276 | every date inside a period reports that same period |
| Calendar.BiweeklyExamples | payroll.py:264-275 | the anchor week and the week after it share a period; the anchor's eve belongs to the period before |
| Payroll.HoursByDate | payroll.py:145-150 | succeeds exactly when every shift in the range parses; then it maps exactly the shift dates in the range to their hours |
| Payroll.HoursTableInsert | payroll.py:150 | adding a parsed shift's date extends the table by one row |
| Payroll.HoursTableSkip | payroll.py:146 | a date without a shift adds no row |
| Payroll.AllParseStep | payroll.py:146-149 | the range parses exactly when its first date does and the rest of the range does |
| Payroll.DatesFrom | payroll.py:153-159 | the consecutive dates from start to end, none when start > end; stepping past the last date overflows |
| Payroll.HoursForDates | payroll.py:162 | one entry per date: that date's hours, or 0 when it has no shift |
| Payroll.PayFor | payroll.py:185-188 | regular pay rounds hours x rate to cents; overtime pay rounds hours x rate x multiplier; total = regular + overtime |
| Payroll.BuildPayroll | payroll.py:165-201 | one row per date; each day's regular and overtime hours are that day's pair from one weekly pass over the whole range's hours, with no reset every seven days; totals are the column sums; regular hours stay within the weekly threshold; pay follows the totals |
| Payroll.BreakdownRespects | payroll.py:165-178 | every row keeps regular within the daily threshold and overtime at least the daily-rule overtime |
| Payroll.BreakdownCoversRange | payroll.py:152-178 | row i is date start + i, holding that date's shift hours, or 0 without a shift |
| Payroll.CalculateEmployeePayroll | payroll.py:131-201 | fails with EmployeeNotFound exactly for an unknown id; otherwise succeeds exactly when the shifts parse and the dates stay in range, and then gives the name, the rate, the day-by-day breakdown of the range, each day split by one weekly pass over the whole range, the column totals, the weekly cap and the pay |
| Payroll.PayrollMatchesReference | payroll.py:161-178 | in a successful payroll each day is regular for exactly the part of the weekly threshold its daily-rule regular hours fill, counted from the first day of the range, and overtime for the rest |
| Payroll.PayrollsFor | payroll.py:213-221 | one payroll per listed id, in listing order, or the first failure |
| Payroll.MapAll | payroll.py:216-221 | maps in order and stops at the first failure |
| Payroll.SummaryOf | payroll.py:223-243 | the employee count; over consistent payrolls the summary's total hours are regular + overtime and its total pay is regular pay + overtime pay (the totals as sums are stated on `Payroll.CalculatePayrollReport`) |
| Payroll.SumsAddUp | payroll.py:224-229 | summed over consistent payrolls, total hours = regular + overtime and total pay = regular pay + overtime pay |
| Payroll.CalculatePayrollReport | payroll.py:204-249 | succeeds exactly when every listed employee's payroll does; then one payroll per listed id, in order, the given settings, and a summary whose six totals are each the sum of that figure over the payrolls; otherwise the first failure's error |
| Payroll.ActiveReportFinds | database.py:118-123 | over the active listing the report never fails with EmployeeNotFound |
| Payroll.ActiveReport | database.py:123 | a successful report over the active listing holds exactly one payroll per active employee |
| Payroll.ZeroPayroll | payroll.py:161-188 | an employee without shifts in the range has zero hours every day and zero pay |
| Payroll.ZeroPay | payroll.py:186-188 | no hours earn no pay at any rate |
| Payroll.ZeroShiftEmployee | payroll.py:131-201 | a known employee without shifts in the range gets a zero payroll |
| Payroll.PayExample | payroll.py:186-188 | 10 regular and 2 overtime hours at 15.375 and 1.5 pay 153.75 + 46.12 = 199.87, the tie rounding to even |
| TimeOptions.ParseClock | app.py:50 | `strptime(s, "%H:%M")` accepts only an hour 0-23 and a minute 0-59, and then agrees with `parse_time` |
| TimeOptions.ParseClockOfFormat | app.py:50 | every zero-padded clock time parses back to itself |
| TimeOptions.ParseClockOfFields | app.py:50 | every clock time parses back to itself with each field written with or without a leading zero |
| TimeOptions.ParseClockOnlyFields | app.py:50 | conversely, an accepted text is exactly its hour and its minute, each with or without a leading zero, around one colon: no sign, blank or third field |
| TimeOptions.Label12 | app.py:51-56 | the label ends in AM exactly for hours before noon, has a colon exactly when the minute is non-zero, an hour 0 or 12 reads "12"; the label starts with the unpadded 12-hour hour (never a '0'), and a non-zero minute is printed as ':' and two digits just before AM/PM |
| TimeOptions.Hour12 | app.py:51 | the 12-hour clock hour, 1-12, from which the hour comes back with the AM/PM flag |
| TimeOptions.DecodeLabel12 | app.py:51-56 | a label decodes back to the hour and minute it was made from |
| TimeOptions.Label12Injective | app.py:51-56 | different clock times get different labels |
| TimeOptions.FormatTime12h | app.py:47-58 | unparsable text comes back unchanged; a valid time gives its 12-hour label, which decodes back to it |
| TimeOptions.SplitAtHyphen | app.py:63 | two hyphen-free texts joined by a hyphen split back into the two |
| TimeOptions.FormatTimeRange | app.py:61-63 | for two valid times, splitting the range at its hyphen gives back both formatted ends |
| TimeOptions.DefaultLunch | app.py:66-90 | no lunch exactly when both hours read and the start is 16 or later or the end is 16 or earlier; otherwise 15:00-16:00, also when a field does not read |
| TimeOptions.ShouldHaveLunch | app.py:158-161 | true exactly when the default lunch is given |
| TimeOptions.LunchTimes | app.py:88 | the default lunch reads as 15:00 and 16:00 |
| TimeOptions.DefaultLunchCostsOneHour | app.py:66-90 | for a same-day shift that gets the default lunch, the lunch falls inside the shift and takes exactly one hour off the shift's pay hours |
| TimeOptions.LunchHourOff | app.py:88 | a 15:00-16:00 lunch inside a shift takes exactly one hour off |
| TimeOptions.Range | app.py:102 | `range(lo, hi, step)`: lo + i*step for each i, all below hi, the count rounded up |
| TimeOptions.Options | app.py:93-113 | 59 entries, entry i being the clock text and label of 08:45 + 15i minutes |
| TimeOptions.GridTimesAreRange | app.py:98-102 | the loop's minutes, `range(8 * 60 + 45, 23 * 60 + 15 + 1, 15)`, are exactly the 59 grid times, in order |
| TimeOptions.GridClock | app.py:102-112 | entry i is `HH:MM` text and its 12-hour label for a quarter-hour time from 08:00 to 23:45 |
| TimeOptions.OptionsEnds | app.py:98-100 | the grid starts at 08:45 / 8:45AM and ends at 23:15 / 11:15PM |
| TimeOptions.OptionsOrdered | app.py:102 | the grid's times strictly increase, so its keys and labels are distinct |
| TimeOptions.OptionsDistinct | app.py:102-112 | no two grid entries share a key or a label |
| TimeOptions.LabelsAreFormatted | app.py:105-111 | each grid label is `format_time_12h` of its grid time |
| TimeOptions.TimeLabels | app.py:119 | the labels of the grid, in grid order |
| TimeOptions.ToMapIsDict | app.py:117-118 | a dict comprehension has exactly the listed keys, each bound to its last value |
| TimeOptions.Time24Dict | app.py:117 | `TIME_24_TO_LABEL` (`Time24ToLabel`) is the dict of the grid's (time, label) pairs |
| TimeOptions.LabelTo24Dict | app.py:118 | `TIME_LABEL_TO_24` (`TimeLabelTo24`) is the dict of the swapped pairs, its keys exactly the labels |
| TimeOptions.OptionUnique | app.py:117-118 | no later entry repeats an entry's key or label, in either direction |
| TimeOptions.TablesInverse | app.py:117-118 | the two tables map each grid time to its label and back |
| TimeOptions.TableValues | app.py:117 | every value of the time-to-label table is a grid label |
| TimeOptions.LabelToTime | app.py:142-144 | a grid label gives the grid time that `TIME_24_TO_LABEL` maps back to that label; any other text gives "10:00" |
| TimeOptions.GridRoundTrip | app.py:116-144 | `label_to_time` of a grid time's label is that grid time |
| TimeOptions.IndexOf | app.py:150 | `list.index`: the first position holding the value, absent exactly when the value is not in the list |
| TimeOptions.GetTimeIndex | app.py:147-153 | always a valid index: the label's own position, else the default label's, else 0 |
| TimeOptions.TenAM | app.py:147 | the default label "10AM" is grid label 5 |
| TimeOptions.DefaultLabelIndex | app.py:147-153 | an unknown label with the default "10AM" gives index 5 |
| TimeOptions.KeyInTable | app.py:132 | an `HH:MM` key is in the time-to-label table exactly when its time is on the grid, and then it maps to that grid entry's label |
| TimeOptions.GridOfTime | app.py:102 | a grid time is the time of its own grid index |
| TimeOptions.RoundToQuarter | app.py:126-129 | the minute becomes a multiple of 15 below 60 |
| TimeOptions.RoundToQuarterNearest | app.py:125-129 | the rounded time is the nearest quarter hour, at most 7 minutes away, taken modulo a day; it wraps only from 23:53 on |
| TimeOptions.LabelOfRounded | app.py:130-139 | always returns a grid label |
| TimeOptions.RoundedLabel | app.py:124-139 | always returns a grid label |
| TimeOptions.ReadClock | app.py:124 | succeeds exactly when there is a colon and the fields on either side of the first one read as integers |
| TimeOptions.TimeToLabel | app.py:122-139 | fails exactly when the text cannot be read; otherwise always a grid label |
| TimeOptions.TimeToLabelOfClock | app.py:122-139 | `HH:MM` text gets the rounded label of that hour and minute |
| TimeOptions.TimeToLabelOnGrid | app.py:132-133 | a grid time gets its own label |
| TimeOptions.LabelOfRoundedOnGrid | app.py:132-133 | a rounded time on the grid gets the label of its grid index |
| TimeOptions.LabelOfRoundedEarly | app.py:135-136 | a rounded time before 08:45 gets the first label |
| TimeOptions.LabelOfRoundedLate | app.py:137-138 | a rounded time after 23:15 but before midnight gets the last label |
| TimeOptions.LateEveningRounded | app.py:126-139 | as written, 23:53 to 23:59 round to midnight and get 8:45AM |
| TimeOptions.LateEveningWraps | app.py:122-139 | as written, "23:53" to "23:59" give 8:45AM, where the clamped lookup gives 11:15PM |
| TimeOptions.NearestIndexIsNearest | app.py:123-131 | no grid time is closer to the given time than the one picked |
| TimeOptions.ClampedLabel | app.py:131-139 | the corrected lookup always returns a grid label |
| TimeOptions.TimeToLabelClamped | app.py:122-139 | the corrected `time_to_label` fails exactly when the text cannot be read; otherwise it returns a grid label |
| TimeOptions.TimeToLabelClampedOfClock | app.py:122-139 | `HH:MM` text gets the clamped label of that hour and minute |
| TimeOptions.RoundedLabelIsClamped | app.py:122-139 | before 23:53 the code as written and the corrected lookup agree on every clock time |
| TimeOptions.LateEveningClamped | app.py:131-138 | the corrected lookup gives 11:15PM from 23:53 on |

## Left out

- The Streamlit pages, session state, styling and `main` are left out: they
  are presentation only.
- `check_password` is left out: it depends on `hmac` and on the
  application's secrets.
- CSV and DataFrame export and the schedule grid display are left out: they
  are formatting over database reads.
- The SQLite layer of `database.py` is left out. Its tables are the input
  maps, and the active listing is an input sequence (`IsActiveListing`
  describes what `get_employees(active_only=True)` returns).
- Settings are passed in as exact values:
  - reading them from the settings table with `float()` is left out;
  - the report's defaults are `Payroll.DefaultSettings` (40, 8 and 1.5).
- `date.today()` defaults are left out: the reference date is a parameter.
- ISO date text is left out. `fromisoformat` and `isoformat` are replaced by
  day ordinals, and report dates are ordinals.
- Time-zone conversion is left out.
- IEEE-754 floats are left out. Hours and money are exact, and Python's
  `round` on a binary float can differ from exact half-even rounding by one
  cent when the float lies just below or above a tie.
- `int()` accepts an optional sign and ASCII digits. Its acceptance of
  surrounding whitespace, underscores and non-ASCII digits is left out.
- `strptime("%H:%M")` is modelled for ASCII digits only.
- Rows of the shifts table for employees not asked about are carried in the
  map but never read.
- Rounding.MinutesToCentihours: the conversion is exact half-even rounding
  of minutes/60 to hundredths, not Python's binary-float `round`.
- Payroll.PayFor: states the cent rounding of exact products, not of their
  binary-float approximations.
- Payroll.CalculatePayrollReport: the summary's `round(sum, 2)` on sums of
  whole cents and hundredths is the identity, so it is not modelled.

## Worked examples

- Five 10-hour days at 8/40 give (8, 2) on every day
  (`Overtime.FiveTenHourDays`): the fifth day's 8 daily-rule regular hours
  reach 40 without exceeding it.
- Eight 8-hour days at 8/40 leave the fifth day all regular and make the
  sixth, seventh and eighth days all overtime (`Overtime.NoWeeklyReset`):
  the threshold is not reset after seven days.
- 10 regular and 2 overtime hours at 15.375 with multiplier 1.5 pay 46.12
  overtime and 199.87 in total (`Payroll.PayExample`), because `round`
  takes a tie to the even digit.

## Findings

| source | as written | input that shows it | evidently intended | confidence | as-written member | corrected member |
|---|---|---|---|---|---|---|
| app.py:126-139 | rounding 23:53-23:59 up carries the hour to 0 (`h = (h + 1) % 24`), so "00:00" misses the grid and the fallback returns the first label, 8:45AM | `time_to_label("23:55")` gives "8:45AM" | clamp to the nearest boundary, 11:15PM, as the comment at line 131 says | not executed | TimeOptions.TimeToLabel (shown by TimeOptions.LateEveningWraps, TimeOptions.LateEveningRounded) | TimeOptions.TimeToLabelClamped (TimeOptions.NearestIndexIsNearest, TimeOptions.LateEveningClamped, TimeOptions.RoundedLabelIsClamped) |
