/** Per-employee payroll and the payroll report (`calculate_employee_payroll`,
    `calculate_payroll_report`). The data store is given as plain maps: the
    employees table by id, and the shifts table by (employee id, date), which
    its uniqueness constraint makes a function. Hours are hundredths of an
    hour and money is cents. */
module Payroll {
  import opened Results
  import opened Sums
  import opened Rounding
  import opened Calendar
  import opened ShiftTime
  import opened Overtime

  /** A row of the employees table. */
  datatype Employee = Employee(name: string, hourlyRate: real, isActive: bool)

  /** A row of the shifts table; the lunch columns may be NULL. */
  datatype Shift = Shift(startTime: string, endTime: string,
                         lunchStart: Option<string>, lunchEnd: Option<string>)

  type Employees = map<int, Employee>

  /** At most one shift per employee and date. */
  type Shifts = map<(int, int), Shift>

  /** Thresholds in hundredths of an hour and the overtime pay multiplier. */
  datatype OvertimeSettings = OvertimeSettings(weeklyThreshold: int, dailyThreshold: int, multiplier: real)

  /** The defaults used when a setting is not stored: 40 hours, 8 hours, 1.5. */
  const DefaultSettings := OvertimeSettings(4000, 800, 1.5)

  datatype DailyHours = DailyHours(date: int, regularHours: int, overtimeHours: int, totalHours: int)

  datatype Pay = Pay(regularPay: int, overtimePay: int, totalPay: int)

  datatype EmployeePayroll = EmployeePayroll(
    employeeId: int,
    employeeName: string,
    hourlyRate: real,
    dailyBreakdown: seq<DailyHours>,
    totalRegularHours: int,
    totalOvertimeHours: int,
    totalHours: int,
    pay: Pay)

  function RegularHoursOf(d: DailyHours): int { d.regularHours }
  function OvertimeHoursOf(d: DailyHours): int { d.overtimeHours }
  function TotalHoursOf(d: DailyHours): int { d.totalHours }

  function HoursOf(shift: Shift): Result<nat> {
    ShiftHours(shift.startTime, shift.endTime, shift.lunchStart, shift.lunchEnd)
  }

  /** Hours of each of `id`'s shifts dated `first` to `last`, keyed by date, in
      date order; a shift whose times do not parse aborts the computation. */
  function HoursByDate(shifts: Shifts, id: int, first: int, last: int): (r: Result<map<int, nat>>)
    ensures r.Ok? <==> AllParse(shifts, id, first, last)
    ensures r.Err? ==> r.error == InvalidTimeFormat
    ensures r.Ok? ==> HoursTable(r.value, shifts, id, first, last)
    decreases last - first
  {
    if first > last then Ok(map[])
    else
      AllParseStep(shifts, id, first, last);
      if (id, first) in shifts then
        var h :- HoursOf(shifts[(id, first)]);
        var rest :- HoursByDate(shifts, id, first + 1, last);
        HoursTableInsert(rest, shifts, id, first, last, h);
        Ok(rest[first := h])
      else
        var rest :- HoursByDate(shifts, id, first + 1, last);
        HoursTableSkip(rest, shifts, id, first, last);
        Ok(rest)
  }

  /** `byDate` holds exactly the dates `first` to `last` on which `id` has a
      shift, each with that shift's hours. */
  ghost predicate HoursTable(byDate: map<int, nat>, shifts: Shifts, id: int, first: int, last: int) {
    && (forall d :: d in byDate <==> first <= d <= last && (id, d) in shifts)
    && (forall d :: d in byDate ==> HoursOf(shifts[(id, d)]) == Ok(byDate[d]))
  }

  /** Adding the first date's shift hours to the table of the later dates. */
  lemma HoursTableInsert(rest: map<int, nat>, shifts: Shifts, id: int, first: int, last: int, h: nat)
    requires first <= last
    requires HoursTable(rest, shifts, id, first + 1, last)
    requires (id, first) in shifts && HoursOf(shifts[(id, first)]) == Ok(h)
    ensures HoursTable(rest[first := h], shifts, id, first, last)
  {
  }

  /** Without a shift on the first date the table of the later dates is the
      table of the whole range. */
  lemma HoursTableSkip(rest: map<int, nat>, shifts: Shifts, id: int, first: int, last: int)
    requires HoursTable(rest, shifts, id, first + 1, last)
    requires (id, first) !in shifts
    ensures HoursTable(rest, shifts, id, first, last)
  {
  }

  /** Every shift of employee `id` dated `first` to `last` has times that
      parse. */
  ghost predicate AllParse(shifts: Shifts, id: int, first: int, last: int) {
    forall d :: first <= d <= last && (id, d) in shifts ==> HoursOf(shifts[(id, d)]).Ok?
  }

  /** The shifts of a non-empty range parse when the first date's shift
      does and the rest of the range's do. */
  lemma AllParseStep(shifts: Shifts, id: int, first: int, last: int)
    requires first <= last
    ensures AllParse(shifts, id, first, last) <==>
              ((id, first) in shifts ==> HoursOf(shifts[(id, first)]).Ok?) && AllParse(shifts, id, first + 1, last)
  {
  }

  /** The `while current <= end` loop listing every date of the range.
      Stepping past the last representable date raises `OverflowError`. */
  function DatesFrom(current: int, end: Day): (r: Result<seq<int>>)
    ensures r.Ok? <==> current > end || end < MaxDay
    ensures r.Err? ==> r.error == DateOverflow
    ensures r.Ok? ==> |r.value| == (if current > end then 0 else end - current + 1)
    ensures r.Ok? ==> forall i :: 0 <= i < |r.value| ==> r.value[i] == current + i
    decreases end - current
  {
    if current > end then Ok([])
    else if current + 1 > MaxDay then Err(DateOverflow)
    else
      var rest :- DatesFrom(current + 1, end);
      Ok([current] + rest)
  }

  /** Hours for each date, 0 for a date without a shift. */
  function HoursForDates(dates: seq<int>, byDate: map<int, nat>): (hours: seq<int>)
    ensures |hours| == |dates|
    ensures forall i :: 0 <= i < |dates| ==> 0 <= hours[i]
    ensures forall i :: 0 <= i < |dates| ==> dates[i] !in byDate ==> hours[i] == 0
    ensures forall i :: 0 <= i < |dates| ==> dates[i] in byDate ==> hours[i] == byDate[dates[i]]
  {
    seq(|dates|, (i: int) requires 0 <= i < |dates| => if dates[i] in byDate then byDate[dates[i]] else 0)
  }

  /** One `DailyHours` per date, carrying that date's split. */
  function Breakdown(dates: seq<int>, splits: seq<Split>): (b: seq<DailyHours>)
    requires |splits| == |dates|
    ensures |b| == |dates|
    ensures forall i :: 0 <= i < |dates| ==>
              b[i].date == dates[i] && b[i].regularHours == splits[i].regular
              && b[i].overtimeHours == splits[i].overtime && b[i].totalHours == splits[i].Total()
  {
    seq(|dates|, (i: int) requires 0 <= i < |dates| =>
      DailyHours(dates[i], splits[i].regular, splits[i].overtime, splits[i].regular + splits[i].overtime))
  }

  /** Regular pay at the hourly rate, overtime pay at the rate times the
      multiplier, each rounded to the nearest cent, and their sum. */
  function PayFor(regularHours: int, overtimeHours: int, hourlyRate: real, multiplier: real): (p: Pay)
    ensures p.regularPay as real - 0.5 <= regularHours as real * hourlyRate <= p.regularPay as real + 0.5
    ensures p.overtimePay as real - 0.5 <= overtimeHours as real * hourlyRate * multiplier
              <= p.overtimePay as real + 0.5
    ensures p.totalPay == p.regularPay + p.overtimePay
  {
    var regularPay := RoundHalfEven(regularHours as real * hourlyRate);
    var overtimePay := RoundHalfEven(overtimeHours as real * hourlyRate * multiplier);
    Pay(regularPay, overtimePay, regularPay + overtimePay)
  }

  /** The breakdown lists every date from `start` to `end` once, in order,
      with that date's shift hours (0 without a shift) split into regular and
      overtime hours. */
  ghost predicate CoversRange(b: seq<DailyHours>, shifts: Shifts, id: int, start: int, end: int,
                              hoursOf: Shift -> Result<nat>) {
    && |b| == (if start > end then 0 else end - start + 1)
    && forall i :: 0 <= i < |b| ==>
         && b[i].date == start + i
         && b[i].totalHours == b[i].regularHours + b[i].overtimeHours
         && ((id, start + i) in shifts ==> hoursOf(shifts[(id, start + i)]) == Ok(b[i].totalHours))
         && ((id, start + i) !in shifts ==> b[i].totalHours == 0)
  }

  /** Every day of the breakdown respects the thresholds: never negative
      regular hours, never more regular hours than the daily rule allows,
      never less overtime than the daily rule gives. */
  ghost predicate RespectsThresholds(b: seq<DailyHours>, settings: OvertimeSettings) {
    forall i :: 0 <= i < |b| ==>
      && (0 <= settings.dailyThreshold ==> 0 <= b[i].regularHours)
      && (0 <= settings.weeklyThreshold ==>
            && b[i].regularHours <= Min(b[i].totalHours, settings.dailyThreshold)
            && b[i].overtimeHours >= Max(0, b[i].totalHours - settings.dailyThreshold))
  }

  /** The hours column of a breakdown, one entry per day. */
  function HoursColumn(b: seq<DailyHours>): (hours: seq<int>)
    ensures |hours| == |b|
    ensures forall i :: 0 <= i < |b| ==> hours[i] == b[i].totalHours
  {
    seq(|b|, (i: int) requires 0 <= i < |b| => b[i].totalHours)
  }

  /** Each day's regular and overtime hours are what one weekly pass over the
      whole breakdown's hours gives that day: the threshold is applied once
      across all the days, never reset every seven days. */
  ghost predicate IsWeeklyPass(b: seq<DailyHours>, settings: OvertimeSettings) {
    var split := WeeklySplit(HoursColumn(b), settings.weeklyThreshold, settings.dailyThreshold);
    forall i :: 0 <= i < |b| ==>
      b[i].regularHours == split[i].regular && b[i].overtimeHours == split[i].overtime
  }

  /** The payroll of one employee from the hours of each date of the range:
      the weekly pass over the whole range, its totals, and the pay. */
  function BuildPayroll(id: int, employee: Employee, dates: seq<int>, hours: seq<int>,
                        settings: OvertimeSettings): (p: EmployeePayroll)
    requires |hours| == |dates|
    ensures p.employeeId == id && p.employeeName == employee.name && p.hourlyRate == employee.hourlyRate
    ensures |p.dailyBreakdown| == |dates|
    ensures forall i :: 0 <= i < |dates| ==>
              && p.dailyBreakdown[i].date == dates[i]
              && p.dailyBreakdown[i].totalHours == hours[i]
              && p.dailyBreakdown[i].totalHours
                   == p.dailyBreakdown[i].regularHours + p.dailyBreakdown[i].overtimeHours
    ensures var split := WeeklySplit(hours, settings.weeklyThreshold, settings.dailyThreshold);
            forall i :: 0 <= i < |dates| ==>
              p.dailyBreakdown[i].regularHours == split[i].regular
              && p.dailyBreakdown[i].overtimeHours == split[i].overtime
    ensures IsWeeklyPass(p.dailyBreakdown, settings)
    ensures p.totalRegularHours == SumBy(p.dailyBreakdown, RegularHoursOf)
    ensures p.totalOvertimeHours == SumBy(p.dailyBreakdown, OvertimeHoursOf)
    ensures p.totalHours == p.totalRegularHours + p.totalOvertimeHours
    ensures p.totalHours == SumBy(p.dailyBreakdown, TotalHoursOf)
    ensures 0 <= settings.weeklyThreshold ==> p.totalRegularHours <= settings.weeklyThreshold
    ensures (forall i :: 0 <= i < |hours| ==> 0 <= hours[i]) ==> RespectsThresholds(p.dailyBreakdown, settings)
    ensures p.pay == PayFor(p.totalRegularHours, p.totalOvertimeHours, p.hourlyRate, settings.multiplier)
  {
    var splits := WeeklySplit(hours, settings.weeklyThreshold, settings.dailyThreshold);
    var breakdown := Breakdown(dates, splits);
    var totalRegular := SumBy(breakdown, RegularHoursOf);
    var totalOvertime := SumBy(breakdown, OvertimeHoursOf);
    SumByPlus(breakdown, RegularHoursOf, OvertimeHoursOf, TotalHoursOf);
    SumByCorresponding(breakdown, RegularHoursOf, splits, RegularOf);
    assert 0 <= settings.weeklyThreshold ==> totalRegular <= settings.weeklyThreshold by {
      if 0 <= settings.weeklyThreshold {
        assert splits[..|splits|] == splits;
        WeeklyCap(hours, settings.weeklyThreshold, settings.dailyThreshold, |hours|);
      }
    }
    BreakdownRespects(dates, hours, settings, breakdown);
    assert HoursColumn(breakdown) == hours;
    EmployeePayroll(id, employee.name, employee.hourlyRate, breakdown,
                    totalRegular, totalOvertime, totalRegular + totalOvertime,
                    PayFor(totalRegular, totalOvertime, employee.hourlyRate, settings.multiplier))
  }

  /** The breakdown of the weekly pass respects the thresholds. */
  lemma BreakdownRespects(dates: seq<int>, hours: seq<int>, settings: OvertimeSettings, b: seq<DailyHours>)
    requires |hours| == |dates|
    requires b == Breakdown(dates, WeeklySplit(hours, settings.weeklyThreshold, settings.dailyThreshold))
    ensures (forall i :: 0 <= i < |hours| ==> 0 <= hours[i]) ==> RespectsThresholds(b, settings)
  {
  }

  /** A breakdown built from the listed dates of the range and the hours
      found for them covers the range. */
  lemma BreakdownCoversRange(b: seq<DailyHours>, shifts: Shifts, id: int, start: int, end: int,
                             dates: seq<int>, byDate: map<int, nat>, hoursOf: Shift -> Result<nat>)
    requires |dates| == (if start > end then 0 else end - start + 1)
    requires forall i :: 0 <= i < |dates| ==> dates[i] == start + i
    requires forall d :: d in byDate <==> start <= d <= end && (id, d) in shifts
    requires forall d :: d in byDate ==> hoursOf(shifts[(id, d)]) == Ok(byDate[d])
    requires |b| == |dates|
    requires forall i :: 0 <= i < |dates| ==>
               && b[i].date == dates[i]
               && (dates[i] in byDate ==> b[i].totalHours == byDate[dates[i]])
               && (dates[i] !in byDate ==> b[i].totalHours == 0)
               && b[i].totalHours == b[i].regularHours + b[i].overtimeHours
    ensures CoversRange(b, shifts, id, start, end, hoursOf)
  {
    forall i | 0 <= i < |b|
      ensures (id, start + i) in shifts ==> hoursOf(shifts[(id, start + i)]) == Ok(b[i].totalHours)
      ensures (id, start + i) !in shifts ==> b[i].totalHours == 0
    {
      var d := start + i;
      assert dates[i] == d;
      if (id, d) in shifts {
        assert d in byDate;
        assert b[i].totalHours == byDate[d];
      } else {
        assert d !in byDate;
      }
    }
  }

  /** `calculate_employee_payroll`: an unknown id fails with
      `EmployeeNotFound`; otherwise every date of the range appears once, the
      weekly threshold caps the regular hours of the whole range at once (it is
      not reset every seven days), and pay is the rounded product of hours,
      rate and, for overtime, the multiplier. */
  function CalculateEmployeePayroll(employees: Employees, shifts: Shifts, id: int,
                                    startDate: Day, endDate: Day, settings: OvertimeSettings)
    : (r: Result<EmployeePayroll>)
    ensures (r.Err? && r.error == EmployeeNotFound) <==> id !in employees
    ensures r.Ok? <==> && id in employees
                       && AllParse(shifts, id, startDate, endDate)
                       && (startDate > endDate || endDate < MaxDay)
    ensures r.Ok? ==>
              var p := r.value;
              && p.employeeId == id && p.employeeName == employees[id].name
              && p.hourlyRate == employees[id].hourlyRate
              && CoversRange(p.dailyBreakdown, shifts, id, startDate, endDate, HoursOf)
              && IsWeeklyPass(p.dailyBreakdown, settings)
              && p.totalRegularHours == SumBy(p.dailyBreakdown, RegularHoursOf)
              && p.totalOvertimeHours == SumBy(p.dailyBreakdown, OvertimeHoursOf)
              && p.totalHours == p.totalRegularHours + p.totalOvertimeHours
              && p.totalHours == SumBy(p.dailyBreakdown, TotalHoursOf)
              && (0 <= settings.weeklyThreshold ==> p.totalRegularHours <= settings.weeklyThreshold)
              && RespectsThresholds(p.dailyBreakdown, settings)
              && p.pay == PayFor(p.totalRegularHours, p.totalOvertimeHours, p.hourlyRate, settings.multiplier)
  {
    if id !in employees then Err(EmployeeNotFound)
    else
      var byDate :- HoursByDate(shifts, id, startDate, endDate);
      var dates :- DatesFrom(startDate, endDate);
      var hours := HoursForDates(dates, byDate);
      var p := BuildPayroll(id, employees[id], dates, hours, settings);
      BreakdownCoversRange(p.dailyBreakdown, shifts, id, startDate, endDate, dates, byDate, HoursOf);
      Ok(p)
  }

  /** In a successful payroll every day is regular for exactly the part of
      the weekly threshold that its daily-rule regular hours fill, counting
      from the first day of the range, and overtime for the rest. */
  lemma PayrollMatchesReference(employees: Employees, shifts: Shifts, id: int,
                                startDate: Day, endDate: Day, settings: OvertimeSettings)
    requires 0 <= settings.weeklyThreshold && 0 <= settings.dailyThreshold
    ensures var r := CalculateEmployeePayroll(employees, shifts, id, startDate, endDate, settings);
            r.Ok? ==>
              forall i :: 0 <= i < |r.value.dailyBreakdown| ==>
                Split(r.value.dailyBreakdown[i].regularHours, r.value.dailyBreakdown[i].overtimeHours)
                  == ReferenceSplit(HoursColumn(r.value.dailyBreakdown),
                                    settings.weeklyThreshold, settings.dailyThreshold, i)
  {
    var r := CalculateEmployeePayroll(employees, shifts, id, startDate, endDate, settings);
    if r.Ok? {
      var b := r.value.dailyBreakdown;
      var hours := HoursColumn(b);
      forall i | 0 <= i < |hours|
        ensures 0 <= hours[i]
      {
        if (id, startDate + i) in shifts {
          assert HoursOf(shifts[(id, startDate + i)]) == Ok(b[i].totalHours);
        }
      }
      WeeklyMatchesReference(hours, settings.weeklyThreshold, settings.dailyThreshold);
    }
  }

  datatype Summary = Summary(
    totalEmployees: nat,
    totalRegularHours: int,
    totalOvertimeHours: int,
    totalHours: int,
    totalRegularPay: int,
    totalOvertimePay: int,
    totalPay: int)

  datatype PayrollReport = PayrollReport(
    startDate: int,
    endDate: int,
    employees: seq<EmployeePayroll>,
    summary: Summary,
    settings: OvertimeSettings)

  function PayrollRegularHours(p: EmployeePayroll): int { p.totalRegularHours }
  function PayrollOvertimeHours(p: EmployeePayroll): int { p.totalOvertimeHours }
  function PayrollTotalHours(p: EmployeePayroll): int { p.totalHours }
  function PayrollRegularPay(p: EmployeePayroll): int { p.pay.regularPay }
  function PayrollOvertimePay(p: EmployeePayroll): int { p.pay.overtimePay }
  function PayrollTotalPay(p: EmployeePayroll): int { p.pay.totalPay }

  /** Each payroll's totals are consistent: hours add up, pay adds up. */
  ghost predicate Consistent(p: EmployeePayroll) {
    p.totalHours == p.totalRegularHours + p.totalOvertimeHours
    && p.pay.totalPay == p.pay.regularPay + p.pay.overtimePay
  }

  /** The payroll of each listed employee in listing order; the first
      failure aborts the whole list. */
  function PayrollsFor(employees: Employees, shifts: Shifts, listing: seq<int>,
                       startDate: Day, endDate: Day, settings: OvertimeSettings)
    : (r: Result<seq<EmployeePayroll>>)
    ensures r.Ok? <==> forall i :: 0 <= i < |listing| ==>
              CalculateEmployeePayroll(employees, shifts, listing[i], startDate, endDate, settings).Ok?
    ensures r.Ok? ==> |r.value| == |listing|
    ensures r.Ok? ==> forall i :: 0 <= i < |listing| ==>
              CalculateEmployeePayroll(employees, shifts, listing[i], startDate, endDate, settings) == Ok(r.value[i])
    ensures r.Err? ==>
              exists i :: && 0 <= i < |listing|
                          && CalculateEmployeePayroll(employees, shifts, listing[i], startDate, endDate, settings)
                               == Err(r.error)
                          && forall j :: 0 <= j < i ==>
                               CalculateEmployeePayroll(employees, shifts, listing[j], startDate, endDate, settings).Ok?
  {
    MapAll(listing, id => CalculateEmployeePayroll(employees, shifts, id, startDate, endDate, settings))
  }

  /** `f` applied to each element in order, stopping at the first failure,
      which is the result. */
  function MapAll<T>(xs: seq<int>, f: int -> Result<T>): (r: Result<seq<T>>)
    ensures r.Ok? <==> forall i :: 0 <= i < |xs| ==> f(xs[i]).Ok?
    ensures r.Ok? ==> |r.value| == |xs| && forall i :: 0 <= i < |xs| ==> f(xs[i]) == Ok(r.value[i])
    ensures r.Err? ==>
              exists i :: 0 <= i < |xs| && f(xs[i]) == Err(r.error) && forall j :: 0 <= j < i ==> f(xs[j]).Ok?
  {
    if |xs| == 0 then Ok([])
    else
      var first :- f(xs[0]);
      var rest :- MapAll(xs[1..], f);
      Ok([first] + rest)
  }

  /** The summary of a report: the number of payrolls and the sum of each
      figure over them, whose hours and pay still add up. */
  function SummaryOf(ps: seq<EmployeePayroll>): (s: Summary)
    ensures s.totalEmployees == |ps|
    ensures (forall i :: 0 <= i < |ps| ==> Consistent(ps[i])) ==>
              s.totalHours == s.totalRegularHours + s.totalOvertimeHours
              && s.totalPay == s.totalRegularPay + s.totalOvertimePay
  {
    SumsAddUp(ps);
    Summary(|ps|, SumBy(ps, PayrollRegularHours), SumBy(ps, PayrollOvertimeHours),
            SumBy(ps, PayrollTotalHours), SumBy(ps, PayrollRegularPay),
            SumBy(ps, PayrollOvertimePay), SumBy(ps, PayrollTotalPay))
  }

  /** Summed over consistent payrolls, hours and pay still add up. */
  lemma SumsAddUp(ps: seq<EmployeePayroll>)
    ensures (forall i :: 0 <= i < |ps| ==> Consistent(ps[i])) ==>
              && SumBy(ps, PayrollTotalHours) == SumBy(ps, PayrollRegularHours) + SumBy(ps, PayrollOvertimeHours)
              && SumBy(ps, PayrollTotalPay) == SumBy(ps, PayrollRegularPay) + SumBy(ps, PayrollOvertimePay)
  {
    if forall i :: 0 <= i < |ps| ==> Consistent(ps[i]) {
      SumByPlus(ps, PayrollRegularHours, PayrollOvertimeHours, PayrollTotalHours);
      SumByPlus(ps, PayrollRegularPay, PayrollOvertimePay, PayrollTotalPay);
    }
  }

  /** `calculate_payroll_report` over the employee listing the store returns
      (see `IsActiveListing`). */
  function CalculatePayrollReport(employees: Employees, shifts: Shifts, listing: seq<int>,
                                  startDate: Day, endDate: Day, settings: OvertimeSettings)
    : (r: Result<PayrollReport>)
    ensures r.Ok? <==> forall i :: 0 <= i < |listing| ==>
              CalculateEmployeePayroll(employees, shifts, listing[i], startDate, endDate, settings).Ok?
    ensures r.Ok? ==>
              && r.value.startDate == startDate && r.value.endDate == endDate
              && r.value.settings == settings
              && |r.value.employees| == |listing|
              && (forall i :: 0 <= i < |listing| ==>
                    CalculateEmployeePayroll(employees, shifts, listing[i], startDate, endDate, settings)
                      == Ok(r.value.employees[i]))
              && (forall i :: 0 <= i < |listing| ==> r.value.employees[i].employeeId == listing[i])
              && r.value.summary.totalEmployees == |listing|
              && r.value.summary.totalHours
                   == r.value.summary.totalRegularHours + r.value.summary.totalOvertimeHours
              && r.value.summary.totalPay
                   == r.value.summary.totalRegularPay + r.value.summary.totalOvertimePay
              && r.value.summary.totalRegularHours == SumBy(r.value.employees, PayrollRegularHours)
              && r.value.summary.totalOvertimeHours == SumBy(r.value.employees, PayrollOvertimeHours)
              && r.value.summary.totalHours == SumBy(r.value.employees, PayrollTotalHours)
              && r.value.summary.totalRegularPay == SumBy(r.value.employees, PayrollRegularPay)
              && r.value.summary.totalOvertimePay == SumBy(r.value.employees, PayrollOvertimePay)
              && r.value.summary.totalPay == SumBy(r.value.employees, PayrollTotalPay)
    ensures r.Err? ==>
              exists i :: && 0 <= i < |listing|
                          && CalculateEmployeePayroll(employees, shifts, listing[i], startDate, endDate, settings)
                               == Err(r.error)
                          && forall j :: 0 <= j < i ==>
                               CalculateEmployeePayroll(employees, shifts, listing[j], startDate, endDate, settings).Ok?
  {
    var ps :- PayrollsFor(employees, shifts, listing, startDate, endDate, settings);
    assert forall i :: 0 <= i < |ps| ==> Consistent(ps[i]) && ps[i].employeeId == listing[i] by {
      forall i | 0 <= i < |ps| ensures Consistent(ps[i]) && ps[i].employeeId == listing[i] {
        var c := CalculateEmployeePayroll(employees, shifts, listing[i], startDate, endDate, settings);
        assert c == Ok(ps[i]);
      }
    }
    Ok(PayrollReport(startDate, endDate, ps, SummaryOf(ps), settings))
  }

  /** Lexicographic order on names (the BINARY collation of `ORDER BY name`). */
  predicate NameLe(a: string, b: string) {
    if |a| == 0 then true
    else if |b| == 0 then false
    else if a[0] != b[0] then a[0] < b[0]
    else NameLe(a[1..], b[1..])
  }

  /** What `get_employees(active_only=True)` returns: every active employee
      exactly once, ordered by name. */
  ghost predicate IsActiveListing(employees: Employees, listing: seq<int>) {
    && (forall id :: id in listing <==> id in employees && employees[id].isActive)
    && (forall i, j :: 0 <= i < j < |listing| ==> listing[i] != listing[j])
    && (forall i, j :: 0 <= i < j < |listing| ==> NameLe(employees[listing[i]].name, employees[listing[j]].name))
  }

  /** Over the active listing the report never fails for a missing
      employee. */
  lemma ActiveReportFinds(employees: Employees, shifts: Shifts, listing: seq<int>,
                          startDate: Day, endDate: Day, settings: OvertimeSettings)
    requires IsActiveListing(employees, listing)
    ensures var r := CalculatePayrollReport(employees, shifts, listing, startDate, endDate, settings);
            r.Err? ==> r.error != EmployeeNotFound
  {
    var r := CalculatePayrollReport(employees, shifts, listing, startDate, endDate, settings);
    if r.Err? {
      var i :| && 0 <= i < |listing|
               && CalculateEmployeePayroll(employees, shifts, listing[i], startDate, endDate, settings)
                    == Err(r.error);
      assert listing[i] in listing;
    }
  }

  /** Over the active listing a report that succeeds holds exactly one
      payroll per active employee. */
  lemma ActiveReport(employees: Employees, shifts: Shifts, listing: seq<int>,
                     startDate: Day, endDate: Day, settings: OvertimeSettings)
    requires IsActiveListing(employees, listing)
    ensures var r := CalculatePayrollReport(employees, shifts, listing, startDate, endDate, settings);
            r.Ok? ==> && (forall id :: id in employees && employees[id].isActive <==>
                            exists i :: 0 <= i < |r.value.employees| && r.value.employees[i].employeeId == id)
                      && (forall i, j :: 0 <= i < j < |r.value.employees| ==>
                            r.value.employees[i].employeeId != r.value.employees[j].employeeId)
  {
    var r := CalculatePayrollReport(employees, shifts, listing, startDate, endDate, settings);
    if r.Ok? {
      var ps := r.value.employees;
      forall id | id in employees && employees[id].isActive
        ensures exists i :: 0 <= i < |ps| && ps[i].employeeId == id
      {
        var i :| 0 <= i < |listing| && listing[i] == id;
        assert ps[i].employeeId == id;
      }
    }
  }

  /** A payroll over a range without shifts is all zeros. */
  lemma ZeroPayroll(p: EmployeePayroll, shifts: Shifts, id: int, startDate: int, endDate: int,
                    settings: OvertimeSettings)
    requires forall d :: startDate <= d <= endDate ==> (id, d) !in shifts
    requires 0 <= settings.weeklyThreshold && 0 <= settings.dailyThreshold
    requires CoversRange(p.dailyBreakdown, shifts, id, startDate, endDate, HoursOf)
    requires RespectsThresholds(p.dailyBreakdown, settings)
    requires p.totalRegularHours == SumBy(p.dailyBreakdown, RegularHoursOf)
    requires p.totalOvertimeHours == SumBy(p.dailyBreakdown, OvertimeHoursOf)
    requires p.totalHours == p.totalRegularHours + p.totalOvertimeHours
    requires p.pay == PayFor(p.totalRegularHours, p.totalOvertimeHours, p.hourlyRate, settings.multiplier)
    ensures forall i :: 0 <= i < |p.dailyBreakdown| ==>
              p.dailyBreakdown[i].regularHours == 0 && p.dailyBreakdown[i].overtimeHours == 0
    ensures p.totalRegularHours == 0 && p.totalOvertimeHours == 0 && p.totalHours == 0
    ensures p.pay == Pay(0, 0, 0)
  {
    var b := p.dailyBreakdown;
    forall i | 0 <= i < |b|
      ensures b[i].regularHours == 0 && b[i].overtimeHours == 0
    {
      assert (id, startDate + i) !in shifts;
    }
    SumByZero(b, RegularHoursOf);
    SumByZero(b, OvertimeHoursOf);
    ZeroPay(p.hourlyRate, settings.multiplier);
  }

  /** No hours earn no pay. */
  lemma ZeroPay(rate: real, multiplier: real)
    ensures PayFor(0, 0, rate, multiplier) == Pay(0, 0, 0)
  {
    RoundHalfEvenOfInt(0);
    assert 0 as real * rate == 0.0;
    assert 0 as real * rate * multiplier == 0.0;
  }

  /** An employee with no shift in the range still gets a payroll, with every
      day and every figure zero. */
  lemma ZeroShiftEmployee(employees: Employees, shifts: Shifts, id: int,
                          startDate: Day, endDate: Day, settings: OvertimeSettings)
    requires id in employees
    requires forall d :: startDate <= d <= endDate ==> (id, d) !in shifts
    requires startDate > endDate || endDate < MaxDay
    requires 0 <= settings.weeklyThreshold && 0 <= settings.dailyThreshold
    ensures var r := CalculateEmployeePayroll(employees, shifts, id, startDate, endDate, settings);
            && r.Ok?
            && (forall i :: 0 <= i < |r.value.dailyBreakdown| ==>
                  r.value.dailyBreakdown[i].regularHours == 0 && r.value.dailyBreakdown[i].overtimeHours == 0)
            && r.value.totalRegularHours == 0 && r.value.totalOvertimeHours == 0 && r.value.totalHours == 0
            && r.value.pay == Pay(0, 0, 0)
  {
    var r := CalculateEmployeePayroll(employees, shifts, id, startDate, endDate, settings);
    assert r.Ok?;
    ZeroPayroll(r.value, shifts, id, startDate, endDate, settings);
  }

  /** Ten regular and two overtime hours at $15.375 and time and a half:
      $153.75 plus $46.12 (the exact $46.125 is a tie, which rounds to the
      even cent), $199.87 in all. */
  lemma PayExample()
    ensures PayFor(1000, 200, 15.375, 1.5) == Pay(15375, 4612, 19987)
  {
    RoundHalfEvenOfInt(15375);
    assert 1000 as real * 15.375 == 15375 as real;
    var o := RoundHalfEven(200 as real * 15.375 * 1.5);
    assert 200 as real * 15.375 * 1.5 == 4612.5;
    assert o == 4612;
  }
}
