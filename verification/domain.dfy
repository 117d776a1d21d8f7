/** Shared entities of the leave and overtime accounting engine: requests,
    users, settlement records, warning rules, and the calendar, clock and
    JavaScript-number conventions the three source files rely on. */
module Domain {

  datatype Option<T> = None | Some(value: T)

  // ---------------------------------------------------------------- calendar

  /** A canonical YYYY-MM-DD calendar date. */
  datatype Date = Date(year: int, month: int, day: int)

  /** Days since 1970-01-01 in the proleptic Gregorian calendar (the
      days-from-civil formula). Dafny's `/` and `%` floor for a positive
      divisor, which is what the formula needs for years before 0. */
  function DayNumber(d: Date): int
  {
    var y := if d.month <= 2 then d.year - 1 else d.year;
    var era := y / 400;
    var yoe := y % 400;
    var mp := (d.month + 9) % 12;
    var doy := (153 * mp + 2) / 5 + d.day - 1;
    var doe := yoe * 365 + yoe / 4 - yoe / 100 + doy;
    era * 146097 + doe - 719468
  }

  predicate IsLeapYear(y: int)
  {
    y % 4 == 0 && (y % 100 != 0 || y % 400 == 0)
  }

  function DaysInMonth(y: int, m: int): int
    requires 1 <= m <= 12
  {
    if m == 2 then (if IsLeapYear(y) then 29 else 28)
    else if m == 4 || m == 6 || m == 9 || m == 11 then 30
    else 31
  }

  predicate ValidDate(d: Date)
  {
    1 <= d.month <= 12 && 1 <= d.day <= DaysInMonth(d.year, d.month)
  }

  /** The calendar day after a valid date. */
  function NextDay(d: Date): (n: Date)
    requires ValidDate(d)
    ensures ValidDate(n)
  {
    if d.day < DaysInMonth(d.year, d.month) then Date(d.year, d.month, d.day + 1)
    else if d.month < 12 then Date(d.year, d.month + 1, 1)
    else Date(d.year + 1, 1, 1)
  }

  /** The day number of the first of March of computational year `y`, the
      year the formula counts from March. */
  function MarchFirst(y: int): int
  {
    (y / 400) * 146097 + (y % 400) * 365 + (y % 400) / 4 - (y % 400) / 100 - 719468
  }

  /** The days from the first of March to the first of month `m`. */
  function MonthOffset(m: int): int
    requires 1 <= m <= 12
  {
    [306, 337, 0, 31, 61, 92, 122, 153, 184, 214, 245, 275][m - 1]
  }

  lemma DayNumberParts(d: Date)
    requires 1 <= d.month <= 12
    ensures DayNumber(d) == MarchFirst(if d.month <= 2 then d.year - 1 else d.year) + MonthOffset(d.month) + d.day - 1
  {
    var mp := (d.month + 9) % 12;
    assert (153 * mp + 2) / 5 == MonthOffset(d.month) by {
      if d.month == 1 { assert mp == 10; }
      else if d.month == 2 { assert mp == 11; }
      else { assert mp == d.month - 3; }
    }
  }

  /** Shifting by whole 400-year cycles keeps the position in the cycle
      and the remainders by 4 and by 100. */
  lemma CycleShift(q: int, t: int)
    requires 0 <= t < 400
    ensures (400 * q + t) / 400 == q && (400 * q + t) % 400 == t
    ensures (400 * q + t) % 4 == t % 4 && (400 * q + t) % 100 == t % 100
  {
    DivideShift(400 * q + t, 400, q, t);
    DivideShift(400 * q + t, 4, 100 * q + t / 4, t % 4);
    DivideShift(400 * q + t, 100, 4 * q + t / 100, t % 100);
  }

  /** Euclidean division is determined by its quotient and remainder. */
  lemma DivideShift(y: int, k: int, a: int, b: int)
    requires k == 4 || k == 100 || k == 400
    requires y == k * a + b && 0 <= b < k
    ensures y / k == a && y % k == b
  {
    if k == 4 {
      assert y == 4 * a + b;
    } else if k == 100 {
      assert y == 100 * a + b;
    } else {
      assert y == 400 * a + b;
    }
  }

  /** Within a cycle, one more year adds a leap day exactly when the year
      is a multiple of 4 that is not a multiple of 100. */
  lemma InCycleStep(t: int)
    requires 1 <= t < 400
    ensures t / 4 - (t - 1) / 4 == (if t % 4 == 0 then 1 else 0)
    ensures t / 100 - (t - 1) / 100 == (if t % 100 == 0 then 1 else 0)
  {
  }

  /** A computational year that ends before a leap day of the next
      calendar year has 366 days, any other 365. */
  lemma MarchFirstStep(y: int)
    ensures MarchFirst(y) == MarchFirst(y - 1) + 365 + (if IsLeapYear(y) then 1 else 0)
  {
    var q, r := (y - 1) / 400, (y - 1) % 400;
    CycleShift(q, r);
    assert y - 1 == 400 * q + r;
    if r == 399 {
      CycleShift(q + 1, 0);
      assert y == 400 * (q + 1) + 0;
    } else {
      CycleShift(q, r + 1);
      assert y == 400 * q + (r + 1);
      InCycleStep(r + 1);
    }
  }

  lemma DayAfterInMonth(d: Date)
    requires ValidDate(d) && d.day < DaysInMonth(d.year, d.month)
    ensures DayNumber(NextDay(d)) == DayNumber(d) + 1
  {
  }

  lemma DayAfterMonthEnd(y: int, m: int)
    requires 1 <= m < 12 && m != 2
    ensures DayNumber(Date(y, m + 1, 1)) == DayNumber(Date(y, m, DaysInMonth(y, m))) + 1
  {
    DayNumberParts(Date(y, m + 1, 1));
    DayNumberParts(Date(y, m, DaysInMonth(y, m)));
  }

  lemma DayAfterYearEnd(y: int)
    ensures DayNumber(Date(y + 1, 1, 1)) == DayNumber(Date(y, 12, 31)) + 1
  {
    DayNumberParts(Date(y + 1, 1, 1));
    DayNumberParts(Date(y, 12, 31));
  }

  lemma DayAfterFebruary(y: int)
    ensures DayNumber(Date(y, 3, 1)) == DayNumber(Date(y, 2, DaysInMonth(y, 2))) + 1
  {
    DayNumberParts(Date(y, 3, 1));
    DayNumberParts(Date(y, 2, DaysInMonth(y, 2)));
    MarchFirstStep(y);
  }

  lemma EpochIsDayZero()
    ensures DayNumber(Date(1970, 1, 1)) == 0
  {
    assert 1969 / 400 == 4 && 1969 % 400 == 369;
    assert 369 / 4 == 92 && 369 / 100 == 3;
    assert (153 * ((1 + 9) % 12) + 2) / 5 == 306;
  }

  /** The day number counts calendar days: the epoch is day 0 and the next
      calendar day of any valid date is one day later. */
  lemma DayNumberCountsDays(d: Date)
    requires ValidDate(d)
    ensures DayNumber(Date(1970, 1, 1)) == 0
    ensures DayNumber(NextDay(d)) == DayNumber(d) + 1
  {
    EpochIsDayZero();
    var y, m := d.year, d.month;
    if d.day < DaysInMonth(y, m) {
      DayAfterInMonth(d);
    } else if m == 2 {
      assert d == Date(y, 2, DaysInMonth(y, 2)) && NextDay(d) == Date(y, 3, 1);
      DayAfterFebruary(y);
    } else if m < 12 {
      assert d == Date(y, m, DaysInMonth(y, m)) && NextDay(d) == Date(y, m + 1, 1);
      DayAfterMonthEnd(y, m);
    } else {
      assert d == Date(y, 12, 31) && NextDay(d) == Date(y + 1, 1, 1);
      DayAfterYearEnd(y);
    }
  }

  /** Lexicographic order of two canonical YYYY-MM-DD strings. */
  predicate DateLe(a: Date, b: Date)
  {
    a.year < b.year
    || (a.year == b.year && (a.month < b.month || (a.month == b.month && a.day <= b.day)))
  }

  function Abs(x: int): nat
  {
    if x < 0 then -x else x
  }

  /** Inclusive whole-day count of a span: ceil(|end - start| / one day) + 1.
      Both dates are parsed as UTC midnights, so the quotient is exact. */
  function InclusiveDays(start: Date, end: Date): (n: nat)
    ensures n >= 1
    ensures n - 1 == Abs(DayNumber(end) - DayNumber(start))
  {
    Abs(DayNumber(end) - DayNumber(start)) + 1
  }

  lemma InclusiveDaysSymmetric(start: Date, end: Date)
    ensures InclusiveDays(start, end) == InclusiveDays(end, start)
  {
  }

  // ---------------------------------------------------------------- clock

  /** A stored clock-time string: "HH:MM" (a colon with numeric parts) or a
      non-empty string without a colon. A missing or empty string is `None`
      wherever a `Option<ClockText>` is used. */
  datatype ClockText = HhMm(hour: int, minute: int) | NoColon

  function Minutes(hour: int, minute: int): int
  {
    hour * 60 + minute
  }

  // ---------------------------------------------------------------- numbers

  /** A JavaScript number as far as the quota accountant needs one: a finite
      value or NaN. NaN absorbs every addition, `Math.max(0, NaN)` is NaN and
      every comparison with NaN is false. */
  datatype Num = Finite(val: real) | NaN

  function NumAdd(a: Num, b: Num): (r: Num)
    ensures r.Finite? <==> a.Finite? && b.Finite?
    ensures r.Finite? ==> r.val == a.val + b.val
  {
    if a.Finite? && b.Finite? then Finite(a.val + b.val) else NaN
  }

  /** `Math.max(0, x)`. */
  function NumMax0(a: Num): (r: Num)
    ensures r.Finite? <==> a.Finite?
    ensures r.Finite? ==> r.val >= 0.0 && r.val >= a.val && (r.val == 0.0 || r.val == a.val)
  {
    if a.NaN? then NaN else if a.val < 0.0 then Finite(0.0) else a
  }

  /** `a > b` on JavaScript numbers. */
  predicate NumGt(a: Num, b: Num)
  {
    a.Finite? && b.Finite? && a.val > b.val
  }

  function Max0(x: real): (r: real)
    ensures r >= 0.0 && r >= x && (r == 0.0 || r == x)
  {
    if x < 0.0 then 0.0 else x
  }

  // ---------------------------------------------------------------- requests

  /** Leave categories are configurable data; the three the engine treats
      specially are named, every other category is carried by its name. */
  datatype LeaveType = Annual | Overtime | Compensatory | OtherType(name: string)

  /** Request status. Older rows may carry a free status label (for example
      one beginning with '待', "awaiting"). */
  datatype RequestStatus = InProcess | Approved | Rejected | Cancelled | OtherStatus(name: string)

  /** A status the quota accountant counts as pending: IN_PROCESS, or any
      label whose first character is '待'. */
  predicate IsPending(s: RequestStatus)
  {
    s.InProcess? || (s.OtherStatus? && |s.name| > 0 && s.name[0] == '待')
  }

  /** The text of an approval-log entry: free text, or the notice written by
      the overtime detail review (date, clock span, approved hours). */
  datatype LogComment =
    | Note(text: string)
    | OvertimeVerified(date: Option<Date>, startTime: int, endTime: int, hours: real)

  datatype ApprovalLog = ApprovalLog(
    approverId: string,
    approverName: string,
    action: string,
    timestamp: string,
    comment: LogComment)

  /** The actual span entered during the monthly overtime detail review
      (dates may be blank, times are minutes since midnight). */
  datatype DetailEdit = DetailEdit(
    startDate: Option<Date>,
    endDate: Option<Date>,
    startTime: int,
    endTime: int,
    duration: real)

  datatype LeaveRequest = LeaveRequest(
    id: string,
    userId: string,
    userName: string,
    leaveType: LeaveType,
    status: RequestStatus,
    startDate: Date,
    endDate: Date,
    isPartialDay: bool,
    startTime: Option<ClockText>,
    endTime: Option<ClockText>,
    reason: string,
    deputy: string,
    attachmentUrl: string,
    attachmentUrls: Option<seq<string>>,
    createdAt: string,
    currentStep: int,
    totalSteps: int,
    stepApprovedBy: seq<string>,
    logs: seq<ApprovalLog>,
    actual: Option<DetailEdit>,
    isVerified: bool)

  // ---------------------------------------------------------------- users

  /** Annual leave entitlement per calendar year, and the overtime balance
      snapshot in day units (an absent value reads as 0). */
  datatype Quota = Quota(annual: map<int, real>, overtime: real)

  datatype User = User(id: string, name: string, jobTitle: string, quota: Quota)

  // ---------------------------------------------------------------- ledger

  datatype AuthSignature = AuthSignature(name: string, role: string, timestamp: string)

  datatype SettlementRecord = SettlementRecord(
    id: string,
    userId: string,
    year: int,
    month: int,
    appliedHours: real,
    actualHours: real,
    paidHours: real,
    remainingHours: real,
    settledAt: string,
    settledBy: string,
    baseAuth: Option<AuthSignature>,
    payAuth: Option<AuthSignature>)

  // ---------------------------------------------------------------- warnings

  datatype WarningRule = WarningRule(
    id: string,
    name: string,
    targetType: LeaveType,
    threshold: real,
    message: string,
    color: string)

  datatype ActiveWarning = ActiveWarning(
    ruleId: string,
    ruleName: string,
    message: string,
    color: string,
    currentValue: real)
}
