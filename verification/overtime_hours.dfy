/** Duration helpers of the overtime review screen: the hours of one request,
    the hours of one detail-review row, and the monthly applied (OVERTIME) and
    consumed (COMPENSATORY) totals of a user. */
module OvertimeHours {
  import opened Domain

  /** Hours in one working day. */
  const HoursPerDay: real := 8.0

  /** Overtime hours of a request. A whole-day span counts eight hours per
      calendar day, both ends included. A partial day counts its clock
      minutes (never below zero) as hours; when either time is missing or
      has no colon it counts a half day of four hours. */
  function CalculateHours(r: LeaveRequest): (h: real)
    ensures h >= 0.0
    ensures !r.isPartialDay ==> h >= HoursPerDay
    ensures !r.isPartialDay ==> h == HoursPerDay * (Abs(DayNumber(r.endDate) - DayNumber(r.startDate)) + 1) as real
    ensures r.isPartialDay && !BothClockTimes(r) ==> h == 4.0
    ensures r.isPartialDay && BothClockTimes(r) ==> h * 60.0 == Max0((PartialMinutes(r)) as real)
  {
    if !r.isPartialDay then
      HoursPerDay * InclusiveDays(r.startDate, r.endDate) as real
    else if BothClockTimes(r) then
      var mins := PartialMinutes(r);
      (if mins < 0 then 0 else mins) as real / 60.0
    else
      4.0
  }

  /** Both clock times are present and contain a colon. */
  predicate BothClockTimes(r: LeaveRequest)
  {
    r.startTime.Some? && r.endTime.Some? && r.startTime.value.HhMm? && r.endTime.value.HhMm?
  }

  /** Signed minutes from the start time to the end time of a partial day. */
  function PartialMinutes(r: LeaveRequest): int
    requires BothClockTimes(r)
  {
    Minutes(r.endTime.value.hour, r.endTime.value.minute)
      - Minutes(r.startTime.value.hour, r.startTime.value.minute)
  }

  /** Swapping the two dates of a whole-day request leaves its hours unchanged. */
  lemma WholeDayHoursSymmetric(r: LeaveRequest)
    requires !r.isPartialDay
    ensures CalculateHours(r) == CalculateHours(r.(startDate := r.endDate, endDate := r.startDate))
    ensures CalculateHours(r) == HoursPerDay * InclusiveDays(r.startDate, r.endDate) as real
  {
    InclusiveDaysSymmetric(r.startDate, r.endDate);
  }

  /** Hours of one detail-review row. Blank dates give 0; a 00:00-00:00 row
      is a whole-day span (eight hours a day, both ends included); any other
      row is the signed hour difference between the two date-times. */
  function CalculateRowHours(sDate: Option<Date>, eDate: Option<Date>, sTime: int, eTime: int): (h: real)
    ensures sDate.None? || eDate.None? ==> h == 0.0
    ensures sDate.Some? && eDate.Some? && sTime == 0 && eTime == 0 ==> h >= HoursPerDay
    ensures sDate.Some? && eDate.Some? && !(sTime == 0 && eTime == 0) ==>
      h * 60.0 == ((DayNumber(eDate.value) - DayNumber(sDate.value)) * 1440 + eTime - sTime) as real
  {
    if sDate.None? || eDate.None? then 0.0
    else if sTime == 0 && eTime == 0 then
      HoursPerDay * InclusiveDays(sDate.value, eDate.value) as real
    else
      ((DayNumber(eDate.value) - DayNumber(sDate.value)) * 1440 + eTime - sTime) as real / 60.0
  }

  /** The duration the automatic calculation puts into a detail row: the row
      hours, never below zero. */
  function AutoDuration(sDate: Option<Date>, eDate: Option<Date>, sTime: int, eTime: int): (d: real)
    ensures d >= 0.0
    ensures d >= CalculateRowHours(sDate, eDate, sTime, eTime)
    ensures d == 0.0 || d == CalculateRowHours(sDate, eDate, sTime, eTime)
  {
    Max0(CalculateRowHours(sDate, eDate, sTime, eTime))
  }

  /** The request calculator and the detail-row calculator agree: on a whole
      day they both count eight hours per inclusive day; on a same-day partial
      request with HH:MM times (other than 00:00-00:00) the request hours are
      the row hours clamped at zero. */
  lemma HoursAgreeWithRowHours(r: LeaveRequest)
    ensures !r.isPartialDay ==>
      CalculateHours(r) == CalculateRowHours(Some(r.startDate), Some(r.endDate), 0, 0)
    ensures r.isPartialDay && BothClockTimes(r) && r.startDate == r.endDate ==>
      var s := Minutes(r.startTime.value.hour, r.startTime.value.minute);
      var e := Minutes(r.endTime.value.hour, r.endTime.value.minute);
      !(s == 0 && e == 0) ==>
        CalculateHours(r) == AutoDuration(Some(r.startDate), Some(r.endDate), s, e)
  {
  }

  // ------------------------------------------------------------ monthly totals

  /** An approved request of `t` by `uid` whose ORIGINAL start date lies in
      (`year`, `month`). */
  predicate InMonth(r: LeaveRequest, uid: string, t: LeaveType, year: int, month: int)
  {
    r.userId == uid && r.status == Approved && r.leaveType == t
    && r.startDate.year == year && r.startDate.month == month
  }

  /** The requests a monthly total adds up, in list order. */
  function MonthRequests(reqs: seq<LeaveRequest>, uid: string, t: LeaveType, year: int, month: int): (out: seq<LeaveRequest>)
    ensures |out| <= |reqs|
    ensures forall x :: x in out <==> x in reqs && InMonth(x, uid, t, year, month)
  {
    if reqs == [] then []
    else
      var init := MonthRequests(reqs[..|reqs| - 1], uid, t, year, month);
      var last := reqs[|reqs| - 1];
      assert reqs == reqs[..|reqs| - 1] + [last];
      if InMonth(last, uid, t, year, month) then init + [last] else init
  }

  /** The sum of `CalculateHours` over a list of requests. */
  function SumHours(rs: seq<LeaveRequest>): (total: real)
    ensures total >= 0.0
    ensures forall x :: x in rs ==> CalculateHours(x) <= total
  {
    if rs == [] then 0.0
    else
      var init := rs[..|rs| - 1];
      assert rs == init + [rs[|rs| - 1]];
      SumHours(init) + CalculateHours(rs[|rs| - 1])
  }

  lemma {:induction false} SumHoursAppend(a: seq<LeaveRequest>, b: seq<LeaveRequest>)
    ensures SumHours(a + b) == SumHours(a) + SumHours(b)
    decreases |b|
  {
    if b == [] {
      assert a + b == a;
    } else {
      var b' := b[..|b| - 1];
      assert (a + b)[..|a + b| - 1] == a + b';
      SumHoursAppend(a, b');
    }
  }

  /** The monthly total of `t` hours of `uid`: the hours of exactly that
      user's approved requests of that type starting in the month. */
  function MonthlyHours(reqs: seq<LeaveRequest>, uid: string, t: LeaveType, year: int, month: int): real
  {
    SumHours(MonthRequests(reqs, uid, t, year, month))
  }

  /** A monthly total is never negative, is 0 when the user has no such
      request, and covers every request it counts. */
  lemma MonthlyHoursBounds(reqs: seq<LeaveRequest>, uid: string, t: LeaveType, year: int, month: int)
    ensures MonthlyHours(reqs, uid, t, year, month) >= 0.0
    ensures (forall x :: x in reqs ==> !InMonth(x, uid, t, year, month)) ==> MonthlyHours(reqs, uid, t, year, month) == 0.0
    ensures forall x :: x in reqs && InMonth(x, uid, t, year, month) ==> CalculateHours(x) <= MonthlyHours(reqs, uid, t, year, month)
  {
    var ms := MonthRequests(reqs, uid, t, year, month);
    assert ms != [] ==> ms[0] in ms;
  }

  /** Adding requests that do not qualify (another user, another type,
      another month, or not approved) leaves the total unchanged; adding
      qualifying ones adds their hours. */
  lemma {:induction false} MonthlyHoursAppend(a: seq<LeaveRequest>, b: seq<LeaveRequest>, uid: string, t: LeaveType, year: int, month: int)
    ensures MonthlyHours(a + b, uid, t, year, month)
         == MonthlyHours(a, uid, t, year, month) + MonthlyHours(b, uid, t, year, month)
    decreases |b|
  {
    if b == [] {
      assert a + b == a;
    } else {
      var b' := b[..|b| - 1];
      var last := b[|b| - 1];
      assert (a + b)[..|a + b| - 1] == a + b';
      assert (a + b)[|a + b| - 1] == last;
      MonthlyHoursAppend(a, b', uid, t, year, month);
      var ia := MonthRequests(a, uid, t, year, month);
      var ib := MonthRequests(b', uid, t, year, month);
      var iab := MonthRequests(a + b', uid, t, year, month);
      if InMonth(last, uid, t, year, month) {
        SumHoursAppend(iab, [last]);
        SumHoursAppend(ib, [last]);
      }
    }
  }

  /** The accumulation loop of the monthly helpers: filter the requests, then
      add up their hours. */
  method CalculateMonthlyHours(reqs: seq<LeaveRequest>, uid: string, t: LeaveType, year: int, month: int)
    returns (totalHours: real)
    ensures totalHours == MonthlyHours(reqs, uid, t, year, month)
    ensures totalHours >= 0.0
  {
    var userReqs := MonthRequests(reqs, uid, t, year, month);
    totalHours := 0.0;
    var i := 0;
    while i < |userReqs|
      invariant 0 <= i <= |userReqs|
      invariant totalHours == SumHours(userReqs[..i])
    {
      assert userReqs[..i + 1][..i] == userReqs[..i];
      totalHours := totalHours + CalculateHours(userReqs[i]);
      i := i + 1;
    }
    assert userReqs[..i] == userReqs;
  }

  /** Approved OVERTIME hours of a user applied for in the selected month. */
  method CalculateMonthlyAppliedHours(reqs: seq<LeaveRequest>, uid: string, year: int, month: int)
    returns (totalHours: real)
    ensures totalHours == MonthlyHours(reqs, uid, Overtime, year, month)
    ensures totalHours >= 0.0
  {
    totalHours := CalculateMonthlyHours(reqs, uid, Overtime, year, month);
  }

  /** Approved COMPENSATORY hours of a user taken in the selected month. */
  method CalculateMonthlyCompensatoryHours(reqs: seq<LeaveRequest>, uid: string, year: int, month: int)
    returns (totalHours: real)
    ensures totalHours == MonthlyHours(reqs, uid, Compensatory, year, month)
    ensures totalHours >= 0.0
  {
    totalHours := CalculateMonthlyHours(reqs, uid, Compensatory, year, month);
  }
}
