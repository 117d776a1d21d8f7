/** The leave application form: its day calculator, the quota label, the
    quota accountant (used, pending and remaining quota of a category) and
    the checks and record construction of a submission. */
module LeaveApplication {
  import opened Domain
  import opened OvertimeHours
  import opened OverlapCheck

  /** Day units of a span. A whole-day span counts its calendar days, both
      ends included. A partial day counts (end minutes - start minutes) / 480,
      without clamping, when both times are given; a time without a colon
      makes the result NaN; a missing time gives 0. */
  function CalculateDays(start: Date, end: Date, isPartial: bool,
                         timeStart: Option<ClockText>, timeEnd: Option<ClockText>): (d: Num)
    ensures !isPartial ==>
      d.Finite? && d.val >= 1.0 && d.val == (Abs(DayNumber(end) - DayNumber(start)) + 1) as real
    ensures isPartial && (timeStart.None? || timeEnd.None?) ==> d == Finite(0.0)
    ensures isPartial && timeStart.Some? && timeEnd.Some? ==>
      (d.Finite? <==> timeStart.value.HhMm? && timeEnd.value.HhMm?)
    ensures isPartial && timeStart.Some? && timeEnd.Some? && d.Finite? ==>
      d.val * 480.0 == (Minutes(timeEnd.value.hour, timeEnd.value.minute)
                        - Minutes(timeStart.value.hour, timeStart.value.minute)) as real
  {
    if !isPartial then Finite(InclusiveDays(start, end) as real)
    else if timeStart.Some? && timeEnd.Some? then
      match (timeStart.value, timeEnd.value)
      case (HhMm(sh, sm), HhMm(eh, em)) => Finite(((eh * 60 + em) - (sh * 60 + sm)) as real / 480.0)
      case _ => NaN
    else Finite(0.0)
  }

  /** The days of a stored request. */
  function RequestDays(r: LeaveRequest): Num
  {
    CalculateDays(r.startDate, r.endDate, r.isPartialDay, r.startTime, r.endTime)
  }

  /** The two calculators agree on whole days (eight hours a day) and differ
      on partial days: a partial day without times is 4 hours to the
      overtime screen but 0 days to the leave form, and a reversed span is
      0 hours there but a negative day count here. */
  lemma DaysAndHoursOnWholeAndPartialDays(r: LeaveRequest)
    ensures !r.isPartialDay ==> CalculateHours(r) == HoursPerDay * RequestDays(r).val
    ensures r.isPartialDay && r.startTime.None? ==> CalculateHours(r) == 4.0 && RequestDays(r) == Finite(0.0)
    ensures r.isPartialDay && BothClockTimes(r) && PartialMinutes(r) < 0 ==>
      CalculateHours(r) == 0.0 && RequestDays(r).val < 0.0
  {
  }

  lemma CalculateDaysSymmetric(start: Date, end: Date, ts: Option<ClockText>, te: Option<ClockText>)
    ensures CalculateDays(start, end, false, ts, te) == CalculateDays(end, start, false, ts, te)
  {
    InclusiveDaysSymmetric(start, end);
  }

  // ------------------------------------------------------------ quota label

  /** A quota rendered as days, or as days and hours. */
  datatype QuotaLabel = DaysOnly(days: int) | DaysHours(days: int, hours: int)

  /** `Math.round`: halves round up. */
  function RoundHalfUp(x: real): int
  {
    (x + 0.5).Floor
  }

  /** `formatQuota`: whole days, then the remaining fraction of a day in
      hours (eight to a day), rounded. */
  function FormatQuota(val: real): (l: QuotaLabel)
    ensures l.days == val.Floor
    ensures l.DaysHours? ==> 1 <= l.hours <= 8
    ensures var total := l.days * 8 + (if l.DaysHours? then l.hours else 0);
            total as real - 0.5 <= val * 8.0 < total as real + 0.5
  {
    var d := val.Floor;
    var h := RoundHalfUp((val - d as real) * 8.0);
    if h == 0 then DaysOnly(d) else DaysHours(d, h)
  }

  /** Because the hours are rounded after the whole days are taken, a value
      just under a whole day is shown as that many days plus eight hours. */
  lemma AlmostWholeDayShowsEightHours()
    ensures FormatQuota(0.95) == DaysHours(0, 8)
    ensures FormatQuota(1.5) == DaysHours(1, 4)
    ensures FormatQuota(2.0) == DaysOnly(2)
  {
    assert (0.95).Floor == 0;
    assert (8.1).Floor == 8;
    assert (1.5).Floor == 1;
    assert (4.5).Floor == 4;
    assert (2.0).Floor == 2;
    assert (0.5).Floor == 0;
  }

  // ------------------------------------------------------------ quota accountant

  /** The entitlement of a category: the annual quota of the year (0 when
      none), the overtime balance for COMPENSATORY, 0 for every other
      category. */
  function TotalQuota(user: User, t: LeaveType, year: int): (q: real)
    ensures t == Annual ==> q == if year in user.quota.annual then user.quota.annual[year] else 0.0
    ensures t == Compensatory ==> q == user.quota.overtime
    ensures t != Annual && t != Compensatory ==> q == 0.0
  {
    if t == Annual then (if year in user.quota.annual then user.quota.annual[year] else 0.0)
    else if t == Compensatory then user.quota.overtime
    else 0.0
  }

  /** A request the accountant looks at: the user's own, of the category,
      not the one being edited, and for ANNUAL starting in the year. */
  predicate Counted(r: LeaveRequest, user: User, t: LeaveType, year: int, editing: Option<string>)
  {
    && r.userId == user.id
    && r.leaveType == t
    && !(editing.Some? && editing.value == r.id)
    && !(t == Annual && r.startDate.year != year)
  }

  /** Approved requests are used quota; in-process ones pending. */
  datatype Bucket = Used | Pending

  predicate InBucket(s: RequestStatus, b: Bucket)
  {
    match b
    case Used => s == Approved
    case Pending => IsPending(s)
  }

  /** The days of the counted requests in a bucket (NaN once any is NaN). */
  function BucketDays(reqs: seq<LeaveRequest>, user: User, t: LeaveType, year: int, editing: Option<string>, b: Bucket): Num
  {
    if reqs == [] then Finite(0.0)
    else
      var last := reqs[|reqs| - 1];
      var prev := BucketDays(reqs[..|reqs| - 1], user, t, year, editing, b);
      if Counted(last, user, t, year, editing) && InBucket(last.status, b) then NumAdd(prev, RequestDays(last)) else prev
  }

  datatype QuotaInfo = QuotaInfo(totalQuota: real, used: Num, pending: Num, remaining: Num)

  /** `Math.max(0, total - (used + pending))`. */
  function Remaining(total: real, used: Num, pending: Num): (r: Num)
    ensures r.Finite? <==> used.Finite? && pending.Finite?
    ensures r.Finite? ==> r.val == Max0(total - (used.val + pending.val))
  {
    if used.Finite? && pending.Finite? then Finite(Max0(total - (used.val + pending.val))) else NaN
  }

  /** The quota figures of a category: remaining = max(0, total - (used + pending)). */
  function QuotaOf(user: User, reqs: seq<LeaveRequest>, editing: Option<string>, t: LeaveType, year: int): (q: QuotaInfo)
    ensures q.totalQuota == TotalQuota(user, t, year)
    ensures q.remaining.NaN? || q.remaining.val >= 0.0
    ensures q.remaining.Finite? <==> q.used.Finite? && q.pending.Finite?
    ensures q.remaining.Finite? ==> q.remaining.val == Max0(q.totalQuota - (q.used.val + q.pending.val))
  {
    var total := TotalQuota(user, t, year);
    var used := BucketDays(reqs, user, t, year, editing, Used);
    var pending := BucketDays(reqs, user, t, year, editing, Pending);
    QuotaInfo(total, used, pending, Remaining(total, used, pending))
  }

  /** `getDynamicQuotaInfo`: one pass over the request list accumulating the
      used and pending days. */
  method GetDynamicQuotaInfo(user: User, allRequests: seq<LeaveRequest>, editing: Option<string>,
                             targetType: LeaveType, targetYear: int)
    returns (info: QuotaInfo)
    ensures info == QuotaOf(user, allRequests, editing, targetType, targetYear)
  {
    var totalQuota := TotalQuota(user, targetType, targetYear);
    var used := Finite(0.0);
    var pending := Finite(0.0);
    var i := 0;
    while i < |allRequests|
      invariant 0 <= i <= |allRequests|
      invariant used == BucketDays(allRequests[..i], user, targetType, targetYear, editing, Used)
      invariant pending == BucketDays(allRequests[..i], user, targetType, targetYear, editing, Pending)
    {
      var req := allRequests[i];
      assert allRequests[..i + 1][..i] == allRequests[..i];
      if Counted(req, user, targetType, targetYear, editing) {
        var duration := RequestDays(req);
        if req.status == Approved {
          used := NumAdd(used, duration);
        } else if IsPending(req.status) {
          pending := NumAdd(pending, duration);
        }
      }
      i := i + 1;
    }
    assert allRequests[..i] == allRequests;
    var consumed := NumAdd(used, pending);
    var remaining := if consumed.NaN? then NaN else NumMax0(Finite(totalQuota - consumed.val));
    info := QuotaInfo(totalQuota, used, pending, remaining);
  }

  /** Inserting a request anywhere in the list changes a bucket only when
      the request is counted and its status belongs to the bucket, and then
      adds its days. */
  lemma {:induction false} BucketDaysInsert(a: seq<LeaveRequest>, r: LeaveRequest, b: seq<LeaveRequest>,
                                            user: User, t: LeaveType, year: int, editing: Option<string>, k: Bucket)
    ensures !(Counted(r, user, t, year, editing) && InBucket(r.status, k)) ==>
      BucketDays(a + [r] + b, user, t, year, editing, k) == BucketDays(a + b, user, t, year, editing, k)
    ensures Counted(r, user, t, year, editing) && InBucket(r.status, k) ==>
      BucketDays(a + [r] + b, user, t, year, editing, k)
      == NumAdd(BucketDays(a + b, user, t, year, editing, k), RequestDays(r))
    decreases |b|
  {
    if b == [] {
      assert a + [r] + b == a + [r];
      assert (a + [r])[..|a|] == a;
      assert a + b == a;
    } else {
      var b' := b[..|b| - 1];
      var last := b[|b| - 1];
      assert (a + [r] + b)[..|a + [r] + b| - 1] == a + [r] + b';
      assert (a + [r] + b)[|a + [r] + b| - 1] == last;
      assert (a + b)[..|a + b| - 1] == a + b';
      assert (a + b)[|a + b| - 1] == last;
      BucketDaysInsert(a, r, b', user, t, year, editing, k);
    }
  }

  /** Requests that are rejected, cancelled, of another user, of another
      category, of another year (ANNUAL) or the one being edited do not
      change the quota figures; an approved counted request adds its days to
      the used quota, a pending one to the pending quota. */
  lemma QuotaOfInsert(a: seq<LeaveRequest>, r: LeaveRequest, b: seq<LeaveRequest>,
                      user: User, editing: Option<string>, t: LeaveType, year: int)
    ensures !Counted(r, user, t, year, editing) || r.status == Rejected || r.status == Cancelled ==>
      QuotaOf(user, a + [r] + b, editing, t, year) == QuotaOf(user, a + b, editing, t, year)
    ensures Counted(r, user, t, year, editing) && r.status == Approved ==>
      && QuotaOf(user, a + [r] + b, editing, t, year).used == NumAdd(QuotaOf(user, a + b, editing, t, year).used, RequestDays(r))
      && QuotaOf(user, a + [r] + b, editing, t, year).pending == QuotaOf(user, a + b, editing, t, year).pending
    ensures Counted(r, user, t, year, editing) && IsPending(r.status) ==>
      && QuotaOf(user, a + [r] + b, editing, t, year).pending == NumAdd(QuotaOf(user, a + b, editing, t, year).pending, RequestDays(r))
      && QuotaOf(user, a + [r] + b, editing, t, year).used == QuotaOf(user, a + b, editing, t, year).used
  {
    var u1, u0 := BucketDays(a + [r] + b, user, t, year, editing, Used), BucketDays(a + b, user, t, year, editing, Used);
    var p1, p0 := BucketDays(a + [r] + b, user, t, year, editing, Pending), BucketDays(a + b, user, t, year, editing, Pending);
    BucketDaysInsert(a, r, b, user, t, year, editing, Used);
    BucketDaysInsert(a, r, b, user, t, year, editing, Pending);
    assert QuotaOf(user, a + [r] + b, editing, t, year).used == u1 && QuotaOf(user, a + b, editing, t, year).used == u0;
    assert QuotaOf(user, a + [r] + b, editing, t, year).pending == p1 && QuotaOf(user, a + b, editing, t, year).pending == p0;
    if !Counted(r, user, t, year, editing) || r.status == Rejected || r.status == Cancelled {
      assert u1 == u0 && p1 == p0;
    }
  }

  /** Partial-day requests whose times, when both given, are HH:MM. */
  predicate WellFormedTimes(r: LeaveRequest)
  {
    r.isPartialDay && r.startTime.Some? && r.endTime.Some? ==> r.startTime.value.HhMm? && r.endTime.value.HhMm?
  }

  lemma {:induction false} BucketDaysFinite(reqs: seq<LeaveRequest>, user: User, t: LeaveType, year: int,
                                            editing: Option<string>, k: Bucket)
    requires forall r :: r in reqs ==> WellFormedTimes(r)
    ensures BucketDays(reqs, user, t, year, editing, k).Finite?
    decreases |reqs|
  {
    if reqs != [] {
      var init, last := reqs[..|reqs| - 1], reqs[|reqs| - 1];
      assert forall r :: r in init ==> r in reqs;
      assert last in reqs;
      BucketDaysFinite(init, user, t, year, editing, k);
      assert RequestDays(last).Finite?;
    }
  }

  /** With well-formed times every figure is a number, so the remaining
      quota is exactly max(0, total - (used + pending)). */
  lemma QuotaFiniteWhenTimesWellFormed(user: User, reqs: seq<LeaveRequest>, editing: Option<string>, t: LeaveType, year: int)
    requires forall r :: r in reqs ==> WellFormedTimes(r)
    ensures QuotaOf(user, reqs, editing, t, year).remaining.Finite?
  {
    BucketDaysFinite(reqs, user, t, year, editing, Used);
    BucketDaysFinite(reqs, user, t, year, editing, Pending);
  }

  // ------------------------------------------------------------ submission

  /** The form being submitted. */
  datatype LeaveForm = LeaveForm(
    leaveType: LeaveType,
    startDate: Date,
    endDate: Date,
    isPartialDay: bool,
    startTime: Option<ClockText>,
    endTime: Option<ClockText>,
    reason: string,
    deputy: string,
    attachmentUrls: seq<string>)

  datatype TitleRule = TitleRule(jobTitle: string, maxLevel: int)

  /** A workflow group: its approval steps and the job-title rules that cap
      the number of steps. */
  datatype WorkflowGroup = WorkflowGroup(steps: seq<string>, titleRules: seq<TitleRule>)

  datatype SubmitError =
    | TimeOverlap(conflictType: LeaveType)
    | QuotaExceeded(remaining: QuotaLabel, requested: QuotaLabel)
    | NoWorkflowGroup

  datatype Result<T, E> = Ok(value: T) | Err(error: E)

  /** The first title rule for a job title. */
  function FindTitleRule(rules: seq<TitleRule>, jobTitle: string): (found: Option<TitleRule>)
    ensures found.Some? ==> found.value in rules && found.value.jobTitle == jobTitle
    ensures found.None? <==> forall r :: r in rules ==> r.jobTitle != jobTitle
  {
    if rules == [] then None
    else if rules[0].jobTitle == jobTitle then Some(rules[0])
    else
      assert forall r :: r in rules ==> r == rules[0] || r in rules[1..];
      FindTitleRule(rules[1..], jobTitle)
  }

  /** The rule found is the first one in list order for the job title. */
  lemma {:induction false} FindTitleRuleIsFirst(rules: seq<TitleRule>, jobTitle: string, i: int)
    requires 0 <= i < |rules| && rules[i].jobTitle == jobTitle
    requires forall j :: 0 <= j < i ==> rules[j].jobTitle != jobTitle
    ensures FindTitleRule(rules, jobTitle) == Some(rules[i])
    decreases i
  {
    if i > 0 {
      FindTitleRuleIsFirst(rules[1..], jobTitle, i - 1);
    }
  }

  /** The number of approval steps: the group's step count, capped by the
      maximum level of the first rule for the user's job title. */
  function TotalSteps(group: WorkflowGroup, jobTitle: string): (n: int)
    ensures n <= |group.steps|
    ensures FindTitleRule(group.titleRules, jobTitle).None? ==> n == |group.steps|
    ensures FindTitleRule(group.titleRules, jobTitle).Some? ==>
      n <= FindTitleRule(group.titleRules, jobTitle).value.maxLevel
      && (n == |group.steps| || n == FindTitleRule(group.titleRules, jobTitle).value.maxLevel)
  {
    var steps := |group.steps|;
    match FindTitleRule(group.titleRules, jobTitle)
    case Some(rule) => if rule.maxLevel < steps then rule.maxLevel else steps
    case None => steps
  }

  /** The quota check blocks the submission: the category is ANNUAL or
      COMPENSATORY and the requested days exceed the remaining quota (never
      when either is NaN). */
  predicate QuotaBlocks(user: User, allRequests: seq<LeaveRequest>, editing: Option<string>, form: LeaveForm)
  {
    && (form.leaveType == Annual || form.leaveType == Compensatory)
    && NumGt(CalculateDays(form.startDate, form.endDate, form.isPartialDay, form.startTime, form.endTime),
             QuotaOf(user, allRequests, editing, form.leaveType, form.startDate.year).remaining)
  }

  /** The request a successful submission writes. */
  predicate IsSubmittedRecord(rec: LeaveRequest, user: User, form: LeaveForm, editing: Option<string>,
                              group: WorkflowGroup, newId: string, now: string)
  {
    && rec.id == (if editing.Some? then editing.value else newId)
    && rec.userId == user.id && rec.userName == user.name
    && rec.leaveType == form.leaveType
    && rec.startDate == form.startDate && rec.endDate == form.endDate
    && rec.isPartialDay == form.isPartialDay
    && rec.startTime == form.startTime && rec.endTime == form.endTime
    && rec.reason == form.reason && rec.deputy == form.deputy
    && rec.attachmentUrls == Some(form.attachmentUrls)
    && rec.attachmentUrl == (if form.attachmentUrls == [] then "" else form.attachmentUrls[0])
    && rec.status == InProcess
    && rec.createdAt == now
    && rec.currentStep == 1
    && rec.totalSteps == TotalSteps(group, user.jobTitle)
    && rec.stepApprovedBy == []
    && rec.logs == []
  }

  /** `handleSubmit`: the overlap check on the freshly fetched list
      `freshRequests` (excluding the request being edited), then the quota
      check against the figures of the list loaded with the form
      (`allRequests`), then the workflow lookup, then the record. `group` is
      the user's workflow group if one exists, `newId` a fresh UUID and `now`
      the submission time. */
  method HandleSubmit(user: User, form: LeaveForm, editing: Option<string>,
                      allRequests: seq<LeaveRequest>, freshRequests: seq<LeaveRequest>,
                      group: Option<WorkflowGroup>, newId: string, now: string)
    returns (res: Result<LeaveRequest, SubmitError>)
    ensures res.Err? && res.error.TimeOverlap? <==>
      exists r :: r in freshRequests && Conflicts(r, user.id, form.startDate, form.endDate, editing)
    ensures res.Err? && res.error.QuotaExceeded? <==>
      (forall r :: r in freshRequests ==> !Conflicts(r, user.id, form.startDate, form.endDate, editing))
      && QuotaBlocks(user, allRequests, editing, form)
    ensures res.Err? && res.error.NoWorkflowGroup? <==>
      (forall r :: r in freshRequests ==> !Conflicts(r, user.id, form.startDate, form.endDate, editing))
      && !QuotaBlocks(user, allRequests, editing, form) && group.None?
    ensures res.Ok? ==> group.Some? && IsSubmittedRecord(res.value, user, form, editing, group.value, newId, now)
  {
    var conflict := CheckTimeOverlap(freshRequests, user.id, form.startDate, form.endDate,
                                     form.startTime, form.endTime, form.isPartialDay, editing);
    if conflict.overlap {
      return Err(TimeOverlap(conflict.conflictingRequest.value.leaveType));
    }

    var quotaInfo := GetDynamicQuotaInfo(user, allRequests, editing, form.leaveType, form.startDate.year);
    var requestDays := CalculateDays(form.startDate, form.endDate, form.isPartialDay, form.startTime, form.endTime);
    if (form.leaveType == Annual || form.leaveType == Compensatory) && NumGt(requestDays, quotaInfo.remaining) {
      return Err(QuotaExceeded(FormatQuota(quotaInfo.remaining.val), FormatQuota(requestDays.val)));
    }

    if group.None? {
      return Err(NoWorkflowGroup);
    }
    var userGroup := group.value;
    var totalSteps := |userGroup.steps|;
    var rule := FindTitleRule(userGroup.titleRules, user.jobTitle);
    if rule.Some? {
      totalSteps := if rule.value.maxLevel < totalSteps then rule.value.maxLevel else totalSteps;
    }

    var record := LeaveRequest(
      if editing.Some? then editing.value else newId,
      user.id, user.name, form.leaveType, InProcess,
      form.startDate, form.endDate, form.isPartialDay, form.startTime, form.endTime,
      form.reason, form.deputy,
      if form.attachmentUrls == [] then "" else form.attachmentUrls[0],
      Some(form.attachmentUrls),
      now, 1, totalSteps, [], [], None, false);
    return Ok(record);
  }
}
