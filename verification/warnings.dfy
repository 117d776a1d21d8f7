/** The warning evaluator of the data service: each configured rule counts
    the days of a user's approved requests of the rule's category and fires
    when the count reaches the rule's threshold. */
module WarningRules {
  import opened Domain
  import OvertimeHours

  /** The approved requests of the user, in list order. */
  function ApprovedOf(uid: string, reqs: seq<LeaveRequest>): (out: seq<LeaveRequest>)
    ensures forall x :: x in out <==> x in reqs && x.userId == uid && x.status == Approved
  {
    if reqs == [] then []
    else
      var init := reqs[..|reqs| - 1];
      var last := reqs[|reqs| - 1];
      assert reqs == init + [last];
      ApprovedOf(uid, init) + if last.userId == uid && last.status == Approved then [last] else []
  }

  /** What one counted request adds: its inclusive day count when it is a
      whole-day request, half a day when it is partial. A whole day weighs
      the overtime calculator's hours of the request in eight-hour days. */
  function RequestWeight(r: LeaveRequest): (w: real)
    ensures w > 0.0
    ensures !r.isPartialDay ==> w >= 1.0
    ensures !r.isPartialDay ==> w * OvertimeHours.HoursPerDay == OvertimeHours.CalculateHours(r)
    ensures r.isPartialDay ==> w == 0.5
  {
    if !r.isPartialDay then InclusiveDays(r.startDate, r.endDate) as real else 0.5
  }

  /** The count of a rule over a list of (approved) requests: the weights of
      the requests of category `t`. */
  function TypeCount(t: LeaveType, rs: seq<LeaveRequest>): (c: real)
    ensures c >= 0.0
  {
    if rs == [] then 0.0
    else
      var last := rs[|rs| - 1];
      TypeCount(t, rs[..|rs| - 1]) + if last.leaveType == t then RequestWeight(last) else 0.0
  }

  /** The count a rule compares with its threshold for `uid`. */
  function WarningCount(rule: WarningRule, uid: string, reqs: seq<LeaveRequest>): real
  {
    TypeCount(rule.targetType, ApprovedOf(uid, reqs))
  }

  function WarningOf(rule: WarningRule, count: real): ActiveWarning
  {
    ActiveWarning(rule.id, rule.name, rule.message, rule.color, count)
  }

  predicate Fires(rule: WarningRule, uid: string, reqs: seq<LeaveRequest>)
  {
    WarningCount(rule, uid, reqs) >= rule.threshold
  }

  /** The warnings of the rules that fire, in rule order. */
  function Warnings(uid: string, rules: seq<WarningRule>, reqs: seq<LeaveRequest>): seq<ActiveWarning>
  {
    if rules == [] then []
    else
      var last := rules[|rules| - 1];
      Warnings(uid, rules[..|rules| - 1], reqs)
        + if Fires(last, uid, reqs) then [WarningOf(last, WarningCount(last, uid, reqs))] else []
  }

  /** `evaluateWarnings`: filter the approved requests, then for each rule
      accumulate the count over the approved requests of its category and
      push a warning when it reaches the threshold. */
  method EvaluateWarnings(user: User, rules: seq<WarningRule>, allRequests: seq<LeaveRequest>)
    returns (warnings: seq<ActiveWarning>)
    ensures warnings == Warnings(user.id, rules, allRequests)
  {
    warnings := [];
    var approved := ApprovedOf(user.id, allRequests);
    var k := 0;
    while k < |rules|
      invariant 0 <= k <= |rules|
      invariant warnings == Warnings(user.id, rules[..k], allRequests)
    {
      var rule := rules[k];
      var count := 0.0;
      var i := 0;
      while i < |approved|
        invariant 0 <= i <= |approved|
        invariant count == TypeCount(rule.targetType, approved[..i])
      {
        assert approved[..i + 1][..i] == approved[..i];
        var r := approved[i];
        if r.leaveType == rule.targetType {
          count := count + RequestWeight(r);
        }
        i := i + 1;
      }
      assert approved[..i] == approved;
      assert rules[..k + 1][..k] == rules[..k];
      if count >= rule.threshold {
        warnings := warnings + [WarningOf(rule, count)];
      }
      k := k + 1;
    }
    assert rules[..k] == rules;
  }

  lemma {:induction false} TypeCountAppend(t: LeaveType, a: seq<LeaveRequest>, b: seq<LeaveRequest>)
    ensures TypeCount(t, a + b) == TypeCount(t, a) + TypeCount(t, b)
    decreases |b|
  {
    if b == [] {
      assert a + b == a;
    } else {
      assert (a + b)[..|a + b| - 1] == a + b[..|b| - 1];
      TypeCountAppend(t, a, b[..|b| - 1]);
    }
  }

  lemma {:induction false} ApprovedOfAppend(uid: string, a: seq<LeaveRequest>, b: seq<LeaveRequest>)
    ensures ApprovedOf(uid, a + b) == ApprovedOf(uid, a) + ApprovedOf(uid, b)
    decreases |b|
  {
    if b == [] {
      assert a + b == a;
    } else {
      assert (a + b)[..|a + b| - 1] == a + b[..|b| - 1];
      ApprovedOfAppend(uid, a, b[..|b| - 1]);
    }
  }

  /** Adding requests never lowers a rule's count; an added approved request
      of the user in the rule's category raises it by its weight, any other
      added request leaves it unchanged. */
  lemma WarningCountGrows(rule: WarningRule, uid: string, a: seq<LeaveRequest>, r: LeaveRequest, b: seq<LeaveRequest>)
    ensures WarningCount(rule, uid, a + b) <= WarningCount(rule, uid, a + [r] + b)
    ensures WarningCount(rule, uid, a + [r] + b)
         == WarningCount(rule, uid, a + b)
            + if r.userId == uid && r.status == Approved && r.leaveType == rule.targetType then RequestWeight(r) else 0.0
  {
    ApprovedOfAppend(uid, a, b);
    ApprovedOfAppend(uid, a + [r], b);
    ApprovedOfAppend(uid, a, [r]);
    var pa, pr, pb := ApprovedOf(uid, a), ApprovedOf(uid, [r]), ApprovedOf(uid, b);
    assert [r][..0] == [];
    TypeCountAppend(rule.targetType, pa + pr, pb);
    TypeCountAppend(rule.targetType, pa, pr);
    TypeCountAppend(rule.targetType, pa, pb);
  }

  /** The warnings follow the rules: `idx` lists, in increasing order, the
      positions of exactly the rules that fire, and warning j copies rule
      idx[j]'s id, name, message and colour with the computed count. So
      there is at most one warning per rule, in rule order. */
  lemma {:induction false} WarningsFollowRules(uid: string, rules: seq<WarningRule>, reqs: seq<LeaveRequest>)
    returns (idx: seq<int>)
    ensures |idx| == |Warnings(uid, rules, reqs)| <= |rules|
    ensures forall j :: 0 <= j < |idx| ==> 0 <= idx[j] < |rules|
    ensures forall j, j' :: 0 <= j < j' < |idx| ==> idx[j] < idx[j']
    ensures forall j :: 0 <= j < |idx| ==>
      Warnings(uid, rules, reqs)[j] == WarningOf(rules[idx[j]], WarningCount(rules[idx[j]], uid, reqs))
    ensures forall k :: 0 <= k < |rules| ==> (Fires(rules[k], uid, reqs) <==> k in idx)
    decreases |rules|
  {
    if rules == [] {
      idx := [];
    } else {
      var n := |rules| - 1;
      var init := rules[..n];
      var prev := WarningsFollowRules(uid, init, reqs);
      var pw := Warnings(uid, init, reqs);
      assert forall k :: 0 <= k < n ==> init[k] == rules[k];
      if Fires(rules[n], uid, reqs) {
        idx := prev + [n];
        assert Warnings(uid, rules, reqs) == pw + [WarningOf(rules[n], WarningCount(rules[n], uid, reqs))];
      } else {
        idx := prev;
        assert Warnings(uid, rules, reqs) == pw;
        assert n !in idx;
      }
    }
  }

  /** A rule with threshold 3 on a category fires once a user has an
      approved three-day request of that category. */
  lemma ThreeDayRequestFiresThreshold(rule: WarningRule, r: LeaveRequest)
    requires rule.threshold == 3.0
    requires r.userId == "u1" && r.status == Approved && r.leaveType == rule.targetType
    requires !r.isPartialDay && r.startDate == Date(2024, 3, 4) && r.endDate == Date(2024, 3, 6)
    ensures Fires(rule, "u1", [r])
    ensures Warnings("u1", [rule], [r]) == [WarningOf(rule, 3.0)]
  {
    assert [r][..0] == [];
    assert ApprovedOf("u1", [r]) == [r];
    assert DayNumber(r.endDate) - DayNumber(r.startDate) == 2;
    assert TypeCount(rule.targetType, [r]) == 3.0;
    assert [rule][..0] == [];
  }
}
