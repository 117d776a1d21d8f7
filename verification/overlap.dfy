/** The overlap detector of the data service: a new or edited request of a
    user conflicts with another live request of the same user whose date
    span intersects it, both ends included. Clock times and the partial-day
    flag play no part. */
module OverlapCheck {
  import opened Domain

  /** The conflict test applied to each stored request. `excludeId` is the
      id of the request being edited (none for a new request); dates compare
      as their YYYY-MM-DD strings do. */
  predicate Conflicts(r: LeaveRequest, uid: string, start: Date, end: Date, excludeId: Option<string>)
  {
    && r.userId == uid
    && (excludeId.None? || r.id != excludeId.value)
    && r.status != Rejected
    && r.status != Cancelled
    && DateLe(start, r.endDate)
    && DateLe(r.startDate, end)
  }

  /** The first conflicting request in list order, if any. */
  function FindConflict(reqs: seq<LeaveRequest>, uid: string, start: Date, end: Date, excludeId: Option<string>)
    : (c: Option<LeaveRequest>)
    ensures c.Some? ==> c.value in reqs && Conflicts(c.value, uid, start, end, excludeId)
    ensures c.None? <==> forall r :: r in reqs ==> !Conflicts(r, uid, start, end, excludeId)
  {
    if reqs == [] then None
    else if Conflicts(reqs[0], uid, start, end, excludeId) then Some(reqs[0])
    else
      assert forall r :: r in reqs ==> r == reqs[0] || r in reqs[1..];
      FindConflict(reqs[1..], uid, start, end, excludeId)
  }

  /** The request reported is the first conflicting one in list order. */
  lemma {:induction false} FindConflictIsFirst(reqs: seq<LeaveRequest>, uid: string, start: Date, end: Date,
                                               excludeId: Option<string>, i: int)
    requires 0 <= i < |reqs|
    requires Conflicts(reqs[i], uid, start, end, excludeId)
    requires forall j :: 0 <= j < i ==> !Conflicts(reqs[j], uid, start, end, excludeId)
    ensures FindConflict(reqs, uid, start, end, excludeId) == Some(reqs[i])
    decreases i
  {
    if i > 0 {
      FindConflictIsFirst(reqs[1..], uid, start, end, excludeId, i - 1);
    }
  }

  datatype OverlapResult = OverlapResult(overlap: bool, conflictingRequest: Option<LeaveRequest>)

  /** `checkTimeOverlap` over the fetched request list `reqs`. The clock
      times and the partial-day flag are accepted and ignored. */
  function CheckTimeOverlap(reqs: seq<LeaveRequest>, uid: string, start: Date, end: Date,
                            sTime: Option<ClockText>, eTime: Option<ClockText>, isPartial: bool,
                            excludeId: Option<string>): (res: OverlapResult)
    ensures res.overlap <==> res.conflictingRequest.Some?
    ensures res.overlap <==> exists r :: r in reqs && Conflicts(r, uid, start, end, excludeId)
    ensures res.conflictingRequest.Some? ==>
      res.conflictingRequest.value in reqs && Conflicts(res.conflictingRequest.value, uid, start, end, excludeId)
  {
    var c := FindConflict(reqs, uid, start, end, excludeId);
    OverlapResult(c.Some?, c)
  }

  /** The intersection is inclusive: a span ending on the first day of a
      live request of the same user overlaps it, a span ending the day
      before does not. */
  lemma SharedBoundaryDayOverlaps(r: LeaveRequest)
    requires r.userId == "u1" && r.status == Approved
    requires r.startDate == Date(2024, 1, 5) && r.endDate == Date(2024, 1, 10)
    ensures Conflicts(r, "u1", Date(2024, 1, 1), Date(2024, 1, 5), None)
    ensures !Conflicts(r, "u1", Date(2024, 1, 1), Date(2024, 1, 4), None)
    ensures !Conflicts(r, "u1", Date(2024, 1, 1), Date(2024, 1, 5), Some(r.id))
    ensures !Conflicts(r.(status := Cancelled), "u1", Date(2024, 1, 1), Date(2024, 1, 5), None)
  {
  }
}
