/** The stateful part of the overtime review screen: the user table, the
    settlement-record table and the request table, and the two operations
    that rewrite them (a credential-confirmed settlement action and the
    monthly detail review). */
module SettlementLedger {
  import opened Domain
  import opened OvertimeHours
  import opened LedgerSpec

  /** The body of the settlement loop for one user: look up the stored record
      of the month, take the operator's inputs the action is allowed to apply,
      recompute the remaining hours, and stamp the signatures. */
  method SettleUser(s: Settlement, allRecords: seq<SettlementRecord>, uid: string, newId: string)
    returns (rec: SettlementRecord)
    ensures rec == SettledRecord(s, allRecords, uid, newId)
  {
    var existingRec := FindRecord(allRecords, uid, s.year, s.month);
    var applied := CalculateMonthlyAppliedHours(s.requests, uid, s.year, s.month);
    var compUsed := CalculateMonthlyCompensatoryHours(s.requests, uid, s.year, s.month);
    var currentLiveHours := LiveBalance(allRecords, uid, s.year, s.month);
    var oldBase := if existingRec.Some? then existingRec.value.actualHours else 0.0;
    var oldPaid := if existingRec.Some? then existingRec.value.paidHours else 0.0;

    var newBase := oldBase;
    var isBaseChanged := false;
    if AuthorizesBase(s.kind) && uid in s.balanceInputs {
      newBase := s.balanceInputs[uid];
      if newBase != oldBase {
        isBaseChanged := true;
      }
    }

    var newPaid := oldPaid;
    var isPayChanged := false;
    if AuthorizesPay(s.kind) && uid in s.payInputs {
      newPaid := s.payInputs[uid];
      if newPaid != oldPaid {
        isPayChanged := true;
      }
    }

    var recordRemaining := currentLiveHours + newBase - newPaid - compUsed;
    rec := SettlementRecord(
      if existingRec.Some? then existingRec.value.id else newId,
      uid, s.year, s.month, applied, newBase, newPaid, recordRemaining,
      s.signature.timestamp, s.signature.name,
      if existingRec.Some? then existingRec.value.baseAuth else None,
      if existingRec.Some? then existingRec.value.payAuth else None);

    if isBaseChanged {
      rec := rec.(baseAuth := Some(s.signature));
    } else if (s.kind.SingleBase? || s.kind.BatchBase?) && uid in s.balanceInputs {
      rec := rec.(baseAuth := Some(s.signature));
    }
    if isPayChanged {
      rec := rec.(payAuth := Some(s.signature));
    } else if s.kind.SinglePay? && uid in s.payInputs {
      rec := rec.(payAuth := Some(s.signature));
    }
  }

  /** The ids of the users of `users` that are targets, i.e. the users a
      settlement touches. */
  function TouchedIds(users: seq<User>, targets: set<string>): (ids: set<string>)
    ensures forall id :: id in ids <==> id in targets && exists u :: u in users && u.id == id
  {
    if users == [] then {}
    else
      var init := users[..|users| - 1];
      var last := users[|users| - 1];
      assert users == init + [last];
      TouchedIds(init, targets) + if last.id in targets then {last.id} else {}
  }

  /** The settlement loop: walk the user table in order and build one record
      for every target user, collecting the ids of the users touched. */
  method SettleUsers(s: Settlement, allUsers: seq<User>, targets: set<string>,
                     allRecords: seq<SettlementRecord>, freshId: string -> string)
    returns (updatedRecords: seq<SettlementRecord>, touched: set<string>)
    ensures updatedRecords == SettleBatch(s, allUsers, targets, allRecords, freshId)
    ensures touched == TouchedIds(allUsers, targets)
  {
    updatedRecords := [];
    touched := {};
    var i := 0;
    while i < |allUsers|
      invariant 0 <= i <= |allUsers|
      invariant updatedRecords == SettleBatch(s, allUsers[..i], targets, allRecords, freshId)
      invariant touched == TouchedIds(allUsers[..i], targets)
    {
      var u := allUsers[i];
      assert allUsers[..i + 1][..i] == allUsers[..i];
      assert allUsers[..i + 1][i] == u;
      if u.id in targets {
        var rec := SettleUser(s, allRecords, u.id, freshId(u.id));
        updatedRecords := updatedRecords + [rec];
        touched := touched + {u.id};
      }
      i := i + 1;
    }
    assert allUsers[..i] == allUsers;
  }

  /** The body of the review loop for one user: replace the user's record of
      the month in place (keeping its paid hours) or append a new record with
      a fresh id. The live balance is read from the list before the review. */
  method ReviewUser(rv: Review, allRecords: seq<SettlementRecord>, updatedRecords: seq<SettlementRecord>,
                    uid: string, total: real, newId: string)
    returns (next: seq<SettlementRecord>)
    ensures next == DetailUpsertOne(rv, allRecords, updatedRecords, uid, total, newId)
  {
    var applied := CalculateMonthlyAppliedHours(rv.requests, uid, rv.year, rv.month);
    var compUsed := CalculateMonthlyCompensatoryHours(rv.requests, uid, rv.year, rv.month);
    var currentLive := LiveBalance(allRecords, uid, rv.year, rv.month);
    var existingIdx := FindIndex(updatedRecords, uid, rv.year, rv.month);
    var existingPaid := 0.0;
    if existingIdx > -1 {
      existingPaid := updatedRecords[existingIdx].paidHours;
    }
    var recordRemaining := currentLive + total - existingPaid - compUsed;
    if existingIdx > -1 {
      next := updatedRecords[existingIdx :=
        updatedRecords[existingIdx].(actualHours := total, remainingHours := recordRemaining, baseAuth := Some(rv.signature))];
    } else {
      next := updatedRecords + [SettlementRecord(
        newId, uid, rv.year, rv.month, applied, total, 0.0, recordRemaining,
        rv.signature.timestamp, rv.signature.name, Some(rv.signature), None)];
    }
  }

  /** The review loop over the reviewed users, in order. */
  method ReviewUsers(rv: Review, allRecords: seq<SettlementRecord>, order: seq<string>,
                     userTotals: map<string, real>, freshId: string -> string)
    returns (updatedRecords: seq<SettlementRecord>, recordsChanged: bool)
    requires forall u :: u in order ==> u in userTotals
    ensures updatedRecords == DetailUpsert(rv, allRecords, order, userTotals, freshId)
    ensures recordsChanged <==> order != []
  {
    recordsChanged := false;
    updatedRecords := allRecords;
    var j := 0;
    while j < |order|
      invariant 0 <= j <= |order|
      invariant forall u :: u in order[..j] ==> u in userTotals
      invariant updatedRecords == DetailUpsert(rv, allRecords, order[..j], userTotals, freshId)
      invariant recordsChanged <==> j > 0
    {
      var uid := order[j];
      assert order[..j + 1][..j] == order[..j];
      assert order[..j + 1][j] == uid;
      updatedRecords := ReviewUser(rv, allRecords, updatedRecords, uid, userTotals[uid], freshId(uid));
      recordsChanged := true;
      j := j + 1;
    }
    assert order[..j] == order;
  }

  /** `totals` and `order` are the per-user totals of `rows` and their users
      in order of first appearance. */
  ghost predicate TotalsOf(totals: map<string, real>, order: seq<string>,
                           rows: seq<LeaveRequest>, edits: map<string, DetailEdit>)
  {
    && order == UserOrder(rows)
    && (forall u :: u in totals <==> u in order)
    && (forall u :: u in totals ==> totals[u] == UserTotal(rows, edits, u))
  }

  /** The per-user totals of the detail review: the sum of the entered
      durations for each user that has a row, and the users in order of first
      appearance (the order in which the totals are applied). */
  method ComputeUserTotals(detail: seq<LeaveRequest>, edits: map<string, DetailEdit>)
    returns (userTotals: map<string, real>, order: seq<string>)
    ensures order == UserOrder(detail)
    ensures forall u :: u in userTotals <==> u in order
    ensures forall u :: u in userTotals ==> userTotals[u] == UserTotal(detail, edits, u)
  {
    userTotals := map[];
    order := [];
    var i := 0;
    while i < |detail|
      invariant 0 <= i <= |detail|
      invariant TotalsOf(userTotals, order, detail[..i], edits)
    {
      var r := detail[i];
      var uid := r.userId;
      assert detail[..i + 1] == detail[..i] + [r];
      TotalsStep(userTotals, order, detail[..i], r, edits);
      var prior := if uid in userTotals then userTotals[uid] else 0.0;
      userTotals := userTotals[uid := prior + EditedDuration(r, edits)];
      if uid !in order {
        order := order + [uid];
      }
      i := i + 1;
    }
    assert detail[..i] == detail;
  }

  /** One row added to the totals: its user's total grows by its duration
      and the user joins the order if new. */
  lemma TotalsStep(totals: map<string, real>, order: seq<string>, rows: seq<LeaveRequest>,
                   r: LeaveRequest, edits: map<string, DetailEdit>)
    requires TotalsOf(totals, order, rows, edits)
    ensures var prior := if r.userId in totals then totals[r.userId] else 0.0;
            TotalsOf(totals[r.userId := prior + EditedDuration(r, edits)],
                     if r.userId in order then order else order + [r.userId], rows + [r], edits)
  {
    var uid := r.userId;
    UserOrderStep(rows, r);
    if uid !in totals {
      UserTotalWithoutRows(rows, edits, uid);
    }
    var prior := if uid in totals then totals[uid] else 0.0;
    var next := totals[uid := prior + EditedDuration(r, edits)];
    forall u | u in next
      ensures next[u] == UserTotal(rows + [r], edits, u)
    {
      UserTotalStep(rows, r, edits, u);
    }
  }

  lemma UserOrderStep(rows: seq<LeaveRequest>, r: LeaveRequest)
    ensures UserOrder(rows + [r])
         == if r.userId in UserOrder(rows) then UserOrder(rows) else UserOrder(rows) + [r.userId]
  {
    assert (rows + [r])[..|rows|] == rows;
  }

  /** A user without rows has total 0. */
  lemma {:induction false} UserTotalWithoutRows(rows: seq<LeaveRequest>, edits: map<string, DetailEdit>, uid: string)
    requires uid !in UserOrder(rows)
    ensures UserTotal(rows, edits, uid) == 0.0
    decreases |rows|
  {
    if rows != [] {
      var init := rows[..|rows| - 1];
      assert rows == init + [rows[|rows| - 1]];
      assert forall u :: u in UserOrder(init) ==> u in UserOrder(rows);
      UserTotalWithoutRows(init, edits, uid);
    }
  }

  class SettlementStore {
    var users: seq<User>
    var records: seq<SettlementRecord>
    var requests: seq<LeaveRequest>

    /** User ids are unique; at most one record per (user, year, month) and
        every record id used once. */
    ghost predicate Valid()
      reads this
    {
      UserIdsUnique(users) && NoClash(records)
    }

    constructor (users0: seq<User>, records0: seq<SettlementRecord>, requests0: seq<LeaveRequest>)
      requires UserIdsUnique(users0) && NoClash(records0)
      ensures Valid()
      ensures users == users0 && records == records0 && requests == requests0
    {
      users := users0;
      records := records0;
      requests := requests0;
    }

    /** A settlement action after its credentials were confirmed. Every
        target user present in the user table gets the record
        `SettledRecord` describes (reusing the stored record's id); the stored
        records with those ids are dropped and the new ones appended; then
        every touched user's overtime quota is re-derived from that user's
        latest record. `viewRequests` is the request list of the screen,
        `signature` the operator's signature and `freshId` the id generator. */
    method ExecuteSettlement(action: PendingAuthAction, modifiedUsers: set<string>,
                             balanceInputs: map<string, real>, payInputs: map<string, real>,
                             year: int, month: int, viewRequests: seq<LeaveRequest>,
                             signature: AuthSignature, freshId: string -> string)
      returns (touched: set<string>)
      requires Valid() && FreshIds(freshId, records)
      modifies this
      ensures Valid()
      ensures var s := Settlement(action.kind, balanceInputs, payInputs, year, month, viewRequests, signature);
              var targets := TargetUserIds(action, modifiedUsers, balanceInputs);
              && touched == TouchedIds(old(users), targets)
              && records == Upsert(old(records), SettleBatch(s, old(users), targets, old(records), freshId))
              && users == SyncUsers(old(users), records, touched)
      ensures var s := Settlement(action.kind, balanceInputs, payInputs, year, month, viewRequests, signature);
              && (forall r :: r in old(records) && !(r.userId in touched && r.year == year && r.month == month) ==> r in records)
              && (forall u :: u in touched ==>
                    FindRecord(records, u, year, month) == Some(SettledRecord(s, old(records), u, freshId(u))))
              && (forall i :: 0 <= i < |users| && old(users)[i].id !in touched ==> users[i] == old(users)[i])
      ensures requests == old(requests)
    {
      var s := Settlement(action.kind, balanceInputs, payInputs, year, month, viewRequests, signature);
      var allUsers := users;
      var allRecords := records;
      var targets := TargetUserIds(action, modifiedUsers, balanceInputs);
      var updatedRecords;
      updatedRecords, touched := SettleUsers(s, allUsers, targets, allRecords, freshId);
      records := Upsert(allRecords, updatedRecords);
      users := SyncUsers(allUsers, records, touched);

      SettlementUpsert(s, allUsers, targets, allRecords, freshId);
      SyncUsersSpec(allUsers, records, touched);
      forall u | u in touched
        ensures FindRecord(records, u, year, month) == Some(SettledRecord(s, allRecords, u, freshId(u)))
      {
        var v :| v in allUsers && v.id == u;
      }
    }

  /** The detail review of one month. Every request with an edit receives
        its actual span and verification flag (and a notification log entry
        when selected); the per-user totals of the entered durations over the
        month's rows become the users' bases, replacing a stored record of
        the month in place or appending a new one; and when any total exists
        the affected users' overtime quotas are re-derived. `detail` holds
        the rows on screen, `reviewerId` and `signature` identify the
        reviewer. */
    method SaveDetailReview(detail: seq<LeaveRequest>, edits: map<string, DetailEdit>, selected: set<string>,
                            reviewerId: string, year: int, month: int, viewRequests: seq<LeaveRequest>,
                            signature: AuthSignature, freshId: string -> string)
      returns (order: seq<string>)
      requires Valid() && FreshIds(freshId, records)
      modifies this
      ensures Valid()
      ensures requests == ReviewedRequests(old(requests), edits, selected, reviewerId, signature)
      ensures order == UserOrder(detail)
      ensures var rv := Review(year, month, viewRequests, signature);
              ReviewUpserted(rv, old(records), records, order, UserTotals(detail, edits, order), freshId)
      ensures var rv := Review(year, month, viewRequests, signature);
              records == DetailUpsert(rv, old(records), order, UserTotals(detail, edits, order), freshId)
      ensures users == if order == [] then old(users) else SyncUsers(old(users), records, set u | u in order)
    {
      requests := ReviewedRequests(requests, edits, selected, reviewerId, signature);

      var userTotals;
      userTotals, order := ComputeUserTotals(detail, edits);
      assert userTotals == UserTotals(detail, edits, order);

      var rv := Review(year, month, viewRequests, signature);
      var allRecords := records;
      var updatedRecords, recordsChanged := ReviewUsers(rv, allRecords, order, userTotals, freshId);
      records := updatedRecords;
      ReviewedRecordsValid(rv, allRecords, detail, edits, order, freshId);
      if recordsChanged {
        SyncUsersKeepsIds(users, records, set u | u in order);
        users := SyncUsers(users, records, set u | u in order);
      }
    }
  }

  /** The records a detail review writes satisfy the upsert property and
      keep the store invariant. */
  lemma ReviewedRecordsValid(rv: Review, allRecords: seq<SettlementRecord>, detail: seq<LeaveRequest>,
                             edits: map<string, DetailEdit>, order: seq<string>, freshId: string -> string)
    requires NoClash(allRecords) && FreshIds(freshId, allRecords)
    requires order == UserOrder(detail)
    ensures var out := DetailUpsert(rv, allRecords, order, UserTotals(detail, edits, order), freshId);
            ReviewUpserted(rv, allRecords, out, order, UserTotals(detail, edits, order), freshId) && NoClash(out)
  {
    UserOrderSpec(detail);
    DetailUpsertSpec(rv, allRecords, order, UserTotals(detail, edits, order), freshId);
  }

  /** The totals map restricted to the reviewed users. */
  function UserTotals(detail: seq<LeaveRequest>, edits: map<string, DetailEdit>, order: seq<string>): (m: map<string, real>)
    ensures forall u :: u in m <==> u in order
    ensures forall u :: u in m ==> m[u] == UserTotal(detail, edits, u)
  {
    map u | u in order :: UserTotal(detail, edits, u)
  }
}
