/**
 * The decision logic of the WFH controller's three write endpoints, with the
 * HTTP layer stripped: approving or rejecting a request (the capacity gate,
 * and the rewrite of a withdrawal's approval into WITHDRAWN), creating a
 * withdrawal for one schedule row, and the EXPIRED cascade.
 *
 * Each endpoint is a method on the tables that ends in the state a pure
 * function of the old tables describes; the lemmas are about those
 * functions. The services the endpoints call whose code is not part of
 * this model (the team capacity check, the request status update, the
 * expiry sweep, and re-pointing a row and giving it back) are parameters.
 */
module WfhController {
  import opened WfhTypes
  import opened WfhRequestModel
  import opened WfhScheduleModel
  import opened WfhDatabase
  import opened WfhRequestService
  import opened WfhScheduleService

  /** Both tables at one moment. */
  datatype Tables = Tables(requests: seq<Request>, schedules: seq<Schedule>)

  /**
   * What the request status update answers: it accepted and wrote this
   * status and rejection reason to the request, or it refused with a message.
   */
  datatype UpdateReply = Accepted(status: Status, reasonForRejection: Option<string>) | Refused(message: string)

  datatype Outcome =
    | RequestMissing                  // "Request does not exist"
    | PolicyViolation(dates: seq<Date>)
    | UpdateRefused(message: string)
    | Failed                          // an exception; the session is rolled back to its last commit
    | Updated(status: Status)         // "Successfully updated request … as …"

  // ---------------------------------------------------------------------------
  // The capacity gate

  function NotBefore(today: Date): Date -> bool {
    (d: Date) => d >= today
  }

  /**
   * The days an approval checks: every weekly day of a recurring request
   * that is not in the past, or the single day when it is not in the past.
   */
  function ApprovalDates(start: Date, end: Option<Date>, today: Date): seq<Date> {
    if end.Some? then Filter(WeeksFrom(start, end.value), NotBefore(today))
    else if start >= today then [start]
    else []
  }

  lemma ApprovalDatesMembers(start: Date, end: Option<Date>, today: Date, d: Date)
    ensures d in ApprovalDates(start, end, today) <==>
              && d >= today
              && (end.None? ==> d == start)
              && (end.Some? ==> start <= d <= end.value && (d - start) % 7 == 0)
  {
    if end.Some? {
      WeeksFromMembers(start, end.value, d);
      FilterMembers(WeeksFrom(start, end.value), NotBefore(today));
    }
  }

  /** The weekly days from `current` on, up to `last`, that are not before `today`. */
  function KeptWeeks(current: Date, last: Date, today: Date): seq<Date>
    decreases if current <= last then last - current + 1 else 0
  {
    if current > last then []
    else (if current >= today then [current] else []) + KeptWeeks(current + 7, last, today)
  }

  lemma {:induction false} KeptWeeksFilters(current: Date, last: Date, today: Date)
    ensures KeptWeeks(current, last, today) == Filter(WeeksFrom(current, last), NotBefore(today))
    decreases if current <= last then last - current + 1 else 0
  {
    if current <= last {
      KeptWeeksFilters(current + 7, last, today);
      var rest := WeeksFrom(current + 7, last);
      assert WeeksFrom(current, last) == [current] + rest;
      assert ([current] + rest)[1..] == rest;
    }
  }

  /** The recurring branch: start, start+7, … while not after `last`, keeping the days not in the past. */
  method WeeklyDatesToCheck(start: Date, last: Date, today: Date) returns (dates: seq<Date>)
    ensures dates == KeptWeeks(start, last, today)
  {
    dates := [];
    var current := start;
    while current <= last
      invariant dates + KeptWeeks(current, last, today) == KeptWeeks(start, last, today)
      decreases last - current
    {
      var kept := if current >= today then [current] else [];
      assert dates + KeptWeeks(current, last, today)
          == (dates + kept) + KeptWeeks(current + 7, last, today);
      dates := dates + kept;
      current := current + 7;
    }
    assert dates + [] == dates;
  }

  method DatesToCheck(start: Date, end: Option<Date>, today: Date) returns (dates: seq<Date>)
    ensures dates == ApprovalDates(start, end, today)
  {
    if end.Some? {
      dates := WeeklyDatesToCheck(start, end.value, today);
      KeptWeeksFilters(start, end.value, today);
    } else if start >= today {
      dates := [start];
    } else {
      dates := [];
    }
  }

  /** A day the team capacity check does not answer 'Success' for. */
  function Fails(teamCheck: (int, Date, Duration) -> bool, staffId: int, duration: Duration): Date -> bool {
    (d: Date) => !teamCheck(staffId, d, duration)
  }

  /** Every checked day the capacity check refuses, in order. */
  function Violations(req: Request, today: Date, teamCheck: (int, Date, Duration) -> bool): seq<Date> {
    Filter(ApprovalDates(req.startDate, req.endDate, today), Fails(teamCheck, req.staffId, req.duration))
  }

  /** The check runs over all days before deciding: every refused day is reported, none fails fast. */
  method CollectViolations(dates: seq<Date>, staffId: int, duration: Duration,
                           teamCheck: (int, Date, Duration) -> bool)
    returns (violated: seq<Date>)
    ensures violated == Filter(dates, Fails(teamCheck, staffId, duration))
  {
    violated := [];
    for i := 0 to |dates|
      invariant violated + Filter(dates[i..], Fails(teamCheck, staffId, duration))
                  == Filter(dates, Fails(teamCheck, staffId, duration))
    {
      assert dates[i..][1..] == dates[i + 1..];
      var kept := if !teamCheck(staffId, dates[i], duration) then [dates[i]] else [];
      assert violated + Filter(dates[i..], Fails(teamCheck, staffId, duration))
          == (violated + kept) + Filter(dates[i + 1..], Fails(teamCheck, staffId, duration));
      violated := violated + kept;
    }
    assert dates[|dates|..] == [];
  }

  lemma ViolationsMembers(req: Request, today: Date, teamCheck: (int, Date, Duration) -> bool, d: Date)
    ensures d in Violations(req, today, teamCheck) <==>
              d in ApprovalDates(req.startDate, req.endDate, today) && !teamCheck(req.staffId, d, req.duration)
  {
    FilterMembers(ApprovalDates(req.startDate, req.endDate, today), Fails(teamCheck, req.staffId, req.duration));
  }

  // ---------------------------------------------------------------------------
  // Approving or rejecting a request

  /**
   * `update_wfh_request` as a function of the tables before it: the
   * outcome and the tables after it. A failure before the request status
   * update changes nothing.
   */
  function ApproveOrReject(t: Tables, requestId: int, status: Status, reason: string, today: Date,
                           teamCheck: (int, Date, Duration) -> bool,
                           updateRequest: (Request, Status, Date, string) -> UpdateReply,
                           restore: Schedule -> Schedule)
    : (Outcome, Tables)
  {
    match RequestIndex(t.requests, requestId)
    case None => (RequestMissing, t)
    case Some(k) =>
      var req := t.requests[k];
      if status == Approved && req.duration != WithdrawalRequest && Violations(req, today, teamCheck) != [] then
        (PolicyViolation(Violations(req, today, teamCheck)), t)
      else
        match updateRequest(req, status, today - 60, reason)
        case Refused(message) => (UpdateRefused(message), t)
        case Accepted(newStatus, rejection) =>
          Carry(t, k, requestId, status, newStatus, rejection, restore)
  }

  /**
   * What follows an accepted status update of request `k`: the decision is
   * recorded on the request and carried to the schedule rows. The request
   * service has committed its write, so a later exception rolls back only
   * what came after it: the request keeps the decision and the rows stay
   * as they were.
   */
  function Carry(t: Tables, k: nat, requestId: int, status: Status, newStatus: Status,
                 rejection: Option<string>, restore: Schedule -> Schedule): (Outcome, Tables)
    requires k < |t.requests|
  {
    var req := t.requests[k];
    var requests := t.requests[k := req.(status := newStatus, reasonForRejection := rejection)];
    match FirstRowOf(t.schedules, requestId)
    case None => (Failed, Tables(requests, t.schedules))
    case Some(first) =>
      var row := t.schedules[first];
      if status == Approved && req.duration == WithdrawalRequest then
        WithdrawOriginal(requests, t.schedules, requestId, row)
      else
        DecideRows(requests, t.schedules, requestId, status, req.duration == WithdrawalRequest, row.id, restore)
  }

  /**
   * Approving a withdrawal whose first row is `row`: the original request
   * parked in the row is withdrawn when it has no end date, and WITHDRAWN
   * is pushed to the rows, which ignore it.
   */
  function WithdrawOriginal(requests: seq<Request>, schedules: seq<Schedule>, requestId: int, row: Schedule)
    : (Outcome, Tables)
  {
    if !row.reasonForWithdrawing.ParkedRequest? then (Failed, Tables(requests, schedules))
    else
      match RequestIndex(requests, row.reasonForWithdrawing.requestId)
      case None => (Failed, Tables(requests, schedules))
      case Some(o) =>
        var requests' := if requests[o].endDate.None?
                         then requests[o := requests[o].(status := Withdrawn)]
                         else requests;
        (Updated(Withdrawn), Tables(requests', PropagateStatus(schedules, requestId, Withdrawn)))
  }

  /**
   * Any other accepted decision is pushed to the request's rows; for a
   * rejected withdrawal the row with key `rowId` then goes to `restore`.
   */
  function DecideRows(requests: seq<Request>, schedules: seq<Schedule>, requestId: int, status: Status,
                      withdrawal: bool, rowId: int, restore: Schedule -> Schedule): (Outcome, Tables)
  {
    var schedules' := PropagateStatus(schedules, requestId, status);
    if status == Rejected && withdrawal then
      match ScheduleIndex(schedules', rowId)
      case None => (Updated(Rejected), Tables(requests, schedules'))
      case Some(i) => (Updated(Rejected), Tables(requests, schedules'[i := restore(schedules'[i])]))
    else
      (Updated(status), Tables(requests, schedules'))
  }

  /** The second half of `update_wfh_request`, once the request service has accepted the decision. */
  method CarryOut(db: Database, k: nat, requestId: int, status: Status, newStatus: Status,
                  rejection: Option<string>, restore: Schedule -> Schedule)
    returns (outcome: Outcome)
    requires db.Valid()
    requires k < |db.requests|
    requires KeepsKey(restore)
    modifies db
    ensures db.Valid()
    ensures db.nextRequestId == old(db.nextRequestId) && db.nextScheduleId == old(db.nextScheduleId)
    ensures (outcome, Tables(db.requests, db.schedules))
              == Carry(Tables(old(db.requests), old(db.schedules)), k, requestId, status, newStatus,
                       rejection, restore)
  {
    var req := db.requests[k];
    db.requests := db.requests[k := req.(status := newStatus, reasonForRejection := rejection)];
    var first := FirstRowOf(db.schedules, requestId);
    if first.None? {
      // reading the row, or update_schedule, raises; the decision stays committed
      return Failed;
    }
    var schedule := db.schedules[first.value];
    if status == Approved && req.duration == WithdrawalRequest {
      outcome := ApproveWithdrawal(db, requestId, schedule);
    } else {
      outcome := PushDecision(db, requestId, status, req.duration == WithdrawalRequest, schedule.id, restore);
    }
  }

  /** Approving a withdrawal whose first row is `schedule`, as `WithdrawOriginal` describes. */
  method ApproveWithdrawal(db: Database, requestId: int, schedule: Schedule) returns (outcome: Outcome)
    requires db.Valid()
    requires HasRows(db.schedules, requestId)
    modifies db
    ensures db.Valid()
    ensures db.nextRequestId == old(db.nextRequestId) && db.nextScheduleId == old(db.nextScheduleId)
    ensures (outcome, Tables(db.requests, db.schedules))
              == WithdrawOriginal(old(db.requests), old(db.schedules), requestId, schedule)
  {
    if !schedule.reasonForWithdrawing.ParkedRequest? {
      return Failed;
    }
    var original := RequestIndex(db.requests, schedule.reasonForWithdrawing.requestId);
    if original.None? {
      return Failed;
    }
    var o := original.value;
    if db.requests[o].endDate.None? {
      db.requests := db.requests[o := db.requests[o].(status := Withdrawn)];
    }
    // the request has a row, so update_schedule answers True
    var response2 := UpdateSchedule(db, requestId, Withdrawn);
    outcome := Updated(Withdrawn);
  }

  /** Pushing any other decision to the rows, as `DecideRows` describes. */
  method PushDecision(db: Database, requestId: int, status: Status, withdrawal: bool, rowId: int,
                      restore: Schedule -> Schedule)
    returns (outcome: Outcome)
    requires db.Valid()
    requires HasRows(db.schedules, requestId)
    requires KeepsKey(restore)
    modifies db
    ensures db.Valid()
    ensures db.nextRequestId == old(db.nextRequestId) && db.nextScheduleId == old(db.nextScheduleId)
    ensures (outcome, Tables(db.requests, db.schedules))
              == DecideRows(old(db.requests), old(db.schedules), requestId, status, withdrawal, rowId, restore)
  {
    // the request has a row, so update_schedule answers True
    var response2 := UpdateSchedule(db, requestId, status);
    if status == Rejected && withdrawal {
      OrigScheduleRequestId(db, rowId, restore);
    }
    outcome := Updated(status);
  }

  /**
   * `update_wfh_request`: looks the request up, runs the capacity gate for
   * an ordinary approval, lets the request service record the decision,
   * then carries it to the schedule rows; approving a withdrawal withdraws
   * the rows' original single-day request, rejecting one hands the first
   * row to the restore service.
   */
  method UpdateWfhRequest(db: Database, requestId: int, status: Status, reason: string, today: Date,
                          teamCheck: (int, Date, Duration) -> bool,
                          updateRequest: (Request, Status, Date, string) -> UpdateReply,
                          restore: Schedule -> Schedule)
    returns (outcome: Outcome)
    requires db.Valid()
    requires KeepsKey(restore)
    modifies db
    ensures db.Valid()
    ensures db.nextRequestId == old(db.nextRequestId) && db.nextScheduleId == old(db.nextScheduleId)
    ensures (outcome, Tables(db.requests, db.schedules))
              == ApproveOrReject(Tables(old(db.requests), old(db.schedules)), requestId, status, reason,
                                 today, teamCheck, updateRequest, restore)
  {
    var found := RequestIndex(db.requests, requestId);
    if found.None? {
      return RequestMissing;
    }
    var k := found.value;
    var req := db.requests[k];
    if status == Approved && req.duration != WithdrawalRequest {
      var dates := DatesToCheck(req.startDate, req.endDate, today);
      var violated := CollectViolations(dates, req.staffId, req.duration, teamCheck);
      if |violated| > 0 {
        return PolicyViolation(violated);
      }
    }
    var reply := updateRequest(req, status, today - 60, reason);
    if reply.Refused? {
      return UpdateRefused(reply.message);
    }
    outcome := CarryOut(db, k, requestId, status, reply.status, reply.reasonForRejection, restore);
  }

  /** An unknown request id is reported and nothing changes. */
  lemma UnknownRequestChangesNothing(t: Tables, requestId: int, status: Status, reason: string, today: Date,
                                     teamCheck: (int, Date, Duration) -> bool,
                                     updateRequest: (Request, Status, Date, string) -> UpdateReply,
                                     restore: Schedule -> Schedule)
    requires RequestIndex(t.requests, requestId).None?
    ensures ApproveOrReject(t, requestId, status, reason, today, teamCheck, updateRequest, restore)
              == (RequestMissing, t)
  {
  }

  /**
   * An ordinary approval is refused exactly when some checked day fails the
   * capacity check; the refusal names every such day, changes nothing, and
   * does not depend on the request status update, which is never called.
   */
  lemma PolicyViolationIffRefusedDay(t: Tables, requestId: int, reason: string, today: Date,
                                     teamCheck: (int, Date, Duration) -> bool,
                                     updateRequest: (Request, Status, Date, string) -> UpdateReply,
                                     otherUpdate: (Request, Status, Date, string) -> UpdateReply,
                                     restore: Schedule -> Schedule)
    requires RequestIndex(t.requests, requestId).Some?
    requires t.requests[RequestIndex(t.requests, requestId).value].duration != WithdrawalRequest
    ensures var req := t.requests[RequestIndex(t.requests, requestId).value];
      var result := ApproveOrReject(t, requestId, Approved, reason, today, teamCheck, updateRequest, restore);
      && (result.0.PolicyViolation? <==> Violations(req, today, teamCheck) != [])
      && (result.0.PolicyViolation? ==>
            && result == (PolicyViolation(Violations(req, today, teamCheck)), t)
            && result == ApproveOrReject(t, requestId, Approved, reason, today, teamCheck, otherUpdate, restore))
  {
  }

  /** A withdrawal request is never put through the capacity check. */
  lemma WithdrawalBypassesCheck(t: Tables, requestId: int, status: Status, reason: string, today: Date,
                                teamCheck: (int, Date, Duration) -> bool,
                                otherCheck: (int, Date, Duration) -> bool,
                                updateRequest: (Request, Status, Date, string) -> UpdateReply,
                                restore: Schedule -> Schedule)
    requires RequestIndex(t.requests, requestId).Some?
    requires t.requests[RequestIndex(t.requests, requestId).value].duration == WithdrawalRequest
    ensures ApproveOrReject(t, requestId, status, reason, today, teamCheck, updateRequest, restore)
              == ApproveOrReject(t, requestId, status, reason, today, otherCheck, updateRequest, restore)
  {
  }

  /**
   * Once the request service has accepted a decision, a failure further on
   * (no schedule row, no parked id, no original request) keeps the decision
   * on the request and leaves every row as it was.
   */
  lemma FailureKeepsDecision(t: Tables, requestId: int, status: Status, reason: string, today: Date,
                             teamCheck: (int, Date, Duration) -> bool,
                             updateRequest: (Request, Status, Date, string) -> UpdateReply,
                             restore: Schedule -> Schedule)
    requires RequestIndex(t.requests, requestId).Some?
    requires updateRequest(t.requests[RequestIndex(t.requests, requestId).value], status, today - 60, reason).Accepted?
    ensures var k := RequestIndex(t.requests, requestId).value;
      var reply := updateRequest(t.requests[k], status, today - 60, reason);
      var result := ApproveOrReject(t, requestId, status, reason, today, teamCheck, updateRequest, restore);
      result.0 == Failed ==>
        result.1 == Tables(t.requests[k := t.requests[k].(status := reply.status,
                                                          reasonForRejection := reply.reasonForRejection)],
                           t.schedules)
  {
  }

  /**
   * An accepted ordinary approval with no refused day records the decision
   * on the request, sets every row of the request to APPROVED and touches
   * no other row.
   */
  lemma ApprovalApprovesRows(t: Tables, requestId: int, reason: string, today: Date,
                             teamCheck: (int, Date, Duration) -> bool,
                             updateRequest: (Request, Status, Date, string) -> UpdateReply,
                             restore: Schedule -> Schedule)
    requires RequestIndex(t.requests, requestId).Some?
    requires var req := t.requests[RequestIndex(t.requests, requestId).value];
      && req.duration != WithdrawalRequest
      && Violations(req, today, teamCheck) == []
      && updateRequest(req, Approved, today - 60, reason).Accepted?
    requires HasRows(t.schedules, requestId)
    ensures var k := RequestIndex(t.requests, requestId).value;
      var reply := updateRequest(t.requests[k], Approved, today - 60, reason);
      var result := ApproveOrReject(t, requestId, Approved, reason, today, teamCheck, updateRequest, restore);
      && result.0 == Updated(Approved)
      && result.1.requests == t.requests[k := t.requests[k].(status := reply.status,
                                                             reasonForRejection := reply.reasonForRejection)]
      && |result.1.schedules| == |t.schedules|
      && (forall i :: 0 <= i < |t.schedules| && t.schedules[i].requestId == requestId ==>
            result.1.schedules[i] == t.schedules[i].(status := Approved))
      && (forall i :: 0 <= i < |t.schedules| && t.schedules[i].requestId != requestId ==>
            result.1.schedules[i] == t.schedules[i])
  {
    PropagateWrites(t.schedules, requestId, Approved);
  }

  /**
   * Approving a withdrawal answers WITHDRAWN but leaves the schedule rows
   * as they are (the status update of the rows ignores WITHDRAWN). The
   * withdrawal request gets the decision the request service wrote; the
   * original request parked in the first row becomes WITHDRAWN exactly
   * when it has no end date; every other request is unchanged.
   */
  lemma ApprovingWithdrawal(t: Tables, requestId: int, reason: string, today: Date,
                            teamCheck: (int, Date, Duration) -> bool,
                            updateRequest: (Request, Status, Date, string) -> UpdateReply,
                            restore: Schedule -> Schedule)
    requires RequestIndex(t.requests, requestId).Some?
    requires var req := t.requests[RequestIndex(t.requests, requestId).value];
      && req.duration == WithdrawalRequest
      && updateRequest(req, Approved, today - 60, reason).Accepted?
    requires HasRows(t.schedules, requestId)
    requires var row := t.schedules[FirstRowOf(t.schedules, requestId).value];
      && row.reasonForWithdrawing.ParkedRequest?
      && row.reasonForWithdrawing.requestId != requestId
      && RequestIndex(t.requests, row.reasonForWithdrawing.requestId).Some?
    ensures var result := ApproveOrReject(t, requestId, Approved, reason, today, teamCheck, updateRequest, restore);
      var k := RequestIndex(t.requests, requestId).value;
      var reply := updateRequest(t.requests[k], Approved, today - 60, reason);
      var row := t.schedules[FirstRowOf(t.schedules, requestId).value];
      var o := RequestIndex(t.requests, row.reasonForWithdrawing.requestId).value;
      && result.0 == Updated(Withdrawn)
      && result.1.schedules == t.schedules
      && |result.1.requests| == |t.requests|
      && result.1.requests[k] == t.requests[k].(status := reply.status, reasonForRejection := reply.reasonForRejection)
      && (t.requests[o].endDate.None? ==> result.1.requests[o] == t.requests[o].(status := Withdrawn))
      && (t.requests[o].endDate.Some? ==> result.1.requests[o] == t.requests[o])
      && (forall i :: 0 <= i < |t.requests| && i != k && i != o ==> result.1.requests[i] == t.requests[i])
  {
    PropagateIgnores(t.schedules, requestId, Withdrawn);
    var k := RequestIndex(t.requests, requestId).value;
    var row := t.schedules[FirstRowOf(t.schedules, requestId).value];
    var req := t.requests[k];
    var reply := updateRequest(req, Approved, today - 60, reason);
    var requests := t.requests[k := req.(status := reply.status, reasonForRejection := reply.reasonForRejection)];
    var o := RequestIndex(t.requests, row.reasonForWithdrawing.requestId).value;
    assert o != k;
    assert RequestIndex(requests, row.reasonForWithdrawing.requestId) == Some(o) by {
      assert forall i :: 0 <= i < |requests| ==> requests[i].id == t.requests[i].id;
      assert forall i :: 0 <= i < |requests| && i != k ==> requests[i] == t.requests[i];
      FirstIndexSameKeys(t.requests, requests, row.reasonForWithdrawing.requestId);
    }
  }

  /**
   * Rejecting a withdrawal records the decision on the withdrawal request,
   * sets the request's rows to REJECTED and hands the first of them, so
   * updated, to the restore service; other rows are unchanged.
   */
  lemma RejectingWithdrawal(t: Tables, nextScheduleId: int, requestId: int, reason: string, today: Date,
                            teamCheck: (int, Date, Duration) -> bool,
                            updateRequest: (Request, Status, Date, string) -> UpdateReply,
                            restore: Schedule -> Schedule)
    requires ScheduleKeysFresh(t.schedules, nextScheduleId)
    requires RequestIndex(t.requests, requestId).Some?
    requires var req := t.requests[RequestIndex(t.requests, requestId).value];
      && req.duration == WithdrawalRequest
      && updateRequest(req, Rejected, today - 60, reason).Accepted?
    requires HasRows(t.schedules, requestId)
    ensures var result := ApproveOrReject(t, requestId, Rejected, reason, today, teamCheck, updateRequest, restore);
      var k := RequestIndex(t.requests, requestId).value;
      var reply := updateRequest(t.requests[k], Rejected, today - 60, reason);
      var first := FirstRowOf(t.schedules, requestId).value;
      var row := t.schedules[first];
      && result.0 == Updated(Rejected)
      && result.1.requests == t.requests[k := t.requests[k].(status := reply.status,
                                                             reasonForRejection := reply.reasonForRejection)]
      && |result.1.schedules| == |t.schedules|
      && result.1.schedules[first] == restore(row.(status := Rejected))
      && (forall i :: 0 <= i < |t.schedules| && i != first && t.schedules[i].requestId == requestId ==>
            result.1.schedules[i] == t.schedules[i].(status := Rejected))
      && (forall i :: 0 <= i < |t.schedules| && t.schedules[i].requestId != requestId ==>
            result.1.schedules[i] == t.schedules[i])
  {
    var first := FirstRowOf(t.schedules, requestId).value;
    var schedules := PropagateStatus(t.schedules, requestId, Rejected);
    PropagateWrites(t.schedules, requestId, Rejected);
    assert forall i :: 0 <= i < |schedules| ==> schedules[i].id == t.schedules[i].id;
    assert ScheduleKeysFresh(schedules, nextScheduleId);
    ScheduleIndexOfKey(schedules, nextScheduleId, first);
  }

  // ---------------------------------------------------------------------------
  // Creating a withdrawal

  datatype WithdrawOutcome =
    | ScheduleMissing                 // "Schedule does not exist"
    | OutOfRange                      // "Exceeded date range"
    | Created(requestId: int)         // "SUCCESS"
    | NoResponse                      // the re-pointing answered another id; the view returns nothing

  /** Two weeks either side of today, both ends included. */
  predicate InWithdrawWindow(date: Date, today: Date) {
    today - 14 <= date <= today + 14
  }

  /**
   * `create_cancel_request` as a function of the tables before it and the
   * next request key: a new PENDING single-day request of duration
   * "WITHDRAWAL REQUEST" for the row's staff, manager and day, and the row
   * as the re-pointing service leaves it; SUCCESS when that service answers
   * the new request's id.
   */
  function Withdraw(t: Tables, nextRequestId: int, scheduleId: int, reason: string, today: Date,
                    repoint: (Schedule, int) -> (Schedule, int))
    : (WithdrawOutcome, Tables)
  {
    match ScheduleIndex(t.schedules, scheduleId)
    case None => (ScheduleMissing, t)
    case Some(k) =>
      var row := t.schedules[k];
      if !InWithdrawWindow(row.date, today) then (OutOfRange, t)
      else
        var r := NewRequest(nextRequestId, row.staffId, row.managerId, today, row.date, None,
                            reason, WithdrawalRequest);
        var rewritten := repoint(row, nextRequestId);
        (if rewritten.1 == nextRequestId then Created(nextRequestId) else NoResponse,
         Tables(t.requests + [r], t.schedules[k := rewritten.0]))
  }

  method CreateWithdrawRequest(db: Database, scheduleId: int, reason: string, today: Date,
                               repoint: (Schedule, int) -> (Schedule, int))
    returns (outcome: WithdrawOutcome)
    requires db.Valid()
    requires RepointKeepsKey(repoint)
    modifies db
    ensures db.Valid()
    ensures db.nextScheduleId == old(db.nextScheduleId)
    ensures db.nextRequestId == old(db.nextRequestId) + (if outcome.Created? || outcome.NoResponse? then 1 else 0)
    ensures (outcome, Tables(db.requests, db.schedules))
              == Withdraw(Tables(old(db.requests), old(db.schedules)), old(db.nextRequestId),
                          scheduleId, reason, today, repoint)
  {
    var found := ScheduleIndex(db.schedules, scheduleId);
    if found.None? {
      return ScheduleMissing;
    }
    var row := db.schedules[found.value];
    var twoWeeksBefore := today - 14;
    var twoWeeksAfter := today + 14;
    if !(twoWeeksBefore <= row.date <= twoWeeksAfter) {
      return OutOfRange;
    }
    var request := CreateRequest(db, row.staffId, row.managerId, today, row.date, None,
                                 reason, WithdrawalRequest);
    var updated := ChangeScheduleRequestId(db, scheduleId, request.id, repoint);
    if updated == Some(request.id) {
      outcome := Created(request.id);
    } else {
      outcome := NoResponse;
    }
  }

  /**
   * The window is inclusive: a row exactly two weeks away qualifies, one
   * more day does not. A request is created for every row in the window,
   * and SUCCESS is answered when the re-pointing answers its id.
   */
  lemma WithdrawWindow(t: Tables, nextRequestId: int, scheduleId: int, reason: string, today: Date,
                       repoint: (Schedule, int) -> (Schedule, int))
    ensures var result := Withdraw(t, nextRequestId, scheduleId, reason, today, repoint);
      && (result.0 == ScheduleMissing <==> ScheduleIndex(t.schedules, scheduleId).None?)
      && (ScheduleIndex(t.schedules, scheduleId).Some? ==>
            var row := t.schedules[ScheduleIndex(t.schedules, scheduleId).value];
            && (result.0.Created? || result.0.NoResponse? <==> today - 14 <= row.date <= today + 14)
            && (result.0.Created? <==>
                  today - 14 <= row.date <= today + 14 && repoint(row, nextRequestId).1 == nextRequestId))
      && (result.0.Created? || result.0.NoResponse? ==> |result.1.requests| == |t.requests| + 1)
      && (!result.0.Created? && !result.0.NoResponse? ==> result.1 == t)
  {
  }

  /**
   * Withdrawing a row and then rejecting the withdrawal gives the row back
   * to the request it belonged to, when the re-pointing parks the row's
   * request id where the controller reads it and the restore service gives
   * a row back to its parked request; the withdrawal request itself stays
   * in the table with the decision the request service wrote.
   */
  lemma WithdrawThenReject(t: Tables, nextRequestId: int, nextScheduleId: int, scheduleId: int,
                           reason: string, today: Date, rejection: string, later: Date,
                           teamCheck: (int, Date, Duration) -> bool,
                           updateRequest: (Request, Status, Date, string) -> UpdateReply,
                           repoint: (Schedule, int) -> (Schedule, int),
                           restore: Schedule -> Schedule)
    requires RequestKeysFresh(t.requests, nextRequestId)
    requires ScheduleKeysFresh(t.schedules, nextScheduleId)
    requires forall i :: 0 <= i < |t.schedules| ==> t.schedules[i].requestId != nextRequestId
    requires RepointKeepsKey(repoint) && ParksOwner(repoint) && GivesBackParked(restore)
    requires Withdraw(t, nextRequestId, scheduleId, reason, today, repoint).0.Created?
    requires var t' := Withdraw(t, nextRequestId, scheduleId, reason, today, repoint).1;
      updateRequest(t'.requests[|t.requests|], Rejected, later - 60, rejection).Accepted?
    ensures var k := ScheduleIndex(t.schedules, scheduleId).value;
      var t' := Withdraw(t, nextRequestId, scheduleId, reason, today, repoint).1;
      var reply := updateRequest(t'.requests[|t.requests|], Rejected, later - 60, rejection);
      var result := ApproveOrReject(t', nextRequestId, Rejected, rejection, later, teamCheck, updateRequest, restore);
      && result.0 == Updated(Rejected)
      && result.1.schedules[k].requestId == t.schedules[k].requestId
      && |result.1.requests| == |t.requests| + 1
      && result.1.requests[|t.requests|].id == nextRequestId
      && result.1.requests[|t.requests|].status == reply.status
  {
    var k := ScheduleIndex(t.schedules, scheduleId).value;
    var t' := Withdraw(t, nextRequestId, scheduleId, reason, today, repoint).1;
    var row := t.schedules[k];
    var moved := repoint(row, nextRequestId).0;
    assert moved.id == row.id && moved.requestId == nextRequestId;
    assert moved.reasonForWithdrawing == ParkedRequest(row.requestId);
    var r := NewRequest(nextRequestId, row.staffId, row.managerId, today, row.date, None,
                        reason, WithdrawalRequest);
    assert t'.requests == t.requests + [r];
    assert t'.schedules == t.schedules[k := moved];
    assert RequestIndex(t'.requests, nextRequestId) == Some(|t.requests|) by {
      RemoveUndoesAppend(t.requests, nextRequestId, r);
      assert t'.requests[|t.requests|].id == nextRequestId;
      RequestIndexOfKey(t.requests + [r], nextRequestId + 1, |t.requests|);
    }
    assert FirstRowOf(t'.schedules, nextRequestId) == Some(k) by {
      assert t'.schedules[k].requestId == nextRequestId;
      assert forall i :: 0 <= i < |t'.schedules| && i != k ==> t'.schedules[i].requestId != nextRequestId;
    }
    assert ScheduleKeysFresh(t'.schedules, nextScheduleId) by {
      assert forall i :: 0 <= i < |t'.schedules| ==> t'.schedules[i].id == t.schedules[i].id;
    }
    RejectingWithdrawal(t', nextScheduleId, nextRequestId, rejection, later, teamCheck, updateRequest, restore);
    var rejected := moved.(status := Rejected);
    assert rejected.reasonForWithdrawing == ParkedRequest(row.requestId);
    assert restore(rejected).requestId == row.requestId;
  }

  // ---------------------------------------------------------------------------
  // The EXPIRED cascade

  /** Two request tables with the same keys in the same places. */
  predicate SameKeys(a: seq<Request>, b: seq<Request>) {
    |a| == |b| && forall i :: 0 <= i < |a| ==> a[i].id == b[i].id
  }

  /**
   * `reject_expired_request`. The code of the expiry sweep is not part of
   * this model: `rejectExpired` gives the request table as the sweep
   * leaves it and the ids it answers. The sweep rewrites requests in
   * place, so the keys stay where they were. EXPIRED is then pushed to the
   * rows of each answered id in turn; the rows' status update ignores
   * EXPIRED, so no row changes, and an id without rows raises, which the
   * endpoint reports. The sweep's own writes stand either way.
   */
  method RejectExpiredRequests(db: Database, today: Date,
                               rejectExpired: (seq<Request>, Date) -> (seq<Request>, seq<int>))
    returns (ok: bool)
    requires db.Valid()
    requires SameKeys(rejectExpired(db.requests, today - 60).0, db.requests)
    modifies db
    ensures db.Valid()
    ensures db.requests == rejectExpired(old(db.requests), today - 60).0
    ensures db.schedules == old(db.schedules)
    ensures db.nextRequestId == old(db.nextRequestId) && db.nextScheduleId == old(db.nextScheduleId)
    ensures ok <==> forall id :: id in rejectExpired(old(db.requests), today - 60).1 ==> HasRows(old(db.schedules), id)
  {
    var swept := rejectExpired(db.requests, today - 60);
    assert forall i :: 0 <= i < |swept.0| ==> swept.0[i].id == db.requests[i].id;
    db.requests := swept.0;
    var expired := swept.1;
    for i := 0 to |expired|
      invariant db.Valid()
      invariant db.requests == swept.0 && db.schedules == old(db.schedules)
      invariant db.nextRequestId == old(db.nextRequestId) && db.nextScheduleId == old(db.nextScheduleId)
      invariant forall j :: 0 <= j < i ==> HasRows(db.schedules, expired[j])
    {
      PropagateIgnores(db.schedules, expired[i], Expired);
      var r := UpdateSchedule(db, expired[i], Expired);
      if r.Err? {
        return false;
      }
    }
    ok := true;
  }

  /** Two tables with the same keys in the same places find a key at the same place. */
  lemma {:induction false} FirstIndexSameKeys(a: seq<Request>, b: seq<Request>, id: int)
    requires SameKeys(a, b)
    ensures RequestIndex(a, id) == RequestIndex(b, id)
  {
    if a != [] {
      FirstIndexSameKeys(a[1..], b[1..], id);
    }
  }
}
