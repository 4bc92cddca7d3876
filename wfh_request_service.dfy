/**
 * WFHRequestService: inserting a request, and the pending-requests query a
 * manager's inbox is built from.
 */
module WfhRequestService {
  import opened WfhTypes
  import opened WfhRequestModel
  import opened WfhDatabase

  /**
   * `create_request`: inserts exactly one request carrying the arguments,
   * under a fresh key, with the default status PENDING. No date window and
   * no duplicate check is made.
   */
  method CreateRequest(db: Database, staffId: int, managerId: int,
                       requestDate: Date, startDate: Date, endDate: Option<Date>,
                       reason: string, duration: Duration)
    returns (r: Request)
    requires db.Valid()
    modifies db
    ensures db.Valid()
    ensures r.id == old(db.nextRequestId)
    ensures r.staffId == staffId && r.managerId == managerId
    ensures r.requestDate == requestDate && r.startDate == startDate
    ensures r.endDate == endDate && r.reasonForApplying == reason
    ensures r.duration == duration
    ensures r.status == Pending && r.reasonForRejection == None
    ensures forall q :: q in old(db.requests) ==> q.id != r.id
    ensures db.requests == old(db.requests) + [r]
    ensures db.nextRequestId == old(db.nextRequestId) + 1
    ensures db.schedules == old(db.schedules) && db.nextScheduleId == old(db.nextScheduleId)
  {
    r := NewRequest(db.nextRequestId, staffId, managerId, requestDate,
                    startDate, endDate, reason, duration);
    db.requests := db.requests + [r];
    db.nextRequestId := db.nextRequestId + 1;
  }

  /**
   * `get_pending_requests_for_manager`: exactly the requests addressed to
   * the manager that are still PENDING, in table order.
   */
  function PendingRequestsForManager(requests: seq<Request>, managerId: int)
    : (pending: seq<Request>)
    ensures forall r :: r in pending <==>
              r in requests && r.managerId == managerId && r.status == Pending
  {
    var addressed := (r: Request) => r.managerId == managerId && r.status == Pending;
    FilterMembers(requests, addressed);
    Filter(requests, addressed)
  }
}
