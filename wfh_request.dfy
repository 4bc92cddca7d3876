/**
 * The WFHRequest record and its dictionary projection.
 *
 * The `duration` field is not a column of the record as declared, but the
 * controller reads it from every request and passes it when it creates one,
 * so the model carries it.
 */
module WfhRequestModel {
  import opened WfhTypes

  datatype Request = Request(
    id: int,
    staffId: int,
    managerId: int,
    requestDate: Date,
    startDate: Date,
    endDate: Option<Date>,            // present: recurring weekly until this day
    status: Status,
    reasonForApplying: string,
    reasonForRejection: Option<string>,
    duration: Duration)

  /**
   * A request inserted with only the required columns: the status column's
   * default PENDING applies and there is no rejection reason yet.
   */
  function NewRequest(id: int, staffId: int, managerId: int, requestDate: Date,
                      startDate: Date, endDate: Option<Date>, reason: string,
                      duration: Duration): (r: Request)
    ensures r.status == Pending && r.reasonForRejection == None
  {
    Request(id, staffId, managerId, requestDate, startDate, endDate, Pending,
            reason, None, duration)
  }

  /** The dictionary `to_dict` builds, dates kept as day numbers. */
  datatype RequestDict = RequestDict(
    requestId: int,
    staffId: int,
    managerId: int,
    requestDate: Date,
    startDate: Date,
    endDate: Option<Date>,
    status: Status,
    reasonForApplying: string,
    reasonForRejection: Option<string>,
    isRecurring: bool)

  function ToDict(r: Request): (d: RequestDict)
    ensures d.isRecurring <==> d.endDate.Some?
    ensures d.endDate.None? <==> r.endDate.None?
  {
    RequestDict(r.id, r.staffId, r.managerId, r.requestDate, r.startDate,
                r.endDate, r.status, r.reasonForApplying, r.reasonForRejection,
                r.endDate.Some?)
  }

  /** Rebuilds a request from its dictionary and the one field it omits. */
  function FromDict(d: RequestDict, duration: Duration): Request {
    Request(d.requestId, d.staffId, d.managerId, d.requestDate, d.startDate,
            d.endDate, d.status, d.reasonForApplying, d.reasonForRejection,
            duration)
  }

  /** `to_dict` copies every column unchanged: only the duration is lost. */
  lemma ToDictRoundTrip(r: Request)
    ensures FromDict(ToDict(r), r.duration) == r
  {
  }

  /** Two requests with the same duration and the same dictionary are equal. */
  lemma ToDictInjective(r1: Request, r2: Request)
    requires r1.duration == r2.duration
    requires ToDict(r1) == ToDict(r2)
    ensures r1 == r2
  {
    ToDictRoundTrip(r1);
    ToDictRoundTrip(r2);
  }
}
