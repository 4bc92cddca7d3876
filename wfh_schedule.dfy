/**
 * The WFHSchedule record (one dated WFH day) and its dictionary projection.
 *
 * The services write and read staff, manager, department and position on
 * every row, columns the record as declared does not have; the model
 * carries them.
 */
module WfhScheduleModel {
  import opened WfhTypes

  /**
   * The `reason_for_withdrawing` text column, whose text is either a free
   * reason or, while a withdrawal is pending, the id of the request the
   * row was taken from.
   */
  datatype Withdrawing = NoNote | Note(text: string) | ParkedRequest(requestId: int)

  datatype Schedule = Schedule(
    id: int,
    requestId: int,
    staffId: int,
    managerId: int,
    date: Date,
    duration: Duration,
    status: Status,
    dept: string,
    position: string,
    reasonForWithdrawing: Withdrawing)

  /** The columns `create_schedule` supplies for every row it inserts. */
  datatype ScheduleSeed = ScheduleSeed(
    requestId: int,
    staffId: int,
    managerId: int,
    duration: Duration,
    dept: string,
    position: string)

  /**
   * A row inserted with the seed's columns on `date`: the status column's
   * default PENDING applies and no withdrawal reason is set.
   */
  function NewSchedule(id: int, seed: ScheduleSeed, date: Date): (s: Schedule)
    ensures s.status == Pending && s.reasonForWithdrawing == NoNote
  {
    Schedule(id, seed.requestId, seed.staffId, seed.managerId, date,
             seed.duration, Pending, seed.dept, seed.position, NoNote)
  }

  /** The dictionary `to_dict` builds, the date kept as a day number. */
  datatype ScheduleDict = ScheduleDict(
    scheduleId: int,
    requestId: int,
    date: Date,
    duration: Duration,
    status: Status,
    reasonForWithdrawing: Withdrawing)

  function ToDict(s: Schedule): ScheduleDict {
    ScheduleDict(s.id, s.requestId, s.date, s.duration, s.status,
                 s.reasonForWithdrawing)
  }

  /** Rebuilds a row from its dictionary and the snapshot columns it omits. */
  function FromDict(d: ScheduleDict, staffId: int, managerId: int, dept: string,
                    position: string): Schedule {
    Schedule(d.scheduleId, d.requestId, staffId, managerId, d.date, d.duration,
             d.status, dept, position, d.reasonForWithdrawing)
  }

  /** `to_dict` loses exactly the staff, manager, department and position columns. */
  lemma ToDictRoundTrip(s: Schedule)
    ensures FromDict(ToDict(s), s.staffId, s.managerId, s.dept, s.position) == s
  {
  }
}
