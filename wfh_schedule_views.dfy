/**
 * The read-only views of WFHScheduleService over a snapshot of the staff
 * directory and the schedule table: a manager's day-by-day headcount
 * summary, the per-person AM/PM presence of a team on one day (seen by the
 * manager or by a team member), and a staff member's own day codes.
 */
module WfhScheduleViews {
  import opened WfhTypes
  import opened WfhScheduleModel

  /** The staff whose reporting manager is `managerId`. */
  function Team(directory: map<int, StaffRecord>, managerId: int): set<int> {
    set s | s in directory && directory[s].reportingManager == Some(managerId)
  }

  /** Number of calendar days from `start` to `end`, both included. */
  function Span(start: Date, end: Date): nat {
    if start <= end then end - start + 1 else 0
  }

  /** The day list both views build: start, start+1, … while not after `end`. */
  method DayList(start: Date, end: Date) returns (days: seq<Date>)
    ensures |days| == Span(start, end)
    ensures forall i :: 0 <= i < |days| ==> days[i] == start + i
  {
    days := [];
    var current := start;
    while current <= end
      invariant current == start + |days|
      invariant start <= end ==> current <= end + 1
      invariant start > end ==> days == []
      invariant forall i :: 0 <= i < |days| ==> days[i] == start + i
      decreases end - current
    {
      days := days + [current];
      current := current + 1;
    }
  }

  // ---------------------------------------------------------------------------
  // Headcount summary

  /** Rows that add one to a day's morning WFH count: APPROVED, a team member's, full day or morning. */
  function InAm(team: set<int>, d: Date): Schedule -> bool {
    (s: Schedule) => s.staffId in team && s.date == d && s.status == Approved
                     && (s.duration == FullDay || s.duration == HalfDayAm)
  }

  /** Rows that add one to a day's afternoon WFH count. */
  function InPm(team: set<int>, d: Date): Schedule -> bool {
    (s: Schedule) => s.staffId in team && s.date == d && s.status == Approved
                     && (s.duration == FullDay || s.duration == HalfDayPm)
  }

  datatype DaySummary = DaySummary(
    date: Date,
    totalStaff: nat,
    wfhAm: nat,
    wfhPm: nat,
    officeAm: int,
    officePm: int)

  /** The counting loop over one day's rows. */
  method CountDay(team: set<int>, schedules: seq<Schedule>, d: Date) returns (am: nat, pm: nat)
    ensures am == Count(schedules, InAm(team, d))
    ensures pm == Count(schedules, InPm(team, d))
  {
    am, pm := 0, 0;
    var j := 0;
    while j < |schedules|
      invariant 0 <= j <= |schedules|
      invariant am + Count(schedules[j..], InAm(team, d)) == Count(schedules, InAm(team, d))
      invariant pm + Count(schedules[j..], InPm(team, d)) == Count(schedules, InPm(team, d))
    {
      var s := schedules[j];
      assert schedules[j..][1..] == schedules[j + 1..];
      if s.staffId in team && s.date == d && s.status == Approved {
        if s.duration == FullDay {
          am, pm := am + 1, pm + 1;
        } else if s.duration == HalfDayAm {
          am := am + 1;
        } else if s.duration == HalfDayPm {
          pm := pm + 1;
        }
      }
      j := j + 1;
    }
  }

  /**
   * `get_manager_schedule_summary`: nothing for a manager without reports;
   * otherwise one entry per day from `start` to `end`, each with the team
   * size, the APPROVED WFH counts per half-day and the rest in the office.
   */
  method ManagerScheduleSummary(directory: map<int, StaffRecord>, schedules: seq<Schedule>,
                                managerId: int, start: Date, end: Date)
    returns (days: seq<DaySummary>)
    ensures Team(directory, managerId) == {} ==> days == []
    ensures Team(directory, managerId) != {} ==> |days| == Span(start, end)
    ensures var team := Team(directory, managerId);
      forall i :: 0 <= i < |days| ==>
        && days[i].date == start + i
        && days[i].totalStaff == |team|
        && days[i].wfhAm == Count(schedules, InAm(team, start + i))
        && days[i].wfhPm == Count(schedules, InPm(team, start + i))
        && days[i].officeAm == |team| - days[i].wfhAm
        && days[i].officePm == |team| - days[i].wfhPm
  {
    var team := Team(directory, managerId);
    var total := |team|;
    if total == 0 {
      return [];
    }
    var dates := DayList(start, end);
    days := [];
    for k := 0 to |dates|
      invariant |days| == k
      invariant forall i :: 0 <= i < k ==>
        && days[i].date == start + i
        && days[i].totalStaff == total
        && days[i].wfhAm == Count(schedules, InAm(team, start + i))
        && days[i].wfhPm == Count(schedules, InPm(team, start + i))
        && days[i].officeAm == total - days[i].wfhAm
        && days[i].officePm == total - days[i].wfhPm
    {
      var am, pm := CountDay(team, schedules, dates[k]);
      days := days + [DaySummary(dates[k], total, am, pm, total - am, total - pm)];
    }
  }

  /** At most one APPROVED row per staff member on day `d`. */
  ghost predicate OneApprovedRowEach(ss: seq<Schedule>, d: Date) {
    forall i, j ::
      (0 <= i < j < |ss| && ss[i].date == d && ss[j].date == d
       && ss[i].status == Approved && ss[j].status == Approved) ==> ss[i].staffId != ss[j].staffId
  }

  function ApprovedIn(team: set<int>, d: Date): Schedule -> bool {
    (s: Schedule) => s.staffId in team && s.date == d && s.status == Approved
  }

  lemma {:induction false} ApprovedInBounded(ss: seq<Schedule>, team: set<int>, d: Date)
    requires OneApprovedRowEach(ss, d)
    ensures Count(ss, ApprovedIn(team, d)) <= |team|
  {
    if ss != [] {
      var tail := ss[1..];
      assert OneApprovedRowEach(tail, d) by {
        forall i, j | 0 <= i < j < |tail| && tail[i].date == d && tail[j].date == d
          && tail[i].status == Approved && tail[j].status == Approved
          ensures tail[i].staffId != tail[j].staffId
        {
          assert tail[i] == ss[i + 1] && tail[j] == ss[j + 1];
        }
      }
      if ApprovedIn(team, d)(ss[0]) {
        var rest := team - {ss[0].staffId};
        forall i | 0 <= i < |tail|
          ensures ApprovedIn(team, d)(tail[i]) == ApprovedIn(rest, d)(tail[i])
        {
          assert tail[i] == ss[i + 1];
        }
        CountCongruent(tail, ApprovedIn(team, d), ApprovedIn(rest, d));
        ApprovedInBounded(tail, rest, d);
      } else {
        ApprovedInBounded(tail, team, d);
      }
    }
  }

  /**
   * When nobody has two APPROVED rows on a day, neither WFH count exceeds
   * the team size, so neither office count is negative.
   */
  lemma WfhWithinTeam(ss: seq<Schedule>, team: set<int>, d: Date)
    requires OneApprovedRowEach(ss, d)
    ensures Count(ss, InAm(team, d)) <= |team| && Count(ss, InPm(team, d)) <= |team|
  {
    ApprovedInBounded(ss, team, d);
    CountMono(ss, InAm(team, d), ApprovedIn(team, d));
    CountMono(ss, InPm(team, d), ApprovedIn(team, d));
  }

  /**
   * One more row moves the counts as the view promises: a team member's
   * APPROVED full day adds to both half-days, a morning only to AM, an
   * afternoon only to PM; any other row adds nothing.
   */
  lemma AddedRowCounts(ss: seq<Schedule>, s: Schedule, team: set<int>, d: Date)
    ensures !(s.staffId in team && s.date == d && s.status == Approved) ==>
              Count(ss + [s], InAm(team, d)) == Count(ss, InAm(team, d))
              && Count(ss + [s], InPm(team, d)) == Count(ss, InPm(team, d))
    ensures s.staffId in team && s.date == d && s.status == Approved && s.duration == FullDay ==>
              Count(ss + [s], InAm(team, d)) == Count(ss, InAm(team, d)) + 1
              && Count(ss + [s], InPm(team, d)) == Count(ss, InPm(team, d)) + 1
    ensures s.staffId in team && s.date == d && s.status == Approved && s.duration == HalfDayAm ==>
              Count(ss + [s], InAm(team, d)) == Count(ss, InAm(team, d)) + 1
              && Count(ss + [s], InPm(team, d)) == Count(ss, InPm(team, d))
    ensures s.staffId in team && s.date == d && s.status == Approved && s.duration == HalfDayPm ==>
              Count(ss + [s], InAm(team, d)) == Count(ss, InAm(team, d))
              && Count(ss + [s], InPm(team, d)) == Count(ss, InPm(team, d)) + 1
  {
    CountAppend(ss, [s], InAm(team, d));
    CountAppend(ss, [s], InPm(team, d));
    assert [s][1..] == [];
  }

  // ---------------------------------------------------------------------------
  // Presence of each team member on one day

  datatype Presence = Office | Wfh

  datatype StaffDay = StaffDay(staffId: int, name: string, position: string, am: Presence, pm: Presence)

  /** A row that sets the staff member's presence on `d`: APPROVED and of a WFH duration. */
  predicate Marks(s: Schedule, staffId: int, d: Date) {
    s.staffId == staffId && s.date == d && s.status == Approved && s.duration != WithdrawalRequest
  }

  /** The duration of the last row, in table order, that sets the staff member's presence on `d`. */
  function LastMark(ss: seq<Schedule>, staffId: int, d: Date): Option<Duration> {
    if ss == [] then None
    else if Marks(ss[|ss| - 1], staffId, d) then Some(ss[|ss| - 1].duration)
    else LastMark(ss[..|ss| - 1], staffId, d)
  }

  /**
   * No mark exactly when no row marks the day; otherwise the mark is the
   * duration of a marking row that no later row overrides.
   */
  lemma {:induction false} LastMarkMeans(ss: seq<Schedule>, staffId: int, d: Date)
    ensures LastMark(ss, staffId, d).None? <==> forall i :: 0 <= i < |ss| ==> !Marks(ss[i], staffId, d)
    ensures LastMark(ss, staffId, d).Some? ==>
              exists i :: 0 <= i < |ss| && Marks(ss[i], staffId, d) && ss[i].duration == LastMark(ss, staffId, d).value
                          && forall j :: i < j < |ss| ==> !Marks(ss[j], staffId, d)
  {
    if ss != [] && !Marks(ss[|ss| - 1], staffId, d) {
      var init := ss[..|ss| - 1];
      LastMarkMeans(init, staffId, d);
      assert forall i :: 0 <= i < |init| ==> init[i] == ss[i];
    }
  }

  function AmOf(m: Option<Duration>): Presence {
    if m == Some(FullDay) || m == Some(HalfDayAm) then Wfh else Office
  }

  function PmOf(m: Option<Duration>): Presence {
    if m == Some(FullDay) || m == Some(HalfDayPm) then Wfh else Office
  }

  /** A team member's line: "first last", position, and the presence the last marking row gives. */
  function Entry(staffId: int, r: StaffRecord, m: Option<Duration>): StaffDay {
    StaffDay(staffId, r.fname + " " + r.lname, r.position, AmOf(m), PmOf(m))
  }

  /** Without an APPROVED row of a WFH duration on the day a team member is in the office all day. */
  lemma DefaultsToOffice(ss: seq<Schedule>, staffId: int, r: StaffRecord, d: Date)
    requires forall i :: 0 <= i < |ss| ==> !Marks(ss[i], staffId, d)
    ensures Entry(staffId, r, LastMark(ss, staffId, d)).am == Office
    ensures Entry(staffId, r, LastMark(ss, staffId, d)).pm == Office
  {
    LastMarkMeans(ss, staffId, d);
  }

  /**
   * The last marking row decides: a full day is WFH in both halves, a
   * morning WFH then office, an afternoon office then WFH.
   */
  lemma LastRowDecides(ss: seq<Schedule>, s: Schedule, staffId: int, r: StaffRecord, d: Date)
    requires Marks(s, staffId, d)
    ensures var e := Entry(staffId, r, LastMark(ss + [s], staffId, d));
      && (s.duration == FullDay ==> e.am == Wfh && e.pm == Wfh)
      && (s.duration == HalfDayAm ==> e.am == Wfh && e.pm == Office)
      && (s.duration == HalfDayPm ==> e.am == Office && e.pm == Wfh)
  {
    assert (ss + [s])[|ss + [s]| - 1] == s;
  }

  /** One more row changes the last mark only when it marks. */
  lemma LastMarkStep(ss: seq<Schedule>, s: Schedule, staffId: int, d: Date)
    ensures LastMark(ss + [s], staffId, d)
              == if Marks(s, staffId, d) then Some(s.duration) else LastMark(ss, staffId, d)
  {
    assert (ss + [s])[..|ss|] == ss;
  }

  /** The first loop of both presence views: every team member starts in the office all day. */
  method OfficeByDefault(directory: map<int, StaffRecord>, team: set<int>)
    returns (staff: map<int, StaffDay>)
    requires team <= directory.Keys
    ensures staff.Keys == team
    ensures forall id :: id in staff ==> staff[id] == Entry(id, directory[id], None)
  {
    staff := map[];
    var rest := team;
    while rest != {}
      invariant rest <= team
      invariant staff.Keys == team - rest
      invariant forall id :: id in staff ==> staff[id] == Entry(id, directory[id], None)
      decreases |rest|
    {
      Inhabited(rest);
      var member :| member in rest;
      staff := staff[member := Entry(member, directory[member], None)];
      rest := rest - {member};
    }
  }

  /** The team's lines as the rows `ss` leave them. */
  ghost function Presences(directory: map<int, StaffRecord>, team: set<int>, ss: seq<Schedule>, d: Date)
    : map<int, StaffDay>
    requires team <= directory.Keys
  {
    map id | id in team :: Entry(id, directory[id], LastMark(ss, id, d))
  }

  /** One row of the second loop: a marking row of a team member rewrites that member's line, nothing else changes. */
  lemma ApproveStep(directory: map<int, StaffRecord>, team: set<int>, prefix: seq<Schedule>, s: Schedule, d: Date,
                    staff: map<int, StaffDay>, staff': map<int, StaffDay>)
    requires team <= directory.Keys
    requires staff == Presences(directory, team, prefix, d)
    requires var applies := s.staffId in team && s.date == d && s.status == Approved;
      && (applies && s.duration == FullDay ==> staff' == staff[s.staffId := staff[s.staffId].(am := Wfh, pm := Wfh)])
      && (applies && s.duration == HalfDayAm ==> staff' == staff[s.staffId := staff[s.staffId].(am := Wfh, pm := Office)])
      && (applies && s.duration == HalfDayPm ==> staff' == staff[s.staffId := staff[s.staffId].(am := Office, pm := Wfh)])
      && (!applies || s.duration == WithdrawalRequest ==> staff' == staff)
    ensures staff' == Presences(directory, team, prefix + [s], d)
  {
    forall id | id in team
      ensures LastMark(prefix + [s], id, d) == if Marks(s, id, d) then Some(s.duration) else LastMark(prefix, id, d)
    {
      LastMarkStep(prefix, s, id, d);
    }
  }

  /** The second loop of both presence views: each APPROVED row of a team member on the day overwrites the member's line. */
  method ApplyApproved(directory: map<int, StaffRecord>, team: set<int>, schedules: seq<Schedule>, d: Date,
                       initial: map<int, StaffDay>)
    returns (staff: map<int, StaffDay>)
    requires team <= directory.Keys
    requires initial.Keys == team
    requires forall id :: id in initial ==> initial[id] == Entry(id, directory[id], None)
    ensures staff.Keys == team
    ensures forall id :: id in staff ==> staff[id] == Entry(id, directory[id], LastMark(schedules, id, d))
  {
    staff := initial;
    var j := 0;
    assert staff == Presences(directory, team, schedules[..0], d);
    while j < |schedules|
      invariant 0 <= j <= |schedules|
      invariant staff == Presences(directory, team, schedules[..j], d)
    {
      var s := schedules[j];
      var next := staff;
      if s.staffId in team && s.date == d && s.status == Approved {
        if s.duration == FullDay {
          next := staff[s.staffId := staff[s.staffId].(am := Wfh, pm := Wfh)];
        } else if s.duration == HalfDayAm {
          next := staff[s.staffId := staff[s.staffId].(am := Wfh, pm := Office)];
        } else if s.duration == HalfDayPm {
          next := staff[s.staffId := staff[s.staffId].(am := Office, pm := Wfh)];
        }
      }
      ApproveStep(directory, team, schedules[..j], s, d, staff, next);
      assert schedules[..j + 1] == schedules[..j] + [s];
      staff := next;
      j := j + 1;
    }
    assert schedules[..j] == schedules;
  }

  /** Both presence views, for the team of `managerId`. */
  method TeamPresence(directory: map<int, StaffRecord>, schedules: seq<Schedule>, managerId: int, d: Date)
    returns (staff: map<int, StaffDay>)
    ensures staff.Keys == Team(directory, managerId)
    ensures forall id :: id in staff ==>
              id in directory && staff[id] == Entry(id, directory[id], LastMark(schedules, id, d))
  {
    var team := Team(directory, managerId);
    if team == {} {
      return map[];
    }
    staff := OfficeByDefault(directory, team);
    staff := ApplyApproved(directory, team, schedules, d, staff);
  }

  /**
   * `get_manager_schedule_detail`: one line per member of the manager's
   * team, OFFICE in both halves unless an APPROVED row on the day says WFH.
   */
  method ManagerScheduleDetail(directory: map<int, StaffRecord>, schedules: seq<Schedule>,
                               managerId: int, d: Date)
    returns (staff: map<int, StaffDay>)
    ensures staff.Keys == Team(directory, managerId)
    ensures forall id :: id in staff ==>
              id in directory && staff[id] == Entry(id, directory[id], LastMark(schedules, id, d))
  {
    staff := TeamPresence(directory, schedules, managerId, d);
  }

  /** Whose team a staff member sees: the reporting manager, or the staff member when there is none (or it is 0). */
  function InCharge(staffId: int, r: StaffRecord): int {
    match r.reportingManager
    case Some(m) => if m != 0 then m else staffId
    case None => staffId
  }

  /** A staff member with a reporting manager sees a team that includes the staff member. */
  lemma SeesOwnTeam(directory: map<int, StaffRecord>, staffId: int)
    requires staffId in directory
    requires directory[staffId].reportingManager.Some? && directory[staffId].reportingManager.value != 0
    ensures staffId in Team(directory, InCharge(staffId, directory[staffId]))
  {
  }

  /**
   * `get_staff_schedule_detail`: the presence view of the team the staff
   * member belongs to; an unknown staff id has no record to read and fails.
   */
  method StaffScheduleDetail(directory: map<int, StaffRecord>, schedules: seq<Schedule>,
                             staffId: int, d: Date)
    returns (r: Option<map<int, StaffDay>>)
    ensures r.None? <==> staffId !in directory
    ensures r.Some? ==> r.value.Keys == Team(directory, InCharge(staffId, directory[staffId]))
    ensures r.Some? ==> forall id :: id in r.value ==>
              id in directory && r.value[id] == Entry(id, directory[id], LastMark(schedules, id, d))
  {
    if staffId !in directory {
      return None;
    }
    var manager := InCharge(staffId, directory[staffId]);
    var staff := TeamPresence(directory, schedules, manager, d);
    r := Some(staff);
  }

  // ---------------------------------------------------------------------------
  // Personal day codes

  datatype PersonalDay = PersonalDay(date: Date, schedule: string)

  /** A row the personal view lists: the staff member's, on the day, APPROVED or PENDING. */
  predicate Listed(s: Schedule, staffId: int, d: Date) {
    s.staffId == staffId && s.date == d && (s.status == Approved || s.status == Pending)
  }

  /** A listed row's code: FullDay, AM or PM, with "Pending" appended while it awaits approval. */
  function Code(s: Schedule): (c: string)
    ensures c != [] <==> (s.status == Approved || s.status == Pending) && s.duration != WithdrawalRequest
  {
    var base := match s.duration
      case FullDay => "FullDay"
      case HalfDayAm => "AM"
      case HalfDayPm => "PM"
      case WithdrawalRequest => "";
    if base == "" then ""
    else if s.status == Approved then base
    else if s.status == Pending then base + "Pending"
    else ""
  }

  /** The codes of a day's listed rows, concatenated in table order. */
  function DayCode(ss: seq<Schedule>, staffId: int, d: Date): string {
    if ss == [] then ""
    else (if Listed(ss[0], staffId, d) then Code(ss[0]) else "") + DayCode(ss[1..], staffId, d)
  }

  /** A day's code is empty exactly when no row of a WFH duration is listed that day. */
  lemma {:induction false} DayCodeEmpty(ss: seq<Schedule>, staffId: int, d: Date)
    ensures DayCode(ss, staffId, d) == "" <==>
              forall i :: 0 <= i < |ss| && Listed(ss[i], staffId, d) ==> ss[i].duration == WithdrawalRequest
  {
    if ss != [] {
      DayCodeEmpty(ss[1..], staffId, d);
      assert forall i :: 1 <= i < |ss| ==> ss[1..][i - 1] == ss[i];
    }
  }

  /** Rows of other staff, other days or other statuses leave a day's code as it was. */
  lemma {:induction false} DayCodeIgnores(ss: seq<Schedule>, s: Schedule, staffId: int, d: Date)
    requires !Listed(s, staffId, d)
    ensures DayCode(ss + [s], staffId, d) == DayCode(ss, staffId, d)
  {
    if ss == [] {
      assert DayCode([s], staffId, d) == "" + DayCode([], staffId, d);
    } else {
      assert (ss + [s])[1..] == ss[1..] + [s];
      DayCodeIgnores(ss[1..], s, staffId, d);
    }
  }

  lemma DayCodeStep(ss: seq<Schedule>, j: nat, staffId: int, d: Date)
    requires j < |ss|
    ensures DayCode(ss[j..], staffId, d)
              == (if Listed(ss[j], staffId, d) then Code(ss[j]) else "") + DayCode(ss[j + 1..], staffId, d)
  {
    assert ss[j..][1..] == ss[j + 1..];
  }

  method CodeOfDay(schedules: seq<Schedule>, staffId: int, d: Date) returns (code: string)
    ensures code == DayCode(schedules, staffId, d)
  {
    code := "";
    var j := 0;
    while j < |schedules|
      invariant 0 <= j <= |schedules|
      invariant code + DayCode(schedules[j..], staffId, d) == DayCode(schedules, staffId, d)
    {
      var s := schedules[j];
      var c := if Listed(s, staffId, d) then Code(s) else "";
      DayCodeStep(schedules, j, staffId, d);
      assert code + (c + DayCode(schedules[j + 1..], staffId, d))
          == (code + c) + DayCode(schedules[j + 1..], staffId, d);
      code := code + c;
      j := j + 1;
    }
  }

  /** `get_personal_schedule`: the staff member's code for every day from `start` to `end`. */
  method PersonalSchedule(schedules: seq<Schedule>, staffId: int, start: Date, end: Date)
    returns (days: seq<PersonalDay>)
    ensures |days| == Span(start, end)
    ensures forall i :: 0 <= i < |days| ==>
              days[i] == PersonalDay(start + i, DayCode(schedules, staffId, start + i))
  {
    var dates := DayList(start, end);
    days := [];
    for k := 0 to |dates|
      invariant |days| == k
      invariant forall i :: 0 <= i < k ==>
                  days[i] == PersonalDay(start + i, DayCode(schedules, staffId, start + i))
    {
      var code := CodeOfDay(schedules, staffId, dates[k]);
      days := days + [PersonalDay(dates[k], code)];
    }
  }
}
