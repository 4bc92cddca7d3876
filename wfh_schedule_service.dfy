/**
 * WFHScheduleService, the operations that write the schedule table:
 * expanding a request into weekly rows, pushing a request's status onto its
 * rows, and the calls of the two services that re-point a row during a
 * withdrawal.
 */
module WfhScheduleService {
  import opened WfhTypes
  import opened WfhRequestModel
  import opened WfhScheduleModel
  import opened WfhDatabase

  datatype ScheduleError =
    | NoSchedulesCreated            // "No schedules were created"; the request was deleted
    | RequestNotFound               // the compensating delete found no request to delete
    | NoSchedulesFound(requestId: int)

  // ---------------------------------------------------------------------------
  // Weekly days

  /** first, first+7, first+14, … while <= last. */
  function WeeksFrom(first: Date, last: Date): seq<Date>
    decreases if first <= last then last - first + 1 else 0
  {
    if first > last then [] else [first] + WeeksFrom(first + 7, last)
  }

  lemma {:induction false} WeeksFromAt(first: Date, last: Date)
    ensures |WeeksFrom(first, last)| == if first > last then 0 else (last - first) / 7 + 1
    ensures forall i :: 0 <= i < |WeeksFrom(first, last)| ==> WeeksFrom(first, last)[i] == first + 7 * i
    decreases if first <= last then last - first + 1 else 0
  {
    if first <= last {
      WeeksFromAt(first + 7, last);
      var rest := WeeksFrom(first + 7, last);
      assert WeeksFrom(first, last) == [first] + rest;
      forall i | 1 <= i < |WeeksFrom(first, last)|
        ensures WeeksFrom(first, last)[i] == first + 7 * i
      {
        assert WeeksFrom(first, last)[i] == rest[i - 1];
      }
    }
  }

  /** A day is one of the weekly days exactly when it is a whole number of weeks after `first`, up to `last`. */
  lemma WeeksFromMembers(first: Date, last: Date, d: Date)
    ensures d in WeeksFrom(first, last) <==> first <= d <= last && (d - first) % 7 == 0
  {
    WeeksFromAt(first, last);
    var ds := WeeksFrom(first, last);
    if first <= d <= last && (d - first) % 7 == 0 {
      var i := (d - first) / 7;
      assert ds[i] == d;
    }
  }

  lemma WeeksFromIncreasing(first: Date, last: Date)
    ensures Increasing(WeeksFrom(first, last))
  {
    WeeksFromAt(first, last);
  }

  /**
   * The days `create_schedule` visits: the start day always (the loop body
   * runs before the exit test), then a week later and so on while the day
   * is not after `end_date`; only the start day when there is no end date.
   */
  function CandidateDates(start: Date, end: Option<Date>): seq<Date> {
    [start] + (if end.Some? then WeeksFrom(start + 7, end.value) else [])
  }

  /** With an end date on or after the start, the visited days are start + 7i, ⌊(end − start)/7⌋ + 1 of them. */
  lemma CandidateDatesWeekly(start: Date, last: Date)
    requires start <= last
    ensures CandidateDates(start, Some(last)) == WeeksFrom(start, last)
    ensures |CandidateDates(start, Some(last))| == (last - start) / 7 + 1
    ensures forall i :: 0 <= i < |CandidateDates(start, Some(last))| ==>
              CandidateDates(start, Some(last))[i] == start + 7 * i
  {
    WeeksFromAt(start, last);
  }

  lemma CandidateDatesIncreasing(start: Date, end: Option<Date>)
    ensures Increasing(CandidateDates(start, end))
    ensures forall d :: d in CandidateDates(start, end) ==> d >= start && (d - start) % 7 == 0
  {
    if end.Some? {
      var rest := WeeksFrom(start + 7, end.value);
      WeeksFromAt(start + 7, end.value);
      var ds := CandidateDates(start, end);
      assert ds == [start] + rest;
      forall i, j | 0 <= i < j < |ds| ensures ds[i] < ds[j] {
        assert ds[j] == rest[j - 1];
        if i > 0 {
          assert ds[i] == rest[i - 1];
        }
      }
      forall d | d in ds ensures d >= start && (d - start) % 7 == 0 {
        if d != start {
          WeeksFromMembers(start + 7, end.value, d);
        }
      }
    }
  }

  // ---------------------------------------------------------------------------
  // Collisions

  /** The row `create_schedule` consults: the first with that staff and day whose status is not EXPIRED. */
  function FirstLive(ss: seq<Schedule>, staffId: int, date: Date): Option<nat> {
    FirstIndex(ss, (s: Schedule) => s.staffId == staffId && s.date == date && s.status != Expired)
  }

  /** A day collides when the row consulted exists and is not REJECTED. */
  predicate Collides(ss: seq<Schedule>, staffId: int, date: Date) {
    var k := FirstLive(ss, staffId, date);
    k.Some? && k.value < |ss| && ss[k.value].status != Rejected
  }

  /** Rows on other days, such as the ones just inserted, do not change whether a day collides. */
  lemma CollidesIgnoresOtherDays(ss: seq<Schedule>, extra: seq<Schedule>, staffId: int, date: Date)
    requires forall i :: 0 <= i < |extra| ==> extra[i].date != date
    ensures Collides(ss + extra, staffId, date) == Collides(ss, staffId, date)
  {
    FirstIndexAppend(ss, extra,
      (s: Schedule) => s.staffId == staffId && s.date == date && s.status != Expired);
    var k := FirstLive(ss, staffId, date);
    if k.Some? {
      assert (ss + extra)[k.value] == ss[k.value];
    }
  }

  // ---------------------------------------------------------------------------
  // Expansion

  /**
   * The rows `create_schedule` inserts when it walks `dates` against the
   * table `ss`: one per day that does not collide, keyed consecutively
   * from `firstId`.
   */
  function Expansion(ss: seq<Schedule>, seed: ScheduleSeed, dates: seq<Date>, firstId: int)
    : seq<Schedule>
  {
    if dates == [] then []
    else
      var prev := Expansion(ss, seed, dates[..|dates| - 1], firstId);
      var d := dates[|dates| - 1];
      if Collides(ss, seed.staffId, d) then prev
      else prev + [NewSchedule(firstId + |prev|, seed, d)]
  }

  function DaysOf(rows: seq<Schedule>): (ds: seq<Date>)
    ensures |ds| == |rows|
  {
    seq(|rows|, i requires 0 <= i < |rows| => rows[i].date)
  }

  /**
   * Every inserted row carries the request, staff, manager, duration,
   * department and position given, the default status, and the next key.
   */
  lemma {:induction false} ExpansionRows(ss: seq<Schedule>, seed: ScheduleSeed, dates: seq<Date>, firstId: int)
    ensures forall i :: 0 <= i < |Expansion(ss, seed, dates, firstId)| ==>
              Expansion(ss, seed, dates, firstId)[i]
                == NewSchedule(firstId + i, seed, Expansion(ss, seed, dates, firstId)[i].date)
  {
    if dates != [] {
      ExpansionRows(ss, seed, dates[..|dates| - 1], firstId);
    }
  }

  /** The inserted rows' days are exactly the non-colliding days, in order. */
  lemma {:induction false} ExpansionDays(ss: seq<Schedule>, seed: ScheduleSeed, dates: seq<Date>, firstId: int)
    ensures DaysOf(Expansion(ss, seed, dates, firstId))
              == Filter(dates, (d: Date) => !Collides(ss, seed.staffId, d))
  {
    var p := (d: Date) => !Collides(ss, seed.staffId, d);
    if dates != [] {
      var init := dates[..|dates| - 1];
      var d := dates[|dates| - 1];
      ExpansionDays(ss, seed, init, firstId);
      assert dates == init + [d];
      FilterAppend(init, [d], p);
      assert Filter([d], p) == (if p(d) then [d] else []) + Filter([], p);
      var prev := Expansion(ss, seed, init, firstId);
      if !Collides(ss, seed.staffId, d) {
        var rows := prev + [NewSchedule(firstId + |prev|, seed, d)];
        assert DaysOf(rows) == DaysOf(prev) + [d];
      }
    }
  }

  /** Nothing is inserted exactly when every visited day collides. */
  lemma ExpansionEmpty(ss: seq<Schedule>, seed: ScheduleSeed, dates: seq<Date>, firstId: int)
    ensures Expansion(ss, seed, dates, firstId) == [] <==>
              forall d :: d in dates ==> Collides(ss, seed.staffId, d)
  {
    ExpansionDays(ss, seed, dates, firstId);
    var rows := Expansion(ss, seed, dates, firstId);
    if rows != [] {
      assert DaysOf(rows)[0] in DaysOf(rows);
    }
  }

  /** Without collisions one row is inserted per visited day. */
  lemma ExpansionNoCollisions(ss: seq<Schedule>, seed: ScheduleSeed, dates: seq<Date>, firstId: int)
    requires forall d :: d in dates ==> !Collides(ss, seed.staffId, d)
    ensures DaysOf(Expansion(ss, seed, dates, firstId)) == dates
  {
    ExpansionDays(ss, seed, dates, firstId);
    FilterAll(dates, (d: Date) => !Collides(ss, seed.staffId, d));
  }

  /** The inserted rows' days strictly increase, whole weeks apart, from the start day on. */
  lemma ExpansionWeekly(ss: seq<Schedule>, seed: ScheduleSeed, start: Date, end: Option<Date>, firstId: int)
    ensures var rows := Expansion(ss, seed, CandidateDates(start, end), firstId);
      && (forall i, j :: 0 <= i < j < |rows| ==> rows[i].date < rows[j].date)
      && (forall i :: 0 <= i < |rows| ==> rows[i].date >= start && (rows[i].date - start) % 7 == 0)
  {
    var dates := CandidateDates(start, end);
    var rows := Expansion(ss, seed, dates, firstId);
    CandidateDatesIncreasing(start, end);
    ExpansionDays(ss, seed, dates, firstId);
    FilterKeepsIncreasing(dates, (d: Date) => !Collides(ss, seed.staffId, d));
    FilterMembers(dates, (d: Date) => !Collides(ss, seed.staffId, d));
    assert DaysOf(rows) == Filter(dates, (d: Date) => !Collides(ss, seed.staffId, d));
    forall i | 0 <= i < |rows| ensures rows[i].date >= start && (rows[i].date - start) % 7 == 0 {
      assert DaysOf(rows)[i] == rows[i].date;
      assert rows[i].date in DaysOf(rows);
    }
    forall i, j | 0 <= i < j < |rows| ensures rows[i].date < rows[j].date {
      assert DaysOf(rows)[i] == rows[i].date && DaysOf(rows)[j] == rows[j].date;
    }
  }

  /** Three weeks after the start, with no collisions, yields four rows at start + 7i. */
  lemma ThreeWeekSpan(ss: seq<Schedule>, seed: ScheduleSeed, start: Date, firstId: int)
    requires forall i :: 0 <= i < 4 ==> !Collides(ss, seed.staffId, start + 7 * i)
    ensures DaysOf(Expansion(ss, seed, CandidateDates(start, Some(start + 21)), firstId))
              == [start, start + 7, start + 14, start + 21]
  {
    var dates := CandidateDates(start, Some(start + 21));
    CandidateDatesWeekly(start, start + 21);
    assert dates == [start, start + 7, start + 14, start + 21];
    assert !Collides(ss, seed.staffId, start + 7 * 3);
    ExpansionNoCollisions(ss, seed, dates, firstId);
  }

  /** One more visited day extends the expansion by at most that day's row. */
  lemma ExpansionStep(ss: seq<Schedule>, seed: ScheduleSeed, visited: seq<Date>, d: Date, firstId: int)
    ensures var prev := Expansion(ss, seed, visited, firstId);
      Expansion(ss, seed, visited + [d], firstId)
        == if Collides(ss, seed.staffId, d) then prev
           else prev + [NewSchedule(firstId + |prev|, seed, d)]
  {
    var ds := visited + [d];
    assert ds[..|ds| - 1] == visited;
    assert ds[|ds| - 1] == d;
  }

  /** The visited days still ahead, seen from `current`. */
  function DaysAfter(current: Date, end: Option<Date>): seq<Date> {
    if end.Some? then WeeksFrom(current + 7, end.value) else []
  }

  lemma DaysAfterStep(current: Date, end: Option<Date>)
    ensures end.None? || current + 7 > end.value ==> DaysAfter(current, end) == []
    ensures end.Some? && current + 7 <= end.value ==>
              DaysAfter(current, end) == [current + 7] + DaysAfter(current + 7, end)
  {
  }

  /** What one pass of the `create_schedule` loop does to the rows inserted. */
  lemma InsertStep(table: seq<Schedule>, seed: ScheduleSeed, firstId: int,
                   visited: seq<Date>, current: Date, created: seq<Schedule>, created': seq<Schedule>)
    requires created == Expansion(table, seed, visited, firstId)
    requires forall i :: 0 <= i < |created| ==> created[i].date < current
    requires created' == if Collides(table + created, seed.staffId, current) then created
                         else created + [NewSchedule(firstId + |created|, seed, current)]
    ensures created' == Expansion(table, seed, visited + [current], firstId)
  {
    CollidesIgnoresOtherDays(table, created, seed.staffId, current);
    ExpansionStep(table, seed, visited, current, firstId);
  }

  /** The rows inserted so far all lie before the next day visited. */
  lemma GrownBefore(seed: ScheduleSeed, firstId: int, current: Date,
                    created: seq<Schedule>, created': seq<Schedule>)
    requires forall i :: 0 <= i < |created| ==> created[i].date < current
    requires created' == created || created' == created + [NewSchedule(firstId + |created|, seed, current)]
    ensures forall i :: 0 <= i < |created'| ==> created'[i].date < current + 7
  {
    if created' != created {
      forall i | 0 <= i < |created'| ensures created'[i].date < current + 7 {
        if i < |created| {
          assert created'[i] == created[i];
        }
      }
    }
  }

  /** What one pass of the `create_schedule` loop does to the days still to visit. */
  lemma VisitStep(start: Date, end: Option<Date>, visited: seq<Date>, current: Date)
    requires CandidateDates(start, end) == visited + [current] + DaysAfter(current, end)
    ensures end.None? || current + 7 > end.value ==> CandidateDates(start, end) == visited + [current]
    ensures end.Some? && current + 7 <= end.value ==>
              CandidateDates(start, end) == (visited + [current]) + [current + 7] + DaysAfter(current + 7, end)
  {
    DaysAfterStep(current, end);
    if end.Some? && current + 7 <= end.value {
      assert visited + [current] + DaysAfter(current, end)
          == (visited + [current]) + [current + 7] + DaysAfter(current + 7, end);
    }
  }

  /** Rows inserted under consecutive keys from the next key keep the key discipline. */
  lemma ExpansionKeys(ss: seq<Schedule>, seed: ScheduleSeed, dates: seq<Date>, next: int)
    requires ScheduleKeysFresh(ss, next)
    ensures var rows := Expansion(ss, seed, dates, next);
      ScheduleKeysFresh(ss + rows, next + |rows|)
  {
    var rows := Expansion(ss, seed, dates, next);
    ExpansionRows(ss, seed, dates, next);
    var all := ss + rows;
    forall i | 0 <= i < |all| ensures all[i].id == (if i < |ss| then ss[i].id else next + i - |ss|) {
      if i >= |ss| {
        assert all[i] == rows[i - |ss|];
      }
    }
  }

  /**
   * The loop of `create_schedule`: visits the candidate days against the
   * table as it grows, skips each day that collides with a live row and
   * adds a PENDING row, under the next key, for every other day.
   */
  method ExpandWeekly(table: seq<Schedule>, firstId: int, seed: ScheduleSeed, start: Date, end: Option<Date>)
    returns (created: seq<Schedule>)
    ensures created == Expansion(table, seed, CandidateDates(start, end), firstId)
  {
    ghost var visited: seq<Date> := [];
    created := [];
    var current := start;
    while true
      invariant CandidateDates(start, end) == visited + [current] + DaysAfter(current, end)
      invariant created == Expansion(table, seed, visited, firstId)
      invariant forall i :: 0 <= i < |created| ==> created[i].date < current
      decreases if end.Some? && current <= end.value then end.value - current + 1 else 0
    {
      VisitStep(start, end, visited, current);
      var grown := created;
      // the query sees the table with the rows added so far
      if Collides(table + created, seed.staffId, current) {
        // the day is taken: move to the next week
      } else {
        grown := created + [NewSchedule(firstId + |created|, seed, current)];
      }
      InsertStep(table, seed, firstId, visited, current, created, grown);
      GrownBefore(seed, firstId, current, created, grown);
      created := grown;
      visited := visited + [current];
      current := current + 7;
      if end.None? || current > end.value {
        break;
      }
    }
  }

  /** `create_schedule`'s inserts, committed to the schedule table. */
  method InsertWeeklyRows(db: Database, seed: ScheduleSeed, start: Date, end: Option<Date>)
    returns (created: seq<Schedule>)
    requires db.Valid()
    modifies db
    ensures db.Valid()
    ensures db.requests == old(db.requests) && db.nextRequestId == old(db.nextRequestId)
    ensures created == Expansion(old(db.schedules), seed, CandidateDates(start, end), old(db.nextScheduleId))
    ensures db.schedules == old(db.schedules) + created
    ensures db.nextScheduleId == old(db.nextScheduleId) + |created|
  {
    created := ExpandWeekly(db.schedules, db.nextScheduleId, seed, start, end);
    ExpansionKeys(db.schedules, seed, CandidateDates(start, end), db.nextScheduleId);
    db.schedules, db.nextScheduleId := db.schedules + created, db.nextScheduleId + |created|;
  }

  /**
   * `create_schedule`: inserts the rows of the request's non-colliding
   * days. When nothing was inserted, the request is deleted and the call
   * fails with "No schedules were created".
   */
  method CreateSchedule(db: Database, requestId: int, staffId: int, managerId: int,
                        start: Date, end: Option<Date>, duration: Duration,
                        dept: string, position: string)
    returns (r: Result<seq<Schedule>, ScheduleError>)
    requires db.Valid()
    modifies db
    ensures db.Valid()
    ensures db.nextRequestId == old(db.nextRequestId)
    ensures var created := Expansion(old(db.schedules),
                                     ScheduleSeed(requestId, staffId, managerId, duration, dept, position),
                                     CandidateDates(start, end), old(db.nextScheduleId));
      && (created != [] ==>
            && r == Ok(created)
            && db.schedules == old(db.schedules) + created
            && db.nextScheduleId == old(db.nextScheduleId) + |created|
            && db.requests == old(db.requests))
      && (created == [] ==>
            && db.schedules == old(db.schedules)
            && db.nextScheduleId == old(db.nextScheduleId)
            && (RequestIndex(old(db.requests), requestId).Some? ==>
                  r == Err(NoSchedulesCreated) && db.requests == RemoveRequest(old(db.requests), requestId))
            && (RequestIndex(old(db.requests), requestId).None? ==>
                  r == Err(RequestNotFound) && db.requests == old(db.requests)))
  {
    var seed := ScheduleSeed(requestId, staffId, managerId, duration, dept, position);
    var created := InsertWeeklyRows(db, seed, start, end);
    if |created| == 0 {
      match RequestIndex(db.requests, requestId)
      case None =>
        r := Err(RequestNotFound);
      case Some(_) =>
        RemoveRequestKeys(db.requests, db.nextRequestId, requestId);
        db.requests := RemoveRequest(db.requests, requestId);
        r := Err(NoSchedulesCreated);
    } else {
      r := Ok(created);
    }
  }

  // ---------------------------------------------------------------------------
  // Status propagation

  /** What `update_schedule` does to one row: only APPROVED and REJECTED are written. */
  function Propagated(s: Schedule, requestId: int, status: Status): Schedule {
    if s.requestId == requestId && (status == Approved || status == Rejected)
    then s.(status := status)
    else s
  }

  /**
   * `update_schedule`'s loop over the whole table. What it does to each row
   * is stated by `PropagateWrites` (APPROVED, REJECTED) and `PropagateIgnores`
   * (every other status).
   */
  function PropagateStatus(ss: seq<Schedule>, requestId: int, status: Status): (ss': seq<Schedule>)
    ensures |ss'| == |ss|
  {
    seq(|ss|, i requires 0 <= i < |ss| => Propagated(ss[i], requestId, status))
  }

  /** For APPROVED or REJECTED, every row of the request gets that status, whatever it had; nothing else changes. */
  lemma PropagateWrites(ss: seq<Schedule>, requestId: int, status: Status)
    requires status == Approved || status == Rejected
    ensures forall i :: 0 <= i < |ss| && ss[i].requestId == requestId ==>
              PropagateStatus(ss, requestId, status)[i] == ss[i].(status := status)
    ensures forall i :: 0 <= i < |ss| && ss[i].requestId != requestId ==>
              PropagateStatus(ss, requestId, status)[i] == ss[i]
  {
  }

  /** Any other status (WITHDRAWN, EXPIRED, CANCELLED, PENDING) leaves the table as it is. */
  lemma PropagateIgnores(ss: seq<Schedule>, requestId: int, status: Status)
    requires status != Approved && status != Rejected
    ensures PropagateStatus(ss, requestId, status) == ss
  {
    assert forall i :: 0 <= i < |ss| ==> PropagateStatus(ss, requestId, status)[i] == ss[i];
  }

  /** A request has rows exactly when `update_schedule` finds one. */
  predicate HasRows(ss: seq<Schedule>, requestId: int) {
    FirstRowOf(ss, requestId).Some?
  }

  /**
   * `update_schedule`: fails when the request has no rows; otherwise
   * propagates the status to the request's rows and answers True.
   */
  method UpdateSchedule(db: Database, requestId: int, status: Status)
    returns (r: Result<bool, ScheduleError>)
    requires db.Valid()
    modifies db
    ensures db.Valid()
    ensures db.requests == old(db.requests)
    ensures db.nextRequestId == old(db.nextRequestId) && db.nextScheduleId == old(db.nextScheduleId)
    ensures !HasRows(old(db.schedules), requestId) ==>
              r == Err(NoSchedulesFound(requestId)) && db.schedules == old(db.schedules)
    ensures HasRows(old(db.schedules), requestId) ==>
              r == Ok(true) && db.schedules == PropagateStatus(old(db.schedules), requestId, status)
  {
    if FirstRowOf(db.schedules, requestId).None? {
      return Err(NoSchedulesFound(requestId));
    }
    var i := 0;
    while i < |db.schedules|
      invariant db.Valid()
      invariant db.requests == old(db.requests)
      invariant db.nextRequestId == old(db.nextRequestId) && db.nextScheduleId == old(db.nextScheduleId)
      invariant |db.schedules| == |old(db.schedules)|
      invariant 0 <= i <= |db.schedules|
      invariant forall k :: 0 <= k < i ==>
                  db.schedules[k] == Propagated(old(db.schedules)[k], requestId, status)
      invariant forall k :: i <= k < |db.schedules| ==> db.schedules[k] == old(db.schedules)[k]
    {
      if db.schedules[i].requestId == requestId {
        if status == Approved {
          db.schedules := db.schedules[i := db.schedules[i].(status := Approved)];
        } else if status == Rejected {
          db.schedules := db.schedules[i := db.schedules[i].(status := Rejected)];
        }
      }
      i := i + 1;
    }
    r := Ok(true);
  }

  // ---------------------------------------------------------------------------
  // Re-pointing a row during a withdrawal
  //
  // The code of `change_schedule_request_id` and `orig_schedule_request_id` is
  // not part of this model. Each is a parameter: `repoint(row, id)` is the row
  // as the first leaves it together with the id it answers, `restore(row)` the
  // row as the second leaves it. Both address one row by its key, which they
  // keep.

  /** A row rewrite that never changes the row's key. */
  ghost predicate KeepsKey(rewrite: Schedule -> Schedule) {
    forall s :: rewrite(s).id == s.id
  }

  /** The same for a rewrite that takes the new request id and answers an id. */
  ghost predicate RepointKeepsKey(repoint: (Schedule, int) -> (Schedule, int)) {
    forall s, id :: repoint(s, id).0.id == s.id
  }

  /**
   * A re-pointing that moves the row to the new request and parks the id it
   * had in `reason_for_withdrawing`, where the controller reads it back.
   */
  ghost predicate ParksOwner(repoint: (Schedule, int) -> (Schedule, int)) {
    forall s, id ::
      && repoint(s, id).0.requestId == id
      && repoint(s, id).0.reasonForWithdrawing == ParkedRequest(s.requestId)
  }

  /** A restore that gives a row with a parked id back to that request. */
  ghost predicate GivesBackParked(restore: Schedule -> Schedule) {
    forall s: Schedule :: s.reasonForWithdrawing.ParkedRequest? ==> restore(s).requestId == s.reasonForWithdrawing.requestId
  }

  /**
   * `change_schedule_request_id` at the controller's call: the callee's
   * rewrite lands on the row with the key and no other row, and its answer
   * is returned. The controller only passes the key of a row it has just
   * read; for any other key the table is left as it is.
   */
  method ChangeScheduleRequestId(db: Database, scheduleId: int, newRequestId: int,
                                 repoint: (Schedule, int) -> (Schedule, int))
    returns (updated: Option<int>)
    requires db.Valid()
    requires RepointKeepsKey(repoint)
    modifies db
    ensures db.Valid()
    ensures db.requests == old(db.requests)
    ensures db.nextRequestId == old(db.nextRequestId) && db.nextScheduleId == old(db.nextScheduleId)
    ensures ScheduleIndex(old(db.schedules), scheduleId).None? ==>
              updated == None && db.schedules == old(db.schedules)
    ensures ScheduleIndex(old(db.schedules), scheduleId).Some? ==>
              var k := ScheduleIndex(old(db.schedules), scheduleId).value;
              updated == Some(repoint(old(db.schedules)[k], newRequestId).1)
              && db.schedules == old(db.schedules)[k := repoint(old(db.schedules)[k], newRequestId).0]
  {
    match ScheduleIndex(db.schedules, scheduleId)
    case None =>
      updated := None;
    case Some(k) =>
      var rewritten := repoint(db.schedules[k], newRequestId);
      assert rewritten.0.id == db.schedules[k].id;
      db.schedules := db.schedules[k := rewritten.0];
      updated := Some(rewritten.1);
  }

  /**
   * `orig_schedule_request_id` at the controller's call: the callee's
   * rewrite lands on the row with the key and no other row.
   */
  method OrigScheduleRequestId(db: Database, scheduleId: int, restore: Schedule -> Schedule)
    requires db.Valid()
    requires KeepsKey(restore)
    modifies db
    ensures db.Valid()
    ensures db.requests == old(db.requests)
    ensures db.nextRequestId == old(db.nextRequestId) && db.nextScheduleId == old(db.nextScheduleId)
    ensures ScheduleIndex(old(db.schedules), scheduleId).None? ==> db.schedules == old(db.schedules)
    ensures ScheduleIndex(old(db.schedules), scheduleId).Some? ==>
              var k := ScheduleIndex(old(db.schedules), scheduleId).value;
              db.schedules == old(db.schedules)[k := restore(old(db.schedules)[k])]
  {
    match ScheduleIndex(db.schedules, scheduleId)
    case None =>
    case Some(k) =>
      assert restore(db.schedules[k]).id == db.schedules[k].id;
      db.schedules := db.schedules[k := restore(db.schedules[k])];
  }
}
