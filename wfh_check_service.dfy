/**
 * WFHCheckService's department capacity check: how many rows on a day
 * belong to the requester's department, against the department's size.
 */
module WfhCheckService {
  import opened WfhTypes
  import opened WfhScheduleModel

  /** The check's two answers: '1' when too many of the department would be away, '2' otherwise. */
  datatype DeptVerdict = TooMany | Acceptable

  /** A staff id with no directory record, whose department cannot be read. */
  datatype CheckError = UnknownStaff(staffId: int)

  /** `get_department`: the department of the staff member, if the directory has one. */
  function GetDepartment(directory: map<int, StaffRecord>, staffId: int): (dept: Option<string>)
    ensures dept.Some? <==> staffId in directory
    ensures dept.Some? ==> directory[staffId].dept == dept.value
  {
    if staffId in directory then Some(directory[staffId].dept) else None
  }

  /** The directory entries of department `dept`. */
  function Members(directory: map<int, StaffRecord>, dept: string): set<int> {
    set s | s in directory && directory[s].dept == dept
  }

  /** `department_count`: the number of staff records of that department. */
  function DepartmentCount(directory: map<int, StaffRecord>, dept: string): (n: nat)
    ensures n == 0 <==> forall s :: s in directory ==> directory[s].dept != dept
  {
    MembersEmpty(directory, dept);
    |Members(directory, dept)|
  }

  lemma MembersEmpty(directory: map<int, StaffRecord>, dept: string)
    ensures Members(directory, dept) == {} <==> forall s :: s in directory ==> directory[s].dept != dept
  {
    if Members(directory, dept) != {} {
      Inhabited(Members(directory, dept));
      var s :| s in Members(directory, dept);
    } else {
      forall s | s in directory ensures directory[s].dept != dept {
        assert s !in Members(directory, dept);
      }
    }
  }

  /** A staff member is counted in the own department, so its size is never 0. */
  lemma OwnDepartmentCounted(directory: map<int, StaffRecord>, staffId: int)
    requires staffId in directory
    ensures DepartmentCount(directory, directory[staffId].dept) >= 1
  {
    assert staffId in Members(directory, directory[staffId].dept);
  }

  /** A row that adds to the applied count: on the day, of any status and duration, by a member of `dept`. */
  function AppliedFrom(directory: map<int, StaffRecord>, date: Date, dept: string): Schedule -> bool {
    (s: Schedule) => s.date == date && s.staffId in directory && directory[s.staffId].dept == dept
  }

  function AppliedCount(directory: map<int, StaffRecord>, schedules: seq<Schedule>, date: Date, dept: string): nat {
    Count(schedules, AppliedFrom(directory, date, dept))
  }

  /** A row on the day whose staff member has no record: reading its department fails. */
  function Orphan(directory: map<int, StaffRecord>, date: Date): Schedule -> bool {
    (s: Schedule) => s.date == date && s.staffId !in directory
  }

  /** The status of a row never matters to the applied count. */
  lemma AppliedCountIgnoresStatus(directory: map<int, StaffRecord>, schedules: seq<Schedule>,
                                  k: nat, st: Status, date: Date, dept: string)
    requires k < |schedules|
    ensures AppliedCount(directory, schedules[k := schedules[k].(status := st)], date, dept)
              == AppliedCount(directory, schedules, date, dept)
  {
    var p := AppliedFrom(directory, date, dept);
    var changed := schedules[k := schedules[k].(status := st)];
    assert schedules == schedules[..k] + [schedules[k]] + schedules[k + 1..];
    assert changed == schedules[..k] + [changed[k]] + schedules[k + 1..];
    CountAppend(schedules[..k] + [schedules[k]], schedules[k + 1..], p);
    CountAppend(schedules[..k], [schedules[k]], p);
    CountAppend(schedules[..k] + [changed[k]], schedules[k + 1..], p);
    CountAppend(schedules[..k], [changed[k]], p);
    assert [schedules[k]][1..] == [] && [changed[k]][1..] == [];
  }

  /** The fraction of the department left in the office, in exact arithmetic, against one half. */
  predicate TooFewLeft(dc: nat, ac: nat)
    requires dc > 0
  {
    ((dc - ac) as real) / (dc as real) < 0.5
  }

  /** Multiplying by a positive factor keeps a strict order. */
  lemma ScaleLess(a: real, b: real, y: real)
    requires a < b && y > 0.0
    ensures a * y < b * y
  {
    assert (b - a) * y == b * y - a * y;
    assert (b - a) * y > 0.0;
  }

  /** A quotient by a positive number is below one half exactly when twice the dividend is below the divisor. */
  lemma QuotientHalf(x: real, y: real)
    requires y > 0.0
    ensures x / y < 0.5 <==> 2.0 * x < y
  {
    var q := x / y;
    assert x == q * y;
    if q < 0.5 {
      ScaleLess(q, 0.5, y);
    } else if 0.5 < q {
      ScaleLess(0.5, q, y);
    }
  }

  /** The fraction test is the integer test 2·(dc − ac) < dc. */
  lemma TooFewLeftInIntegers(dc: nat, ac: nat)
    requires dc > 0
    ensures TooFewLeft(dc, ac) <==> 2 * (dc - ac) < dc
  {
    QuotientHalf((dc - ac) as real, dc as real);
  }

  /** Exactly half the department applied is still acceptable, the comparison being strict. */
  lemma HalfIsAcceptable(dc: nat, ac: nat)
    requires dc > 0 && 2 * ac == dc
    ensures !TooFewLeft(dc, ac)
  {
    TooFewLeftInIntegers(dc, ac);
  }

  /**
   * `check_department_count`: counts the day's rows of the requester's
   * department and answers TooMany when fewer than half of the department
   * would be left in the office. Reading the department of an unknown staff
   * member fails: the requester's first, then that of the first such row on
   * the day. Nothing is written.
   */
  method CheckDepartmentCount(directory: map<int, StaffRecord>, schedules: seq<Schedule>,
                              staffId: int, date: Date)
    returns (r: Result<DeptVerdict, CheckError>)
    ensures staffId !in directory ==> r == Err(UnknownStaff(staffId))
    ensures staffId in directory && FirstIndex(schedules, Orphan(directory, date)).Some? ==>
              r == Err(UnknownStaff(schedules[FirstIndex(schedules, Orphan(directory, date)).value].staffId))
    ensures staffId in directory && FirstIndex(schedules, Orphan(directory, date)).None? ==>
              var dept := directory[staffId].dept;
              var dc := DepartmentCount(directory, dept);
              var ac := AppliedCount(directory, schedules, date, dept);
              r == Ok(if 2 * (dc - ac) < dc then TooMany else Acceptable)
  {
    var department := GetDepartment(directory, staffId);
    if department.None? {
      return Err(UnknownStaff(staffId));
    }
    var dept := department.value;
    var dc := DepartmentCount(directory, dept);
    OwnDepartmentCounted(directory, staffId);
    var applied := 0;
    var j := 0;
    while j < |schedules|
      invariant 0 <= j <= |schedules|
      invariant applied + Count(schedules[j..], AppliedFrom(directory, date, dept))
                  == AppliedCount(directory, schedules, date, dept)
      invariant forall i :: 0 <= i < j ==> !Orphan(directory, date)(schedules[i])
    {
      var s := schedules[j];
      assert schedules[j..][1..] == schedules[j + 1..];
      if s.date == date {
        var other := GetDepartment(directory, s.staffId);
        if other.None? {
          return Err(UnknownStaff(s.staffId));
        }
        if other.value == dept {
          applied := applied + 1;
        }
      }
      j := j + 1;
    }
    TooFewLeftInIntegers(dc, applied);
    if TooFewLeft(dc, applied) {
      r := Ok(TooMany);
    } else {
      r := Ok(Acceptable);
    }
  }
}
