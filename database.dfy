/**
 * The two tables the core reads and writes, held in memory: WFHRequest and
 * WFHSchedule rows in insertion order, with the next auto-increment key of
 * each. Every service operation is a method on this state.
 */
module WfhDatabase {
  import opened WfhTypes
  import opened WfhRequestModel
  import opened WfhScheduleModel

  /** Keys strictly increase along the table and stay below the next key to hand out. */
  ghost predicate RequestKeysFresh(rs: seq<Request>, next: int) {
    && (forall i, j :: 0 <= i < j < |rs| ==> rs[i].id < rs[j].id)
    && (forall i :: 0 <= i < |rs| ==> rs[i].id < next)
  }

  ghost predicate ScheduleKeysFresh(ss: seq<Schedule>, next: int) {
    && (forall i, j :: 0 <= i < j < |ss| ==> ss[i].id < ss[j].id)
    && (forall i :: 0 <= i < |ss| ==> ss[i].id < next)
  }

  /** `WFHRequest.query.get(id)`: where the request with that key sits, if anywhere. */
  function RequestIndex(rs: seq<Request>, id: int): Option<nat> {
    FirstIndex(rs, (r: Request) => r.id == id)
  }

  /** `WFHSchedule.query.get(id)`. */
  function ScheduleIndex(ss: seq<Schedule>, id: int): Option<nat> {
    FirstIndex(ss, (s: Schedule) => s.id == id)
  }

  /** `WFHSchedule.query.filter_by(request_id=...).first()`. */
  function FirstRowOf(ss: seq<Schedule>, requestId: int): Option<nat> {
    FirstIndex(ss, (s: Schedule) => s.requestId == requestId)
  }

  /** `db.session.delete(WFHRequest.query.get(id))`, for a key that exists. */
  function RemoveRequest(rs: seq<Request>, id: int): seq<Request> {
    match RequestIndex(rs, id)
    case None => rs
    case Some(i) => rs[..i] + rs[i + 1..]
  }

  /** Deleting by key keeps the key discipline and leaves no row with that key. */
  lemma RemoveRequestKeys(rs: seq<Request>, next: int, id: int)
    requires RequestKeysFresh(rs, next)
    ensures RequestKeysFresh(RemoveRequest(rs, id), next)
    ensures forall r :: r in RemoveRequest(rs, id) <==> r in rs && r.id != id
  {
    match RequestIndex(rs, id)
    case None =>
    case Some(i) =>
      RemoveRequestAt(rs, next, i);
      RemoveRequestMembers(rs, next, i);
  }

  lemma RemoveRequestAt(rs: seq<Request>, next: int, i: nat)
    requires RequestKeysFresh(rs, next)
    requires i < |rs|
    ensures RequestKeysFresh(rs[..i] + rs[i + 1..], next)
  {
    var rs' := rs[..i] + rs[i + 1..];
    DeleteAt(rs, i);
    forall a, b | 0 <= a < b < |rs'| ensures rs'[a].id < rs'[b].id {
      assert rs'[a] == rs[if a < i then a else a + 1];
      assert rs'[b] == rs[if b < i then b else b + 1];
    }
  }

  lemma RemoveRequestMembers(rs: seq<Request>, next: int, i: nat)
    requires RequestKeysFresh(rs, next)
    requires i < |rs|
    ensures forall r :: r in rs[..i] + rs[i + 1..] <==> r in rs && r.id != rs[i].id
  {
    var rs' := rs[..i] + rs[i + 1..];
    DeleteAt(rs, i);
    forall j | 0 <= j < |rs| && j != i ensures rs[j] in rs' {
      if j < i {
        assert rs'[j] == rs[j];
      } else {
        assert rs'[j - 1] == rs[j];
      }
    }
    forall j | 0 <= j < |rs'| ensures rs'[j] in rs && rs'[j].id != rs[i].id {
      if j < i {
        assert rs'[j] == rs[j];
      } else {
        assert rs'[j] == rs[j + 1];
      }
    }
  }

  /** Where each element of a sequence lands once the element at `i` is deleted. */
  lemma DeleteAt<T>(s: seq<T>, i: nat)
    requires i < |s|
    ensures |s[..i] + s[i + 1..]| == |s| - 1
    ensures forall j :: 0 <= j < i ==> (s[..i] + s[i + 1..])[j] == s[j]
    ensures forall k :: i < k < |s| ==> (s[..i] + s[i + 1..])[k - 1] == s[k]
  {
  }

  lemma {:induction false} RequestIndexOfKey(rs: seq<Request>, next: int, k: nat)
    requires RequestKeysFresh(rs, next)
    requires k < |rs|
    ensures RequestIndex(rs, rs[k].id) == Some(k)
  {
    var found := RequestIndex(rs, rs[k].id);
    assert found.Some?;
  }

  lemma {:induction false} ScheduleIndexOfKey(ss: seq<Schedule>, next: int, k: nat)
    requires ScheduleKeysFresh(ss, next)
    requires k < |ss|
    ensures ScheduleIndex(ss, ss[k].id) == Some(k)
  {
    var found := ScheduleIndex(ss, ss[k].id);
    assert found.Some?;
  }

  /**
   * Deleting a request just appended under a fresh key gives back the table
   * as it was before the insert: the compensating delete undoes the create.
   */
  lemma {:induction false} RemoveUndoesAppend(rs: seq<Request>, next: int, r: Request)
    requires RequestKeysFresh(rs, next)
    requires r.id >= next
    ensures RemoveRequest(rs + [r], r.id) == rs
  {
    var all := rs + [r];
    assert all[|rs|].id == r.id;
    var found := RequestIndex(all, r.id);
    assert found.Some?;
    assert found == Some(|rs|);
    assert all[..|rs|] == rs;
    assert all[|rs| + 1..] == [];
  }

  /** Appending a row under the next key keeps the key discipline, with the counter moved on. */
  lemma AppendScheduleKey(ss: seq<Schedule>, next: int, row: Schedule)
    requires ScheduleKeysFresh(ss, next)
    requires row.id == next
    ensures ScheduleKeysFresh(ss + [row], next + 1)
  {
  }

  class Database {
    var requests: seq<Request>
    var schedules: seq<Schedule>
    var nextRequestId: int
    var nextScheduleId: int

    ghost predicate Valid()
      reads this
    {
      RequestKeysFresh(requests, nextRequestId) && ScheduleKeysFresh(schedules, nextScheduleId)
    }

    /** Empty tables; auto-increment keys start at 1. */
    constructor ()
      ensures Valid()
      ensures requests == [] && schedules == []
      ensures nextRequestId == 1 && nextScheduleId == 1
    {
      requests, schedules := [], [];
      nextRequestId, nextScheduleId := 1, 1;
    }
  }
}
