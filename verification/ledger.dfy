/** The attendance ledger: `POST /api/attendance` (idempotent per calendar
    day), `POST /api/attendance/:id/remark` (one student remark, written
    once) and `PUT /api/attendance/:id` (teacher edit). */
module Ledger {
  import opened Wrappers
  import opened Text
  import opened Store

  /** The submission answer `{ ok, id, already }`. */
  datatype Submitted = Submitted(id: int, already: bool)

  /** `timestamp || new Date().toISOString()`, with the clock passed in. */
  function Effective(timestamp: Option<string>, now: string): string {
    OrText(timestamp, now)
  }

  /** `user_id = ? AND date(timestamp) = date(?)`: NULL dates never match. */
  predicate SameDayAs(a: Attendance, userId: int, ts: string) {
    DateOf(ts).Some? && OnDay(a, userId, DateOf(ts).value)
  }

  /** The first row of `userId` on `day`. */
  function FindOnDay(att: seq<Attendance>, userId: int, day: string): (r: Option<nat>)
    ensures r.Some? ==> r.value < |att| && OnDay(att[r.value], userId, day)
    ensures r.None? <==> forall i :: 0 <= i < |att| ==> !OnDay(att[i], userId, day)
  {
    if |att| == 0 then None
    else if OnDay(att[0], userId, day) then Some(0)
    else
      match FindOnDay(att[1..], userId, day)
      case None => None
      case Some(k) => Some(k + 1)
  }

  lemma {:induction false} FindOnDayAppend(att: seq<Attendance>, a: Attendance, userId: int, day: string)
    requires FindOnDay(att, userId, day).None?
    requires OnDay(a, userId, day)
    ensures FindOnDay(att + [a], userId, day) == Some(|att|)
  {
    if |att| > 0 {
      assert (att + [a])[1..] == att[1..] + [a];
      FindOnDayAppend(att[1..], a, userId, day);
    }
  }

  /** `getAttendanceByUserDate.get(user_id, ts)`: the first row matching. */
  function FindSameDay(att: seq<Attendance>, userId: int, ts: string): (r: Option<nat>)
    ensures r.Some? ==> r.value < |att| && SameDayAs(att[r.value], userId, ts)
    ensures r.None? <==> forall i :: 0 <= i < |att| ==> !SameDayAs(att[i], userId, ts)
  {
    if DateOf(ts).None? then None else FindOnDay(att, userId, DateOf(ts).value)
  }

  /** The row the submission inserts: note, remark and remark author NULL. */
  function NewRecord(id: int, userId: int, ts: string): Attendance {
    Attendance(id, userId, ts, None, None, None, None, None)
  }

  /** Appending a row with no same-day sibling keeps one record per day. */
  lemma AppendOnePerDay(att: seq<Attendance>, a: Attendance)
    requires OnePerDay(att)
    requires forall i :: 0 <= i < |att| ==> !SameDayAs(att[i], a.userId, a.timestamp)
    ensures OnePerDay(att + [a])
  {
    var b := att + [a];
    forall i, j | 0 <= i < j < |b| && b[i].userId == b[j].userId && DateOf(b[i].timestamp).Some?
      ensures DateOf(b[i].timestamp) != DateOf(b[j].timestamp)
    {
      if j == |att| {
        assert !SameDayAs(att[i], a.userId, a.timestamp);
      } else {
        assert b[i] == att[i] && b[j] == att[j];
      }
    }
  }

  /** `POST /api/attendance`. Any authenticated caller may submit for any
      truthy `user_id`; the owner is not looked up. A row of the same user on
      the same SQLite date is answered with `already`; otherwise exactly one
      row is appended. */
  function SubmitAttendance(s: Db, auth: Option<Caller>, userId: Option<int>,
                            timestamp: Option<string>, now: string): (r: Step<Submitted>)
    ensures auth.None? ==> r == Step(Err(Unauthenticated), s)
    ensures auth.Some? && !TruthyId(userId) ==> r == Step(Err(BadRequest(MissingUserId)), s)
    ensures auth.Some? && TruthyId(userId) ==> r.result.Ok?
    ensures r.result.Ok? ==>
              && TruthyId(userId)
              && (r.result.value.already <==>
                    exists i :: 0 <= i < |s.attendance|
                                && SameDayAs(s.attendance[i], userId.value, Effective(timestamp, now)))
    ensures r.result.Ok? && r.result.value.already ==>
              && r.store == s
              && exists i :: 0 <= i < |s.attendance| && s.attendance[i].id == r.result.value.id
                             && SameDayAs(s.attendance[i], userId.value, Effective(timestamp, now))
    ensures r.result.Ok? && !r.result.value.already ==>
              && r.result.value.id == s.nextAttendanceId
              && r.store == s.(attendance := s.attendance + [NewRecord(r.result.value.id, userId.value, Effective(timestamp, now))],
                               nextAttendanceId := s.nextAttendanceId + 1)
    ensures Valid(s) && r.result.Ok? && !r.result.value.already ==>
              forall i :: 0 <= i < |s.attendance| ==> s.attendance[i].id != r.result.value.id
    ensures Valid(s) ==> Valid(r.store)
    ensures OnePerDay(s.attendance) ==> OnePerDay(r.store.attendance)
  {
    if auth.None? then Step(Err(Unauthenticated), s)
    else if !TruthyId(userId) then Step(Err(BadRequest(MissingUserId)), s)
    else
      var ts := Effective(timestamp, now);
      match FindSameDay(s.attendance, userId.value, ts)
      case Some(k) => Step(Ok(Submitted(s.attendance[k].id, true)), s)
      case None =>
        var a := NewRecord(s.nextAttendanceId, userId.value, ts);
        assert OnePerDay(s.attendance) ==> OnePerDay(s.attendance + [a]) by {
          if OnePerDay(s.attendance) {
            AppendOnePerDay(s.attendance, a);
          }
        }
        assert Valid(s) ==> Valid(s.(attendance := s.attendance + [a], nextAttendanceId := s.nextAttendanceId + 1)) by {
          assert forall i :: 0 <= i < |s.attendance| ==> (s.attendance + [a])[i] == s.attendance[i];
        }
        Step(Ok(Submitted(a.id, false)),
             s.(attendance := s.attendance + [a], nextAttendanceId := s.nextAttendanceId + 1))
  }

  /** Submitting twice for one user on one calendar date answers the same
      id, the second time with `already` and without touching the store. */
  lemma SubmitTwiceSameDay(s: Db, auth1: Caller, auth2: Caller, userId: int,
                           ts1: Option<string>, now1: string, ts2: Option<string>, now2: string)
    requires userId != 0
    requires DateOf(Effective(ts1, now1)).Some?
    requires DateOf(Effective(ts1, now1)) == DateOf(Effective(ts2, now2))
    ensures var first := SubmitAttendance(s, Some(auth1), Some(userId), ts1, now1);
            var second := SubmitAttendance(first.store, Some(auth2), Some(userId), ts2, now2);
            && second.result == Ok(Submitted(first.result.value.id, true))
            && second.store == first.store
  {
    var e1, e2 := Effective(ts1, now1), Effective(ts2, now2);
    var day := DateOf(e1).value;
    var first := SubmitAttendance(s, Some(auth1), Some(userId), ts1, now1);
    assert FindSameDay(s.attendance, userId, e1) == FindOnDay(s.attendance, userId, day);
    assert FindSameDay(first.store.attendance, userId, e2) == FindOnDay(first.store.attendance, userId, day);
    if FindOnDay(s.attendance, userId, day).None? {
      var a := NewRecord(s.nextAttendanceId, userId, e1);
      assert first.store.attendance == s.attendance + [a];
      FindOnDayAppend(s.attendance, a, userId, day);
    }
  }

  lemma {:induction false} CountOnDayPositive(att: seq<Attendance>, userId: int, day: string, k: nat)
    requires k < |att| && OnDay(att[k], userId, day)
    ensures CountOnDay(att, userId, day) >= 1
  {
    if k > 0 {
      CountOnDayPositive(att[1..], userId, day, k - 1);
    }
  }

  /** After a submission with a valid date the ledger holds exactly one row
      for that user on that date. */
  lemma SubmitLeavesExactlyOne(s: Db, auth: Caller, userId: int, timestamp: Option<string>, now: string)
    requires OnePerDay(s.attendance)
    requires userId != 0
    requires DateOf(Effective(timestamp, now)).Some?
    ensures var r := SubmitAttendance(s, Some(auth), Some(userId), timestamp, now);
            CountOnDay(r.store.attendance, userId, DateOf(Effective(timestamp, now)).value) == 1
  {
    var ts := Effective(timestamp, now);
    var day := DateOf(ts).value;
    var r := SubmitAttendance(s, Some(auth), Some(userId), timestamp, now);
    OnePerDayCount(r.store.attendance, userId, day);
    match FindSameDay(s.attendance, userId, ts)
    case Some(k) =>
      CountOnDayPositive(s.attendance, userId, day, k);
    case None =>
      var a := NewRecord(s.nextAttendanceId, userId, ts);
      assert r.store.attendance == s.attendance + [a];
      CountOnDayAppend(s.attendance, a, userId, day);
      CountOnDayZero(s.attendance, userId, day);
  }

  /** `POST /api/attendance/:id/remark`. Checks, in order: a caller (401), a
      truthy remark (400), an existing row (404), a student caller who owns
      the row (403), an empty existing remark (400). The update keeps the
      timestamp and note, records the author, and clears the edit stamp. */
  function AddRemark(s: Db, auth: Option<Caller>, id: int, remark: Option<string>): (r: Step<()>)
    ensures auth.None? ==> r.result == Err(Unauthenticated)
    ensures auth.Some? && !Truthy(remark) ==> r.result == Err(BadRequest(MissingRemark))
    ensures auth.Some? && Truthy(remark) && FindRecord(s.attendance, id).None? ==> r.result == Err(NotFound)
    ensures (auth.Some? && Truthy(remark) && FindRecord(s.attendance, id).Some?
             && (auth.value.role != Student
                 || auth.value.id != s.attendance[FindRecord(s.attendance, id).value].userId))
            ==> r.result == Err(Forbidden)
    ensures (auth.Some? && Truthy(remark) && FindRecord(s.attendance, id).Some?
             && auth.value.role == Student
             && auth.value.id == s.attendance[FindRecord(s.attendance, id).value].userId
             && Truthy(s.attendance[FindRecord(s.attendance, id).value].remark))
            ==> r.result == Err(BadRequest(RemarkExists))
    ensures (auth.Some? && Truthy(remark) && FindRecord(s.attendance, id).Some?
             && auth.value.role == Student
             && auth.value.id == s.attendance[FindRecord(s.attendance, id).value].userId
             && !Truthy(s.attendance[FindRecord(s.attendance, id).value].remark))
            ==> r.result.Ok?
    ensures r.result.Err? ==> r.store == s
    ensures r.result.Ok? ==>
              && auth.Some? && Truthy(remark) && FindRecord(s.attendance, id).Some?
              && var k := FindRecord(s.attendance, id).value;
              && OnlyRowChanged(s, r.store, k)
              && var before, after := s.attendance[k], r.store.attendance[k];
              && auth.value.role == Student && auth.value.id == before.userId
              && !Truthy(before.remark)
              && after.timestamp == before.timestamp && after.note == before.note
              && after.remark == remark && after.remarkBy == Some(auth.value.id)
              && after.editedBy.None? && after.editedAt.None?
    ensures Valid(s) ==> Valid(r.store)
    ensures OnePerDay(s.attendance) ==> OnePerDay(r.store.attendance)
  {
    if auth.None? then Step(Err(Unauthenticated), s)
    else if !Truthy(remark) then Step(Err(BadRequest(MissingRemark)), s)
    else match FindRecord(s.attendance, id)
      case None => Step(Err(NotFound), s)
      case Some(k) =>
        var a := s.attendance[k];
        if auth.value.role != Student || auth.value.id != a.userId then Step(Err(Forbidden), s)
        else if Truthy(a.remark) then Step(Err(BadRequest(RemarkExists)), s)
        else
          var s' := s.(attendance := s.attendance[k := a.(remark := remark, remarkBy := Some(auth.value.id),
                                                          editedBy := None, editedAt := None)]);
          OnlyRowChangedValid(s, s', k);
          OnlyRowChangedOnePerDay(s, s', k);
          Step(Ok(()), s')
  }

  /** A remark is written once: after one succeeds, every further attempt on
      that row fails and changes nothing; the owner is told the remark
      exists. */
  lemma RemarkWriteOnce(s: Db, author: Option<Caller>, id: int, text: Option<string>,
                        other: Option<Caller>, text2: Option<string>)
    requires AddRemark(s, author, id, text).result.Ok?
    ensures var s1 := AddRemark(s, author, id, text).store;
            var second := AddRemark(s1, other, id, text2);
            && second.result.Err?
            && second.store == s1
            && (other == author && Truthy(text2) ==> second.result == Err(BadRequest(RemarkExists)))
  {
    var k := FindRecord(s.attendance, id).value;
    var s1 := AddRemark(s, author, id, text).store;
    FindRecordAfterUpdate(s.attendance, id, k, s1.attendance[k]);
    assert s1.attendance == s.attendance[k := s1.attendance[k]];
  }

  /** `PUT /api/attendance/:id`. Checks, in order: a caller (401), the teacher
      role (403), an existing row (404). A truthy timestamp, note or remark
      replaces the stored one; a missing or empty one keeps it. The remark
      author is kept; the editor and the supplied time are stamped. */
  function EditAttendance(s: Db, auth: Option<Caller>, id: int, timestamp: Option<string>,
                          note: Option<string>, remark: Option<string>, now: string): (r: Step<()>)
    ensures auth.None? ==> r.result == Err(Unauthenticated)
    ensures auth.Some? && auth.value.role != Teacher ==> r.result == Err(Forbidden)
    ensures auth.Some? && auth.value.role == Teacher && FindRecord(s.attendance, id).None?
            ==> r.result == Err(NotFound)
    ensures auth.Some? && auth.value.role == Teacher && FindRecord(s.attendance, id).Some?
            ==> r.result.Ok?
    ensures r.result.Err? ==> r.store == s
    ensures r.result.Ok? ==>
              && auth.Some? && auth.value.role == Teacher && FindRecord(s.attendance, id).Some?
              && var k := FindRecord(s.attendance, id).value;
              && OnlyRowChanged(s, r.store, k)
              && var before, after := s.attendance[k], r.store.attendance[k];
              && (Truthy(timestamp) ==> after.timestamp == timestamp.value)
              && (!Truthy(timestamp) ==> after.timestamp == before.timestamp)
              && (Truthy(note) ==> after.note == note)
              && (!Truthy(note) ==> after.note == before.note)
              && (Truthy(remark) ==> after.remark == remark)
              && (!Truthy(remark) ==> after.remark == before.remark)
              && after.remarkBy == before.remarkBy
              && after.editedBy == Some(auth.value.id) && after.editedAt == Some(now)
    ensures Valid(s) ==> Valid(r.store)
  {
    if auth.None? then Step(Err(Unauthenticated), s)
    else if auth.value.role != Teacher then Step(Err(Forbidden), s)
    else match FindRecord(s.attendance, id)
      case None => Step(Err(NotFound), s)
      case Some(k) =>
        var a := s.attendance[k];
        var edited := a.(timestamp := OrText(timestamp, a.timestamp),
                         note := OrNullable(note, a.note),
                         remark := OrNullable(remark, a.remark),
                         editedBy := Some(auth.value.id), editedAt := Some(now));
        var s' := s.(attendance := s.attendance[k := edited]);
        OnlyRowChangedValid(s, s', k);
        Step(Ok(()), s')
  }

  /** Reading a row back after an edit shows each submitted truthy field and
      the previous value of every other one. */
  lemma EditThenRead(s: Db, auth: Option<Caller>, id: int, timestamp: Option<string>,
                     note: Option<string>, remark: Option<string>, now: string)
    requires EditAttendance(s, auth, id, timestamp, note, remark, now).result.Ok?
    ensures var before := s.attendance[FindRecord(s.attendance, id).value];
            var s1 := EditAttendance(s, auth, id, timestamp, note, remark, now).store;
            && FindRecord(s1.attendance, id) == FindRecord(s.attendance, id)
            && var after := s1.attendance[FindRecord(s1.attendance, id).value];
            && after.id == id && after.userId == before.userId
            && after.timestamp == (if Truthy(timestamp) then timestamp.value else before.timestamp)
            && after.note == (if Truthy(note) then note else before.note)
            && after.remark == (if Truthy(remark) then remark else before.remark)
  {
    var k := FindRecord(s.attendance, id).value;
    var s1 := EditAttendance(s, auth, id, timestamp, note, remark, now).store;
    FindRecordAfterUpdate(s.attendance, id, k, s1.attendance[k]);
    assert s1.attendance == s.attendance[k := s1.attendance[k]];
  }

  /** An edit that keeps the row's calendar date keeps one record per day. */
  lemma EditKeepingDateKeepsOnePerDay(s: Db, auth: Option<Caller>, id: int, timestamp: Option<string>,
                                      note: Option<string>, remark: Option<string>, now: string)
    requires OnePerDay(s.attendance)
    requires EditAttendance(s, auth, id, timestamp, note, remark, now).result.Ok?
    requires Truthy(timestamp) ==>
               DateOf(timestamp.value) == DateOf(s.attendance[FindRecord(s.attendance, id).value].timestamp)
    ensures OnePerDay(EditAttendance(s, auth, id, timestamp, note, remark, now).store.attendance)
  {
    var k := FindRecord(s.attendance, id).value;
    OnlyRowChangedOnePerDay(s, EditAttendance(s, auth, id, timestamp, note, remark, now).store, k);
  }

  /** A teacher edit may move a row onto a date its owner already has a row
      for; the submission check is never re-run, and the ledger then holds
      two rows for that (user, date). */
  lemma EditOntoTakenDateBreaksOnePerDay(s: Db, auth: Option<Caller>, id: int, timestamp: Option<string>,
                                         note: Option<string>, remark: Option<string>, now: string, j: nat)
    requires EditAttendance(s, auth, id, timestamp, note, remark, now).result.Ok?
    requires j < |s.attendance| && j != FindRecord(s.attendance, id).value
    requires s.attendance[j].userId == s.attendance[FindRecord(s.attendance, id).value].userId
    requires Truthy(timestamp) && DateOf(timestamp.value).Some?
    requires DateOf(timestamp.value) == DateOf(s.attendance[j].timestamp)
    ensures !OnePerDay(EditAttendance(s, auth, id, timestamp, note, remark, now).store.attendance)
  {
    var k := FindRecord(s.attendance, id).value;
    var b := EditAttendance(s, auth, id, timestamp, note, remark, now).store.attendance;
    assert b[j] == s.attendance[j];
    if j < k {
      assert b[j].userId == b[k].userId && DateOf(b[j].timestamp) == DateOf(b[k].timestamp);
    } else {
      assert b[k].userId == b[j].userId && DateOf(b[k].timestamp) == DateOf(b[j].timestamp);
    }
  }

  /** A teacher who writes a remark first leaves the owning student unable
      to add one. */
  lemma TeacherRemarkBlocksStudent(s: Db, teacher: Caller, id: int, text: string, now: string,
                                   student: Caller, studentText: string)
    requires teacher.role == Teacher && text != ""
    requires FindRecord(s.attendance, id).Some?
    requires student.role == Student && student.id == s.attendance[FindRecord(s.attendance, id).value].userId
    requires studentText != ""
    ensures var s1 := EditAttendance(s, Some(teacher), id, None, None, Some(text), now).store;
            AddRemark(s1, Some(student), id, Some(studentText)).result == Err(BadRequest(RemarkExists))
  {
    var k := FindRecord(s.attendance, id).value;
    var s1 := EditAttendance(s, Some(teacher), id, None, None, Some(text), now).store;
    FindRecordAfterUpdate(s.attendance, id, k, s1.attendance[k]);
    assert s1.attendance == s.attendance[k := s1.attendance[k]];
  }
}
