/** Reading the ledger back: `GET /api/attendance` (scoped by role, newest
    first) and the date-scoped CSV export (oldest first), shared by
    `GET /api/export-attendance`, `POST /api/trigger-daily-export` and the
    daily export script. */
module Reports {
  import opened Wrappers
  import opened Text
  import opened Seqs
  import opened Store
  import opened Ledger

  /** The three JSON row shapes of the listing: a student's own rows carry
      the remark author, class-filtered rows carry the class. */
  datatype AttendanceRow =
    | OwnRow(id: int, name: string, timestamp: string, note: Option<string>,
             remark: Option<string>, remarkBy: Option<int>)
    | ClassRow(id: int, name: string, klass: Option<string>, timestamp: string,
               note: Option<string>, remark: Option<string>)
    | AllRow(id: int, name: string, timestamp: string, note: Option<string>,
             remark: Option<string>)

  function TimestampOf(j: Joined): string {
    j.rec.timestamp
  }

  predicate OwnedBy(j: Joined, userId: int) {
    j.rec.userId == userId
  }

  predicate InClass(j: Joined, klass: string) {
    j.owner.klass == Some(klass)
  }

  predicate OnDate(j: Joined, date: string) {
    DateOf(j.rec.timestamp) == Some(date)
  }

  /** The joined rows the listing shows `caller`, newest first: a student's
      own rows; otherwise the rows of owners in the truthy class filter, or
      every row. The role is read from the token, and no role is required. */
  function Visible(s: Db, caller: Caller, klass: Option<string>): (r: seq<Joined>)
    ensures SortedBy(r, TimestampOf, true)
    ensures caller.role == Student ==>
              && (forall j :: j in r <==> j in Join(s.attendance, s.users) && j.rec.userId == caller.id)
              && multiset(r) <= multiset(Join(s.attendance, s.users))
    ensures caller.role != Student && Truthy(klass) ==>
              && (forall j :: j in r <==> j in Join(s.attendance, s.users) && j.owner.klass == klass)
              && multiset(r) <= multiset(Join(s.attendance, s.users))
    ensures caller.role != Student && !Truthy(klass) ==>
              multiset(r) == multiset(Join(s.attendance, s.users))
  {
    var all := Join(s.attendance, s.users);
    var picked :=
      if caller.role == Student then Select(all, OwnedBy, caller.id)
      else if Truthy(klass) then Select(all, InClass, klass.value)
      else all;
    SortSameRows(picked, TimestampOf, true);
    Sort(picked, TimestampOf, true)
  }

  /** The JSON row of a joined record: a student's shape carries the remark
      author, a class-filtered one the owner's class; the owner's name comes
      from the join. */
  function RowOf(caller: Caller, klass: Option<string>, j: Joined): (r: AttendanceRow)
    ensures r.id == j.rec.id && r.name == j.owner.name && r.timestamp == j.rec.timestamp
    ensures r.note == j.rec.note && r.remark == j.rec.remark
    ensures r.OwnRow? <==> caller.role == Student
    ensures r.ClassRow? <==> caller.role != Student && Truthy(klass)
    ensures r.OwnRow? ==> r.remarkBy == j.rec.remarkBy
    ensures r.ClassRow? ==> r.klass == j.owner.klass
  {
    var a := j.rec;
    if caller.role == Student then OwnRow(a.id, j.owner.name, a.timestamp, a.note, a.remark, a.remarkBy)
    else if Truthy(klass) then ClassRow(a.id, j.owner.name, j.owner.klass, a.timestamp, a.note, a.remark)
    else AllRow(a.id, j.owner.name, a.timestamp, a.note, a.remark)
  }

  /** `GET /api/attendance`: the visible rows in their JSON shape. */
  function ListAttendance(s: Db, auth: Option<Caller>, klass: Option<string>): (r: Result<seq<AttendanceRow>>)
    ensures auth.None? <==> r == Err(Unauthenticated)
    ensures r.Ok? ==>
              && |r.value| == |Visible(s, auth.value, klass)|
              && forall i :: 0 <= i < |r.value| ==> r.value[i] == RowOf(auth.value, klass, Visible(s, auth.value, klass)[i])
  {
    if auth.None? then Err(Unauthenticated)
    else
      var v := Visible(s, auth.value, klass);
      Ok(seq(|v|, i requires 0 <= i < |v| => RowOf(auth.value, klass, v[i])))
  }

  /** The listing is newest first, and a class-filtered listing only shows
      owners of that class. */
  lemma ListingOrderAndClass(s: Db, caller: Caller, klass: Option<string>)
    ensures var rows := ListAttendance(s, Some(caller), klass).value;
            && (forall i, j :: 0 <= i < j < |rows| ==> LexLe(rows[j].timestamp, rows[i].timestamp))
            && (caller.role != Student && Truthy(klass) ==>
                  forall i :: 0 <= i < |rows| ==> rows[i].ClassRow? && rows[i].klass == klass)
  {
    var v := Visible(s, caller, klass);
    var rows := ListAttendance(s, Some(caller), klass).value;
    forall i, j | 0 <= i < j < |rows|
      ensures LexLe(rows[j].timestamp, rows[i].timestamp)
    {
      assert Precedes(TimestampOf(v[i]), TimestampOf(v[j]), true);
      assert rows[i].timestamp == v[i].rec.timestamp && rows[j].timestamp == v[j].rec.timestamp;
    }
    if caller.role != Student && Truthy(klass) {
      forall i | 0 <= i < |rows|
        ensures rows[i].ClassRow? && rows[i].klass == klass
      {
        assert v[i] in v;
      }
    }
  }

  /** A student's listing holds a row for each of their own records whose
      owner row exists. */
  lemma StudentListsOwnRows(s: Db, student: Caller, k: nat)
    requires student.role == Student
    requires k < |s.attendance| && s.attendance[k].userId == student.id
    requires FindUser(s.users, student.id).Some?
    ensures exists i :: 0 <= i < |ListAttendance(s, Some(student), None).value|
                        && ListAttendance(s, Some(student), None).value[i].id == s.attendance[k].id
  {
    var v := Visible(s, student, None);
    var j := Joined(s.attendance[k], FindUser(s.users, student.id).value);
    assert j in Join(s.attendance, s.users);
    assert j in v;
    var i :| 0 <= i < |v| && v[i] == j;
    assert ListAttendance(s, Some(student), None).value[i] == RowOf(student, None, j);
  }

  /** Every row of a student's listing is one of their own records. */
  lemma StudentSeesOnlyOwnRecords(s: Db, student: Caller, klass: Option<string>, i: nat)
    requires student.role == Student
    requires i < |ListAttendance(s, Some(student), klass).value|
    ensures ListAttendance(s, Some(student), klass).value[i].OwnRow?
    ensures exists k :: 0 <= k < |s.attendance|
                        && s.attendance[k].id == ListAttendance(s, Some(student), klass).value[i].id
                        && s.attendance[k].userId == student.id
  {
    var v := Visible(s, student, klass);
    assert v[i] in v;
    var k :| 0 <= k < |s.attendance| && s.attendance[k] == v[i].rec;
    assert ListAttendance(s, Some(student), klass).value[i] == RowOf(student, klass, v[i]);
  }

  /** One CSV line: columns `id, name, timestamp, note, remark`. */
  datatype ExportRow = ExportRow(id: int, name: string, timestamp: string,
                                 note: Option<string>, remark: Option<string>)

  /** `req.query.date || new Date().toISOString().slice(0, 10)`. */
  function ExportDate(date: Option<string>, now: string): (r: string)
    ensures Truthy(date) ==> r == date.value
    ensures !Truthy(date) && DateOf(now).Some? ==> DateOf(now) == Some(r)
  {
    assert DateOf(now).Some? ==> DateOf(now) == Some(Prefix10(now)) by {
      if DateOf(now).Some? { SliceIsDate(now); }
    }
    OrText(date, Prefix10(now))
  }

  /** `WHERE date(a.timestamp) = ? ORDER BY a.timestamp ASC` over the join;
      the date parameter is compared as given, not normalised. */
  function ExportSelection(s: Db, date: string): (r: seq<Joined>)
    ensures SortedBy(r, TimestampOf, false)
    ensures forall j :: j in r <==>
              && j.rec in s.attendance
              && DateOf(j.rec.timestamp) == Some(date)
              && FindUser(s.users, j.rec.userId) == Some(j.owner)
    ensures multiset(r) == multiset(Select(Join(s.attendance, s.users), OnDate, date))
  {
    var picked := Select(Join(s.attendance, s.users), OnDate, date);
    SortSameRows(picked, TimestampOf, false);
    Sort(picked, TimestampOf, false)
  }

  function ExportRowOf(j: Joined): ExportRow {
    ExportRow(j.rec.id, j.owner.name, j.rec.timestamp, j.rec.note, j.rec.remark)
  }

  /** One CSV line per selected record, in order. */
  function ExportLines(v: seq<Joined>): (r: seq<ExportRow>)
    ensures |r| == |v|
    ensures forall i :: 0 <= i < |r| ==> r[i] == ExportRowOf(v[i])
  {
    seq(|v|, i requires 0 <= i < |v| => ExportRowOf(v[i]))
  }

  /** The rows of the CSV for `date`. */
  function ExportRows(s: Db, date: string): (r: seq<ExportRow>)
    ensures |r| == |ExportSelection(s, date)|
    ensures forall i :: 0 <= i < |r| ==> r[i] == ExportRowOf(ExportSelection(s, date)[i])
  {
    ExportLines(ExportSelection(s, date))
  }

  /** The CSV for `date` is oldest first. */
  lemma ExportRowsAscending(s: Db, date: string)
    ensures forall i, j :: 0 <= i < j < |ExportRows(s, date)| ==>
              LexLe(ExportRows(s, date)[i].timestamp, ExportRows(s, date)[j].timestamp)
  {
    var v := ExportSelection(s, date);
    var rows := ExportRows(s, date);
    forall i, j | 0 <= i < j < |rows|
      ensures LexLe(rows[i].timestamp, rows[j].timestamp)
    {
      assert Precedes(TimestampOf(v[i]), TimestampOf(v[j]), false);
    }
  }

  /** Every line of the CSV for `date` is a record on that calendar date. */
  lemma ExportRowsOnDate(s: Db, date: string, i: nat)
    requires i < |ExportRows(s, date)|
    ensures exists k :: 0 <= k < |s.attendance| && s.attendance[k].id == ExportRows(s, date)[i].id
                        && s.attendance[k].timestamp == ExportRows(s, date)[i].timestamp
                        && DateOf(s.attendance[k].timestamp) == Some(date)
  {
    var v := ExportSelection(s, date);
    assert v[i] in v;
    var k :| 0 <= k < |s.attendance| && s.attendance[k] == v[i].rec;
    assert ExportRows(s, date)[i] == ExportRowOf(v[i]);
  }

  /** Every record on `date` whose owner exists has a line in its CSV. */
  lemma ExportRowsComplete(s: Db, date: string, k: nat)
    requires k < |s.attendance| && DateOf(s.attendance[k].timestamp) == Some(date)
    requires FindUser(s.users, s.attendance[k].userId).Some?
    ensures exists i :: 0 <= i < |ExportRows(s, date)| && ExportRows(s, date)[i].id == s.attendance[k].id
  {
    var v := ExportSelection(s, date);
    var j := Joined(s.attendance[k], FindUser(s.users, s.attendance[k].userId).value);
    assert j in v;
    var i :| 0 <= i < |v| && v[i] == j;
    assert ExportRows(s, date)[i] == ExportRowOf(j);
  }

  /** `GET /api/export-attendance`: teachers only. */
  function Export(s: Db, auth: Option<Caller>, date: Option<string>, now: string): (r: Result<seq<ExportRow>>)
    ensures auth.None? ==> r == Err(Unauthenticated)
    ensures auth.Some? && auth.value.role != Teacher ==> r == Err(Forbidden)
    ensures auth.Some? && auth.value.role == Teacher ==> r == Ok(ExportRows(s, ExportDate(date, now)))
  {
    if auth.None? then Err(Unauthenticated)
    else if auth.value.role != Teacher then Err(Forbidden)
    else Ok(ExportRows(s, ExportDate(date, now)))
  }

  /** What the server-side export writes and where. */
  datatype ExportFile = ExportFile(path: string, rows: seq<ExportRow>)

  /** `POST /api/trigger-daily-export`: today's rows, written to
      `exports/attendance-<date>.csv`. */
  function TriggerDailyExport(s: Db, auth: Option<Caller>, now: string): (r: Result<ExportFile>)
    ensures r.Ok? ==> r.value.path == "exports/attendance-" + Prefix10(now) + ".csv"
    ensures r.Ok? <==> Export(s, auth, None, now).Ok?
    ensures r.Ok? ==> Export(s, auth, None, now) == Ok(r.value.rows)
    ensures r.Err? ==> Export(s, auth, None, now) == Err(r.error)
  {
    if auth.None? then Err(Unauthenticated)
    else if auth.value.role != Teacher then Err(Forbidden)
    else Ok(ExportFile("exports/attendance-" + Prefix10(now) + ".csv", ExportRows(s, Prefix10(now))))
  }

  /** A stored record on `date` whose owner exists is selected for export. */
  lemma InExport(s: Db, a: Attendance, owner: User, date: string)
    requires a in s.attendance && DateOf(a.timestamp) == Some(date)
    requires FindUser(s.users, a.userId) == Some(owner)
    ensures Joined(a, owner) in ExportSelection(s, date)
  {
  }

  /** A successful submission for an existing user is in the export of its
      calendar date: the row answered, whether new or already there. */
  lemma SubmittedIsExported(s: Db, auth: Caller, userId: int, timestamp: Option<string>, now: string)
    requires userId != 0
    requires DateOf(Effective(timestamp, now)).Some?
    requires FindUser(s.users, userId).Some?
    ensures exists j :: j in ExportSelection(SubmitAttendance(s, Some(auth), Some(userId), timestamp, now).store,
                                             DateOf(Effective(timestamp, now)).value)
                        && j.rec.id == SubmitAttendance(s, Some(auth), Some(userId), timestamp, now).result.value.id
                        && j.rec.userId == userId
  {
    var ts := Effective(timestamp, now);
    var day := DateOf(ts).value;
    var r := SubmitAttendance(s, Some(auth), Some(userId), timestamp, now);
    var owner := FindUser(s.users, userId).value;
    match FindSameDay(s.attendance, userId, ts)
    case Some(k) =>
      assert r.store == s && r.result.value.id == s.attendance[k].id;
      assert s.attendance[k] in s.attendance && OnDay(s.attendance[k], userId, day);
      InExport(s, s.attendance[k], owner, day);
    case None =>
      var a := NewRecord(s.nextAttendanceId, userId, ts);
      assert r.store.attendance == s.attendance + [a] && r.store.users == s.users;
      assert a in r.store.attendance;
      InExport(r.store, a, owner, day);
  }

  /** A selected record has a line in the CSV. */
  lemma LineFor(s: Db, date: string, j: Joined)
    requires j in ExportSelection(s, date)
    ensures exists i :: 0 <= i < |ExportRows(s, date)| && ExportRows(s, date)[i].id == j.rec.id
  {
    var v := ExportSelection(s, date);
    var i :| 0 <= i < |v| && v[i] == j;
    assert ExportRows(s, date)[i] == ExportRowOf(j);
  }

  /** A submission without a timestamp at time `now` is in the daily export
      triggered at `now`. */
  lemma SubmittedNowIsInDailyExport(s: Db, auth: Caller, teacher: Caller, userId: int, now: string)
    requires userId != 0 && teacher.role == Teacher
    requires DateOf(now).Some?
    requires FindUser(s.users, userId).Some?
    ensures TriggerDailyExport(SubmitAttendance(s, Some(auth), Some(userId), None, now).store, Some(teacher), now).Ok?
    ensures exists i :: 0 <= i < |TriggerDailyExport(SubmitAttendance(s, Some(auth), Some(userId), None, now).store, Some(teacher), now).value.rows|
                        && TriggerDailyExport(SubmitAttendance(s, Some(auth), Some(userId), None, now).store, Some(teacher), now).value.rows[i].id
                           == SubmitAttendance(s, Some(auth), Some(userId), None, now).result.value.id
  {
    SliceIsDate(now);
    var r := SubmitAttendance(s, Some(auth), Some(userId), None, now);
    var day := Prefix10(now);
    assert Effective(None, now) == now;
    SubmittedIsExported(s, auth, userId, None, now);
    var j :| j in ExportSelection(r.store, day) && j.rec.id == r.result.value.id && j.rec.userId == userId;
    LineFor(r.store, day, j);
    assert TriggerDailyExport(r.store, Some(teacher), now).value.rows == ExportRows(r.store, day);
  }

  /** Every line of the CSV for `date` is a stored record on that date. */
  lemma AllRowsOnDate(s: Db, date: string)
    ensures forall i :: 0 <= i < |ExportRows(s, date)| ==>
              exists k :: 0 <= k < |s.attendance| && s.attendance[k].id == ExportRows(s, date)[i].id
                          && DateOf(s.attendance[k].timestamp) == Some(date)
  {
    var rows := ExportRows(s, date);
    forall i | 0 <= i < |rows|
      ensures exists k :: 0 <= k < |s.attendance| && s.attendance[k].id == rows[i].id
                          && DateOf(s.attendance[k].timestamp) == Some(date)
    {
      ExportRowsOnDate(s, date, i);
    }
  }

  /** Every record on `date` whose owner exists has a line in the CSV. */
  lemma AllRecordsExported(s: Db, date: string)
    ensures forall k :: 0 <= k < |s.attendance| && DateOf(s.attendance[k].timestamp) == Some(date)
                        && FindUser(s.users, s.attendance[k].userId).Some?
              ==> exists i :: 0 <= i < |ExportRows(s, date)| && ExportRows(s, date)[i].id == s.attendance[k].id
  {
    forall k | 0 <= k < |s.attendance| && DateOf(s.attendance[k].timestamp) == Some(date)
               && FindUser(s.users, s.attendance[k].userId).Some?
      ensures exists i :: 0 <= i < |ExportRows(s, date)| && ExportRows(s, date)[i].id == s.attendance[k].id
    {
      ExportRowsComplete(s, date, k);
    }
  }

  /** The standalone daily export: the date is the first command-line
      argument when it is truthy, else today; the file is named after it.
      It runs the teacher export's query, so its lines are exactly what a
      teacher's export of that date answers: oldest first, one per record
      of that date whose owner exists. */
  function ExportDaily(s: Db, arg: Option<string>, now: string): (r: ExportFile)
    ensures Truthy(arg) ==> r.path == "exports/attendance-" + arg.value + ".csv"
    ensures !Truthy(arg) ==> r.path == "exports/attendance-" + Prefix10(now) + ".csv"
    ensures forall i, j :: 0 <= i < j < |r.rows| ==> LexLe(r.rows[i].timestamp, r.rows[j].timestamp)
    ensures forall i :: 0 <= i < |r.rows| ==>
              exists k :: 0 <= k < |s.attendance| && s.attendance[k].id == r.rows[i].id
                          && DateOf(s.attendance[k].timestamp) == Some(ExportDate(arg, now))
    ensures forall k :: 0 <= k < |s.attendance| && DateOf(s.attendance[k].timestamp) == Some(ExportDate(arg, now))
                        && FindUser(s.users, s.attendance[k].userId).Some?
              ==> exists i :: 0 <= i < |r.rows| && r.rows[i].id == s.attendance[k].id
    ensures forall t: Caller :: t.role == Teacher ==> Export(s, Some(t), arg, now) == Ok(r.rows)
  {
    var date := ExportDate(arg, now);
    ExportRowsAscending(s, date);
    AllRowsOnDate(s, date);
    AllRecordsExported(s, date);
    ExportFile("exports/attendance-" + date + ".csv", ExportRows(s, date))
  }

  /** Run without an argument, the script writes the same file, with the same
      rows, as a teacher's trigger at the same moment. */
  lemma ExportDailyMatchesTrigger(s: Db, teacher: Caller, now: string)
    requires teacher.role == Teacher
    ensures TriggerDailyExport(s, Some(teacher), now) == Ok(ExportDaily(s, None, now))
  {
    assert ExportDate(None, now) == Prefix10(now);
  }
}
