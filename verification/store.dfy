/** The relational store behind the backend: the `users`, `descriptors` and
    `attendance` tables, the token claims a caller presents, and the error
    outcomes a handler can answer with. */
module Store {
  import opened Wrappers
  import opened Text

  /** A face descriptor as the browser computes it: an opaque list of numbers,
      stored as JSON text and parsed back unchanged. */
  type Vector = seq<real>

  /** A `users` row. `passwordHash` is NULL for accounts created without a
      password. */
  datatype User = User(id: int, name: string, email: Option<string>,
                       passwordHash: Option<string>, role: string,
                       klass: Option<string>, photoPath: Option<string>)

  /** A `descriptors` row. */
  datatype Descriptor = Descriptor(id: int, userId: int, vector: Vector)

  /** An `attendance` row. */
  datatype Attendance = Attendance(id: int, userId: int, timestamp: string,
                                   note: Option<string>, remark: Option<string>,
                                   remarkBy: Option<int>, editedBy: Option<int>,
                                   editedAt: Option<string>)

  /** The three tables in row order, with each table's AUTOINCREMENT counter. */
  datatype Db = Db(users: seq<User>, descriptors: seq<Descriptor>,
                         attendance: seq<Attendance>, nextUserId: int,
                         nextDescriptorId: int, nextAttendanceId: int)

  /** The claims of a verified bearer token, copied from the user row at login
      and never re-read from the store. */
  datatype Caller = Caller(id: int, role: string, name: string, klass: Option<string>)

  const Teacher: string := "teacher"
  const Student: string := "student"

  /** Why a request was answered with 400. */
  datatype Reason =
    | MissingFields
    | MissingUserId
    | MissingRemark
    | MissingClass
    | UnknownUser
    | NotAStudent
    | RemarkExists

  datatype ApiError =
    | BadRequest(reason: Reason)
    | Unauthenticated
    | Forbidden
    | NotFound
    | Internal

  /** The HTTP status each outcome is sent with. */
  function Status(e: ApiError): int {
    match e
    case BadRequest(_) => 400
    case Unauthenticated => 401
    case Forbidden => 403
    case NotFound => 404
    case Internal => 500
  }

  datatype Result<T> = Ok(value: T) | Err(error: ApiError)

  /** What a state-changing handler answers, and the store afterwards. */
  datatype Step<T> = Step(result: Result<T>, store: Db)

  /** A freshly created database. */
  const Empty: Db := Db([], [], [], 1, 1, 1)

  ghost predicate UsersNumbered(us: seq<User>, next: int) {
    && 0 < next
    && (forall i :: 0 <= i < |us| ==> 0 < us[i].id < next)
    && (forall i, j :: 0 <= i < j < |us| ==> us[i].id < us[j].id)
  }

  ghost predicate DescriptorsNumbered(ds: seq<Descriptor>, next: int) {
    && 0 < next
    && (forall i :: 0 <= i < |ds| ==> 0 < ds[i].id < next)
    && (forall i, j :: 0 <= i < j < |ds| ==> ds[i].id < ds[j].id)
  }

  ghost predicate AttendanceNumbered(att: seq<Attendance>, next: int) {
    && 0 < next
    && (forall i :: 0 <= i < |att| ==> 0 < att[i].id < next)
    && (forall i, j :: 0 <= i < j < |att| ==> att[i].id < att[j].id)
  }

  /** `email TEXT UNIQUE`: SQLite admits any number of NULL emails. */
  ghost predicate EmailsUnique(us: seq<User>) {
    forall i, j :: 0 <= i < j < |us| && us[i].email.Some? ==> us[i].email != us[j].email
  }

  /** The store as AUTOINCREMENT primary keys and the UNIQUE constraint keep it:
      every table in ascending id order, every id below its counter. */
  ghost predicate Valid(s: Db) {
    && UsersNumbered(s.users, s.nextUserId)
    && DescriptorsNumbered(s.descriptors, s.nextDescriptorId)
    && AttendanceNumbered(s.attendance, s.nextAttendanceId)
    && EmailsUnique(s.users)
  }

  lemma EmptyIsValid()
    ensures Valid(Empty)
  {
  }

  /** Appending a user under the next id with an unused (or NULL) email keeps
      the store valid. */
  lemma AddUserValid(s: Db, u: User)
    requires Valid(s)
    requires u.id == s.nextUserId
    requires u.email.Some? ==> forall i :: 0 <= i < |s.users| ==> s.users[i].email != u.email
    ensures Valid(s.(users := s.users + [u], nextUserId := s.nextUserId + 1))
  {
    var us := s.users + [u];
    assert forall i :: 0 <= i < |s.users| ==> us[i] == s.users[i];
    assert forall i :: 0 <= i < |s.users| ==> us[i].id < u.id;
  }

  /** `SELECT * FROM users WHERE id = ?`. */
  function FindUser(us: seq<User>, id: int): (r: Option<User>)
    ensures r.Some? ==> r.value in us && r.value.id == id
    ensures r.None? <==> forall u :: u in us ==> u.id != id
  {
    if |us| == 0 then None
    else if us[0].id == id then Some(us[0])
    else
      assert us == [us[0]] + us[1..];
      FindUser(us[1..], id)
  }

  /** `SELECT * FROM attendance WHERE id = ?`: the position of the row. */
  function FindRecord(att: seq<Attendance>, id: int): (r: Option<nat>)
    ensures r.Some? ==> r.value < |att| && att[r.value].id == id
    ensures r.Some? ==> forall i :: 0 <= i < r.value ==> att[i].id != id
    ensures r.None? ==> forall i :: 0 <= i < |att| ==> att[i].id != id
  {
    if |att| == 0 then None
    else if att[0].id == id then Some(0)
    else
      match FindRecord(att[1..], id)
      case None => None
      case Some(k) => Some(k + 1)
  }

  /** Replacing the row at `k` by one with the same id leaves it the row found. */
  lemma FindRecordAfterUpdate(att: seq<Attendance>, id: int, k: nat, a: Attendance)
    requires FindRecord(att, id) == Some(k)
    requires a.id == id
    ensures FindRecord(att[k := a], id) == Some(k)
  {
    var att' := att[k := a];
    assert att'[k].id == id;
    assert forall i :: 0 <= i < k ==> att'[i] == att[i];
  }

  /** The row is for `userId` and its timestamp falls on `day`. */
  predicate OnDay(a: Attendance, userId: int, day: string) {
    a.userId == userId && DateOf(a.timestamp) == Some(day)
  }

  /** At most one record per (user, calendar date). Rows whose timestamp has
      no SQLite date never take part. */
  ghost predicate OnePerDay(att: seq<Attendance>) {
    forall i, j ::
      0 <= i < j < |att| && att[i].userId == att[j].userId && DateOf(att[i].timestamp).Some?
      ==> DateOf(att[i].timestamp) != DateOf(att[j].timestamp)
  }

  /** The number of records of `userId` on `day`. */
  function CountOnDay(att: seq<Attendance>, userId: int, day: string): nat {
    if |att| == 0 then 0
    else (if OnDay(att[0], userId, day) then 1 else 0) + CountOnDay(att[1..], userId, day)
  }

  lemma {:induction false} CountOnDayAppend(att: seq<Attendance>, a: Attendance, userId: int, day: string)
    ensures CountOnDay(att + [a], userId, day)
         == CountOnDay(att, userId, day) + (if OnDay(a, userId, day) then 1 else 0)
  {
    if |att| > 0 {
      assert (att + [a])[1..] == att[1..] + [a];
      CountOnDayAppend(att[1..], a, userId, day);
    }
  }

  lemma {:induction false} CountOnDayZero(att: seq<Attendance>, userId: int, day: string)
    requires forall i :: 0 <= i < |att| ==> !OnDay(att[i], userId, day)
    ensures CountOnDay(att, userId, day) == 0
  {
    if |att| > 0 {
      CountOnDayZero(att[1..], userId, day);
    }
  }

  /** Under the one-per-day invariant a (user, date) pair has at most one row. */
  lemma {:induction false} OnePerDayCount(att: seq<Attendance>, userId: int, day: string)
    requires OnePerDay(att)
    ensures CountOnDay(att, userId, day) <= 1
  {
    if |att| > 0 {
      assert OnePerDay(att[1..]) by {
        forall i, j | 0 <= i < j < |att[1..]|
          ensures att[1..][i].userId == att[1..][j].userId && DateOf(att[1..][i].timestamp).Some?
                  ==> DateOf(att[1..][i].timestamp) != DateOf(att[1..][j].timestamp)
        {
          assert att[1..][i] == att[i + 1] && att[1..][j] == att[j + 1];
        }
      }
      OnePerDayCount(att[1..], userId, day);
      if OnDay(att[0], userId, day) {
        forall i | 0 <= i < |att[1..]|
          ensures !OnDay(att[1..][i], userId, day)
        {
          assert att[1..][i] == att[i + 1];
        }
        CountOnDayZero(att[1..], userId, day);
      }
    }
  }

  /** `s'` differs from `s` at most in attendance row `k`, which keeps its id
      and owner. */
  ghost predicate OnlyRowChanged(s: Db, s': Db, k: nat) {
    && s'.users == s.users && s'.descriptors == s.descriptors
    && s'.nextUserId == s.nextUserId && s'.nextDescriptorId == s.nextDescriptorId
    && s'.nextAttendanceId == s.nextAttendanceId
    && |s'.attendance| == |s.attendance| && k < |s.attendance|
    && (forall i :: 0 <= i < |s.attendance| && i != k ==> s'.attendance[i] == s.attendance[i])
    && s'.attendance[k].id == s.attendance[k].id
    && s'.attendance[k].userId == s.attendance[k].userId
  }

  lemma OnlyRowChangedValid(s: Db, s': Db, k: nat)
    requires OnlyRowChanged(s, s', k)
    ensures Valid(s) ==> Valid(s')
  {
  }

  /** Changing one row without moving it to another date keeps one record
      per (user, date). */
  lemma OnlyRowChangedOnePerDay(s: Db, s': Db, k: nat)
    requires OnlyRowChanged(s, s', k)
    requires DateOf(s'.attendance[k].timestamp) == DateOf(s.attendance[k].timestamp)
    ensures OnePerDay(s.attendance) ==> OnePerDay(s'.attendance)
  {
    var a, b := s.attendance, s'.attendance;
    assert forall i :: 0 <= i < |a| ==> b[i].userId == a[i].userId && DateOf(b[i].timestamp) == DateOf(a[i].timestamp);
  }

  /** An attendance row joined with its owner, as `JOIN users u ON u.id = a.user_id`. */
  datatype Joined = Joined(rec: Attendance, owner: User)

  /** The inner join of attendance with users: rows whose owner does not exist
      are dropped. */
  function Join(att: seq<Attendance>, us: seq<User>): (r: seq<Joined>)
    ensures |r| <= |att|
    ensures forall j :: j in r <==> j.rec in att && FindUser(us, j.rec.userId) == Some(j.owner)
  {
    if |att| == 0 then []
    else
      assert att == [att[0]] + att[1..];
      var rest := Join(att[1..], us);
      match FindUser(us, att[0].userId)
      case None => rest
      case Some(u) => [Joined(att[0], u)] + rest
  }
}
