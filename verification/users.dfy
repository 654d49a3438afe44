/** The user-management router: `GET /`, `GET /students?class=` and
    `GET /:id`. It expects the caller to be attached by an authentication
    step in front of it; every handler answers 401 without one. */
module Users {
  import opened Wrappers
  import opened Text
  import opened Seqs
  import opened Store

  /** `SELECT id,name,email,role,class,photo_path`: the password hash is
      never selected. */
  datatype UserRow = UserRow(id: int, name: string, email: Option<string>, role: string,
                             klass: Option<string>, photoPath: Option<string>)

  function Public(u: User): UserRow {
    UserRow(u.id, u.name, u.email, u.role, u.klass, u.photoPath)
  }

  function PublicRows(us: seq<User>): (r: seq<UserRow>)
    ensures |r| == |us|
    ensures forall i :: 0 <= i < |us| ==> r[i] == Public(us[i])
  {
    seq(|us|, i requires 0 <= i < |us| => Public(us[i]))
  }

  function NameOf(u: UserRow): string {
    u.name
  }

  /** `role = "student" AND class = ?`. */
  predicate IsStudentOf(u: UserRow, klass: string) {
    u.role == Student && u.klass == Some(klass)
  }

  /** `GET /api/users/`: teachers only; every user, by name ascending. */
  function ListUsers(s: Db, auth: Option<Caller>): (r: Result<seq<UserRow>>)
    ensures auth.None? ==> r == Err(Unauthenticated)
    ensures auth.Some? && auth.value.role != Teacher ==> r == Err(Forbidden)
    ensures auth.Some? && auth.value.role == Teacher ==> r.Ok?
    ensures r.Ok? ==> SortedBy(r.value, NameOf, false)
    ensures r.Ok? ==> multiset(r.value) == multiset(PublicRows(s.users))
  {
    if auth.None? then Err(Unauthenticated)
    else if auth.value.role != Teacher then Err(Forbidden)
    else Ok(Sort(PublicRows(s.users), NameOf, false))
  }

  /** `GET /api/users/students?class=`: the teacher check comes before the
      class check; the result is the students of that class, by name. */
  function ListStudents(s: Db, auth: Option<Caller>, klass: Option<string>): (r: Result<seq<UserRow>>)
    ensures auth.None? ==> r == Err(Unauthenticated)
    ensures auth.Some? && auth.value.role != Teacher ==> r == Err(Forbidden)
    ensures auth.Some? && auth.value.role == Teacher && !Truthy(klass) ==> r == Err(BadRequest(MissingClass))
    ensures auth.Some? && auth.value.role == Teacher && Truthy(klass) ==> r.Ok?
    ensures r.Ok? ==> SortedBy(r.value, NameOf, false)
    ensures r.Ok? ==> forall u :: u in r.value <==> u in PublicRows(s.users) && u.role == Student && u.klass == klass
    ensures r.Ok? ==> multiset(r.value) <= multiset(PublicRows(s.users))
  {
    if auth.None? then Err(Unauthenticated)
    else if auth.value.role != Teacher then Err(Forbidden)
    else if !Truthy(klass) then Err(BadRequest(MissingClass))
    else
      var picked := Select(PublicRows(s.users), IsStudentOf, klass.value);
      SortSameRows(picked, NameOf, false);
      Ok(Sort(picked, NameOf, false))
  }

  /** A class listing is a sub-listing of the full listing a teacher sees. */
  lemma StudentsAreListedUsers(s: Db, teacher: Caller, klass: string)
    requires teacher.role == Teacher && klass != ""
    ensures forall u :: u in ListStudents(s, Some(teacher), Some(klass)).value ==> u in ListUsers(s, Some(teacher)).value
  {
    var all := ListUsers(s, Some(teacher)).value;
    forall u | u in ListStudents(s, Some(teacher), Some(klass)).value
      ensures u in all
    {
      assert u in multiset(all);
    }
  }

  /** `GET /api/users/:id`: an unknown id is 404 before any authorisation; a
      caller who is neither a teacher nor that user is 403. */
  function GetUser(s: Db, auth: Option<Caller>, id: int): (r: Result<UserRow>)
    ensures auth.None? ==> r == Err(Unauthenticated)
    ensures auth.Some? && FindUser(s.users, id).None? ==> r == Err(NotFound)
    ensures auth.Some? && FindUser(s.users, id).Some? && auth.value.role != Teacher && auth.value.id != id
            ==> r == Err(Forbidden)
    ensures auth.Some? && FindUser(s.users, id).Some? && (auth.value.role == Teacher || auth.value.id == id)
            ==> r == Ok(Public(FindUser(s.users, id).value))
    ensures r.Ok? ==>
              && auth.Some? && (auth.value.role == Teacher || auth.value.id == id)
              && exists u :: u in s.users && u.id == id && r.value == Public(u)
  {
    if auth.None? then Err(Unauthenticated)
    else match FindUser(s.users, id)
      case None => Err(NotFound)
      case Some(u) =>
        if auth.value.role != Teacher && auth.value.id != id then Err(Forbidden)
        else Ok(Public(u))
  }

  /** On a valid store the row answered is the one user with that id. */
  lemma GetUserIsTheUser(s: Db, auth: Caller, k: nat)
    requires Valid(s)
    requires k < |s.users|
    requires auth.role == Teacher || auth.id == s.users[k].id
    ensures GetUser(s, Some(auth), s.users[k].id) == Ok(Public(s.users[k]))
  {
    var u := FindUser(s.users, s.users[k].id).value;
    var m :| 0 <= m < |s.users| && s.users[m] == u;
    assert m == k;
  }
}
