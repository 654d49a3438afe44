/** Account creation, login and the bearer-token gate in front of every
    protected handler. Signing and verifying tokens and hashing passwords are
    foreign library calls; they enter the model as function parameters. */
module Accounts {
  import opened Wrappers
  import opened Text
  import opened Store

  const BearerPrefix: string := "Bearer "

  /** `pat` occurs in `h` at position `i`. */
  predicate OccursAt(h: string, pat: string, i: int) {
    0 <= i && i + |pat| <= |h| && h[i..i + |pat|] == pat
  }

  /** Shifting by the first character moves every occurrence by one. */
  lemma OccursShift(h: string, pat: string, i: int)
    requires |h| > 0 && 0 <= i
    ensures OccursAt(h, pat, i + 1) <==> OccursAt(h[1..], pat, i)
  {
    if i + 1 + |pat| <= |h| {
      assert h[i + 1..i + 1 + |pat|] == h[1..][i..i + |pat|];
    }
  }

  /** Cutting `pat` out at `i` keeps the first character of `h`. */
  lemma CutShift(h: string, n: nat, i: int)
    requires 0 < i && i + n <= |h|
    ensures h[..i] + h[i + n..] == [h[0]] + (h[1..][..i - 1] + h[1..][i - 1 + n..])
  {
    assert h[..i] == [h[0]] + h[1..][..i - 1];
    assert h[i + n..] == h[1..][i - 1 + n..];
  }

  /** The recursive case of `RemoveFirst`: no occurrence at 0, so the first
      one, if any, lies in the tail. */
  lemma RemoveFirstStep(h: string, pat: string, rest: string)
    requires |pat| > 0 && |h| >= |pat| && !OccursAt(h, pat, 0)
    requires forall i :: OccursAt(h[1..], pat, i) && (forall j :: 0 <= j < i ==> !OccursAt(h[1..], pat, j))
               ==> rest == h[1..][..i] + h[1..][i + |pat|..]
    requires (forall i :: !OccursAt(h[1..], pat, i)) ==> rest == h[1..]
    ensures forall i :: OccursAt(h, pat, i) && (forall j :: 0 <= j < i ==> !OccursAt(h, pat, j))
              ==> [h[0]] + rest == h[..i] + h[i + |pat|..]
    ensures (forall i :: !OccursAt(h, pat, i)) ==> [h[0]] + rest == h
  {
    forall i | OccursAt(h, pat, i) && (forall j :: 0 <= j < i ==> !OccursAt(h, pat, j))
      ensures [h[0]] + rest == h[..i] + h[i + |pat|..]
    {
      OccursShift(h, pat, i - 1);
      forall j | 0 <= j < i - 1
        ensures !OccursAt(h[1..], pat, j)
      {
        OccursShift(h, pat, j);
      }
      CutShift(h, |pat|, i);
    }
    if forall i :: !OccursAt(h, pat, i) {
      forall i
        ensures !OccursAt(h[1..], pat, i)
      {
        if 0 <= i {
          OccursShift(h, pat, i);
        }
      }
      assert h == [h[0]] + h[1..];
    }
  }

  /** JavaScript `h.replace(pat, '')`: removes the first occurrence of `pat`,
      and leaves `h` as it is when there is none. */
  function RemoveFirst(h: string, pat: string): (r: string)
    requires |pat| > 0
    ensures forall i :: OccursAt(h, pat, i) && (forall j :: 0 <= j < i ==> !OccursAt(h, pat, j))
              ==> r == h[..i] + h[i + |pat|..]
    ensures (forall i :: !OccursAt(h, pat, i)) ==> r == h
    decreases |h|
  {
    if |h| < |pat| then h
    else if h[..|pat|] == pat then
      assert OccursAt(h, pat, 0);
      h[|pat|..]
    else
      var rest := RemoveFirst(h[1..], pat);
      RemoveFirstStep(h, pat, rest);
      [h[0]] + rest
  }

  /** The authentication middleware: a missing or empty header, or a token
      that `verify` rejects, leaves the request without a caller (401). The
      token is the header with its first `Bearer ` cut out, wherever it is;
      a header without one is verified as it stands. */
  function Authenticate(header: Option<string>, verify: string -> Option<Caller>): (r: Option<Caller>)
    ensures !Truthy(header) ==> r.None?
    ensures r.Some? ==> exists t :: verify(t) == r
    ensures Truthy(header) && (forall i :: !OccursAt(header.value, BearerPrefix, i)) ==> r == verify(header.value)
    ensures forall i ::
              (&& Truthy(header) && OccursAt(header.value, BearerPrefix, i)
               && (forall j :: 0 <= j < i ==> !OccursAt(header.value, BearerPrefix, j)))
              ==> r == verify(header.value[..i] + header.value[i + |BearerPrefix|..])
  {
    if !Truthy(header) then None
    else verify(RemoveFirst(header.value, BearerPrefix))
  }

  /** A well-formed `Bearer <token>` header authenticates exactly as its
      token verifies. */
  lemma BearerHeader(token: string, verify: string -> Option<Caller>)
    ensures Authenticate(Some(BearerPrefix + token), verify) == verify(token)
  {
    var h := BearerPrefix + token;
    assert h[..|BearerPrefix|] == BearerPrefix;
    assert h[|BearerPrefix|..] == token;
  }

  /** Some user row already holds this email. */
  predicate EmailTaken(us: seq<User>, email: string) {
    exists i :: 0 <= i < |us| && us[i].email == Some(email)
  }

  /** `POST /api/register-user`: no authentication. `name` and `role` must be
      truthy; any role string is accepted. An empty email or class is stored
      as NULL, and a password is stored only as its hash. A second non-NULL
      copy of an email violates the UNIQUE constraint and answers 500. */
  function RegisterUser(s: Db, name: Option<string>, email: Option<string>,
                        password: Option<string>, role: Option<string>,
                        klass: Option<string>, hash: string -> string): (r: Step<int>)
    ensures !Truthy(name) || !Truthy(role) ==> r == Step(Err(BadRequest(MissingFields)), s)
    ensures Truthy(name) && Truthy(role) && Truthy(email) && EmailTaken(s.users, email.value)
            ==> r == Step(Err(Internal), s)
    ensures Truthy(name) && Truthy(role) && !(Truthy(email) && EmailTaken(s.users, email.value))
            ==> r.result.Ok?
    ensures r.result.Err? ==> r.store == s
    ensures r.result.Ok? ==>
              && Truthy(name) && Truthy(role)
              && r.result.value == s.nextUserId
              && |r.store.users| == |s.users| + 1
              && var u := r.store.users[|s.users|];
              && r.store == s.(users := s.users + [u], nextUserId := s.nextUserId + 1)
              && u.id == r.result.value && u.name == name.value && u.role == role.value
              && (u.email.Some? <==> Truthy(email)) && (u.email.Some? ==> u.email == email)
              && (u.klass.Some? <==> Truthy(klass)) && (u.klass.Some? ==> u.klass == klass)
              && (u.passwordHash.Some? <==> Truthy(password))
              && (Truthy(password) ==> u.passwordHash == Some(hash(password.value)))
              && u.photoPath.None?
    ensures Valid(s) ==> Valid(r.store)
  {
    if !Truthy(name) || !Truthy(role) then Step(Err(BadRequest(MissingFields)), s)
    else if Truthy(email) && EmailTaken(s.users, email.value) then Step(Err(Internal), s)
    else
      var u := User(s.nextUserId, name.value,
                    if Truthy(email) then email else None,
                    if Truthy(password) then Some(hash(password.value)) else None,
                    role.value,
                    if Truthy(klass) then klass else None,
                    None);
      AddUserValidIfValid(s, u);
      Step(Ok(u.id), s.(users := s.users + [u], nextUserId := s.nextUserId + 1))
  }

  lemma AddUserValidIfValid(s: Db, u: User)
    requires u.id == s.nextUserId
    requires u.email.Some? ==> !EmailTaken(s.users, u.email.value)
    ensures Valid(s) ==> Valid(s.(users := s.users + [u], nextUserId := s.nextUserId + 1))
  {
    if Valid(s) {
      AddUserValid(s, u);
    }
  }

  /** `SELECT * FROM users WHERE email = ?`; an absent email matches nothing. */
  function FindByEmail(us: seq<User>, email: Option<string>): (r: Option<nat>)
    ensures r.Some? ==> r.value < |us| && email.Some? && us[r.value].email == email
    ensures r.Some? ==> forall i :: 0 <= i < r.value ==> us[i].email != email
    ensures r.None? ==> email.None? || forall i :: 0 <= i < |us| ==> us[i].email != email
  {
    if email.None? || |us| == 0 then None
    else if us[0].email == email then Some(0)
    else
      match FindByEmail(us[1..], email)
      case None => None
      case Some(k) => Some(k + 1)
  }

  /** `POST /api/login`: the caller claims put into the signed token. An
      unknown email is 401. A stored password hash must match the password;
      an account without one logs in with any password. */
  function Login(s: Db, email: Option<string>, password: Option<string>,
                 matches: (string, string) -> bool): (r: Result<Caller>)
    ensures r.Ok? ==>
              exists i :: 0 <= i < |s.users| && s.users[i].email == email && email.Some?
                && r.value == Caller(s.users[i].id, s.users[i].role, s.users[i].name, s.users[i].klass)
                && (Truthy(s.users[i].passwordHash) ==> password.Some? && matches(password.value, s.users[i].passwordHash.value))
    ensures (email.None? || forall i :: 0 <= i < |s.users| ==> s.users[i].email != email) ==> r == Err(Unauthenticated)
    ensures r.Err? ==> r.error == Unauthenticated
    ensures forall i ::
              (&& 0 <= i < |s.users| && email.Some? && s.users[i].email == email
               && (forall j :: 0 <= j < i ==> s.users[j].email != email)
               && (!Truthy(s.users[i].passwordHash)
                   || (password.Some? && matches(password.value, s.users[i].passwordHash.value))))
              ==> r == Ok(Caller(s.users[i].id, s.users[i].role, s.users[i].name, s.users[i].klass))
  {
    match FindByEmail(s.users, email)
    case None => Err(Unauthenticated)
    case Some(k) =>
      var u := s.users[k];
      if Truthy(u.passwordHash) && (password.None? || !matches(password.value, u.passwordHash.value))
      then Err(Unauthenticated)
      else Ok(Caller(u.id, u.role, u.name, u.klass))
  }

  /** Anyone can mint a teacher session: registering a new email with role
      `teacher` and no password, then logging in with any password, yields
      a teacher caller. */
  lemma SelfRegisteredTeacher(s: Db, name: string, email: string, password: Option<string>,
                              hash: string -> string, matches: (string, string) -> bool)
    requires Valid(s)
    requires name != "" && email != ""
    requires !EmailTaken(s.users, email)
    ensures var r := RegisterUser(s, Some(name), Some(email), None, Some(Teacher), None, hash);
            && r.result.Ok?
            && Login(r.store, Some(email), password, matches)
               == Ok(Caller(r.result.value, Teacher, name, None))
  {
    var r := RegisterUser(s, Some(name), Some(email), None, Some(Teacher), None, hash);
    var us := r.store.users;
    assert forall i :: 0 <= i < |s.users| ==> us[i] == s.users[i];
    assert FindByEmail(us, Some(email)) == Some(|s.users|);
  }
}
