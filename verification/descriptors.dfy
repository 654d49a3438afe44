/** `POST /api/register` (append face descriptors for a student) and
    `GET /api/labels` (descriptors grouped by owner, with the student
    privacy filter). */
module Descriptors {
  import opened Wrappers
  import opened Text
  import opened Seqs
  import opened Store

  /** One element of the labels response: `{ user_id, name, descriptors }`. */
  datatype Group = Group(userId: int, name: string, vectors: seq<Vector>)

  /** The vectors stored for `userId`, in row order. */
  function VectorsOf(ds: seq<Descriptor>, userId: int): (r: seq<Vector>)
    ensures |r| <= |ds|
  {
    if |ds| == 0 then []
    else (if ds[0].userId == userId then [ds[0].vector] else []) + VectorsOf(ds[1..], userId)
  }

  lemma {:induction false} VectorsOfAppend(a: seq<Descriptor>, b: seq<Descriptor>, userId: int)
    ensures VectorsOf(a + b, userId) == VectorsOf(a, userId) + VectorsOf(b, userId)
  {
    if |a| > 0 {
      assert (a + b)[0] == a[0];
      assert (a + b)[1..] == a[1..] + b;
      VectorsOfAppend(a[1..], b, userId);
    } else {
      assert a + b == b;
    }
  }

  /** The rows the insert loop adds: one per vector, in order, under
      consecutive AUTOINCREMENT ids. */
  function NewRows(next: int, userId: int, vs: seq<Vector>): (r: seq<Descriptor>)
    ensures |r| == |vs|
    ensures forall i :: 0 <= i < |vs| ==> r[i] == Descriptor(next + i, userId, vs[i])
    decreases |vs|
  {
    if |vs| == 0 then []
    else [Descriptor(next, userId, vs[0])] + NewRows(next + 1, userId, vs[1..])
  }

  lemma {:induction false} VectorsOfNewRows(next: int, target: int, vs: seq<Vector>, userId: int)
    ensures VectorsOf(NewRows(next, target, vs), userId) == if userId == target then vs else []
    decreases |vs|
  {
    if |vs| > 0 {
      var rows := NewRows(next, target, vs);
      assert rows[1..] == NewRows(next + 1, target, vs[1..]);
      VectorsOfNewRows(next + 1, target, vs[1..], userId);
      assert vs == [vs[0]] + vs[1..];
    }
  }

  /** `POST /api/register`. Checks, in order: a caller (401), the teacher role
      (403), a truthy `user_id` and a present `descriptors` list (400), an
      existing target (400) whose role is `student` (400). Then every vector
      becomes its own row. */
  function RegisterDescriptors(s: Db, auth: Option<Caller>, userId: Option<int>,
                               vectors: Option<seq<Vector>>): (r: Step<()>)
    ensures auth.None? ==> r.result == Err(Unauthenticated)
    ensures auth.Some? && auth.value.role != Teacher ==> r.result == Err(Forbidden)
    ensures auth.Some? && auth.value.role == Teacher && (!TruthyId(userId) || vectors.None?)
            ==> r.result == Err(BadRequest(MissingFields))
    ensures (auth.Some? && auth.value.role == Teacher && TruthyId(userId) && vectors.Some?
             && FindUser(s.users, userId.value).None?)
            ==> r.result == Err(BadRequest(UnknownUser))
    ensures (auth.Some? && auth.value.role == Teacher && TruthyId(userId) && vectors.Some?
             && FindUser(s.users, userId.value).Some? && FindUser(s.users, userId.value).value.role != Student)
            ==> r.result == Err(BadRequest(NotAStudent))
    ensures (auth.Some? && auth.value.role == Teacher && TruthyId(userId) && vectors.Some?
             && FindUser(s.users, userId.value).Some? && FindUser(s.users, userId.value).value.role == Student)
            ==> r.result.Ok?
    ensures r.result.Err? ==> r.store == s
    ensures r.result.Ok? ==>
              && TruthyId(userId) && vectors.Some?
              && r.store.users == s.users && r.store.attendance == s.attendance
              && r.store.nextUserId == s.nextUserId && r.store.nextAttendanceId == s.nextAttendanceId
              && r.store.nextDescriptorId == s.nextDescriptorId + |vectors.value|
              && |r.store.descriptors| == |s.descriptors| + |vectors.value|
              && r.store.descriptors[..|s.descriptors|] == s.descriptors
              && forall i :: 0 <= i < |vectors.value| ==>
                   r.store.descriptors[|s.descriptors| + i]
                   == Descriptor(s.nextDescriptorId + i, userId.value, vectors.value[i])
    ensures Valid(s) ==> Valid(r.store)
  {
    if auth.None? then Step(Err(Unauthenticated), s)
    else if auth.value.role != Teacher then Step(Err(Forbidden), s)
    else if !TruthyId(userId) || vectors.None? then Step(Err(BadRequest(MissingFields)), s)
    else match FindUser(s.users, userId.value)
      case None => Step(Err(BadRequest(UnknownUser)), s)
      case Some(target) =>
        if target.role != Student then Step(Err(BadRequest(NotAStudent)), s)
        else
          var rows := NewRows(s.nextDescriptorId, userId.value, vectors.value);
          var s' := s.(descriptors := s.descriptors + rows,
                       nextDescriptorId := s.nextDescriptorId + |rows|);
          assert Valid(s) ==> Valid(s') by {
            assert forall i :: 0 <= i < |s.descriptors| ==> s'.descriptors[i] == s.descriptors[i];
            assert forall i :: 0 <= i < |rows| ==> s'.descriptors[|s.descriptors| + i] == rows[i];
          }
          Step(Ok(()), s')
  }

  /** After a successful registration the target's stored vectors are the old
      ones followed by the submitted ones, in order; nobody else's change. */
  lemma RegisterExtendsTargetVectors(s: Db, auth: Option<Caller>, userId: Option<int>,
                                     vectors: Option<seq<Vector>>, other: int)
    requires RegisterDescriptors(s, auth, userId, vectors).result.Ok?
    ensures var s' := RegisterDescriptors(s, auth, userId, vectors).store;
            && VectorsOf(s'.descriptors, userId.value) == VectorsOf(s.descriptors, userId.value) + vectors.value
            && (other != userId.value ==> VectorsOf(s'.descriptors, other) == VectorsOf(s.descriptors, other))
  {
    var rows := NewRows(s.nextDescriptorId, userId.value, vectors.value);
    var s' := RegisterDescriptors(s, auth, userId, vectors).store;
    assert s'.descriptors == s.descriptors + rows;
    VectorsOfAppend(s.descriptors, rows, userId.value);
    VectorsOfAppend(s.descriptors, rows, other);
    VectorsOfNewRows(s.nextDescriptorId, userId.value, vectors.value, userId.value);
    VectorsOfNewRows(s.nextDescriptorId, userId.value, vectors.value, other);
  }

  /** The group of one user. */
  function GroupOf(u: User, ds: seq<Descriptor>): Group {
    Group(u.id, u.name, VectorsOf(ds, u.id))
  }

  /** The group `u` contributes: none when `u` has no descriptors. */
  function GroupsOfUser(u: User, ds: seq<Descriptor>): seq<Group> {
    if |VectorsOf(ds, u.id)| > 0 then [GroupOf(u, ds)] else []
  }

  /** Descriptors joined with their owners and grouped by owner. JavaScript
      enumerates the integer keys of the grouping object in ascending order,
      so groups come in ascending user id, which is the order of the users
      table. */
  function Groups(us: seq<User>, ds: seq<Descriptor>): (r: seq<Group>)
    ensures |r| <= |us|
    ensures forall i :: 0 <= i < |r| ==> |r[i].vectors| > 0
  {
    if |us| == 0 then [] else GroupsOfUser(us[0], ds) + Groups(us[1..], ds)
  }

  /** Users with distinct ids get distinct groups: no user has two. */
  lemma {:induction false} GroupsDistinct(us: seq<User>, ds: seq<Descriptor>)
    requires forall i, j :: 0 <= i < j < |us| ==> us[i].id != us[j].id
    ensures forall i, j :: 0 <= i < j < |Groups(us, ds)| ==> Groups(us, ds)[i].userId != Groups(us, ds)[j].userId
  {
    if |us| > 0 {
      var head := GroupsOfUser(us[0], ds);
      var rest := Groups(us[1..], ds);
      var r := Groups(us, ds);
      assert r == head + rest;
      GroupsDistinct(us[1..], ds);
      GroupsSound(us[1..], ds);
      forall i, j | 0 <= i < j < |r|
        ensures r[i].userId != r[j].userId
      {
        assert r[j] == rest[j - |head|];
        if i < |head| {
          assert r[i].userId == us[0].id;
          var k :| 0 <= k < |us[1..]| && rest[j - |head|] == GroupOf(us[1..][k], ds);
          assert us[1..][k] == us[k + 1];
        } else {
          assert r[i] == rest[i - |head|];
        }
      }
    }
  }

  /** Every group is the non-empty group of some user. */
  lemma {:induction false} GroupsSound(us: seq<User>, ds: seq<Descriptor>)
    ensures forall i :: 0 <= i < |Groups(us, ds)| ==>
              |Groups(us, ds)[i].vectors| > 0 && exists k :: 0 <= k < |us| && Groups(us, ds)[i] == GroupOf(us[k], ds)
  {
    if |us| > 0 {
      var head := GroupsOfUser(us[0], ds);
      var rest := Groups(us[1..], ds);
      var r := Groups(us, ds);
      assert r == head + rest;
      GroupsSound(us[1..], ds);
      forall i | 0 <= i < |r|
        ensures |r[i].vectors| > 0 && exists k :: 0 <= k < |us| && r[i] == GroupOf(us[k], ds)
      {
        if i < |head| {
          assert r[i] == GroupOf(us[0], ds);
        } else {
          assert r[i] == rest[i - |head|];
          var k :| 0 <= k < |us[1..]| && rest[i - |head|] == GroupOf(us[1..][k], ds);
          assert us[1..][k] == us[k + 1];
        }
      }
    }
  }

  /** Every user with at least one descriptor has a group. */
  lemma {:induction false} GroupsComplete(us: seq<User>, ds: seq<Descriptor>)
    ensures forall k :: 0 <= k < |us| && |VectorsOf(ds, us[k].id)| > 0 ==> GroupOf(us[k], ds) in Groups(us, ds)
  {
    if |us| > 0 {
      GroupsComplete(us[1..], ds);
      var head := GroupsOfUser(us[0], ds);
      var rest := Groups(us[1..], ds);
      forall k | 0 <= k < |us| && |VectorsOf(ds, us[k].id)| > 0
        ensures GroupOf(us[k], ds) in Groups(us, ds)
      {
        if k > 0 {
          assert us[1..][k - 1] == us[k];
          assert GroupOf(us[k], ds) in rest;
        } else {
          assert GroupOf(us[k], ds) in head;
        }
      }
    }
  }

  /** Groups only carry ids of the users they were built from. */
  lemma {:induction false} GroupsAbove(us: seq<User>, ds: seq<Descriptor>, lo: int)
    requires forall i :: 0 <= i < |us| ==> lo < us[i].id
    ensures forall i :: 0 <= i < |Groups(us, ds)| ==> lo < Groups(us, ds)[i].userId
  {
    if |us| > 0 {
      var head := GroupsOfUser(us[0], ds);
      var rest := Groups(us[1..], ds);
      var r := Groups(us, ds);
      assert r == head + rest;
      GroupsAbove(us[1..], ds, lo);
      forall i | 0 <= i < |r|
        ensures lo < r[i].userId
      {
        if i >= |head| {
          assert r[i] == rest[i - |head|];
          assert lo < rest[i - |head|].userId;
        } else {
          assert r[i] == GroupOf(us[0], ds);
          assert r[i].userId == us[0].id;
        }
      }
    }
  }

  /** Over a users table in ascending id order the groups are in strictly
      ascending user id. */
  lemma {:induction false} GroupsAscending(us: seq<User>, ds: seq<Descriptor>)
    requires forall i, j :: 0 <= i < j < |us| ==> us[i].id < us[j].id
    ensures forall i, j :: 0 <= i < j < |Groups(us, ds)| ==> Groups(us, ds)[i].userId < Groups(us, ds)[j].userId
  {
    if |us| > 0 {
      var head := GroupsOfUser(us[0], ds);
      var rest := Groups(us[1..], ds);
      var r := Groups(us, ds);
      assert r == head + rest;
      GroupsAscending(us[1..], ds);
      GroupsAbove(us[1..], ds, us[0].id);
      forall i, j | 0 <= i < j < |r|
        ensures r[i].userId < r[j].userId
      {
        assert r[j] == rest[j - |head|];
        if i >= |head| {
          assert r[i] == rest[i - |head|];
        }
      }
    }
  }

  lemma GroupsAscendingIfValid(s: Db)
    ensures Valid(s) ==>
              forall i, j :: 0 <= i < j < |Groups(s.users, s.descriptors)| ==>
                Groups(s.users, s.descriptors)[i].userId < Groups(s.users, s.descriptors)[j].userId
  {
    if Valid(s) {
      GroupsAscending(s.users, s.descriptors);
    }
  }

  /** Whether a group belongs to `userId`. */
  predicate GroupOwnedBy(g: Group, userId: int) {
    g.userId == userId
  }

  /** `GET /api/labels`. Every caller gets the grouped descriptors; a caller
      whose role is `student` gets only the group keyed by their own id, or
      nothing. */
  function Labels(s: Db, auth: Option<Caller>): (r: Result<seq<Group>>)
    ensures auth.None? <==> r == Err(Unauthenticated)
    ensures auth.Some? ==> r.Ok?
    ensures r.Ok? ==> forall i :: 0 <= i < |r.value| ==>
              |r.value[i].vectors| > 0 && r.value[i].vectors == VectorsOf(s.descriptors, r.value[i].userId)
    ensures r.Ok? && auth.value.role == Student ==>
              && |r.value| <= 1
              && forall g :: g in r.value ==> g.userId == auth.value.id
    ensures r.Ok? && auth.value.role == Student && FindUser(s.users, auth.value.id).Some?
            && |VectorsOf(s.descriptors, auth.value.id)| > 0
            ==> r.value == [GroupOf(FindUser(s.users, auth.value.id).value, s.descriptors)]
    ensures r.Ok? && auth.value.role != Student ==>
              && (forall k :: 0 <= k < |s.users| && |VectorsOf(s.descriptors, s.users[k].id)| > 0
                    ==> GroupOf(s.users[k], s.descriptors) in r.value)
              && (forall i :: 0 <= i < |r.value| ==>
                    exists k :: 0 <= k < |s.users| && r.value[i] == GroupOf(s.users[k], s.descriptors))
              && (Valid(s) ==> forall i, j :: 0 <= i < j < |r.value| ==> r.value[i].userId < r.value[j].userId)
  {
    if auth.None? then Err(Unauthenticated)
    else if auth.value.role == Student then
      match FindUser(s.users, auth.value.id)
      case None => Ok([])
      case Some(u) =>
        if |VectorsOf(s.descriptors, u.id)| > 0 then Ok([GroupOf(u, s.descriptors)]) else Ok([])
    else
      GroupsSound(s.users, s.descriptors);
      GroupsComplete(s.users, s.descriptors);
      GroupsAscendingIfValid(s);
      Ok(Groups(s.users, s.descriptors))
  }

  /** The privacy filter is exactly a filter: on a valid store a student's
      labels are the teacher's labels restricted to the student's own group. */
  lemma {:induction false} StudentLabelsAreOwnGroup(s: Db, student: Caller, teacher: Caller)
    requires Valid(s)
    requires student.role == Student && teacher.role == Teacher
    ensures Labels(s, Some(student)).value
            == Select(Labels(s, Some(teacher)).value, GroupOwnedBy, student.id)
  {
    GroupsOwnedBy(s.users, s.descriptors, student.id);
    assert Labels(s, Some(student)).value == OwnGroup(s.users, s.descriptors, student.id);
  }

  /** The group a student is shown: their own, when they exist and have
      descriptors. */
  function OwnGroup(us: seq<User>, ds: seq<Descriptor>, id: int): seq<Group> {
    match FindUser(us, id)
    case None => []
    case Some(u) => GroupsOfUser(u, ds)
  }

  lemma {:induction false} GroupsOwnedBy(us: seq<User>, ds: seq<Descriptor>, id: int)
    requires forall i, j :: 0 <= i < j < |us| ==> us[i].id < us[j].id
    ensures Select(Groups(us, ds), GroupOwnedBy, id) == OwnGroup(us, ds, id)
  {
    if |us| > 0 {
      if us[0].id == id {
        OwnerFirst(us, ds, id);
      } else {
        GroupsOwnedBy(us[1..], ds, id);
        OwnerLater(us, ds, id);
      }
    }
  }

  lemma OwnerFirst(us: seq<User>, ds: seq<Descriptor>, id: int)
    requires |us| > 0 && us[0].id == id
    requires forall i, j :: 0 <= i < j < |us| ==> us[i].id < us[j].id
    ensures Select(Groups(us, ds), GroupOwnedBy, id) == OwnGroup(us, ds, id)
  {
    var head := GroupsOfUser(us[0], ds);
    var rest := Groups(us[1..], ds);
    assert Groups(us, ds) == head + rest;
    SelectAppend(head, rest, GroupOwnedBy, id);
    OwnedHead(us[0], ds, id);
    assert forall i :: 0 <= i < |us[1..]| ==> id < us[1..][i].id by {
      forall i | 0 <= i < |us[1..]|
        ensures id < us[1..][i].id
      {
        assert us[1..][i] == us[i + 1];
      }
    }
    GroupsAbove(us[1..], ds, id);
    NoneOwned(rest, id);
    assert FindUser(us, id) == Some(us[0]);
    assert head + [] == head;
  }

  lemma OwnerLater(us: seq<User>, ds: seq<Descriptor>, id: int)
    requires |us| > 0 && us[0].id != id
    requires Select(Groups(us[1..], ds), GroupOwnedBy, id) == OwnGroup(us[1..], ds, id)
    ensures Select(Groups(us, ds), GroupOwnedBy, id) == OwnGroup(us, ds, id)
  {
    var head := GroupsOfUser(us[0], ds);
    var rest := Groups(us[1..], ds);
    assert Groups(us, ds) == head + rest;
    SelectAppend(head, rest, GroupOwnedBy, id);
    OtherHead(us[0], ds, id);
    assert [] + Select(rest, GroupOwnedBy, id) == Select(rest, GroupOwnedBy, id);
  }

  lemma OwnedHead(u: User, ds: seq<Descriptor>, id: int)
    requires u.id == id
    ensures Select(GroupsOfUser(u, ds), GroupOwnedBy, id) == GroupsOfUser(u, ds)
  {
    var head := GroupsOfUser(u, ds);
    if |head| > 0 {
      assert head[1..] == [];
    }
  }

  lemma OtherHead(u: User, ds: seq<Descriptor>, id: int)
    requires u.id != id
    ensures Select(GroupsOfUser(u, ds), GroupOwnedBy, id) == []
  {
    var head := GroupsOfUser(u, ds);
    if |head| > 0 {
      assert head[1..] == [];
    }
  }

  lemma NoneOwned(gs: seq<Group>, id: int)
    requires forall i :: 0 <= i < |gs| ==> id < gs[i].userId
    ensures Select(gs, GroupOwnedBy, id) == []
  {
    forall g | g in gs
      ensures !GroupOwnedBy(g, id)
    {
      var k :| 0 <= k < |gs| && gs[k] == g;
    }
    SelectNone(gs, GroupOwnedBy, id);
  }
}
