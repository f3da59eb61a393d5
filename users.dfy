/** Accounts: the `clerkId` invariant, the admin list and the read-only user
    queries. */
module Users {
  import opened Base
  import opened Schema
  import opened Query
  import opened Utils

  /** At most one user per `clerkId`; `syncUser` maintains it, the
      `by_clerk` index does not. */
  ghost predicate ClerkIdsUnique(users: seq<User>)
  {
    forall i, j :: 0 <= i < j < |users| ==> users[i].clerkId != users[j].clerkId
  }

  // ---------------------------------------------------------------------
  // `ADMIN_EMAILS?.split(",") || []`
  // ---------------------------------------------------------------------

  /** `s.split(",")`: the pieces between commas, untrimmed; the empty string
      gives one empty piece. */
  function Split(s: string): (r: seq<string>)
    ensures |r| >= 1
    ensures forall i :: 0 <= i < |r| ==> ',' !in r[i]
  {
    if s == [] then [""]
    else
      var rest := Split(s[1..]);
      if s[0] == ',' then [""] + rest
      else [[s[0]] + rest[0]] + rest[1..]
  }

  /** `es.join(",")`. */
  function Join(es: seq<string>): string
    requires |es| >= 1
  {
    if |es| == 1 then es[0] else es[0] + "," + Join(es[1..])
  }

  /** Joining the pieces gives back the original string. */
  lemma {:induction false} JoinSplit(s: string)
    ensures Join(Split(s)) == s
  {
    if s != [] {
      var rest := Split(s[1..]);
      JoinSplit(s[1..]);
      if s[0] == ',' {
        assert Split(s) == [""] + rest;
        assert Split(s)[1..] == rest;
      } else {
        assert Split(s) == [[s[0]] + rest[0]] + rest[1..];
        if |rest| > 1 {
          assert Join(rest) == rest[0] + "," + Join(rest[1..]);
          assert Split(s)[1..] == rest[1..];
        }
      }
    }
  }

  /** Splitting a comma-free prefix followed by anything extends the first
      piece. */
  lemma {:induction false} SplitPrefix(a: string, b: string)
    requires ',' !in a
    ensures Split(a + b) == [a + Split(b)[0]] + Split(b)[1..]
  {
    if a != [] {
      assert (a + b)[1..] == a[1..] + b;
      assert a[0] != ',';
      SplitPrefix(a[1..], b);
      assert [a[0]] + (a[1..] + Split(b)[0]) == a + Split(b)[0];
    } else {
      assert a + b == b;
      assert a + Split(b)[0] == Split(b)[0];
      assert Split(b) == [Split(b)[0]] + Split(b)[1..];
    }
  }

  /** Splitting a join of comma-free entries gives back the entries. */
  lemma {:induction false} SplitJoin(es: seq<string>)
    requires |es| >= 1
    requires forall i :: 0 <= i < |es| ==> ',' !in es[i]
    ensures Split(Join(es)) == es
  {
    if |es| == 1 {
      SplitPrefix(es[0], "");
      assert Split("") == [""];
      assert es[0] + "" == es[0];
      assert es[0] + "" == Join(es);
    } else {
      SplitJoin(es[1..]);
      var tail := "," + Join(es[1..]);
      assert Join(es) == es[0] + tail;
      SplitPrefix(es[0], tail);
      assert tail[1..] == Join(es[1..]);
      assert Split(tail) == [""] + es[1..];
      assert Split(tail)[0] == "" && Split(tail)[1..] == es[1..];
      assert es[0] + "" == es[0];
      assert es == [es[0]] + es[1..];
    }
  }

  /** The role `syncUser` gives a new user: admin iff the email is one of the
      comma-separated entries of the admin setting (`env`, absent when the
      setting is unset), student otherwise. */
  function NewUserRole(env: Option<string>, email: string): (r: Role)
    ensures r == Admin || r == Student
    ensures r == Admin <==> env.Some? && email in Split(env.value)
  {
    if env.Some? && email in Split(env.value) then Admin else Student
  }

  /** For an admin setting written as comma-joined entries, exactly the listed
      emails become admins, compared verbatim. */
  lemma AdminIffListed(entries: seq<string>, email: string)
    requires |entries| >= 1
    requires forall i :: 0 <= i < |entries| ==> ',' !in entries[i]
    ensures NewUserRole(Some(Join(entries)), email) == Admin <==> email in entries
  {
    SplitJoin(entries);
  }

  /** An email containing a comma is never an admin, and without the setting
      nobody is. */
  lemma NoAdminUnlisted(env: Option<string>, email: string)
    ensures ',' in email ==> NewUserRole(env, email) == Student
    ensures env.None? ==> NewUserRole(env, email) == Student
  {
  }

  /** A set but empty admin setting splits into one empty entry, so only an
      empty email would match. */
  lemma EmptySettingMatchesEmptyEmail()
    ensures NewUserRole(Some(""), "") == Admin
    ensures NewUserRole(Some(""), "a@b.c") == Student
  {
  }

  /** The record `syncUser` inserts for an unknown `clerkId`. */
  function NewUser(clerkId: string, email: string, name: Option<string>, imageUrl: Option<string>,
                   env: Option<string>, now: int): (u: User)
    ensures u.clerkId == clerkId && u.email == email && u.role == NewUserRole(env, email)
    ensures u.createdAt == u.updatedAt == now && u.bio.None?
  {
    User(clerkId, email, name, imageUrl, NewUserRole(env, email), None, now, now)
  }

  /** The patch `syncUser` applies to a known user: the profile fields are
      overwritten (an absent name or image removes it), role, bio and
      creation time stay. */
  function Refreshed(u: User, email: string, name: Option<string>, imageUrl: Option<string>, now: int): (r: User)
    ensures r.clerkId == u.clerkId && r.role == u.role && r.bio == u.bio && r.createdAt == u.createdAt
    ensures r.email == email && r.name == name && r.imageUrl == imageUrl && r.updatedAt == now
  {
    u.(email := email, name := name, imageUrl := imageUrl, updatedAt := now)
  }

  /** Refreshing twice with the same arguments is refreshing once. */
  lemma RefreshIdempotent(u: User, email: string, name: Option<string>, imageUrl: Option<string>, now: int)
    ensures Refreshed(Refreshed(u, email, name, imageUrl, now), email, name, imageUrl, now) ==
            Refreshed(u, email, name, imageUrl, now)
  {
  }

  /** `syncUser` on the users table: the user's position and the new table.
      A known `clerkId` has its profile refreshed in place; an unknown one is
      appended as a new user whose role the admin setting decides. */
  function Sync(users: seq<User>, clerkId: string, email: string, name: Option<string>, imageUrl: Option<string>,
                env: Option<string>, now: int): (r: Result<(UserId, seq<User>)>)
    ensures r.Err? <==> Unique(users, ByClerk(clerkId)).Ambiguous?
    ensures r.Err? ==> r.error == NotUnique
    ensures Unique(users, ByClerk(clerkId)).Found? ==>
              var k := Unique(users, ByClerk(clerkId)).index;
              r == Ok((k, users[k := Refreshed(users[k], email, name, imageUrl, now)]))
    ensures Unique(users, ByClerk(clerkId)).Missing? ==>
              r == Ok((|users|, users + [NewUser(clerkId, email, name, imageUrl, env, now)]))
  {
    match Unique(users, ByClerk(clerkId))
    case Ambiguous => Err(NotUnique)
    case Found(k) => Ok((k, users[k := Refreshed(users[k], email, name, imageUrl, now)]))
    case Missing => Ok((|users|, users + [NewUser(clerkId, email, name, imageUrl, env, now)]))
  }

  /** After a sync exactly one user carries the `clerkId`, at the returned
      position; an existing user keeps its role; every other user is
      untouched. */
  lemma SyncLeavesOneUser(users: seq<User>, clerkId: string, email: string, name: Option<string>,
                          imageUrl: Option<string>, env: Option<string>, now: int)
    requires Sync(users, clerkId, email, name, imageUrl, env, now).Ok?
    ensures var (k, r) := Sync(users, clerkId, email, name, imageUrl, env, now).value;
      && k < |r| && r[k].clerkId == clerkId && r[k].email == email
      && Count(r, ByClerk(clerkId)) == 1
      && (k < |users| ==> r[k].role == users[k].role)
      && (k == |users| ==> r[k].role == NewUserRole(env, email))
      && |r| >= |users| && (forall i :: 0 <= i < |users| && i != k ==> r[i] == users[i])
  {
    var (k, r) := Sync(users, clerkId, email, name, imageUrl, env, now).value;
    var p := ByClerk(clerkId);
    match Unique(users, p) {
      case Found(_) =>
        CountUpdate(users, k, r[k], p);
      case Missing =>
        assert r == users + [r[k]];
        CountAppend(users, r[k], p);
    }
  }

  /** A sync keeps distinct `clerkId`s distinct. */
  lemma SyncKeepsClerkIdsUnique(users: seq<User>, clerkId: string, email: string, name: Option<string>,
                                imageUrl: Option<string>, env: Option<string>, now: int)
    requires Sync(users, clerkId, email, name, imageUrl, env, now).Ok?
    requires ClerkIdsUnique(users)
    ensures ClerkIdsUnique(Sync(users, clerkId, email, name, imageUrl, env, now).value.1)
  {
    var (k, r) := Sync(users, clerkId, email, name, imageUrl, env, now).value;
    forall i, j | 0 <= i < j < |r| ensures r[i].clerkId != r[j].clerkId {
      if j == |users| {
        assert !ByClerk(clerkId)(users[i]);
      } else {
        assert r[i].clerkId == users[i].clerkId && r[j].clerkId == users[j].clerkId;
      }
    }
  }

  /** Syncing a second time with the same arguments changes nothing. */
  lemma SyncIdempotent(users: seq<User>, clerkId: string, email: string, name: Option<string>,
                       imageUrl: Option<string>, env: Option<string>, now: int)
    requires Sync(users, clerkId, email, name, imageUrl, env, now).Ok?
    ensures var once := Sync(users, clerkId, email, name, imageUrl, env, now).value;
      Sync(once.1, clerkId, email, name, imageUrl, env, now) == Ok(once)
  {
    var (k, r) := Sync(users, clerkId, email, name, imageUrl, env, now).value;
    SyncLeavesOneUser(users, clerkId, email, name, imageUrl, env, now);
    var p := ByClerk(clerkId);
    assert p(r[k]);
    assert Unique(r, p) == Found(k);
    if k < |users| {
      RefreshIdempotent(users[k], email, name, imageUrl, now);
    }
    assert Refreshed(r[k], email, name, imageUrl, now) == r[k];
    assert r[k := r[k]] == r;
  }

  // ---------------------------------------------------------------------
  // Queries
  // ---------------------------------------------------------------------

  /** The reply of `getCurrentUser`: the record plus enrollment counts. */
  datatype UserStats = UserStats(userId: UserId, user: User, enrolledCourses: nat, completedCourses: nat)

  function CompletedBy(u: UserId): Enrollment -> bool
  {
    (e: Enrollment) => e.userId == u && e.status == Completed
  }

  /** `getCurrentUser`: nothing for an anonymous or unknown caller; otherwise
      the caller's record with the number of its enrollments and of those
      completed, which never exceeds the first. */
  function CurrentUser(t: Tables, subject: Option<string>): (r: Result<Option<UserStats>>)
    ensures r.Err? <==> GetUser(t.users, subject).Err?
    ensures r.Err? ==> r.error == NotUnique
    ensures r == Ok(None) <==> GetUser(t.users, subject) == Ok(None)
    ensures subject.None? ==> r == Ok(None)
    ensures r.Ok? && r.value.Some? ==>
              var s := r.value.value;
              && subject.Some? && s.userId < |t.users| && s.user == t.users[s.userId]
              && s.user.clerkId == subject.value
              && s.enrolledCourses == Count(t.enrollments, EnrolledBy(s.userId))
              && s.completedCourses == Count(t.enrollments, CompletedBy(s.userId))
              && s.completedCourses <= s.enrolledCourses
  {
    match GetUser(t.users, subject)
    case Err(e) => Err(e)
    case Ok(None) => Ok(None)
    case Ok(Some(k)) =>
      CountMono(t.enrollments, CompletedBy(k), EnrolledBy(k));
      Ok(Some(UserStats(k, t.users[k], Count(t.enrollments, EnrolledBy(k)), Count(t.enrollments, CompletedBy(k)))))
  }

  /** `getUserByClerkId`: the one user with that `clerkId`, nothing, or an
      error when several share it. */
  function UserByClerkId(users: seq<User>, clerkId: string): (r: Result<Option<UserId>>)
    ensures r == Ok(None) <==> forall k :: 0 <= k < |users| ==> users[k].clerkId != clerkId
    ensures r.Ok? && r.value.Some? ==>
              r.value.value < |users| && users[r.value.value].clerkId == clerkId &&
              forall k :: 0 <= k < |users| && users[k].clerkId == clerkId ==> k == r.value.value
    ensures r.Err? ==> r.error == NotUnique
    ensures ClerkIdsUnique(users) ==> r.Ok?
  {
    match Unique(users, ByClerk(clerkId))
    case Missing => Ok(None)
    case Found(k) => Ok(Some(k))
    case Ambiguous => Err(NotUnique)
  }
}
