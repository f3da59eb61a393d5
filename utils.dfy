/** Authorization guards over the users table and slug derivation. */
module Utils {
  import opened Base
  import opened Schema
  import opened Query

  // ---------------------------------------------------------------------
  // Caller resolution and role gate. `subject` is the identity provider's
  // verified subject for the request, `None` when the request is anonymous.
  // ---------------------------------------------------------------------

  /** The caller's user record, or none; several records with the caller's
      `clerkId` make the `.unique()` lookup fail. */
  function GetUser(users: seq<User>, subject: Option<string>): (r: Result<Option<UserId>>)
    ensures subject.None? ==> r == Ok(None)
    ensures subject.Some? ==>
      (r == Ok(None) <==> forall k :: 0 <= k < |users| ==> users[k].clerkId != subject.value)
    ensures r.Ok? && r.value.Some? ==>
      subject.Some? && r.value.value < |users| && users[r.value.value].clerkId == subject.value
    ensures r.Err? <==> (subject.Some? &&
      exists i, j :: 0 <= i < j < |users| && users[i].clerkId == subject.value && users[j].clerkId == subject.value)
    ensures r.Err? ==> r.error == NotUnique
  {
    if subject.None? then Ok(None)
    else
      match Unique(users, ByClerk(subject.value))
      case Missing => Ok(None)
      case Found(k) => Ok(Some(k))
      case Ambiguous => Err(NotUnique)
  }

  /** `requireUser`: fails exactly when there is no identity or no user record
      with the identity's `clerkId`. */
  function RequireUser(users: seq<User>, subject: Option<string>): (r: Result<UserId>)
    ensures r == Err(Unauthenticated) <==>
      subject.None? || forall k :: 0 <= k < |users| ==> users[k].clerkId != subject.value
    ensures r.Ok? ==> subject.Some? && r.value < |users| && users[r.value].clerkId == subject.value
    ensures r.Ok? || r.error == Unauthenticated || r.error == NotUnique
  {
    match GetUser(users, subject)
    case Err(e) => Err(e)
    case Ok(None) => Err(Unauthenticated)
    case Ok(Some(k)) => Ok(k)
  }

  /** With pairwise distinct `clerkId`s, a caller who has a user record is
      always resolved to it. */
  lemma RequireUserSucceeds(users: seq<User>, subject: string, k: nat)
    requires forall i, j :: 0 <= i < j < |users| ==> users[i].clerkId != users[j].clerkId
    requires k < |users| && users[k].clerkId == subject
    ensures RequireUser(users, Some(subject)) == Ok(k)
  {
  }

  /** `requireRole`: the caller is resolved first; then the role must be one of
      `allowed`. */
  function RequireRole(users: seq<User>, subject: Option<string>, allowed: seq<Role>): (r: Result<UserId>)
    ensures var u := RequireUser(users, subject);
      && (u.Err? ==> r == u)
      && (u.Ok? ==> (r.Ok? <==> users[u.value].role in allowed))
      && (u.Ok? && r.Err? ==> r.error == Forbidden)
    ensures r.Ok? ==>
      subject.Some? && r.value < |users| && users[r.value].clerkId == subject.value &&
      users[r.value].role in allowed
  {
    match RequireUser(users, subject)
    case Err(e) => Err(e)
    case Ok(k) => if users[k].role in allowed then Ok(k) else Err(Forbidden)
  }

  /** The inline ownership rule of every catalog mutation: only an instructor
      is restricted to its own courses (an admin passes; callers have already
      been gated to instructor or admin). */
  predicate MayModify(role: Role, userId: UserId, course: Course)
  {
    !(role == Instructor && course.instructorId != userId)
  }

  /** Course lookup and ownership check for an already authorized caller. */
  function CheckCourse(users: seq<User>, courses: seq<Course>, userId: UserId, courseId: CourseId): (r: Result<()>)
    requires userId < |users|
    ensures courseId >= |courses| <==> r == Err(NotFound)
    ensures r.Ok? <==> courseId < |courses| && MayModify(users[userId].role, userId, courses[courseId])
    ensures r.Ok? ==> users[userId].role != Instructor || courses[courseId].instructorId == userId
    ensures r.Err? ==> r.error == NotFound || r.error == Forbidden
  {
    if courseId >= |courses| then Err(NotFound)
    else if !MayModify(users[userId].role, userId, courses[courseId]) then Err(Forbidden)
    else Ok(())
  }

  /** The guard shared by the catalog and file mutations: instructor or admin
      role, then the course must exist, then ownership unless admin. */
  function CourseGuard(users: seq<User>, courses: seq<Course>, subject: Option<string>, courseId: CourseId): (r: Result<UserId>)
    ensures var g := RequireRole(users, subject, [Instructor, Admin]);
      && (g.Err? ==> r == g)
      && (g.Ok? ==> r.Ok? == CheckCourse(users, courses, g.value, courseId).Ok?)
      && (g.Ok? && r.Err? ==> r == Err(CheckCourse(users, courses, g.value, courseId).error))
      && (r.Ok? ==> r == g)
    ensures r.Ok? ==> (r.value < |users| && courseId < |courses| &&
      (users[r.value].role == Admin || (users[r.value].role == Instructor && courses[courseId].instructorId == r.value)))
  {
    match RequireRole(users, subject, [Instructor, Admin])
    case Err(e) => Err(e)
    case Ok(k) =>
      match CheckCourse(users, courses, k, courseId)
      case Err(e) => Err(e)
      case Ok(_) => Ok(k)
  }

  /** An admin passes the course guard on any existing course; an instructor
      passes it exactly on its own courses. */
  lemma AdminBypassesOwnership(users: seq<User>, courses: seq<Course>, subject: string, k: nat, courseId: CourseId)
    requires forall i, j :: 0 <= i < j < |users| ==> users[i].clerkId != users[j].clerkId
    requires k < |users| && users[k].clerkId == subject
    requires courseId < |courses|
    ensures users[k].role == Admin ==> CourseGuard(users, courses, Some(subject), courseId) == Ok(k)
    ensures users[k].role == Instructor ==>
      (CourseGuard(users, courses, Some(subject), courseId).Ok? <==> courses[courseId].instructorId == k)
    ensures users[k].role == Student ==> CourseGuard(users, courses, Some(subject), courseId) == Err(Forbidden)
  {
    RequireUserSucceeds(users, subject, k);
  }

  // ---------------------------------------------------------------------
  // Slug derivation: lowercase, collapse every run of characters outside
  // [a-z0-9] to one hyphen, then trim a leading and a trailing hyphen.
  // ---------------------------------------------------------------------

  /** `toLowerCase` on one character, for the ASCII letters. */
  function LowerChar(c: char): char
  {
    if 'A' <= c <= 'Z' then (c as int + 32) as char else c
  }

  /** `toLowerCase` for ASCII text: the same length, no capital letter left,
      each capital replaced by its small letter and every other character
      kept. */
  function Lower(s: string): (r: string)
    ensures |r| == |s|
    ensures forall i :: 0 <= i < |r| ==> !('A' <= r[i] <= 'Z')
    ensures forall i :: 0 <= i < |s| && !('A' <= s[i] <= 'Z') ==> r[i] == s[i]
    ensures forall i :: 0 <= i < |s| && 'A' <= s[i] <= 'Z' ==> r[i] as int == s[i] as int + 32
  {
    seq(|s|, i requires 0 <= i < |s| => LowerChar(s[i]))
  }

  predicate IsSlugChar(c: char)
  {
    'a' <= c <= 'z' || '0' <= c <= '9'
  }

  predicate InSlugAlphabet(s: string)
  {
    forall i :: 0 <= i < |s| ==> IsSlugChar(s[i]) || s[i] == '-'
  }

  predicate NoDoubleHyphen(s: string)
  {
    forall i :: 0 <= i < |s| - 1 ==> !(s[i] == '-' && s[i + 1] == '-')
  }

  /** A well-formed slug: letters a-z, digits and single inner hyphens. */
  predicate IsSlug(s: string)
  {
    InSlugAlphabet(s) && NoDoubleHyphen(s) && (s == [] || (s[0] != '-' && s[|s| - 1] != '-'))
  }

  /** What is left of `s` after its leading run of characters outside [a-z0-9]. */
  function SkipRun(s: string): (r: string)
    ensures |r| <= |s|
    ensures r == [] || IsSlugChar(r[0])
  {
    if s != [] && !IsSlugChar(s[0]) then SkipRun(s[1..]) else s
  }

  /** `.replace(/[^a-z0-9]+/g, "-")`: each maximal run of characters outside
      [a-z0-9] becomes a single hyphen. */
  function CollapseRuns(s: string): (r: string)
    ensures InSlugAlphabet(r) && NoDoubleHyphen(r)
    ensures s != [] && IsSlugChar(s[0]) ==> r != [] && r[0] == s[0]
    ensures |r| <= |s|
    decreases |s|
  {
    if s == [] then []
    else if IsSlugChar(s[0]) then [s[0]] + CollapseRuns(s[1..])
    else "-" + CollapseRuns(SkipRun(s[1..]))
  }

  /** `.replace(/(^-|-$)+/g, "")` on a collapsed string, where hyphens never
      repeat: drop one leading and one trailing hyphen. Applied to a string
      over [a-z0-9-] without a doubled hyphen it yields a slug, and a string
      without an edge hyphen is left as it is. */
  function TrimHyphens(s: string): (r: string)
    ensures |r| <= |s|
    ensures InSlugAlphabet(s) && NoDoubleHyphen(s) ==> IsSlug(r)
    ensures s == [] || (s[0] != '-' && s[|s| - 1] != '-') ==> r == s
  {
    var a := if s != [] && s[0] == '-' then s[1..] else s;
    if a != [] && a[|a| - 1] == '-' then a[..|a| - 1] else a
  }

  /** `generateSlug`: its output uses only a-z, 0-9 and `-`, never starts or
      ends with `-` and never has two `-` in a row. */
  function GenerateSlug(title: string): (r: string)
    ensures IsSlug(r)
  {
    TrimHyphens(CollapseRuns(Lower(title)))
  }

  /** The characters of `s` other than `-`, in order. */
  function DropHyphens(s: string): string
  {
    if s == [] then [] else (if s[0] == '-' then [] else [s[0]]) + DropHyphens(s[1..])
  }

  /** The characters of `s` in [a-z0-9], in order. */
  function Alnums(s: string): string
  {
    if s == [] then [] else (if IsSlugChar(s[0]) then [s[0]] else []) + Alnums(s[1..])
  }

  lemma {:induction false} CollapseFixed(s: string)
    requires InSlugAlphabet(s) && NoDoubleHyphen(s)
    ensures CollapseRuns(s) == s
    decreases |s|
  {
    if s != [] {
      var t := s[1..];
      assert InSlugAlphabet(t) && NoDoubleHyphen(t) by {
        assert forall i :: 0 <= i < |t| ==> t[i] == s[i + 1];
      }
      CollapseFixed(t);
      if !IsSlugChar(s[0]) {
        assert t == [] || IsSlugChar(t[0]);
        assert SkipRun(t) == t;
      }
    }
  }

  /** A slug is its own slug. */
  lemma SlugFixedPoint(s: string)
    requires IsSlug(s)
    ensures GenerateSlug(s) == s
  {
    assert forall i :: 0 <= i < |s| ==> !('A' <= s[i] <= 'Z');
    assert Lower(s) == s;
    CollapseFixed(s);
  }

  /** `generateSlug(generateSlug(t)) == generateSlug(t)`. */
  lemma GenerateSlugIdempotent(title: string)
    ensures GenerateSlug(GenerateSlug(title)) == GenerateSlug(title)
  {
    SlugFixedPoint(GenerateSlug(title));
  }

  lemma {:induction false} AlnumsSkipRun(s: string)
    ensures Alnums(SkipRun(s)) == Alnums(s)
  {
    if s != [] && !IsSlugChar(s[0]) {
      AlnumsSkipRun(s[1..]);
    }
  }

  lemma {:induction false} DropHyphensCollapse(s: string)
    ensures DropHyphens(CollapseRuns(s)) == Alnums(s)
    decreases |s|
  {
    if s != [] {
      var c := CollapseRuns(s);
      if IsSlugChar(s[0]) {
        DropHyphensCollapse(s[1..]);
        assert c[0] == s[0] && c[1..] == CollapseRuns(s[1..]);
      } else {
        var rest := SkipRun(s[1..]);
        DropHyphensCollapse(rest);
        AlnumsSkipRun(s[1..]);
        assert c[0] == '-' && c[1..] == CollapseRuns(rest);
      }
    }
  }

  lemma {:induction false} DropHyphensSnoc(s: string, c: char)
    ensures DropHyphens(s + [c]) == DropHyphens(s) + (if c == '-' then [] else [c])
  {
    if s != [] {
      assert (s + [c])[0] == s[0] && (s + [c])[1..] == s[1..] + [c];
      DropHyphensSnoc(s[1..], c);
    }
  }

  lemma DropHyphensTrim(s: string)
    ensures DropHyphens(TrimHyphens(s)) == DropHyphens(s)
  {
    var a := if s != [] && s[0] == '-' then s[1..] else s;
    assert DropHyphens(a) == DropHyphens(s);
    if a != [] && a[|a| - 1] == '-' {
      var b := a[..|a| - 1];
      assert a == b + ['-'];
      DropHyphensSnoc(b, '-');
    }
  }

  /** Deleting the hyphens of `generateSlug(t)` leaves exactly the letters and
      digits of the lowercased title, in order. */
  lemma SlugKeepsAlnums(title: string)
    ensures DropHyphens(GenerateSlug(title)) == Alnums(Lower(title))
  {
    DropHyphensTrim(CollapseRuns(Lower(title)));
    DropHyphensCollapse(Lower(title));
  }

  /** The slug is empty exactly when the lowercased title has no letter or digit. */
  lemma EmptySlug(title: string)
    ensures GenerateSlug(title) == [] <==> Alnums(Lower(title)) == []
  {
    SlugKeepsAlnums(title);
    var r := GenerateSlug(title);
    if r != [] {
      assert r[0] != '-';
      assert DropHyphens(r) != [];
    }
  }
}
