/** The enrollment ledger's invariant and the `getUserEnrollments`
    projection. */
module Enrollments {
  import opened Base
  import opened Schema
  import opened Query
  import opened Utils
  import opened ProgressTracker

  /** At most one enrollment per (user, course), whatever its status;
      `createEnrollment` maintains it, the `by_user_course` index does not. */
  ghost predicate EnrollmentPairsUnique(es: seq<Enrollment>)
  {
    forall i, j :: 0 <= i < j < |es| ==>
      !(es[i].userId == es[j].userId && es[i].courseId == es[j].courseId)
  }

  /** The enrollment after `markLessonComplete`: last accessed now and, when
      the course reached 100 percent, completed now. Its status otherwise stays
      what it was, so a completed enrollment is never reopened. */
  function Touched(e: Enrollment, complete: bool, now: int): (r: Enrollment)
    ensures r.userId == e.userId && r.courseId == e.courseId && r.enrolledAt == e.enrolledAt
    ensures r.lastAccessedAt == Some(now)
    ensures complete ==> r.status == Completed && r.completedAt == Some(now)
    ensures !complete ==> r.status == e.status && r.completedAt == e.completedAt
  {
    var seen := e.(lastAccessedAt := Some(now));
    if complete then seen.(status := Completed, completedAt := Some(now)) else seen
  }

  /** Completion is one-way: touching a completed enrollment leaves it
      completed, whatever the percentage. */
  lemma TouchNeverReopens(e: Enrollment, complete: bool, now: int)
    requires e.status == Completed
    ensures Touched(e, complete, now).status == Completed
  {
  }

  /** Touching one enrollment keeps the (user, course) pairs distinct. */
  lemma TouchKeepsPairsUnique(es: seq<Enrollment>, i: nat, complete: bool, now: int)
    requires i < |es|
    requires EnrollmentPairsUnique(es)
    ensures EnrollmentPairsUnique(es[i := Touched(es[i], complete, now)])
  {
  }

  /** One entry of `getUserEnrollments`: the enrollment, a course summary and
      the caller's progress in it. */
  datatype EnrollmentView = EnrollmentView(
    enrollmentId: nat,
    enrollment: Enrollment,
    courseId: CourseId,
    title: string,
    slug: string,
    level: Level,
    duration: int,
    totalLessons: nat,
    completedLessons: nat,
    percentComplete: nat,
    lastAccessedAt: Option<int>)

  /** The entry for enrollment `k`: the totals count table rows, so they are
      bounded by the tables, and a course without lessons shows 0 percent. */
  function ViewOf(t: Tables, u: UserId, k: nat): (r: EnrollmentView)
    requires k < |t.enrollments| && t.enrollments[k].courseId < |t.courses|
    ensures r.enrollmentId == k && r.enrollment == t.enrollments[k] && r.courseId == t.enrollments[k].courseId
    ensures r.totalLessons <= |t.lessons| && r.completedLessons <= |t.progress|
    ensures r.totalLessons == 0 ==> r.percentComplete == 0
  {
    var e := t.enrollments[k];
    var c := t.courses[e.courseId];
    var total := Count(t.lessons, LessonInCourse(e.courseId));
    var done := Count(t.progress, CompletedIn(u, e.courseId));
    EnrollmentView(k, e, e.courseId, c.title, c.slug, c.level, c.duration,
                   total, done, PercentComplete(done, total), e.lastAccessedAt)
  }

  /** A correctly enriched entry for caller `u`: the course fields come from
      the enrolled course, `totalLessons` counts that course's lessons,
      `completedLessons` counts only `u`'s completed progress records in it. */
  ghost predicate ViewFaithful(t: Tables, u: UserId, v: EnrollmentView)
  {
    && v.enrollmentId < |t.enrollments|
    && v.enrollment == t.enrollments[v.enrollmentId]
    && v.courseId == v.enrollment.courseId
    && v.courseId < |t.courses|
    && v.title == t.courses[v.courseId].title
    && v.slug == t.courses[v.courseId].slug
    && v.level == t.courses[v.courseId].level
    && v.duration == t.courses[v.courseId].duration
    && v.totalLessons == Count(t.lessons, LessonInCourse(v.courseId))
    && v.completedLessons == Count(t.progress, CompletedIn(u, v.courseId))
    && v.percentComplete == PercentComplete(v.completedLessons, v.totalLessons)
    && v.lastAccessedAt == v.enrollment.lastAccessedAt
  }

  lemma ViewOfFaithful(t: Tables, u: UserId, k: nat)
    requires k < |t.enrollments| && t.enrollments[k].courseId < |t.courses|
    ensures ViewFaithful(t, u, ViewOf(t, u, k)) && ViewOf(t, u, k).enrollmentId == k
  {
  }

  /** With one progress record per (user, lesson) whose course is its
      lesson's, an entry never counts more completed lessons than its course
      has, shows at most 100 percent, and shows 100 percent exactly when at
      least 199 of every 200 lessons are completed; completing every lesson of
      a non-empty course shows 100. */
  lemma ViewCompletion(t: Tables, u: UserId, k: nat)
    requires k < |t.enrollments| && t.enrollments[k].courseId < |t.courses|
    requires ProgressPairsUnique(t.progress)
    requires ProgressDenormalised(t.lessons, t.progress)
    ensures var v := ViewOf(t, u, k);
      && v.completedLessons <= v.totalLessons
      && v.percentComplete <= 100
      && (v.totalLessons > 0 ==>
            (v.percentComplete == 100 <==> 200 * v.completedLessons >= 199 * v.totalLessons))
      && (v.totalLessons > 0 && v.completedLessons == v.totalLessons ==> v.percentComplete == 100)
  {
    var v := ViewOf(t, u, k);
    CompletedAtMostTotal(t.lessons, t.progress, u, v.courseId);
    if v.totalLessons > 0 {
      PercentBounds(v.completedLessons, v.totalLessons);
      HundredThreshold(v.completedLessons, v.totalLessons);
    }
  }

  /** The caller's enrollments whose course still exists. */
  function Live(u: UserId, courseCount: nat): Enrollment -> bool
  {
    (e: Enrollment) => e.userId == u && e.courseId < courseCount
  }

  /** The enriched views of `u`'s enrollments whose course exists. */
  function ViewsOf(t: Tables, u: UserId): (r: seq<EnrollmentView>)
    ensures |r| <= Count(t.enrollments, EnrolledBy(u))
    ensures forall i :: 0 <= i < |r| ==> ViewFaithful(t, u, r[i]) && r[i].enrollment.userId == u
    ensures forall k :: (0 <= k < |t.enrollments| && t.enrollments[k].userId == u &&
                         t.enrollments[k].courseId < |t.courses|) ==>
              exists j :: 0 <= j < |r| && r[j].enrollmentId == k
  {
    var ids := Where(t.enrollments, Live(u, |t.courses|));
    assert forall i :: 0 <= i < |ids| ==> ids[i] in ids;
    var views := seq(|ids|, i requires 0 <= i < |ids| => ViewOf(t, u, ids[i]));
    CountMono(t.enrollments, Live(u, |t.courses|), EnrolledBy(u));
    assert forall i :: 0 <= i < |views| ==>
      ViewFaithful(t, u, views[i]) && views[i].enrollment.userId == u && views[i].enrollmentId == ids[i] by {
      forall i | 0 <= i < |views|
        ensures ViewFaithful(t, u, views[i]) && views[i].enrollment.userId == u && views[i].enrollmentId == ids[i]
      {
        ViewOfFaithful(t, u, ids[i]);
      }
    }
    assert forall k :: (0 <= k < |t.enrollments| && t.enrollments[k].userId == u &&
                        t.enrollments[k].courseId < |t.courses|) ==>
      exists j :: 0 <= j < |views| && views[j].enrollmentId == k by {
      forall k | (0 <= k < |t.enrollments| && t.enrollments[k].userId == u &&
                  t.enrollments[k].courseId < |t.courses|)
        ensures exists j :: 0 <= j < |views| && views[j].enrollmentId == k
      {
        var j := WherePlace(t.enrollments, Live(u, |t.courses|), k);
        assert views[j].enrollmentId == k;
      }
    }
    views
  }

  /** `getUserEnrollments`: the caller's enrollments in table order, each
      enriched, those whose course is missing dropped. */
  function UserEnrollments(t: Tables, subject: Option<string>): (r: Result<seq<EnrollmentView>>)
    ensures RequireUser(t.users, subject).Err? <==> r.Err?
    ensures r.Err? ==> r.error == RequireUser(t.users, subject).error
    ensures r.Ok? ==> var u := RequireUser(t.users, subject).value;
      && |r.value| <= Count(t.enrollments, EnrolledBy(u))
      && (forall i :: 0 <= i < |r.value| ==>
            ViewFaithful(t, u, r.value[i]) && r.value[i].enrollment.userId == u)
      && (forall k :: (0 <= k < |t.enrollments| && t.enrollments[k].userId == u &&
                        t.enrollments[k].courseId < |t.courses|) ==>
            exists j :: 0 <= j < |r.value| && r.value[j].enrollmentId == k)
  {
    match RequireUser(t.users, subject)
    case Err(e) => Err(e)
    case Ok(u) => Ok(ViewsOf(t, u))
  }

  /** Under the progress invariants every reported percentage lies in
      0..100 and never counts more completed lessons than the course has. */
  lemma EnrollmentPercentBounded(t: Tables, subject: Option<string>)
    requires ProgressPairsUnique(t.progress)
    requires ProgressDenormalised(t.lessons, t.progress)
    requires UserEnrollments(t, subject).Ok?
    ensures forall v :: v in UserEnrollments(t, subject).value ==>
              v.completedLessons <= v.totalLessons && v.percentComplete <= 100
  {
    var u := RequireUser(t.users, subject).value;
    var vs := UserEnrollments(t, subject).value;
    forall v | v in vs ensures v.completedLessons <= v.totalLessons && v.percentComplete <= 100 {
      var i :| 0 <= i < |vs| && vs[i] == v;
      assert ViewFaithful(t, u, v);
      ViewCompletion(t, u, v.enrollmentId);
    }
  }
}
