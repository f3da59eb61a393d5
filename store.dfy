/** The backend as one store: six tables plus the analytics log, and the
    mutations that change them. Each mutation is one atomic method: a guard
    that fails leaves every table as it was. The caller's identity subject,
    the current time and the admin setting are parameters. */
module Backend {
  import opened Base
  import opened Schema
  import opened Query
  import opened Utils
  import opened Chapters
  import opened Lessons
  import opened Courses
  import opened Enrollments
  import opened ProgressTracker
  import opened Users
  import opened Files

  /** The three writes `markLessonComplete` makes once the lesson is known,
      and its reply. */
  datatype Completion = Completion(progress: seq<Progress>, enrollments: seq<Enrollment>,
                                   event: AnalyticsEvent, reply: CourseProgress)

  /** The caller `u` completes existing lesson `lessonId`: the enrollment in
      its course must be found (any status), the progress record is upserted,
      the enrollment touched and completed when the rounded percentage over
      the course's lessons reaches 100. */
  function CompleteLesson(lessons: seq<Lesson>, es: seq<Enrollment>, ps: seq<Progress>, u: UserId,
                          lessonId: LessonId, watchTime: int, now: int): (r: Result<Completion>)
    requires lessonId < |lessons|
    ensures var c := lessons[lessonId].courseId;
      && (Unique(es, EnrollmentOf(u, c)).Missing? ==> r == Err(NotEnrolled))
      && (r.Ok? <==> Unique(es, EnrollmentOf(u, c)).Found? && !Unique(ps, ProgressOf(u, lessonId)).Ambiguous?)
      && (r.Err? ==> r.error == NotEnrolled || r.error == NotUnique)
  {
    var c := lessons[lessonId].courseId;
    match Unique(es, EnrollmentOf(u, c))
    case Missing => Err(NotEnrolled)
    case Ambiguous => Err(NotUnique)
    case Found(ei) =>
      if Unique(ps, ProgressOf(u, lessonId)).Ambiguous? then Err(NotUnique)
      else
        var ps' := Upserted(ps, u, lessonId, c, watchTime, now);
        var total := Count(lessons, LessonInCourse(c));
        var done := Count(ps', CompletedIn(u, c));
        var percent := PercentComplete(done, total);
        Ok(Completion(ps', es[ei := Touched(es[ei], percent == 100, now)],
                      AnalyticsEvent(LessonComplete, Some(u), Some(c), Some(lessonId), now),
                      CourseProgress(done, total, percent)))
  }

  /** A successful completion writes the upserted progress table, touches the
      caller's one enrollment in the course and nothing else, logs one
      `lesson_complete` event, and reports the completed and total counts of
      the course with the rounded percentage; the course has at least one
      lesson, so the percentage is never a division by zero. */
  lemma CompleteLessonOutcome(lessons: seq<Lesson>, es: seq<Enrollment>, ps: seq<Progress>, u: UserId,
                              lessonId: LessonId, watchTime: int, now: int)
    requires lessonId < |lessons|
    requires CompleteLesson(lessons, es, ps, u, lessonId, watchTime, now).Ok?
    ensures var c := lessons[lessonId].courseId;
      var o := CompleteLesson(lessons, es, ps, u, lessonId, watchTime, now).value;
      var ei := Unique(es, EnrollmentOf(u, c)).index;
      && o.progress == Upserted(ps, u, lessonId, c, watchTime, now)
      && |o.enrollments| == |es|
      && (forall k :: 0 <= k < |es| && k != ei ==> o.enrollments[k] == es[k])
      && o.enrollments[ei].lastAccessedAt == Some(now)
      && (o.reply.percentComplete == 100 ==> o.enrollments[ei].status == Completed)
      && (o.reply.percentComplete != 100 ==> o.enrollments[ei].status == es[ei].status)
      && o.event == AnalyticsEvent(LessonComplete, Some(u), Some(c), Some(lessonId), now)
      && o.reply.totalLessons == Count(lessons, LessonInCourse(c)) >= 1
      && o.reply.completedLessons == Count(o.progress, CompletedIn(u, c))
      && o.reply.percentComplete == RoundedPercent(o.reply.completedLessons, o.reply.totalLessons)
  {
    CompletionFacts(lessons, ps, u, lessonId, watchTime, now);
  }

  /** Under the store invariants a completion keeps them, and the reply never
      counts more completed lessons than the course has nor more than 100
      percent. */
  lemma CompleteLessonKeepsInvariants(lessons: seq<Lesson>, es: seq<Enrollment>, ps: seq<Progress>, u: UserId,
                                      lessonId: LessonId, watchTime: int, now: int)
    requires lessonId < |lessons|
    requires CompleteLesson(lessons, es, ps, u, lessonId, watchTime, now).Ok?
    requires EnrollmentPairsUnique(es) && ProgressPairsUnique(ps) && ProgressDenormalised(lessons, ps)
    ensures var o := CompleteLesson(lessons, es, ps, u, lessonId, watchTime, now).value;
      && EnrollmentPairsUnique(o.enrollments)
      && ProgressPairsUnique(o.progress)
      && ProgressDenormalised(lessons, o.progress)
      && o.reply.completedLessons <= o.reply.totalLessons
      && o.reply.percentComplete <= 100
  {
    var c := lessons[lessonId].courseId;
    var ei := Unique(es, EnrollmentOf(u, c)).index;
    var o := CompleteLesson(lessons, es, ps, u, lessonId, watchTime, now).value;
    CompletionFacts(lessons, ps, u, lessonId, watchTime, now);
    TouchKeepsPairsUnique(es, ei, o.reply.percentComplete == 100, now);
  }

  /** The enrollment's status plays no part in whether a completion is
      accepted: any status, `cancelled` included, is as good as `active`. */
  lemma CompletionIgnoresStatus(lessons: seq<Lesson>, es: seq<Enrollment>, ps: seq<Progress>, u: UserId,
                                lessonId: LessonId, watchTime: int, now: int, i: nat, st: EnrollmentStatus)
    requires lessonId < |lessons| && i < |es|
    ensures CompleteLesson(lessons, es[i := es[i].(status := st)], ps, u, lessonId, watchTime, now).Ok? ==
            CompleteLesson(lessons, es, ps, u, lessonId, watchTime, now).Ok?
  {
    var p := EnrollmentOf(u, lessons[lessonId].courseId);
    var es' := es[i := es[i].(status := st)];
    assert forall k :: 0 <= k < |es| ==> p(es'[k]) == p(es[k]);
    assert Unique(es', p).Missing? == Unique(es, p).Missing?;
    assert Unique(es', p).Ambiguous? == Unique(es, p).Ambiguous?;
  }

  /** A cancelled enrollment in a one-lesson course: completing the lesson is
      accepted and turns the enrollment into a completed one. */
  lemma CancelledEnrollmentCompletes(now: int)
    ensures var l := Lesson(0, 0, "Intro", None, None, 10, 1, None, 0, 0);
      var e := Enrollment(0, 0, Cancelled, None, 0, None, None);
      var r := CompleteLesson([l], [e], [], 0, 0, 60, now);
      && r.Ok?
      && r.value.reply == CourseProgress(1, 1, 100)
      && r.value.enrollments == [e.(status := Completed, completedAt := Some(now), lastAccessedAt := Some(now))]
  {
  }

  class Store {
    var users: seq<User>
    var courses: seq<Course>
    var chapters: seq<Chapter>
    var lessons: seq<Lesson>
    var enrollments: seq<Enrollment>
    var progress: seq<Progress>
    var analytics: seq<AnalyticsEvent>
    /** Every handle passed to the blob store's delete, in call order. */
    var deletedBlobs: seq<StorageId>

    /** What the queries read. */
    function Snapshot(): Tables
      reads this
    {
      Tables(users, courses, chapters, lessons, enrollments, progress, analytics)
    }

    /** The invariants the mutations maintain and the schema does not
        enforce. */
    ghost predicate Valid()
      reads this
    {
      && ClerkIdsUnique(users)
      && SlugsUnique(courses)
      && EnrollmentPairsUnique(enrollments)
      && ProgressPairsUnique(progress)
      && Denormalised(chapters, lessons)
      && ProgressDenormalised(lessons, progress)
    }

    constructor ()
      ensures Valid()
      ensures users == [] && courses == [] && chapters == [] && lessons == []
      ensures enrollments == [] && progress == [] && analytics == [] && deletedBlobs == []
    {
      users, courses, chapters, lessons := [], [], [], [];
      enrollments, progress, analytics, deletedBlobs := [], [], [], [];
    }

    // -------------------------------------------------------------------
    // Courses
    // -------------------------------------------------------------------

    /** `createCourse`: instructor or admin only; the resolved slug must be
        free; the new draft course belongs to the caller. */
    method CreateCourse(subject: Option<string>, args: CourseArgs, now: int, currentYear: int)
      returns (r: Result<(CourseId, string)>)
      modifies this`courses
      ensures var g := RequireRole(users, subject, [Instructor, Admin]);
        && (g.Err? ==> r == Err(g.error))
        && (r.Ok? <==> g.Ok? && forall k :: 0 <= k < |old(courses)| ==> old(courses)[k].slug != ResolveSlug(args))
        && (g.Ok? && Unique(old(courses), BySlug(ResolveSlug(args))).Found? ==> r == Err(Conflict))
        && (r.Ok? ==> (r.value == (|old(courses)|, ResolveSlug(args)) &&
                       courses == old(courses) + [NewCourse(args, g.value, ResolveSlug(args), now, currentYear)]))
      ensures r.Err? ==> courses == old(courses)
      ensures old(Valid()) ==> Valid()
    {
      var g := RequireRole(users, subject, [Instructor, Admin]);
      if g.Err? {
        return Err(g.error);
      }
      var slug := ResolveSlug(args);
      match Unique(courses, BySlug(slug)) {
        case Found(_) =>
          return Err(Conflict);
        case Ambiguous =>
          return Err(NotUnique);
        case Missing =>
          var c := NewCourse(args, g.value, slug, now, currentYear);
          if SlugsUnique(courses) {
            AppendFreshSlug(courses, c);
          }
          r := Ok((|courses|, slug));
          courses := courses + [c];
      }
    }

    /** `updateCourse`: after the course guard, the supplied fields are
        patched in. */
    method UpdateCourse(subject: Option<string>, courseId: CourseId, patch: CoursePatch, now: int)
      returns (r: Result<()>)
      modifies this`courses
      ensures var g := CourseGuard(users, old(courses), subject, courseId);
        && (g.Err? ==> r == Err(g.error) && courses == old(courses))
        && (g.Ok? ==> (r == Ok(()) &&
                       courses == old(courses)[courseId := ApplyPatch(old(courses)[courseId], patch, now)]))
      ensures old(Valid()) ==> Valid()
    {
      var g := CourseGuard(users, courses, subject, courseId);
      if g.Err? {
        return Err(g.error);
      }
      courses := courses[courseId := ApplyPatch(courses[courseId], patch, now)];
      r := Ok(());
    }

    /** `updateCourseStatus`: after the course guard, publishing additionally
        needs a chapter and a lesson in every chapter; returning to draft
        needs nothing more. */
    method UpdateCourseStatus(subject: Option<string>, courseId: CourseId, status: CourseStatus, now: int)
      returns (r: Result<()>)
      modifies this`courses
      ensures var g := CourseGuard(users, old(courses), subject, courseId);
        && (g.Err? ==> r == Err(g.error))
        && (r.Ok? <==> g.Ok? && (status == Published ==> PublishReady(chapters, lessons, courseId)))
        && ((g.Ok? && status == Published && forall k :: 0 <= k < |chapters| ==> chapters[k].courseId != courseId)
              ==> r == Err(NoChapters))
        && (g.Ok? && r.Err? ==> r.error == NoChapters || r.error == EmptyChapter)
      ensures r.Ok? ==> courses == old(courses)[courseId := old(courses)[courseId].(status := status, updatedAt := now)]
      ensures r.Err? ==> courses == old(courses)
      ensures old(Valid()) ==> Valid()
    {
      var g := CourseGuard(users, courses, subject, courseId);
      if g.Err? {
        return Err(g.error);
      }
      if status == Published {
        var ready := CheckPublishable(chapters, lessons, courseId);
        if ready.Err? {
          return ready;
        }
      }
      courses := courses[courseId := courses[courseId].(status := status, updatedAt := now)];
      r := Ok(());
    }

    // -------------------------------------------------------------------
    // Chapters and lessons
    // -------------------------------------------------------------------

    /** `createChapter`: after the course guard, a chapter numbered after its
        siblings is appended. */
    method CreateChapter(subject: Option<string>, courseId: CourseId, title: string, description: Option<string>,
                         now: int)
      returns (r: Result<ChapterId>)
      modifies this`chapters
      ensures var g := CourseGuard(users, courses, subject, courseId);
        && (g.Err? ==> r == Err(g.error) && chapters == old(chapters))
        && (g.Ok? ==> (r == Ok(|old(chapters)|) &&
                       chapters == old(chapters) +
                         [Chapter(courseId, title, description, NextChapterOrder(old(chapters), courseId), now, now)]))
      ensures r.Ok? ==> forall c :: OrdersDistinct(old(chapters), c) ==> OrdersDistinct(chapters, c)
      ensures old(Valid()) ==> Valid()
    {
      var g := CourseGuard(users, courses, subject, courseId);
      if g.Err? {
        return Err(g.error);
      }
      var c := Chapter(courseId, title, description, NextChapterOrder(chapters, courseId), now, now);
      forall other | OrdersDistinct(chapters, other) ensures OrdersDistinct(chapters + [c], other) {
        AppendKeepsOrdersDistinct(chapters, c, other);
      }
      assert forall i :: 0 <= i < |chapters| ==> (chapters + [c])[i] == chapters[i];
      r := Ok(|chapters|);
      chapters := chapters + [c];
    }

    /** `reorderChapters`: after the course guard, `ids[i]` gets order index
        `i`, patch by patch. Patching a chapter that does not exist fails and
        undoes the whole mutation. */
    method ReorderChapters(subject: Option<string>, courseId: CourseId, ids: seq<ChapterId>, now: int)
      returns (r: Result<()>)
      modifies this`chapters
      ensures var g := CourseGuard(users, courses, subject, courseId);
        && (g.Err? ==> r == Err(g.error))
        && (g.Ok? && (exists i :: 0 <= i < |ids| && ids[i] >= |old(chapters)|) ==> r == Err(NotFound))
        && (r.Ok? <==> g.Ok? && forall i :: 0 <= i < |ids| ==> ids[i] < |old(chapters)|)
      ensures r.Ok? ==> chapters == Renumbered(old(chapters), ids, now)
      ensures r.Err? ==> chapters == old(chapters)
      ensures old(Valid()) ==> Valid()
    {
      var g := CourseGuard(users, courses, subject, courseId);
      if g.Err? {
        return Err(g.error);
      }
      if exists i :: 0 <= i < |ids| && ids[i] >= |chapters| {
        return Err(NotFound);
      }
      assert Renumbered(chapters, ids[..0], now) == chapters;
      var i := 0;
      while i < |ids|
        invariant 0 <= i <= |ids|
        invariant chapters == Renumbered(old(chapters), ids[..i], now)
      {
        RenumberedStep(old(chapters), ids, i, now);
        chapters := chapters[ids[i] := chapters[ids[i]].(orderIndex := i, updatedAt := now)];
        i := i + 1;
      }
      assert ids[..|ids|] == ids;
      assert forall j :: 0 <= j < |chapters| ==> chapters[j].courseId == old(chapters)[j].courseId;
      r := Ok(());
    }

    /** `createLesson`: instructor or admin; the chapter and its course must
        exist and the course must be the caller's unless admin; the lesson is
        numbered after its siblings and copies the chapter's course id. */
    method CreateLesson(subject: Option<string>, chapterId: ChapterId, title: string, description: Option<string>,
                        duration: int, content: Option<string>, now: int)
      returns (r: Result<LessonId>)
      modifies this`lessons
      ensures var g := RequireRole(users, subject, [Instructor, Admin]);
        && (g.Err? ==> r == Err(g.error))
        && (g.Ok? && chapterId >= |chapters| ==> r == Err(NotFound))
        && (g.Ok? && chapterId < |chapters| ==>
              var check := CheckCourse(users, courses, g.value, chapters[chapterId].courseId);
              (r.Ok? <==> check.Ok?) && (check.Err? ==> r == Err(check.error)))
      ensures r.Ok? ==>
        && chapterId < |chapters| && r.value == |old(lessons)|
        && lessons == old(lessons) + [Lesson(chapterId, chapters[chapterId].courseId, title, description, None, duration,
                                             NextLessonOrder(old(lessons), chapterId), content, now, now)]
      ensures r.Err? ==> lessons == old(lessons)
      ensures r.Ok? ==> forall c :: LessonOrdersDistinct(old(lessons), c) ==> LessonOrdersDistinct(lessons, c)
      ensures old(Valid()) ==> Valid()
    {
      var g := RequireRole(users, subject, [Instructor, Admin]);
      if g.Err? {
        return Err(g.error);
      }
      if chapterId >= |chapters| {
        return Err(NotFound);
      }
      var check := CheckCourse(users, courses, g.value, chapters[chapterId].courseId);
      if check.Err? {
        return Err(check.error);
      }
      var l := Lesson(chapterId, chapters[chapterId].courseId, title, description, None, duration,
                      NextLessonOrder(lessons, chapterId), content, now, now);
      forall other | LessonOrdersDistinct(lessons, other) ensures LessonOrdersDistinct(lessons + [l], other) {
        AppendKeepsLessonOrdersDistinct(lessons, l, other);
      }
      assert forall i :: 0 <= i < |lessons| ==> (lessons + [l])[i] == lessons[i];
      if Denormalised(chapters, lessons) {
        AppendKeepsDenormalised(chapters, lessons, l);
      }
      if ProgressDenormalised(lessons, progress) {
        LessonsKeepCourses(lessons, lessons + [l], progress);
      }
      r := Ok(|lessons|);
      lessons := lessons + [l];
    }

    // -------------------------------------------------------------------
    // Enrollment and progress
    // -------------------------------------------------------------------

    /** `createEnrollment`: any existing enrollment for (caller, course),
        whatever its status, is a conflict, checked before the course must
        exist and be published; then one active enrollment and one analytics
        event are appended. */
    method CreateEnrollment(subject: Option<string>, courseId: CourseId, now: int)
      returns (r: Result<nat>)
      modifies this`enrollments, this`analytics
      ensures var u := RequireUser(users, subject);
        && (u.Err? ==> r == Err(u.error))
        && ((u.Ok? && exists k :: 0 <= k < |old(enrollments)| && EnrollmentOf(u.value, courseId)(old(enrollments)[k]))
              ==> r.Err? && (r.error == Conflict || r.error == NotUnique))
        && (u.Ok? && Unique(old(enrollments), EnrollmentOf(u.value, courseId)).Found? ==> r == Err(Conflict))
        && ((u.Ok? && Unique(old(enrollments), EnrollmentOf(u.value, courseId)).Missing? &&
              (courseId >= |courses| || courses[courseId].status != Published)) ==> r == Err(NotAvailable))
        && (r.Ok? <==> (u.Ok? && Unique(old(enrollments), EnrollmentOf(u.value, courseId)).Missing? &&
                        courseId < |courses| && courses[courseId].status == Published))
        && (r.Ok? ==> (r.value == |old(enrollments)| &&
                       enrollments == old(enrollments) + [Enrollment(u.value, courseId, Active, None, now, None, None)] &&
                       analytics == old(analytics) +
                         [AnalyticsEvent(EnrollmentCreated, Some(u.value), Some(courseId), None, now)]))
      ensures r.Err? ==> enrollments == old(enrollments) && analytics == old(analytics)
      ensures old(Valid()) ==> Valid()
    {
      var u := RequireUser(users, subject);
      if u.Err? {
        return Err(u.error);
      }
      match Unique(enrollments, EnrollmentOf(u.value, courseId)) {
        case Found(_) =>
          return Err(Conflict);
        case Ambiguous =>
          return Err(NotUnique);
        case Missing =>
      }
      if courseId >= |courses| || courses[courseId].status != Published {
        return Err(NotAvailable);
      }
      r := Ok(|enrollments|);
      enrollments := enrollments + [Enrollment(u.value, courseId, Active, None, now, None, None)];
      analytics := analytics + [AnalyticsEvent(EnrollmentCreated, Some(u.value), Some(courseId), None, now)];
    }

    /** `markLessonComplete`: the lesson must exist, then `CompleteLesson`
        decides the new progress and enrollment tables, the analytics event
        and the reply. */
    method MarkLessonComplete(subject: Option<string>, lessonId: LessonId, watchTime: int, now: int)
      returns (r: Result<CourseProgress>)
      modifies this`progress, this`enrollments, this`analytics
      ensures var u := RequireUser(users, subject);
        && (u.Err? ==> r == Err(u.error))
        && ((u.Ok? && lessonId >= |lessons|) ==> r == Err(NotFound))
        && ((u.Ok? && lessonId < |lessons|) ==>
              var o := CompleteLesson(lessons, old(enrollments), old(progress), u.value, lessonId, watchTime, now);
              && (o.Err? ==> r == Err(o.error))
              && (o.Ok? ==> (&& r == Ok(o.value.reply)
                             && progress == o.value.progress
                             && enrollments == o.value.enrollments
                             && analytics == old(analytics) + [o.value.event])))
      ensures r.Err? ==> progress == old(progress) && enrollments == old(enrollments) && analytics == old(analytics)
      ensures old(Valid()) ==> Valid()
    {
      var u := RequireUser(users, subject);
      if u.Err? {
        return Err(u.error);
      }
      if lessonId >= |lessons| {
        return Err(NotFound);
      }
      var ls, es, ps := lessons, enrollments, progress;
      var o := CompleteLesson(ls, es, ps, u.value, lessonId, watchTime, now);
      if o.Err? {
        return Err(o.error);
      }
      if EnrollmentPairsUnique(es) && ProgressPairsUnique(ps) && ProgressDenormalised(ls, ps) {
        CompleteLessonKeepsInvariants(ls, es, ps, u.value, lessonId, watchTime, now);
      }
      Write(o.value);
      r := Ok(o.value.reply);
      assert lessons == ls && users == old(users);
      assert o == CompleteLesson(lessons, old(enrollments), old(progress), u.value, lessonId, watchTime, now);
    }

    /** The writes of one completion; the invariants hold afterwards when they
        held before and the new progress and enrollment tables keep theirs. */
    method Write(o: Completion)
      modifies this`progress, this`enrollments, this`analytics
      ensures progress == o.progress && enrollments == o.enrollments && analytics == old(analytics) + [o.event]
      ensures (old(Valid()) && EnrollmentPairsUnique(o.enrollments) && ProgressPairsUnique(o.progress) &&
               ProgressDenormalised(lessons, o.progress)) ==> Valid()
    {
      progress, enrollments, analytics := o.progress, o.enrollments, analytics + [o.event];
    }

    // -------------------------------------------------------------------
    // Accounts
    // -------------------------------------------------------------------

    /** `syncUser`: the users table becomes what `Sync` makes of it. */
    method SyncUser(clerkId: string, email: string, name: Option<string>, imageUrl: Option<string>,
                    env: Option<string>, now: int)
      returns (r: Result<UserId>)
      modifies this`users
      ensures var o := Sync(old(users), clerkId, email, name, imageUrl, env, now);
        && (o.Err? ==> r == Err(o.error) && users == old(users))
        && (o.Ok? ==> r == Ok(o.value.0) && users == o.value.1)
      ensures r.Ok? ==> r.value < |users| && users[r.value].clerkId == clerkId && Count(users, ByClerk(clerkId)) == 1
      ensures old(Valid()) ==> Valid()
    {
      var us := users;
      var o := Sync(us, clerkId, email, name, imageUrl, env, now);
      if o.Err? {
        return Err(o.error);
      }
      SyncLeavesOneUser(us, clerkId, email, name, imageUrl, env, now);
      if ClerkIdsUnique(us) {
        SyncKeepsClerkIdsUnique(us, clerkId, email, name, imageUrl, env, now);
      }
      users := o.value.1;
      r := Ok(o.value.0);
    }

    /** `updateUserRole`: admins only; the target's role and update time are
        patched, a missing target fails. */
    method UpdateUserRole(subject: Option<string>, userId: UserId, role: Role, now: int)
      returns (r: Result<()>)
      modifies this`users
      ensures var g := RequireRole(old(users), subject, [Admin]);
        && (g.Err? ==> r == Err(g.error))
        && (g.Ok? && userId >= |old(users)| ==> r == Err(NotFound))
        && (r.Ok? <==> g.Ok? && userId < |old(users)|)
      ensures r.Ok? ==> users == old(users)[userId := old(users)[userId].(role := role, updatedAt := now)]
      ensures r.Err? ==> users == old(users)
      ensures old(Valid()) ==> Valid()
    {
      var g := RequireRole(users, subject, [Admin]);
      if g.Err? {
        return Err(g.error);
      }
      if userId >= |users| {
        return Err(NotFound);
      }
      users := users[userId := users[userId].(role := role, updatedAt := now)];
      r := Ok(());
    }

    // -------------------------------------------------------------------
    // Files
    // -------------------------------------------------------------------

    /** `attachThumbnailToCourse`: after the course guard, the old handle (if
        any) is deleted and the new one stored. */
    method AttachThumbnailToCourse(subject: Option<string>, courseId: CourseId, storageId: StorageId, now: int)
      returns (r: Result<()>)
      modifies this`courses, this`deletedBlobs
      ensures var g := CourseGuard(users, old(courses), subject, courseId);
        && (g.Err? ==> r == Err(g.error))
        && (r.Ok? <==> g.Ok?)
      ensures r.Err? ==> courses == old(courses) && deletedBlobs == old(deletedBlobs)
      ensures r.Ok? ==>
        var c := old(courses)[courseId];
        && courses == old(courses)[courseId := c.(thumbnailId := Some(storageId), updatedAt := now)]
        && deletedBlobs == old(deletedBlobs) + (if c.thumbnailId.Some? then [c.thumbnailId.value] else [])
      ensures r.Ok? && old(courses)[courseId].thumbnailId == Some(storageId) ==>
        storageId in deletedBlobs && courses[courseId].thumbnailId == Some(storageId)
      ensures old(Valid()) ==> Valid()
    {
      var g := CourseGuard(users, courses, subject, courseId);
      if g.Err? {
        return Err(g.error);
      }
      var c := courses[courseId];
      if c.thumbnailId.Some? {
        deletedBlobs := deletedBlobs + [c.thumbnailId.value];
      }
      courses := courses[courseId := c.(thumbnailId := Some(storageId), updatedAt := now)];
      r := Ok(());
    }

    /** `attachVideoToLesson`: after the video guard, the old handle (if any)
        is deleted and the new one stored. */
    method AttachVideoToLesson(subject: Option<string>, lessonId: LessonId, storageId: StorageId, now: int)
      returns (r: Result<()>)
      modifies this`lessons, this`deletedBlobs
      ensures var g := VideoGuard(users, courses, old(lessons), subject, lessonId);
        && (g.Err? ==> r == Err(g.error))
        && (r.Ok? <==> g.Ok?)
      ensures r.Err? ==> lessons == old(lessons) && deletedBlobs == old(deletedBlobs)
      ensures r.Ok? ==>
        var l := old(lessons)[lessonId];
        && lessons == old(lessons)[lessonId := l.(videoId := Some(storageId), updatedAt := now)]
        && deletedBlobs == old(deletedBlobs) + (if l.videoId.Some? then [l.videoId.value] else [])
      ensures r.Ok? && old(lessons)[lessonId].videoId == Some(storageId) ==>
        storageId in deletedBlobs && lessons[lessonId].videoId == Some(storageId)
      ensures old(Valid()) ==> Valid()
    {
      var ls := lessons;
      var g := VideoGuard(users, courses, ls, subject, lessonId);
      if g.Err? {
        return Err(g.error);
      }
      var l := ls[lessonId];
      var l' := l.(videoId := Some(storageId), updatedAt := now);
      if Denormalised(chapters, ls) {
        PatchKeepsDenormalised(chapters, ls, lessonId, l');
      }
      if ProgressDenormalised(ls, progress) {
        LessonsKeepCourses(ls, ls[lessonId := l'], progress);
      }
      deletedBlobs := deletedBlobs + (if l.videoId.Some? then [l.videoId.value] else []);
      lessons := ls[lessonId := l'];
      r := Ok(());
    }
  }
}
