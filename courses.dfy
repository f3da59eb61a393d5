/** Course records: creation arguments, partial patches, the publish gate and
    the instructor statistics projection. */
module Courses {
  import opened Base
  import opened Schema
  import opened Query
  import opened Utils
  import opened Lessons

  /** No two courses share a slug. The `by_slug` index does not enforce it;
      course creation does. */
  ghost predicate SlugsUnique(courses: seq<Course>)
  {
    forall i, j :: 0 <= i < j < |courses| ==> courses[i].slug != courses[j].slug
  }

  /** The arguments of `createCourse`. */
  datatype CourseArgs = CourseArgs(
    title: string,
    slug: Option<string>,
    smallDescription: string,
    description: string,
    category: Category,
    level: Level,
    duration: int,
    price: int,
    keywords: Option<seq<string>>,
    year: Option<int>)

  /** `args.slug || generateSlug(args.title)`: an absent or empty slug is
      derived from the title. */
  function ResolveSlug(args: CourseArgs): (r: string)
    ensures args.slug.Some? && args.slug.value != "" ==> r == args.slug.value
    ensures args.slug.None? || args.slug.value == "" ==> r == GenerateSlug(args.title) && IsSlug(r)
  {
    if args.slug.Some? && args.slug.value != "" then args.slug.value else GenerateSlug(args.title)
  }

  /** The record `createCourse` inserts. A missing or zero year becomes the
      current year. */
  function NewCourse(args: CourseArgs, instructorId: UserId, slug: string, now: int, currentYear: int): (r: Course)
    ensures r.status == Draft && r.instructorId == instructorId && r.slug == slug && r.thumbnailId.None?
    ensures r.title == args.title && r.category == args.category && r.level == args.level && r.price == args.price
    ensures r.smallDescription == args.smallDescription && r.description == args.description
    ensures r.duration == args.duration
    ensures r.keywords == if args.keywords.Some? then args.keywords.value else []
    ensures args.year.Some? && args.year.value != 0 ==> r.year == Some(args.year.value)
    ensures args.year.None? || args.year.value == 0 ==> r.year == Some(currentYear)
    ensures r.createdAt == r.updatedAt == now
  {
    Course(args.title, slug, args.smallDescription, args.description, None, args.category, args.level,
           args.duration, args.price, Draft, instructorId,
           if args.keywords.Some? then args.keywords.value else [],
           Some(if args.year.Some? && args.year.value != 0 then args.year.value else currentYear),
           now, now)
  }

  /** Appending a course whose slug no course has keeps slugs distinct. */
  lemma AppendFreshSlug(courses: seq<Course>, c: Course)
    requires SlugsUnique(courses)
    requires forall k :: 0 <= k < |courses| ==> courses[k].slug != c.slug
    ensures SlugsUnique(courses + [c])
  {
    forall i, j | 0 <= i < j < |courses| + 1 ensures (courses + [c])[i].slug != (courses + [c])[j].slug {
      assert (courses + [c])[i] == courses[i];
    }
  }

  /** The optional fields `updateCourse` patches. */
  datatype CoursePatch = CoursePatch(
    title: Option<string>,
    smallDescription: Option<string>,
    description: Option<string>,
    category: Option<Category>,
    level: Option<Level>,
    duration: Option<int>,
    price: Option<int>,
    keywords: Option<seq<string>>)

  function Pick<T>(o: Option<T>, current: T): T
  {
    if o.Some? then o.value else current
  }

  /** The course after `updateCourse`: each supplied field replaced, every
      other field kept, and the update time set. */
  function ApplyPatch(c: Course, p: CoursePatch, now: int): (r: Course)
    ensures r.slug == c.slug && r.status == c.status && r.instructorId == c.instructorId
    ensures r.thumbnailId == c.thumbnailId && r.year == c.year && r.createdAt == c.createdAt
    ensures r.updatedAt == now
    ensures p.title.Some? ==> r.title == p.title.value
    ensures p.title.None? ==> r.title == c.title
    ensures p.price.Some? ==> r.price == p.price.value
    ensures p.price.None? ==> r.price == c.price
    ensures p.smallDescription.Some? ==> r.smallDescription == p.smallDescription.value
    ensures p.smallDescription.None? ==> r.smallDescription == c.smallDescription
    ensures p.description.Some? ==> r.description == p.description.value
    ensures p.description.None? ==> r.description == c.description
    ensures p.category.Some? ==> r.category == p.category.value
    ensures p.category.None? ==> r.category == c.category
    ensures p.level.Some? ==> r.level == p.level.value
    ensures p.level.None? ==> r.level == c.level
    ensures p.duration.Some? ==> r.duration == p.duration.value
    ensures p.duration.None? ==> r.duration == c.duration
    ensures p.keywords.Some? ==> r.keywords == p.keywords.value
    ensures p.keywords.None? ==> r.keywords == c.keywords
  {
    c.(title := Pick(p.title, c.title),
       smallDescription := Pick(p.smallDescription, c.smallDescription),
       description := Pick(p.description, c.description),
       category := Pick(p.category, c.category),
       level := Pick(p.level, c.level),
       duration := Pick(p.duration, c.duration),
       price := Pick(p.price, c.price),
       keywords := Pick(p.keywords, c.keywords),
       updatedAt := now)
  }

  /** Applying the same patch twice is the same as applying it once. */
  lemma PatchIdempotent(c: Course, p: CoursePatch, now: int)
    ensures ApplyPatch(ApplyPatch(c, p, now), p, now) == ApplyPatch(c, p, now)
  {
  }

  /** An empty patch changes nothing but the update time. */
  lemma EmptyPatch(c: Course, now: int)
    ensures ApplyPatch(c, CoursePatch(None, None, None, None, None, None, None, None), now) == c.(updatedAt := now)
  {
  }

  // ---------------------------------------------------------------------
  // Publish gate
  // ---------------------------------------------------------------------

  /** A course may be published when it has a chapter and every one of its
      chapters has a lesson. */
  ghost predicate PublishReady(chapters: seq<Chapter>, lessons: seq<Lesson>, courseId: CourseId)
  {
    && (exists k :: 0 <= k < |chapters| && chapters[k].courseId == courseId)
    && (forall k :: 0 <= k < |chapters| && chapters[k].courseId == courseId ==>
          exists l :: 0 <= l < |lessons| && lessons[l].chapterId == k)
  }

  /** The checks `updateCourseStatus` runs before publishing: the course's
      chapters are scanned in table order and the first chapter without a
      lesson stops the scan. */
  method CheckPublishable(chapters: seq<Chapter>, lessons: seq<Lesson>, courseId: CourseId) returns (r: Result<()>)
    ensures r.Ok? <==> PublishReady(chapters, lessons, courseId)
    ensures r == Err(NoChapters) <==> forall k :: 0 <= k < |chapters| ==> chapters[k].courseId != courseId
    ensures r.Err? ==> r.error == NoChapters || r.error == EmptyChapter
  {
    var ws := Where(chapters, InCourse(courseId));
    if |ws| == 0 {
      assert forall k :: 0 <= k < |chapters| ==> chapters[k].courseId != courseId by {
        forall k | 0 <= k < |chapters| ensures chapters[k].courseId != courseId {
          assert k !in ws;
        }
      }
      return Err(NoChapters);
    }
    assert ws[0] in ws;
    var i := 0;
    while i < |ws|
      invariant 0 <= i <= |ws|
      invariant forall t :: 0 <= t < i ==> exists l :: 0 <= l < |lessons| && lessons[l].chapterId == ws[t]
    {
      var first := Where(lessons, InChapter(ws[i]));
      if first == [] {
        assert !exists l :: 0 <= l < |lessons| && lessons[l].chapterId == ws[i] by {
          forall l | 0 <= l < |lessons| ensures lessons[l].chapterId != ws[i] {
            assert l !in first;
          }
        }
        assert ws[i] in ws;
        return Err(EmptyChapter);
      }
      assert first[0] in first;
      i := i + 1;
    }
    assert forall k :: 0 <= k < |chapters| && chapters[k].courseId == courseId ==>
      exists l :: 0 <= l < |lessons| && lessons[l].chapterId == k by {
      forall k | 0 <= k < |chapters| && chapters[k].courseId == courseId
        ensures exists l :: 0 <= l < |lessons| && lessons[l].chapterId == k
      {
        assert k in ws;
        var t :| 0 <= t < |ws| && ws[t] == k;
      }
    }
    return Ok(());
  }

  // ---------------------------------------------------------------------
  // getInstructorCourses
  // ---------------------------------------------------------------------

  datatype CourseStats = CourseStats(
    courseId: CourseId,
    course: Course,
    enrollmentCount: nat,
    chapterCount: nat,
    lessonCount: nat,
    revenue: int)

  /** The entry for course `k`. Each count counts distinct table rows: no
      lesson is counted under two chapters, and a course without chapters
      has no lessons. */
  function StatsOf(t: Tables, k: CourseId): (r: CourseStats)
    requires k < |t.courses|
    ensures r.courseId == k && r.course == t.courses[k]
    ensures r.enrollmentCount <= |t.enrollments| && r.chapterCount <= |t.chapters|
    ensures r.lessonCount <= |t.lessons|
    ensures r.chapterCount == 0 ==> r.lessonCount == 0
  {
    var enrolled := Count(t.enrollments, EnrollmentFor(k));
    var ws := Where(t.chapters, InCourse(k));
    SumOfChapterCounts(t.lessons, ws);
    CourseStats(k, t.courses[k], enrolled, |ws|, LessonsInChapters(t.lessons, ws), enrolled * t.courses[k].price)
  }

  /** The statistics of one correctly computed course entry. */
  ghost predicate StatsFaithful(t: Tables, u: UserId, s: CourseStats)
  {
    && s.courseId < |t.courses| && s.course == t.courses[s.courseId]
    && s.course.instructorId == u
    && s.enrollmentCount == Count(t.enrollments, EnrollmentFor(s.courseId))
    && s.chapterCount == Count(t.chapters, InCourse(s.courseId))
    && s.lessonCount == LessonsInChapters(t.lessons, Where(t.chapters, InCourse(s.courseId)))
    && s.revenue == s.enrollmentCount * s.course.price
  }

  lemma StatsOfFaithful(t: Tables, k: CourseId)
    requires k < |t.courses|
    ensures StatsOf(t, k).courseId == k
    ensures StatsFaithful(t, t.courses[k].instructorId, StatsOf(t, k))
  {
  }

  /** One entry per course of instructor `u`, in table order. */
  function CoursesOf(t: Tables, u: UserId): (r: seq<CourseStats>)
    ensures |r| == Count(t.courses, ByInstructor(u))
    ensures forall i :: 0 <= i < |r| ==> StatsFaithful(t, u, r[i])
    ensures forall k :: 0 <= k < |t.courses| && t.courses[k].instructorId == u ==>
              exists i :: 0 <= i < |r| && r[i].courseId == k
  {
    var ws := Where(t.courses, ByInstructor(u));
    assert forall i :: 0 <= i < |ws| ==> ws[i] in ws;
    var stats := seq(|ws|, i requires 0 <= i < |ws| => StatsOf(t, ws[i]));
    assert forall i :: 0 <= i < |stats| ==> StatsFaithful(t, u, stats[i]) && stats[i].courseId == ws[i] by {
      forall i | 0 <= i < |stats| ensures StatsFaithful(t, u, stats[i]) && stats[i].courseId == ws[i] {
        StatsOfFaithful(t, ws[i]);
      }
    }
    assert forall k :: 0 <= k < |t.courses| && t.courses[k].instructorId == u ==>
      exists i :: 0 <= i < |stats| && stats[i].courseId == k by {
      forall k | 0 <= k < |t.courses| && t.courses[k].instructorId == u
        ensures exists i :: 0 <= i < |stats| && stats[i].courseId == k
      {
        var i := WherePlace(t.courses, ByInstructor(u), k);
        assert stats[i].courseId == k;
      }
    }
    stats
  }

  /** `getInstructorCourses`: exactly the caller's own courses, each with its
      enrollment, chapter and lesson counts and `revenue = enrollments * price`. */
  function InstructorCourses(t: Tables, subject: Option<string>): (r: Result<seq<CourseStats>>)
    ensures RequireRole(t.users, subject, [Instructor, Admin]).Err? <==> r.Err?
    ensures r.Err? ==> r.error == RequireRole(t.users, subject, [Instructor, Admin]).error
    ensures r.Ok? ==> var u := RequireRole(t.users, subject, [Instructor, Admin]).value;
      && |r.value| == Count(t.courses, ByInstructor(u))
      && (forall i :: 0 <= i < |r.value| ==> StatsFaithful(t, u, r.value[i]))
      && (forall k :: 0 <= k < |t.courses| && t.courses[k].instructorId == u ==>
            exists i :: 0 <= i < |r.value| && r.value[i].courseId == k)
  {
    match RequireRole(t.users, subject, [Instructor, Admin])
    case Err(e) => Err(e)
    case Ok(u) => Ok(CoursesOf(t, u))
  }

  /** Under the denormalisation invariant, an instructor's per-course lesson
      count (summed over chapters) equals the number of lessons carrying that
      course's id, the total the enrollment and progress views use. */
  lemma InstructorLessonCountAgrees(t: Tables, courseId: CourseId)
    requires Denormalised(t.chapters, t.lessons)
    ensures LessonsInChapters(t.lessons, Where(t.chapters, InCourse(courseId))) ==
            Count(t.lessons, LessonInCourse(courseId))
  {
    var ws := Where(t.chapters, InCourse(courseId));
    CourseLessonCount(t.chapters, t.lessons, courseId, ws);
  }
}
