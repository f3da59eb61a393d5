/** The unauthenticated catalogue queries: the published-course listing and
    the course page with its curriculum. */
module Public {
  import opened Base
  import opened Schema
  import opened Query
  import opened Utils
  import opened Lessons
  import opened Ordering

  // ---------------------------------------------------------------------
  // getPublishedCourses
  // ---------------------------------------------------------------------

  /** `needle` occurs in `hay` starting at position `i`. */
  predicate OccursAt(hay: string, needle: string, i: int)
  {
    0 <= i && i + |needle| <= |hay| && hay[i..i + |needle|] == needle
  }

  /** `hay.includes(needle)`. */
  predicate Contains(hay: string, needle: string)
  {
    exists i :: 0 <= i <= |hay| - |needle| && OccursAt(hay, needle, i)
  }

  /** An optional string argument that is present and non-empty (truthy). */
  predicate Given(o: Option<string>)
  {
    o.Some? && o.value != ""
  }

  /** The search test on an already lowercased query. */
  predicate MatchesSearch(c: Course, query: string)
  {
    || Contains(Lower(c.title), query)
    || Contains(Lower(c.smallDescription), query)
    || exists k :: 0 <= k < |c.keywords| && Contains(Lower(c.keywords[k]), query)
  }

  /** The filters of `getPublishedCourses`: published, then each given
      category, level and search string. */
  function Listed(category: Option<string>, level: Option<string>, search: Option<string>): (r: Course -> bool)
    ensures forall c :: r(c) ==> c.status == Published
    ensures !Given(category) && !Given(level) && !Given(search) ==> forall c :: r(c) <==> c.status == Published
  {
    (c: Course) =>
      && c.status == Published
      && (Given(category) ==> CategoryLiteral(c.category) == category.value)
      && (Given(level) ==> LevelLiteral(c.level) == level.value)
      && (Given(search) ==> MatchesSearch(c, Lower(search.value)))
  }

  /** Newest first: the comparator `b.createdAt - a.createdAt` as an
      ascending key. */
  function NewestKey(courses: seq<Course>): nat -> int
  {
    (k: nat) => if k < |courses| then -courses[k].createdAt else 0
  }

  /** `if (limit) list = list.slice(0, limit)` for an integer limit: zero or
      absent keeps everything, a negative limit drops that many from the end. */
  function Limit<T>(s: seq<T>, limit: Option<int>): (r: seq<T>)
    ensures |r| <= |s| && r == s[..|r|]
    ensures limit.None? || limit.value == 0 ==> r == s
    ensures limit.Some? && limit.value > 0 ==> |r| == if limit.value < |s| then limit.value else |s|
    ensures limit.Some? && limit.value < 0 ==> |r| == if |s| + limit.value > 0 then |s| + limit.value else 0
  {
    if limit.None? || limit.value == 0 then s
    else if limit.value > 0 then (if limit.value < |s| then s[..limit.value] else s)
    else if |s| + limit.value > 0 then s[..|s| + limit.value]
    else []
  }

  datatype InstructorCard = InstructorCard(name: string, imageUrl: Option<string>)

  datatype CourseCard = CourseCard(courseId: CourseId, course: Course, instructor: Option<InstructorCard>)

  /** `instructor.name || "Unknown Instructor"`. */
  function InstructorName(u: User): (name: string)
    ensures u.name.Some? && u.name.value != "" ==> name == u.name.value
    ensures u.name.None? || u.name.value == "" ==> name == "Unknown Instructor"
  {
    if u.name.Some? && u.name.value != "" then u.name.value else "Unknown Instructor"
  }

  /** One listing card: the course, and its instructor's display name and
      image when the instructor's user exists. */
  function CardOf(t: Tables, k: CourseId): (r: CourseCard)
    requires k < |t.courses|
    ensures r.courseId == k && r.course == t.courses[k]
    ensures r.instructor.Some? <==> t.courses[k].instructorId < |t.users|
    ensures r.instructor.Some? ==>
              var u := t.users[t.courses[k].instructorId];
              r.instructor.value == InstructorCard(InstructorName(u), u.imageUrl)
  {
    var c := t.courses[k];
    CourseCard(k, c,
      if c.instructorId < |t.users|
      then Some(InstructorCard(InstructorName(t.users[c.instructorId]), t.users[c.instructorId].imageUrl))
      else None)
  }

  /** The positions of the courses satisfying `p`, newest first. */
  function SortedListing(t: Tables, p: Course -> bool): (r: seq<nat>)
    ensures forall i :: 0 <= i < |r| ==> r[i] < |t.courses| && p(t.courses[r[i]])
    ensures forall k :: 0 <= k < |t.courses| && p(t.courses[k]) ==> k in r
    ensures |r| == Count(t.courses, p)
    ensures Ordered(NewestKey(t.courses), r)
  {
    IndexScan(t.courses, p, NewestKey(t.courses))
  }

  /** The listed positions after the limit: a prefix of the sorted listing. */
  function ListedIds(t: Tables, p: Course -> bool, limit: Option<int>): (r: seq<nat>)
    ensures forall i :: 0 <= i < |r| ==> r[i] < |t.courses| && p(t.courses[r[i]])
    ensures Ordered(NewestKey(t.courses), r)
    ensures forall k :: (0 <= k < |t.courses| && p(t.courses[k]) && k !in r) ==>
              forall i :: 0 <= i < |r| ==> Precedes(NewestKey(t.courses), r[i], k)
    ensures limit.None? || limit.value == 0 ==> |r| == Count(t.courses, p)
    ensures limit.None? || limit.value == 0 ==>
              forall k :: 0 <= k < |t.courses| && p(t.courses[k]) ==> k in r
    ensures limit.Some? && limit.value > 0 ==>
              |r| == var n := Count(t.courses, p); if limit.value < n then limit.value else n
  {
    var sorted := SortedListing(t, p);
    var r := Limit(sorted, limit);
    assert forall i :: 0 <= i < |r| ==> r[i] == sorted[i];
    assert forall k :: (0 <= k < |t.courses| && p(t.courses[k]) && k !in r) ==>
      forall i :: 0 <= i < |r| ==> Precedes(NewestKey(t.courses), r[i], k) by {
      forall k | 0 <= k < |t.courses| && p(t.courses[k]) && k !in r
        ensures forall i :: 0 <= i < |r| ==> Precedes(NewestKey(t.courses), r[i], k)
      {
        OrderedPrefix(NewestKey(t.courses), sorted, |r|, k);
      }
    }
    r
  }

  /** The cards of the listed positions, in the same order. */
  function Cards(t: Tables, ids: seq<nat>): (r: seq<CourseCard>)
    requires forall i :: 0 <= i < |ids| ==> ids[i] < |t.courses|
    ensures |r| == |ids|
    ensures forall i :: 0 <= i < |r| ==> r[i].courseId == ids[i] && r[i] == CardOf(t, ids[i])
    ensures forall k :: k in ids ==> exists i :: 0 <= i < |r| && r[i].courseId == k
    ensures forall k :: (forall j :: 0 <= j < |r| ==> r[j].courseId != k) ==> k !in ids
  {
    var r := seq(|ids|, i requires 0 <= i < |ids| => CardOf(t, ids[i]));
    assert forall k :: k in ids ==> exists i :: 0 <= i < |r| && r[i].courseId == k by {
      forall k | k in ids ensures exists i :: 0 <= i < |r| && r[i].courseId == k {
        var i :| 0 <= i < |ids| && ids[i] == k;
        assert r[i].courseId == k;
      }
    }
    r
  }

  /** Cards of positions ordered newest first are newest first, ties by
      position. */
  lemma CardsNewestFirst(t: Tables, ids: seq<nat>)
    requires forall i :: 0 <= i < |ids| ==> ids[i] < |t.courses|
    requires Ordered(NewestKey(t.courses), ids)
    ensures var r := Cards(t, ids);
      forall i, j :: 0 <= i < j < |r| ==>
        r[i].course.createdAt > r[j].course.createdAt ||
        (r[i].course.createdAt == r[j].course.createdAt && r[i].courseId < r[j].courseId)
  {
    var r := Cards(t, ids);
    var key := NewestKey(t.courses);
    forall i, j | 0 <= i < j < |r|
      ensures r[i].course.createdAt > r[j].course.createdAt ||
              (r[i].course.createdAt == r[j].course.createdAt && r[i].courseId < r[j].courseId)
    {
      assert Precedes(key, ids[i], ids[j]);
      assert key(ids[i]) == -t.courses[ids[i]].createdAt;
      assert key(ids[j]) == -t.courses[ids[j]].createdAt;
    }
  }

  /** A listed course left out by the limit is no newer than any returned
      one. */
  lemma OmittedNotNewer(t: Tables, p: Course -> bool, limit: Option<int>, k: CourseId, i: nat)
    requires k < |t.courses| && p(t.courses[k])
    requires k !in ListedIds(t, p, limit) && i < |ListedIds(t, p, limit)|
    ensures t.courses[ListedIds(t, p, limit)[i]].createdAt >= t.courses[k].createdAt
  {
    var ids := ListedIds(t, p, limit);
    var key := NewestKey(t.courses);
    assert Precedes(key, ids[i], k);
    assert key(ids[i]) == -t.courses[ids[i]].createdAt;
    assert key(k) == -t.courses[k].createdAt;
  }

  /** `getPublishedCourses`: published courses passing the given filters,
      newest first (ties in creation order), cut by the limit, each with its
      instructor's card when the instructor exists. */
  function PublishedCourses(t: Tables, category: Option<string>, level: Option<string>, search: Option<string>,
                            limit: Option<int>): (r: seq<CourseCard>)
    ensures forall i :: 0 <= i < |r| ==>
              && r[i].courseId < |t.courses| && r[i] == CardOf(t, r[i].courseId)
              && Listed(category, level, search)(r[i].course)
    ensures forall i, j :: 0 <= i < j < |r| ==>
              r[i].course.createdAt > r[j].course.createdAt ||
              (r[i].course.createdAt == r[j].course.createdAt && r[i].courseId < r[j].courseId)
    ensures forall k, i :: (0 <= k < |t.courses| && Listed(category, level, search)(t.courses[k]) &&
                            (forall j :: 0 <= j < |r| ==> r[j].courseId != k) && 0 <= i < |r|) ==>
              r[i].course.createdAt >= t.courses[k].createdAt
    ensures limit.None? || limit.value == 0 ==> |r| == Count(t.courses, Listed(category, level, search))
    ensures limit.None? || limit.value == 0 ==>
              forall k :: 0 <= k < |t.courses| && Listed(category, level, search)(t.courses[k]) ==>
                exists i :: 0 <= i < |r| && r[i].courseId == k
    ensures limit.Some? && limit.value > 0 ==>
              |r| == var n := Count(t.courses, Listed(category, level, search)); if limit.value < n then limit.value else n
  {
    var p := Listed(category, level, search);
    var ids := ListedIds(t, p, limit);
    CardsNewestFirst(t, ids);
    OmittedCardsNotNewer(t, p, limit);
    Cards(t, ids)
  }

  /** Every course the limit cut off is no newer than every returned card. */
  lemma OmittedCardsNotNewer(t: Tables, p: Course -> bool, limit: Option<int>)
    ensures var r := Cards(t, ListedIds(t, p, limit));
      forall k, i :: (0 <= k < |t.courses| && p(t.courses[k]) &&
                      (forall j :: 0 <= j < |r| ==> r[j].courseId != k) && 0 <= i < |r|) ==>
        r[i].course.createdAt >= t.courses[k].createdAt
  {
    var r := Cards(t, ListedIds(t, p, limit));
    forall k, i | (0 <= k < |t.courses| && p(t.courses[k]) &&
                   (forall j :: 0 <= j < |r| ==> r[j].courseId != k) && 0 <= i < |r|)
      ensures r[i].course.createdAt >= t.courses[k].createdAt
    {
      OmittedNotNewer(t, p, limit, k, i);
    }
  }
  /** Every listed card is a published course matching each given filter. */
  lemma ListedResults(t: Tables, category: Option<string>, level: Option<string>, search: Option<string>,
                      limit: Option<int>, i: nat)
    requires i < |PublishedCourses(t, category, level, search, limit)|
    ensures var c := PublishedCourses(t, category, level, search, limit)[i].course;
      && c.status == Published
      && (Given(category) ==> CategoryLiteral(c.category) == category.value)
      && (Given(level) ==> LevelLiteral(c.level) == level.value)
      && (Given(search) ==> MatchesSearch(c, Lower(search.value)))
  {
    var c := PublishedCourses(t, category, level, search, limit)[i].course;
    assert Listed(category, level, search)(c);
  }

  // ---------------------------------------------------------------------
  // getCourseBySlug
  // ---------------------------------------------------------------------

  /** The `by_course_order` and `by_chapter_order` keys. */
  function ChapterKey(chapters: seq<Chapter>): nat -> int
  {
    (k: nat) => if k < |chapters| then chapters[k].orderIndex else 0
  }

  function LessonKey(lessons: seq<Lesson>): nat -> int
  {
    (k: nat) => if k < |lessons| then lessons[k].orderIndex else 0
  }

  datatype LessonSummary = LessonSummary(lessonId: LessonId, title: string, duration: int)

  datatype ChapterView = ChapterView(chapterId: ChapterId, chapter: Chapter, lessons: seq<LessonSummary>)

  datatype InstructorDetails = InstructorDetails(userId: UserId, name: string, bio: Option<string>, imageUrl: Option<string>)

  datatype CourseDetails = CourseDetails(
    courseId: CourseId,
    course: Course,
    instructor: Option<InstructorDetails>,
    curriculum: seq<ChapterView>,
    totalLessons: nat,
    totalDuration: int)     // hours

  /** The positions of `s`'s elements satisfying `p`, in index order. */
  function IndexScan<T>(s: seq<T>, p: T -> bool, key: nat -> int): (r: seq<nat>)
    ensures forall i :: 0 <= i < |r| ==> r[i] < |s| && p(s[r[i]])
    ensures forall k: nat :: k in r <==> k < |s| && p(s[k])
    ensures Ordered(key, r)
    ensures |r| == Count(s, p)
  {
    var w := Where(s, p);
    var r := SortBy(key, w);
    assert forall i :: 0 <= i < |r| ==> r[i] in w by {
      forall i | 0 <= i < |r| ensures r[i] in w {
        assert r[i] in r;
      }
    }
    r
  }

  /** One chapter of the curriculum with its lessons in order. */
  function ChapterViewOf(t: Tables, c: ChapterId): (r: ChapterView)
    requires c < |t.chapters|
    ensures r.chapterId == c && r.chapter == t.chapters[c]
    ensures |r.lessons| == Count(t.lessons, InChapter(c))
  {
    var ls := IndexScan(t.lessons, InChapter(c), LessonKey(t.lessons));
    ChapterView(c, t.chapters[c],
      seq(|ls|, i requires 0 <= i < |ls| => LessonSummary(ls[i], t.lessons[ls[i]].title, t.lessons[ls[i]].duration)))
  }

  /** The lesson ids of a chapter view. */
  function LessonIds(v: ChapterView): seq<LessonId>
  {
    seq(|v.lessons|, i requires 0 <= i < |v.lessons| => v.lessons[i].lessonId)
  }

  /** The chapter ids of a curriculum. */
  function ChapterIds(cv: seq<ChapterView>): seq<ChapterId>
  {
    seq(|cv|, i requires 0 <= i < |cv| => cv[i].chapterId)
  }

  /** A chapter view shows exactly that chapter's lessons, each once, in
      `orderIndex` order, with their titles and durations. */
  ghost predicate ChapterViewFaithful(t: Tables, v: ChapterView)
  {
    && v.chapterId < |t.chapters| && v.chapter == t.chapters[v.chapterId]
    && Ordered(LessonKey(t.lessons), LessonIds(v))
    && (forall k: nat :: k in LessonIds(v) <==> k < |t.lessons| && t.lessons[k].chapterId == v.chapterId)
    && (forall i :: 0 <= i < |v.lessons| ==>
          v.lessons[i].lessonId < |t.lessons| &&
          v.lessons[i].title == t.lessons[v.lessons[i].lessonId].title &&
          v.lessons[i].duration == t.lessons[v.lessons[i].lessonId].duration)
  }

  lemma ChapterViewOfFaithful(t: Tables, c: ChapterId)
    requires c < |t.chapters|
    ensures ChapterViewFaithful(t, ChapterViewOf(t, c))
  {
    var v := ChapterViewOf(t, c);
    var ls := IndexScan(t.lessons, InChapter(c), LessonKey(t.lessons));
    assert LessonIds(v) == ls;
  }

  /** `curriculum.reduce((sum, ch) => sum + ch.lessons.length, 0)`: zero
      exactly when no chapter has a lesson. */
  function TotalLessons(cv: seq<ChapterView>): (r: nat)
    ensures r == 0 <==> forall i :: 0 <= i < |cv| ==> cv[i].lessons == []
  {
    if cv == [] then 0
    else
      var front := cv[..|cv| - 1];
      assert forall i :: 0 <= i < |front| ==> front[i] == cv[i];
      TotalLessons(front) + |cv[|cv| - 1].lessons|
  }

  /** The inner reduce over one chapter's lesson durations. */
  function ChapterMinutes(ls: seq<LessonSummary>): (r: int)
    ensures ls == [] ==> r == 0
    ensures (forall j :: 0 <= j < |ls| ==> ls[j].duration >= 0) ==> r >= 0
  {
    if ls == [] then 0
    else
      var front := ls[..|ls| - 1];
      assert forall j :: 0 <= j < |front| ==> front[j] == ls[j];
      ChapterMinutes(front) + ls[|ls| - 1].duration
  }

  /** The summed lesson minutes of the curriculum: zero when it has no
      lessons, never negative when no duration is. */
  function TotalMinutes(cv: seq<ChapterView>): (r: int)
    ensures TotalLessons(cv) == 0 ==> r == 0
    ensures (forall i, j :: 0 <= i < |cv| && 0 <= j < |cv[i].lessons| ==> cv[i].lessons[j].duration >= 0) ==> r >= 0
  {
    if cv == [] then 0
    else
      var front := cv[..|cv| - 1];
      assert forall i :: 0 <= i < |front| ==> front[i] == cv[i];
      TotalMinutes(front) + ChapterMinutes(cv[|cv| - 1].lessons)
  }

  /** Both reduces add up over a split of the curriculum. */
  lemma {:induction false} TotalsAppend(a: seq<ChapterView>, b: seq<ChapterView>)
    ensures TotalLessons(a + b) == TotalLessons(a) + TotalLessons(b)
    ensures TotalMinutes(a + b) == TotalMinutes(a) + TotalMinutes(b)
  {
    if b == [] {
      assert a + b == a;
    } else {
      var m := |b| - 1;
      TotalsAppend(a, b[..m]);
      assert (a + b)[..|a + b| - 1] == a + b[..m];
      assert (a + b)[|a + b| - 1] == b[m];
    }
  }

  /** `Math.ceil(minutes / 60)`: the least whole number of hours covering the
      minutes. */
  function CeilHours(minutes: int): (h: int)
    ensures 60 * (h - 1) < minutes <= 60 * h
  {
    (minutes + 59) / 60
  }

  /** The course's chapters in `by_course_order` order, each with its
      lessons in `by_chapter_order` order. */
  function Curriculum(t: Tables, courseId: CourseId): (cv: seq<ChapterView>)
    ensures Ordered(ChapterKey(t.chapters), ChapterIds(cv))
    ensures forall k: nat :: k in ChapterIds(cv) <==> k < |t.chapters| && t.chapters[k].courseId == courseId
    ensures forall i :: 0 <= i < |cv| ==> ChapterViewFaithful(t, cv[i])
    ensures forall i :: 0 <= i < |cv| ==> |cv[i].lessons| == Count(t.lessons, InChapter(cv[i].chapterId))
  {
    var ws := IndexScan(t.chapters, InCourse(courseId), ChapterKey(t.chapters));
    var cv := seq(|ws|, i requires 0 <= i < |ws| => ChapterViewOf(t, ws[i]));
    CurriculumFacts(t, ws, cv);
    cv
  }

  lemma CurriculumFacts(t: Tables, ws: seq<ChapterId>, cv: seq<ChapterView>)
    requires forall i :: 0 <= i < |ws| ==> ws[i] < |t.chapters|
    requires |cv| == |ws| && forall i :: 0 <= i < |ws| ==> cv[i] == ChapterViewOf(t, ws[i])
    ensures ChapterIds(cv) == ws
    ensures forall i :: 0 <= i < |cv| ==> ChapterViewFaithful(t, cv[i])
    ensures forall i :: 0 <= i < |cv| ==> |cv[i].lessons| == Count(t.lessons, InChapter(cv[i].chapterId))
  {
    forall i | 0 <= i < |cv| ensures ChapterViewFaithful(t, cv[i]) {
      ChapterViewOfFaithful(t, ws[i]);
    }
  }

  /** The detail page of course `k`: the instructor when its user exists,
      `totalLessons` adding the chapters' lesson counts and `totalDuration`
      the summed lesson minutes rounded up to whole hours; a course without
      lessons shows 0 hours. */
  function DetailsOf(t: Tables, k: CourseId): (r: CourseDetails)
    requires k < |t.courses|
    ensures r.courseId == k && r.course == t.courses[k]
    ensures r.totalLessons == TotalLessons(r.curriculum)
    ensures 60 * (r.totalDuration - 1) < TotalMinutes(r.curriculum) <= 60 * r.totalDuration
    ensures r.totalLessons == 0 ==> r.totalDuration == 0
    ensures r.instructor.Some? <==> t.courses[k].instructorId < |t.users|
    ensures r.instructor.Some? ==>
              var u := t.users[t.courses[k].instructorId];
              r.instructor.value == InstructorDetails(t.courses[k].instructorId, InstructorName(u), u.bio, u.imageUrl)
  {
    var c := t.courses[k];
    var cv := Curriculum(t, k);
    CourseDetails(k, c,
      if c.instructorId < |t.users|
      then var u := t.users[c.instructorId]; Some(InstructorDetails(c.instructorId, InstructorName(u), u.bio, u.imageUrl))
      else None,
      cv, TotalLessons(cv), CeilHours(TotalMinutes(cv)))
  }

  /** `getCourseBySlug`: several courses with the slug are an error; no
      course, or an unpublished one, gives nothing; otherwise the published
      course with its instructor, curriculum and totals. */
  function CourseBySlug(t: Tables, slug: string): (r: Result<Option<CourseDetails>>)
    ensures r == Err(NotUnique) <==>
              exists i, j :: 0 <= i < j < |t.courses| && t.courses[i].slug == slug && t.courses[j].slug == slug
    ensures r.Err? ==> r.error == NotUnique
    ensures r == Ok(None) ==>
              forall k :: 0 <= k < |t.courses| && t.courses[k].slug == slug ==> t.courses[k].status != Published
    ensures r.Ok? && r.value.Some? ==>
              var d := r.value.value;
              && d.courseId < |t.courses| && d.course == t.courses[d.courseId]
              && d.course.slug == slug && d.course.status == Published
              && d == DetailsOf(t, d.courseId)
  {
    match Unique(t.courses, BySlug(slug))
    case Ambiguous => Err(NotUnique)
    case Missing => Ok(None)
    case Found(k) => if t.courses[k].status != Published then Ok(None) else Ok(Some(DetailsOf(t, k)))
  }

  /** The curriculum of a detail page: the course's chapters, each once and
      in `orderIndex` order, each with its own lessons. */
  lemma DetailsFaithful(t: Tables, k: CourseId)
    requires k < |t.courses|
    ensures var d := DetailsOf(t, k);
      && Ordered(ChapterKey(t.chapters), ChapterIds(d.curriculum))
      && (forall c: nat :: c in ChapterIds(d.curriculum) <==> c < |t.chapters| && t.chapters[c].courseId == k)
      && (forall i :: 0 <= i < |d.curriculum| ==> ChapterViewFaithful(t, d.curriculum[i]))
      && (forall i :: 0 <= i < |d.curriculum| ==>
            |d.curriculum[i].lessons| == Count(t.lessons, InChapter(d.curriculum[i].chapterId)))
  {
  }

  /** Summing the chapter views' lesson lists is summing per-chapter counts. */
  lemma {:induction false} TotalLessonsByChapter(t: Tables, cv: seq<ChapterView>)
    requires forall i :: 0 <= i < |cv| ==> |cv[i].lessons| == Count(t.lessons, InChapter(cv[i].chapterId))
    ensures TotalLessons(cv) == LessonsInChapters(t.lessons, ChapterIds(cv))
  {
    if cv != [] {
      var m := |cv| - 1;
      TotalLessonsByChapter(t, cv[..m]);
      assert ChapterIds(cv)[..m] == ChapterIds(cv[..m]);
    }
  }

  /** Under the denormalisation invariant the page's `totalLessons` is the
      number of lessons whose `courseId` is the course. */
  lemma CourseTotalLessons(t: Tables, k: CourseId)
    requires k < |t.courses|
    requires Denormalised(t.chapters, t.lessons)
    ensures DetailsOf(t, k).totalLessons == Count(t.lessons, LessonInCourse(k))
  {
    var cv := Curriculum(t, k);
    var ws := ChapterIds(cv);
    TotalLessonsByChapter(t, cv);
    assert forall i, j :: 0 <= i < j < |ws| ==> ws[i] != ws[j] by {
      forall i, j | 0 <= i < j < |ws| ensures ws[i] != ws[j] {
        assert Precedes(ChapterKey(t.chapters), ws[i], ws[j]);
      }
    }
    CourseLessonCount(t.chapters, t.lessons, k, ws);
  }
}
