/** Lesson progress: the (user, lesson) record invariant, the completion
    percentage and the bound relating completed lessons to course lessons. */
module ProgressTracker {
  import opened Base
  import opened Schema
  import opened Query

  /** At most one progress record per (user, lesson); `markLessonComplete`
      maintains it, the `by_user_lesson` index does not. */
  ghost predicate ProgressPairsUnique(ps: seq<Progress>)
  {
    forall i, j :: 0 <= i < j < |ps| ==>
      !(ps[i].userId == ps[j].userId && ps[i].lessonId == ps[j].lessonId)
  }

  /** Every progress record names an existing lesson and carries that
      lesson's course id. */
  ghost predicate ProgressDenormalised(lessons: seq<Lesson>, ps: seq<Progress>)
  {
    forall k :: 0 <= k < |ps| ==>
      ps[k].lessonId < |lessons| && lessons[ps[k].lessonId].courseId == ps[k].courseId
  }

  /** `Math.round(c / n * 100)` on exact rationals: the nearest integer to
      `100c/n`, halves rounded up. */
  function RoundedPercent(c: nat, n: nat): (r: nat)
    requires n > 0
    ensures 2 * n * r <= 200 * c + n < 2 * n * r + 2 * n
  {
    (200 * c + n) / (2 * n)
  }

  /** The percentage the enrollment view reports: 0 for a course without
      lessons. */
  function PercentComplete(c: nat, n: nat): (r: nat)
    ensures n == 0 ==> r == 0
    ensures n > 0 ==> 2 * n * r <= 200 * c + n < 2 * n * r + 2 * n
  {
    if n == 0 then 0 else RoundedPercent(c, n)
  }

  /** Multiplying by a natural number keeps an inequality. */
  lemma {:induction false} MulLe(k: nat, a: int, b: int)
    requires a <= b
    ensures k * a <= k * b
  {
    if k > 0 {
      MulLe(k - 1, a, b);
      assert k * a == (k - 1) * a + a;
      assert k * b == (k - 1) * b + b;
    }
  }

  /** With no more completed than total lessons the percentage is at most
      100; none completed gives 0 and all completed gives 100. */
  lemma PercentBounds(c: nat, n: nat)
    requires 0 < n && c <= n
    ensures RoundedPercent(c, n) <= 100
    ensures c == 0 ==> RoundedPercent(c, n) == 0
    ensures c == n ==> RoundedPercent(c, n) == 100
  {
    var r := RoundedPercent(c, n);
    var m := 2 * n;
    assert m * r <= 200 * c + n < m * r + m;
    MulLe(200, c, n);
    if r > 100 {
      MulLe(m, 101, r);
    }
    if c == 0 && r > 0 {
      MulLe(m, 1, r);
    }
    if c == n && r < 100 {
      MulLe(m, r, 99);
    }
  }

  /** The completion threshold: the rounded percentage is exactly 100 iff
      `200c >= 199n`, so a course counts as finished one lesson short when it
      has 200 lessons or more. */
  lemma HundredThreshold(c: nat, n: nat)
    requires 0 < n && c <= n
    ensures RoundedPercent(c, n) == 100 <==> 200 * c >= 199 * n
  {
    var r := RoundedPercent(c, n);
    var m := 2 * n;
    assert m * r <= 200 * c + n < m * r + m;
    if r == 100 {
      assert m * r == 200 * n;
    }
    if 200 * c >= 199 * n && r != 100 {
      PercentBounds(c, n);
      MulLe(m, r, 99);
    }
  }

  /** 199 of 200 lessons already read as 100 percent; a half rounds up, so
      23 of 40 (57.5 exactly) reads as 58. */
  lemma RoundingExamples()
    ensures RoundedPercent(199, 200) == 100
    ensures RoundedPercent(198, 200) == 99
    ensures RoundedPercent(1, 8) == 13
    ensures RoundedPercent(1, 3) == 33
    ensures RoundedPercent(23, 40) == 58
    ensures RoundedPercent(29, 200) == 15
  {
  }

  /** The record an upsert writes: completed now with the given watch time. */
  function MarkCompleted(p: Progress, watchTime: int, now: int): (r: Progress)
    ensures r.completed && r.watchTime == watchTime
    ensures r.completedAt == Some(now) && r.lastWatchedAt == now
    ensures r.userId == p.userId && r.lessonId == p.lessonId && r.courseId == p.courseId
  {
    p.(completed := true, watchTime := watchTime, completedAt := Some(now), lastWatchedAt := now)
  }

  /** Marking an already marked record again with the same arguments leaves
      it as it is. */
  lemma MarkCompletedIdempotent(p: Progress, watchTime: int, now: int)
    ensures MarkCompleted(MarkCompleted(p, watchTime, now), watchTime, now) == MarkCompleted(p, watchTime, now)
  {
  }

  /** The `courseProgress` part of the `markLessonComplete` reply. */
  datatype CourseProgress = CourseProgress(completedLessons: nat, totalLessons: nat, percentComplete: nat)

  /** Records selected by `CompletedIn(u, c)` have pairwise distinct lesson
      ids, so when all of them lie in `keys` there are at most `|keys|`. */
  lemma {:induction false} CompletedDistinctLessons(ps: seq<Progress>, u: UserId, c: CourseId, keys: set<LessonId>)
    requires ProgressPairsUnique(ps)
    requires forall k :: 0 <= k < |ps| && CompletedIn(u, c)(ps[k]) ==> ps[k].lessonId in keys
    ensures Count(ps, CompletedIn(u, c)) <= |keys|
  {
    if ps != [] {
      var m := |ps| - 1;
      var front := ps[..m];
      assert ps == front + [ps[m]];
      CountAppend(front, ps[m], CompletedIn(u, c));
      assert forall k :: 0 <= k < m ==> front[k] == ps[k];
      if CompletedIn(u, c)(ps[m]) {
        var l := ps[m].lessonId;
        assert forall k :: 0 <= k < m && CompletedIn(u, c)(front[k]) ==> front[k].lessonId in keys - {l};
        CompletedDistinctLessons(front, u, c, keys - {l});
      } else {
        CompletedDistinctLessons(front, u, c, keys);
      }
    }
  }

  /** Under the progress invariants a user never has more completed lessons
      in a course than the course has lessons, so the percentage is at most
      100. */
  lemma CompletedAtMostTotal(lessons: seq<Lesson>, ps: seq<Progress>, u: UserId, c: CourseId)
    requires ProgressPairsUnique(ps)
    requires ProgressDenormalised(lessons, ps)
    ensures Count(ps, CompletedIn(u, c)) <= Count(lessons, LessonInCourse(c))
  {
    var keys := set k | k in Where(lessons, LessonInCourse(c));
    assert forall k :: 0 <= k < |ps| && CompletedIn(u, c)(ps[k]) ==> ps[k].lessonId in keys by {
      forall k | 0 <= k < |ps| && CompletedIn(u, c)(ps[k]) ensures ps[k].lessonId in keys {
        assert LessonInCourse(c)(lessons[ps[k].lessonId]);
      }
    }
    IncreasingSetSize(Where(lessons, LessonInCourse(c)), keys);
    CompletedDistinctLessons(ps, u, c, keys);
  }
  /** The progress table after the upsert of `markLessonComplete`: the
      caller's record for the lesson is marked completed if there is one,
      otherwise a completed record is appended; every other record stays. */
  function Upserted(ps: seq<Progress>, u: UserId, lessonId: LessonId, courseId: CourseId,
                    watchTime: int, now: int): (r: seq<Progress>)
    requires !Unique(ps, ProgressOf(u, lessonId)).Ambiguous?
    ensures |r| == |ps| || |r| == |ps| + 1
    ensures |r| == |ps| + 1 <==> Unique(ps, ProgressOf(u, lessonId)).Missing?
    ensures forall k :: 0 <= k < |ps| ==>
              r[k] == if ProgressOf(u, lessonId)(ps[k]) then MarkCompleted(ps[k], watchTime, now) else ps[k]
    ensures |r| == |ps| + 1 ==> r[|ps|] == Progress(u, lessonId, courseId, true, watchTime, Some(now), now)
  {
    match Unique(ps, ProgressOf(u, lessonId))
    case Found(k) => ps[k := MarkCompleted(ps[k], watchTime, now)]
    case Missing => ps + [Progress(u, lessonId, courseId, true, watchTime, Some(now), now)]
  }

  /** After the upsert the caller has exactly one record for the lesson, and
      it is completed with the given watch time. */
  lemma UpsertLeavesOneRecord(ps: seq<Progress>, u: UserId, lessonId: LessonId, courseId: CourseId,
                              watchTime: int, now: int)
    requires !Unique(ps, ProgressOf(u, lessonId)).Ambiguous?
    ensures var r := Upserted(ps, u, lessonId, courseId, watchTime, now);
      && Count(r, ProgressOf(u, lessonId)) == 1
      && Unique(r, ProgressOf(u, lessonId)).Found?
      && var k := Unique(r, ProgressOf(u, lessonId)).index;
         r[k].completed && r[k].watchTime == watchTime && r[k].completedAt == Some(now)
  {
    var r := Upserted(ps, u, lessonId, courseId, watchTime, now);
    var p := ProgressOf(u, lessonId);
    match Unique(ps, p) {
      case Found(k) =>
        assert r == ps[k := MarkCompleted(ps[k], watchTime, now)];
        CountUpdate(ps, k, MarkCompleted(ps[k], watchTime, now), p);
      case Missing =>
        assert r == ps + [r[|ps|]];
        CountAppend(ps, r[|ps|], p);
    }
  }

  /** The upsert keeps (user, lesson) pairs distinct. */
  lemma UpsertKeepsPairsUnique(ps: seq<Progress>, u: UserId, lessonId: LessonId, courseId: CourseId,
                               watchTime: int, now: int)
    requires !Unique(ps, ProgressOf(u, lessonId)).Ambiguous?
    requires ProgressPairsUnique(ps)
    ensures ProgressPairsUnique(Upserted(ps, u, lessonId, courseId, watchTime, now))
  {
    var r := Upserted(ps, u, lessonId, courseId, watchTime, now);
    var p := ProgressOf(u, lessonId);
    forall i, j | 0 <= i < j < |r| ensures !(r[i].userId == r[j].userId && r[i].lessonId == r[j].lessonId) {
      if j < |ps| {
        assert r[i].userId == ps[i].userId && r[i].lessonId == ps[i].lessonId;
        assert r[j].userId == ps[j].userId && r[j].lessonId == ps[j].lessonId;
      } else {
        assert !p(ps[i]);
      }
    }
  }

  /** Running the upsert a second time with the same arguments changes
      nothing: no second record, the same watch time. */
  lemma UpsertIdempotent(ps: seq<Progress>, u: UserId, lessonId: LessonId, courseId: CourseId, watchTime: int, now: int)
    requires !Unique(ps, ProgressOf(u, lessonId)).Ambiguous?
    ensures var once := Upserted(ps, u, lessonId, courseId, watchTime, now);
      Unique(once, ProgressOf(u, lessonId)).Found? &&
      Upserted(once, u, lessonId, courseId, watchTime, now) == once
  {
    var once := Upserted(ps, u, lessonId, courseId, watchTime, now);
    UpsertLeavesOneRecord(ps, u, lessonId, courseId, watchTime, now);
    var k := Unique(once, ProgressOf(u, lessonId)).index;
    if k < |ps| {
      assert ProgressOf(u, lessonId)(ps[k]);
      MarkCompletedIdempotent(ps[k], watchTime, now);
    }
    assert once[k] == MarkCompleted(once[k], watchTime, now);
    assert once[k := MarkCompleted(once[k], watchTime, now)] == once;
  }

  /** Progress records stay tied to their lessons' courses when lessons are
      only appended or patched without changing their course. */
  lemma LessonsKeepCourses(lessons: seq<Lesson>, lessons': seq<Lesson>, ps: seq<Progress>)
    requires ProgressDenormalised(lessons, ps)
    requires |lessons| <= |lessons'|
    requires forall k :: 0 <= k < |lessons| ==> lessons'[k].courseId == lessons[k].courseId
    ensures ProgressDenormalised(lessons', ps)
  {
  }

  /** Upserting a record for an existing lesson with that lesson's course
      keeps every progress record tied to an existing lesson of its course. */
  lemma UpsertKeepsDenormalised(lessons: seq<Lesson>, ps: seq<Progress>, u: UserId, lessonId: LessonId,
                                watchTime: int, now: int)
    requires lessonId < |lessons|
    requires !Unique(ps, ProgressOf(u, lessonId)).Ambiguous?
    requires ProgressDenormalised(lessons, ps)
    ensures ProgressDenormalised(lessons, Upserted(ps, u, lessonId, lessons[lessonId].courseId, watchTime, now))
  {
  }

  /** What `markLessonComplete` relies on after its upsert: the lesson's
      course has at least one lesson, and under the progress invariants the
      invariants survive, the completed count is at most the lesson count and
      the rounded percentage at most 100. */
  lemma CompletionFacts(lessons: seq<Lesson>, ps: seq<Progress>, u: UserId, lessonId: LessonId,
                        watchTime: int, now: int)
    requires lessonId < |lessons|
    requires !Unique(ps, ProgressOf(u, lessonId)).Ambiguous?
    ensures var c := lessons[lessonId].courseId;
      var r := Upserted(ps, u, lessonId, c, watchTime, now);
      && Count(lessons, LessonInCourse(c)) >= 1
      && (ProgressPairsUnique(ps) && ProgressDenormalised(lessons, ps) ==>
            && ProgressPairsUnique(r) && ProgressDenormalised(lessons, r)
            && Count(r, CompletedIn(u, c)) <= Count(lessons, LessonInCourse(c))
            && RoundedPercent(Count(r, CompletedIn(u, c)), Count(lessons, LessonInCourse(c))) <= 100)
  {
    var c := lessons[lessonId].courseId;
    var r := Upserted(ps, u, lessonId, c, watchTime, now);
    assert lessonId in Where(lessons, LessonInCourse(c));
    if ProgressPairsUnique(ps) && ProgressDenormalised(lessons, ps) {
      UpsertKeepsPairsUnique(ps, u, lessonId, c, watchTime, now);
      UpsertKeepsDenormalised(lessons, ps, u, lessonId, watchTime, now);
      CompletedAtMostTotal(lessons, r, u, c);
      PercentBounds(Count(r, CompletedIn(u, c)), Count(lessons, LessonInCourse(c)));
    }
  }
}
