/** Lesson ordering within a chapter, the denormalised course reference, and
    lesson counts over a course's chapters. */
module Lessons {
  import opened Schema
  import opened Query
  import opened Chapters

  /** The order index `createLesson` gives a new lesson of `chapterId`: one
      more than the largest index among that chapter's lessons, and at least 1. */
  function NextLessonOrder(lessons: seq<Lesson>, chapterId: ChapterId): (n: int)
    ensures n >= 1
    ensures forall k :: 0 <= k < |lessons| && lessons[k].chapterId == chapterId ==> lessons[k].orderIndex < n
    ensures n == 1 || exists k :: 0 <= k < |lessons| && lessons[k].chapterId == chapterId && lessons[k].orderIndex == n - 1
  {
    var ws := Where(lessons, InChapter(chapterId));
    assert forall i :: 0 <= i < |ws| ==> ws[i] in ws;
    var xs := seq(|ws|, i requires 0 <= i < |ws| => lessons[ws[i]].orderIndex);
    assert forall k :: 0 <= k < |lessons| && lessons[k].chapterId == chapterId ==> lessons[k].orderIndex in xs by {
      forall k | 0 <= k < |lessons| && lessons[k].chapterId == chapterId ensures lessons[k].orderIndex in xs {
        assert k in ws;
        var i :| 0 <= i < |ws| && ws[i] == k;
        assert xs[i] == lessons[k].orderIndex;
      }
    }
    var m := MaxOrder(xs);
    assert m != 0 ==> exists i :: 0 <= i < |ws| && xs[i] == m;
    m + 1
  }

  /** No two lessons of `chapterId` share an order index. */
  ghost predicate LessonOrdersDistinct(lessons: seq<Lesson>, chapterId: ChapterId)
  {
    forall i, j :: 0 <= i < j < |lessons| && lessons[i].chapterId == chapterId && lessons[j].chapterId == chapterId ==>
      lessons[i].orderIndex != lessons[j].orderIndex
  }

  /** Appending a lesson numbered by `NextLessonOrder` keeps every chapter's
      lesson order indices distinct. */
  lemma AppendKeepsLessonOrdersDistinct(lessons: seq<Lesson>, l: Lesson, chapterId: ChapterId)
    requires l.orderIndex == NextLessonOrder(lessons, l.chapterId)
    requires LessonOrdersDistinct(lessons, chapterId)
    ensures LessonOrdersDistinct(lessons + [l], chapterId)
  {
    var s := lessons + [l];
    forall i, j | 0 <= i < j < |s| && s[i].chapterId == chapterId && s[j].chapterId == chapterId
      ensures s[i].orderIndex != s[j].orderIndex
    {
      if j == |lessons| {
        assert s[i] == lessons[i];
      }
    }
  }

  /** Every lesson's chapter exists and the lesson's `courseId` is that
      chapter's course. */
  ghost predicate Denormalised(chapters: seq<Chapter>, lessons: seq<Lesson>)
  {
    forall i :: 0 <= i < |lessons| ==>
      lessons[i].chapterId < |chapters| && chapters[lessons[i].chapterId].courseId == lessons[i].courseId
  }

  /** A new lesson linked to an existing chapter and that chapter's course
      keeps the links consistent. */
  lemma AppendKeepsDenormalised(chapters: seq<Chapter>, lessons: seq<Lesson>, l: Lesson)
    requires Denormalised(chapters, lessons)
    requires l.chapterId < |chapters| && chapters[l.chapterId].courseId == l.courseId
    ensures Denormalised(chapters, lessons + [l])
  {
    assert forall i :: 0 <= i < |lessons| ==> (lessons + [l])[i] == lessons[i];
  }

  /** Replacing a lesson by one with the same chapter and course keeps the
      links consistent. */
  lemma PatchKeepsDenormalised(chapters: seq<Chapter>, lessons: seq<Lesson>, k: nat, l: Lesson)
    requires Denormalised(chapters, lessons)
    requires k < |lessons| && l.chapterId == lessons[k].chapterId && l.courseId == lessons[k].courseId
    ensures Denormalised(chapters, lessons[k := l])
  {
  }

  /** The sum, over the chapters `ws`, of each chapter's lesson count. */
  function LessonsInChapters(lessons: seq<Lesson>, ws: seq<ChapterId>): nat
  {
    if ws == [] then 0
    else LessonsInChapters(lessons, ws[..|ws| - 1]) + Count(lessons, InChapter(ws[|ws| - 1]))
  }

  function InChapterList(ws: seq<ChapterId>): Lesson -> bool
  {
    (l: Lesson) => l.chapterId in ws
  }

  /** Summing per-chapter lesson counts over distinct chapters counts each
      lesson that belongs to one of them exactly once. */
  lemma {:induction false} SumOfChapterCounts(lessons: seq<Lesson>, ws: seq<ChapterId>)
    requires forall i, j :: 0 <= i < j < |ws| ==> ws[i] != ws[j]
    ensures LessonsInChapters(lessons, ws) == Count(lessons, InChapterList(ws))
  {
    if ws == [] {
      CountNone(lessons, InChapterList(ws));
    } else {
      var front := ws[..|ws| - 1];
      var w := ws[|ws| - 1];
      SumOfChapterCounts(lessons, front);
      assert w !in front;
      assert forall x :: x in ws <==> x in front || x == w by {
        assert ws == front + [w];
      }
      CountDisjoint(lessons, InChapterList(front), InChapter(w), InChapterList(ws));
    }
  }

  /** Under the denormalisation invariant, the lessons summed over any
      duplicate-free listing of a course's chapters are exactly the lessons
      whose `courseId` is that course. */
  lemma CourseLessonCount(chapters: seq<Chapter>, lessons: seq<Lesson>, courseId: CourseId, ws: seq<ChapterId>)
    requires Denormalised(chapters, lessons)
    requires forall i, j :: 0 <= i < j < |ws| ==> ws[i] != ws[j]
    requires forall k: nat :: k in ws <==> k < |chapters| && chapters[k].courseId == courseId
    ensures LessonsInChapters(lessons, ws) == Count(lessons, LessonInCourse(courseId))
  {
    SumOfChapterCounts(lessons, ws);
    WhereEquiv(lessons, InChapterList(ws), LessonInCourse(courseId));
  }
}
