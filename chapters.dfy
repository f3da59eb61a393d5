/** Chapter ordering: append at `max(0, existing) + 1`, and positional
    renumbering. */
module Chapters {
  import opened Base
  import opened Schema
  import opened Query

  /** `Math.max(0, ...xs)`. */
  function MaxOrder(xs: seq<int>): (m: int)
    ensures m >= 0
    ensures forall i :: 0 <= i < |xs| ==> xs[i] <= m
    ensures m == 0 || m in xs
  {
    if xs == [] then 0
    else
      var rest := MaxOrder(xs[1..]);
      if xs[0] > rest then xs[0] else rest
  }

  /** The order index `createChapter` gives a new chapter of `courseId`: one
      more than the largest index among that course's chapters, and at least 1. */
  function NextChapterOrder(chapters: seq<Chapter>, courseId: CourseId): (n: int)
    ensures n >= 1
    ensures forall k :: 0 <= k < |chapters| && chapters[k].courseId == courseId ==> chapters[k].orderIndex < n
    ensures n == 1 || exists k :: 0 <= k < |chapters| && chapters[k].courseId == courseId && chapters[k].orderIndex == n - 1
  {
    var ws := Where(chapters, InCourse(courseId));
    assert forall i :: 0 <= i < |ws| ==> ws[i] in ws;
    var xs := seq(|ws|, i requires 0 <= i < |ws| => chapters[ws[i]].orderIndex);
    assert forall k :: 0 <= k < |chapters| && chapters[k].courseId == courseId ==> chapters[k].orderIndex in xs by {
      forall k | 0 <= k < |chapters| && chapters[k].courseId == courseId ensures chapters[k].orderIndex in xs {
        assert k in ws;
        var i :| 0 <= i < |ws| && ws[i] == k;
        assert xs[i] == chapters[k].orderIndex;
      }
    }
    var m := MaxOrder(xs);
    assert m != 0 ==> exists i :: 0 <= i < |ws| && xs[i] == m;
    m + 1
  }

  /** No two chapters of `courseId` share an order index. */
  ghost predicate OrdersDistinct(chapters: seq<Chapter>, courseId: CourseId)
  {
    forall i, j :: 0 <= i < j < |chapters| && chapters[i].courseId == courseId && chapters[j].courseId == courseId ==>
      chapters[i].orderIndex != chapters[j].orderIndex
  }

  /** Appending a chapter numbered by `NextChapterOrder` keeps the order
      indices of every course distinct. */
  lemma AppendKeepsOrdersDistinct(chapters: seq<Chapter>, c: Chapter, courseId: CourseId)
    requires c.orderIndex == NextChapterOrder(chapters, c.courseId)
    requires OrdersDistinct(chapters, courseId)
    ensures OrdersDistinct(chapters + [c], courseId)
  {
    var s := chapters + [c];
    forall i, j | 0 <= i < j < |s| && s[i].courseId == courseId && s[j].courseId == courseId
      ensures s[i].orderIndex != s[j].orderIndex
    {
      if j == |chapters| {
        assert s[i] == chapters[i];
      }
    }
  }

  // ---------------------------------------------------------------------
  // reorderChapters
  // ---------------------------------------------------------------------

  /** The last position of `j` in `ids`, or -1: the patch that decides chapter
      `j`'s final order index when `ids` lists it more than once. */
  function LastPosition(ids: seq<ChapterId>, j: ChapterId): (r: int)
    ensures -1 <= r < |ids|
    ensures r == -1 <==> j !in ids
    ensures r >= 0 ==> ids[r] == j && forall k :: r < k < |ids| ==> ids[k] != j
  {
    if ids == [] then -1
    else if ids[|ids| - 1] == j then |ids| - 1
    else
      var r := LastPosition(ids[..|ids| - 1], j);
      assert j in ids[..|ids| - 1] ==> j in ids;
      assert j in ids ==> j in ids[..|ids| - 1] by {
        if j in ids {
          var k :| 0 <= k < |ids| && ids[k] == j;
          assert k < |ids| - 1 && ids[..|ids| - 1][k] == j;
        }
      }
      r
  }

  /** One `ctx.db.patch`, or none when the chapter is not listed (`pos` is
      -1): only the order index and the update time change. */
  function Renumber(c: Chapter, pos: int, now: int): (r: Chapter)
    ensures pos < 0 ==> r == c
    ensures pos >= 0 ==> r.orderIndex == pos && r.updatedAt == now
    ensures r == c.(orderIndex := r.orderIndex, updatedAt := r.updatedAt)
  {
    if pos < 0 then c else c.(orderIndex := pos, updatedAt := now)
  }

  /** The chapters table after patching `ids[i]` to order index `i`, for every
      `i` in turn: no chapter is added or dropped and none changes anything but
      its order index and update time. */
  function Renumbered(chapters: seq<Chapter>, ids: seq<ChapterId>, now: int): (r: seq<Chapter>)
    ensures |r| == |chapters|
    ensures forall j :: 0 <= j < |chapters| ==>
              r[j] == chapters[j].(orderIndex := r[j].orderIndex, updatedAt := r[j].updatedAt)
  {
    seq(|chapters|, j requires 0 <= j < |chapters| => Renumber(chapters[j], LastPosition(ids, j), now))
  }

  /** The last patch of a chapter wins: an unlisted chapter is untouched, a
      listed one ends with the index of its last listing, patched now. */
  lemma ReorderLastListingWins(chapters: seq<Chapter>, ids: seq<ChapterId>, now: int)
    ensures var r := Renumbered(chapters, ids, now);
      && (forall j :: 0 <= j < |chapters| && j !in ids ==> r[j] == chapters[j])
      && (forall j :: 0 <= j < |chapters| && j in ids ==>
            && 0 <= r[j].orderIndex < |ids| && ids[r[j].orderIndex] == j && r[j].updatedAt == now
            && (forall k :: r[j].orderIndex < k < |ids| ==> ids[k] != j))
  {
  }

  /** One more patch: the table after the first `i + 1` patches is the table
      after `i` patches with chapter `ids[i]` renumbered to `i`. */
  lemma RenumberedStep(chapters: seq<Chapter>, ids: seq<ChapterId>, i: nat, now: int)
    requires i < |ids| && ids[i] < |chapters|
    ensures var before := Renumbered(chapters, ids[..i], now);
      Renumbered(chapters, ids[..i + 1], now) ==
        before[ids[i] := before[ids[i]].(orderIndex := i, updatedAt := now)]
  {
    var before := Renumbered(chapters, ids[..i], now);
    var after := Renumbered(chapters, ids[..i + 1], now);
    assert ids[..i + 1][..i] == ids[..i];
    forall j | 0 <= j < |chapters|
      ensures after[j] == before[ids[i] := before[ids[i]].(orderIndex := i, updatedAt := now)][j]
    {
      assert LastPosition(ids[..i + 1], j) == if ids[i] == j then i else LastPosition(ids[..i], j);
    }
  }

  /** With distinct listed ids, chapter `ids[i]` ends with order index `i`;
      unlisted chapters are untouched; no chapter changes anything but its order
      index and update time. No check ties the listed ids to any course. */
  lemma ReorderPlacesListed(chapters: seq<Chapter>, ids: seq<ChapterId>, now: int)
    requires forall i, j :: 0 <= i < j < |ids| ==> ids[i] != ids[j]
    requires forall i :: 0 <= i < |ids| ==> ids[i] < |chapters|
    ensures var r := Renumbered(chapters, ids, now);
      && |r| == |chapters|
      && (forall i :: 0 <= i < |ids| ==> r[ids[i]].orderIndex == i && r[ids[i]].updatedAt == now)
      && (forall j :: 0 <= j < |chapters| && j !in ids ==> r[j] == chapters[j])
      && (forall j :: 0 <= j < |chapters| ==>
            r[j] == chapters[j].(orderIndex := r[j].orderIndex, updatedAt := r[j].updatedAt))
  {
    var r := Renumbered(chapters, ids, now);
    forall i | 0 <= i < |ids| ensures r[ids[i]].orderIndex == i && r[ids[i]].updatedAt == now {
      var p := LastPosition(ids, ids[i]);
      assert p == i;
    }
  }

  /** When the list is exactly the course's chapters without repetition, the
      course's chapters end numbered 0 .. n-1 in list order, so their order
      indices are distinct. */
  lemma ReorderExactList(chapters: seq<Chapter>, courseId: CourseId, ids: seq<ChapterId>, now: int)
    requires forall i, j :: 0 <= i < j < |ids| ==> ids[i] != ids[j]
    requires forall i :: 0 <= i < |ids| ==> ids[i] < |chapters| && chapters[ids[i]].courseId == courseId
    requires forall k :: 0 <= k < |chapters| && chapters[k].courseId == courseId ==> k in ids
    ensures var r := Renumbered(chapters, ids, now);
      && (forall i :: 0 <= i < |ids| ==> r[ids[i]].orderIndex == i)
      && (forall k :: 0 <= k < |r| && r[k].courseId == courseId ==> 0 <= r[k].orderIndex < |ids|)
      && OrdersDistinct(r, courseId)
  {
    var r := Renumbered(chapters, ids, now);
    ReorderPlacesListed(chapters, ids, now);
    forall k | 0 <= k < |r| && r[k].courseId == courseId
      ensures 0 <= r[k].orderIndex < |ids| && ids[r[k].orderIndex] == k
    {
      assert k in ids;
      var i :| 0 <= i < |ids| && ids[i] == k;
    }
  }

  /** A list naming only some of a course's chapters can leave two of them with
      the same order index: chapters numbered 1, 2, 3 reordered by the list of
      the last two end numbered 1, 1, 0. */
  lemma ReorderPartialListCollides(now: int)
    ensures var chapters := [Chapter(0, "a", None, 1, 0, 0), Chapter(0, "b", None, 2, 0, 0),
                             Chapter(0, "c", None, 3, 0, 0)];
      && OrdersDistinct(chapters, 0)
      && !OrdersDistinct(Renumbered(chapters, [2, 1], now), 0)
  {
    var chapters := [Chapter(0, "a", None, 1, 0, 0), Chapter(0, "b", None, 2, 0, 0),
                     Chapter(0, "c", None, 3, 0, 0)];
    var r := Renumbered(chapters, [2, 1], now);
    assert LastPosition([2, 1], 0) == -1;
    assert LastPosition([2, 1], 1) == 1;
    assert r[0].orderIndex == 1 && r[1].orderIndex == 1;
  }
}
