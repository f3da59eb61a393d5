# Course platform backend: a verified model

This project models the serverless backend of an online-course platform.
The backend is a document store of six tables (users, courses, chapters,
lessons, enrollments, progress) plus an analytics log, a set of transactional
mutations that change them, and read-only queries. Every mutation and query
is modelled, together with the authorization guards and the slug normaliser
they share. The project proves the invariants the mutations keep and the
schema does not enforce, and proves how each query's output relates to the
tables.

The model has these parts:

- **Tables and ids.** Each table is a `seq` of records, and a document id is
  its position in its table. The core never deletes a document, so
  `db.get(id)` finds something exactly when `id < |table|`.
- **Index scans.** `.collect()` is `Query.Where`: the matching positions in
  creation order. `.unique()` is `Query.Unique`: no match, one match, or an
  error when several documents match.
- **Store.** The mutations are the methods of one class, `Backend.Store`.
  - Each method guards first and then writes.
  - A failing guard leaves every table unchanged.
  - Every method's frame names the fields it may write.
  - Every mutation method ensures `old(Valid()) ==> Valid()`. The one
    exception is the helper `Write` behind `markLessonComplete`. It ensures
    `Valid()` only when the progress and enrollment tables it is given keep
    their invariants. Validity means:
    - clerk ids are distinct;
    - course slugs are distinct;
    - there is at most one enrollment per (user, course) and at most one
      progress record per (user, lesson);
    - the `courseId` that lessons and progress records copy from their
      chapter or lesson is correct.
- **Queries.** The queries are functions over a `Tables` snapshot.
- **Parameters.** These are passed in as parameters:
  - the caller's identity subject (`Option<string>`);
  - the current time, one value per mutation;
  - the current year;
  - the `ADMIN_EMAILS` setting;
  - the upload URL the blob store hands out.
- **Blob deletes.** The blob store's delete calls are recorded in order in
  `deletedBlobs`.

These behaviours of the code are proved as stated:

- **Rounding.** With the ratio rounded exactly, the percentage reaches 100
  exactly when `200 * completed >= 199 * total`. So 199 completed lessons out
  of 200 mark the enrollment completed (`HundredThreshold`,
  `RoundingExamples`). The double arithmetic is under "Left out".
- **Reordering.** `reorderChapters` does not check that the listed chapters
  are the course's own. Given a partial list, it can leave two chapters with
  the same order index (`ReorderPartialListCollides`).
- **Enrollment status.** `markLessonComplete` accepts an enrollment whatever
  its status. A cancelled enrollment accepts a completion and then becomes
  completed (`CompletionIgnoresStatus`, `CancelledEnrollmentCompletes`).
- **Re-attaching a handle.** Attaching the handle a course or lesson already
  has deletes that blob and stores the same handle again. The reference is
  then dangling (the last ensures of `AttachThumbnailToCourse` and
  `AttachVideoToLesson`).
- **Admin matching.** The admin list is split on `,` with no trimming. An
  empty `ADMIN_EMAILS` setting makes an empty email an admin
  (`EmptySettingMatchesEmptyEmail`).

Files: `base.dfy` (Option, Result, error kinds), `schema.dfy`, `query.dfy`,
`utils.dfy`, `courses.dfy`, `chapters.dfy`, `lessons.dfy`,
`enrollments.dfy`, `progress.dfy`, `ordering.dfy` (the order of an index
scan, and a sort by key and position), `public.dfy`, `users.dfy`, `files.dfy`, and
`store.dfy` (the `Store` class and the completion of a lesson).

## Model

| member | source | states |
|---|---|---|
| Schema.LiteralsInjective | convex/schema.ts:27-37 | Distinct categories and distinct levels have distinct string literals, so a filter on the literal selects exactly one enum value. |
| Query.Unique | convex/users.ts:14-17 | `.unique()` is Missing iff nothing matches, Found(k) iff exactly one document matches (and it is k), Ambiguous iff two documents match. |
| Utils.GetUser | convex/_utils.ts:9-21 | No identity gives no user. With an identity, the result is the one user with that clerk id, or none if there is no such user. Several users with that clerk id are an error. |
| Utils.RequireUser | convex/_utils.ts:24-30 | Fails with Unauthenticated exactly when there is no identity or no user has its clerk id. On success, the returned user has that clerk id. |
| Utils.RequireUserSucceeds | convex/_utils.ts:24-30 | When clerk ids are distinct, the user holding the subject's clerk id is returned. |
| Utils.RequireRole | convex/_utils.ts:33-44 | Succeeds iff `requireUser` succeeds and that user's role is among the allowed roles. A disallowed role gives Forbidden. |
| Utils.CheckCourse | convex/courses.ts:90-96 | A missing course gives NotFound. Otherwise the check passes iff the caller is an admin or the instructor who owns the course. |
| Utils.CourseGuard | convex/courses.ts:116-124 | Combines the role gate for instructor or admin with the course and ownership check. On success, the course exists and a returned instructor owns it. |
| Utils.AdminBypassesOwnership | convex/courses.ts:88-96 | An admin passes the course guard for any existing course. An instructor passes it iff they own the course. A student is Forbidden. |
| Utils.MayModify | convex/courses.ts:94-96 | The inline ownership rule: only an instructor is limited to its own courses. Its contract is stated through `CheckCourse` and `AdminBypassesOwnership`. |
| Utils.Lower | convex/_utils.ts:49 | ASCII `toLowerCase`: the same length, no capital letter left. Each capital becomes its small letter and every other character is kept. |
| Utils.CollapseRuns | convex/_utils.ts:50 | The result uses only `a-z0-9-`, never has two hyphens in a row and is no longer than the input. A leading slug character is kept. |
| Utils.TrimHyphens | convex/_utils.ts:51 | No longer than its input. On a string over `a-z0-9-` without a double hyphen it yields a slug. A string with no edge hyphen is returned unchanged. |
| Utils.GenerateSlug | convex/_utils.ts:47-52 | The result is a slug: only `a-z0-9-`, no leading or trailing hyphen, no double hyphen. |
| Utils.SlugFixedPoint | convex/_utils.ts:47-52 | The normaliser leaves any string that is already a slug unchanged. |
| Utils.GenerateSlugIdempotent | convex/_utils.ts:47-52 | `generateSlug(generateSlug(t)) == generateSlug(t)`. |
| Utils.DropHyphensCollapse | convex/_utils.ts:50 | Removing the hyphens after the run-collapsing step leaves exactly the alphanumerics of the input. |
| Utils.SlugKeepsAlnums | convex/_utils.ts:48-51 | Deleting the hyphens from the slug gives exactly the alphanumerics of the lower-cased title, in order. |
| Utils.EmptySlug | convex/_utils.ts:48-51 | The slug is empty iff the lower-cased title has no alphanumerics. |
| Courses.ResolveSlug | convex/courses.ts:32 | A supplied non-empty slug is used as given. Otherwise the slug is the title's normalised slug, which is a slug. |
| Courses.NewCourse | convex/courses.ts:44-59 | A new course is a draft owned by the caller, with the resolved slug and no thumbnail. Title, descriptions, category, level, duration and price are copied from the arguments. Supplied keywords are stored, and absent ones become `[]`. A supplied non-zero year is kept; an absent or zero year becomes the current year. createdAt = updatedAt = now. |
| Courses.AppendFreshSlug | convex/courses.ts:34-42 | Appending a course whose slug no course has keeps slugs pairwise distinct. |
| Courses.ApplyPatch | convex/courses.ts:98-103 | Each supplied field replaces the old value and each absent field keeps it. Slug, status, instructor, thumbnail, year and createdAt never change, and updatedAt becomes now. |
| Courses.PatchIdempotent | convex/courses.ts:98-103 | Applying the same patch twice equals applying it once. |
| Courses.EmptyPatch | convex/courses.ts:98-103 | An empty patch changes only updatedAt. |
| Courses.CheckPublishable | convex/courses.ts:127-148 | Succeeds iff the course has a chapter and every chapter of the course has a lesson. NoChapters iff it has none. Any other failure is EmptyChapter. |
| Courses.StatsOf | convex/courses.ts:173-202 | The entry for course k carries that course. Every count is bounded by its table, so no lesson is counted under two chapters. A course without chapters has no lessons. Revenue is enrollments times price, and the lesson count matches the course's lesson rows (InstructorLessonCountAgrees). |
| Courses.CoursesOf | convex/courses.ts:165-206 | As many entries as the instructor owns courses. Each entry is faithful to one of them, and every owned course has an entry. |
| Courses.InstructorCourses | convex/courses.ts:160-208 | Fails exactly when the instructor-or-admin gate fails. Otherwise it returns the caller's own courses with faithful statistics, every owned course included. |
| Courses.InstructorLessonCountAgrees | convex/courses.ts:184-200 | Under denormalisation, summing per-chapter lesson counts gives the number of lessons carrying the course's id. |
| Chapters.MaxOrder | convex/chapters.ts:28 | `max(0, ...xs)`: at least 0, at least every element, and either 0 or one of the elements. |
| Chapters.NextChapterOrder | convex/chapters.ts:23-34 | The new index is at least 1 and above every sibling's index. It is 1 or one more than a sibling's index. |
| Chapters.AppendKeepsOrdersDistinct | convex/chapters.ts:30-37 | Appending a chapter numbered this way keeps order indices distinct within every course. |
| Chapters.LastPosition | convex/chapters.ts:60-67 | The index of the last listing of j, or -1 iff j is not listed. It decides which patch of a chapter listed twice wins. |
| Chapters.Renumber | convex/chapters.ts:62-65 | One patch sets orderIndex to the list position and updatedAt to now. Every other field is kept, and an unlisted chapter is not patched. |
| Chapters.Renumbered | convex/chapters.ts:60-67 | The reordered table has the same chapters. None changes anything but orderIndex and updatedAt. |
| Chapters.ReorderLastListingWins | convex/chapters.ts:60-67 | For any list, duplicates included: an unlisted chapter is untouched. A listed chapter ends with the position of its last listing and update time now. |
| Chapters.RenumberedStep | convex/chapters.ts:60-67 | One loop step of the reorder patches `ids[i]` with order index i and update time now. |
| Chapters.ReorderPlacesListed | convex/chapters.ts:59-67 | With distinct listed ids, chapter `ids[i]` gets order index i. Chapters not listed are unchanged. No chapter changes course. |
| Chapters.ReorderExactList | convex/chapters.ts:59-67 | When the list names each of the course's chapters exactly once, chapter `ids[i]` gets index i, every chapter of the course ends in 0..n-1, and the indices are distinct. |
| Chapters.ReorderPartialListCollides | convex/chapters.ts:59-67 | Chapters numbered 1, 2, 3 are reordered by a list naming only the third and second. They end with indices 1, 1, 0, so the indices are no longer distinct. |
| Lessons.NextLessonOrder | convex/lessons.ts:28-33 | The new index is at least 1 and above every sibling's index in the chapter. |
| Lessons.AppendKeepsLessonOrdersDistinct | convex/lessons.ts:35-45 | Appending a lesson numbered this way keeps order indices distinct within every chapter. |
| Lessons.AppendKeepsDenormalised | convex/lessons.ts:37 | A lesson copying its chapter's course id keeps every lesson's courseId equal to its chapter's. |
| Lessons.PatchKeepsDenormalised | convex/files.ts:73-76 | Patching a lesson without changing its chapter or course keeps the lessons denormalised. |
| Lessons.SumOfChapterCounts | convex/courses.ts:184-194 | Summing per-chapter lesson counts over distinct chapters counts the lessons in any of them. |
| Lessons.CourseLessonCount | convex/schema.ts:66-67 | Under denormalisation, the lessons in a course's chapters are exactly the lessons whose courseId is the course. |
| ProgressTracker.RoundedPercent | convex/progress.ts:85-87 | The result r is the exact rational `100*c/n` rounded half up: `2nr <= 200c + n < 2nr + 2n`. The source's double arithmetic can differ just below a half (see Left out). |
| ProgressTracker.PercentComplete | convex/enrollments.ts:95-98 | 0 for a course without lessons. Otherwise the exact rational `100*c/n` rounded half up (see Left out). |
| ProgressTracker.PercentBounds | convex/progress.ts:85-87 | For c <= n the percentage lies in 0..100. It is 0 at c = 0 and 100 at c = n. |
| ProgressTracker.HundredThreshold | convex/progress.ts:85-90 | The percentage is 100 iff `200c >= 199n`. |
| ProgressTracker.RoundingExamples | convex/progress.ts:85-90 | 199 of 200 rounds to 100, 198 of 200 to 99, 1 of 8 to 13 and 1 of 3 to 33. In the model 23 of 40 gives 58 and 29 of 200 gives 15. |
| ProgressTracker.MarkCompleted | convex/progress.ts:38-44 | The patched record is completed with the given watchTime, completedAt = Some(now) and lastWatchedAt = now. It keeps its user, lesson and course. |
| ProgressTracker.MarkCompletedIdempotent | convex/progress.ts:38-44 | Patching twice with the same arguments equals patching once. |
| ProgressTracker.CompletedDistinctLessons | convex/progress.ts:72-83 | With one record per (user, lesson), the completed records of a course are at most the number of lessons they can name. |
| ProgressTracker.CompletedAtMostTotal | convex/progress.ts:72-83 | Under the progress invariants, a user's completed lessons in a course are at most the course's lessons. |
| ProgressTracker.Upserted | convex/progress.ts:31-55 | The one existing record for (user, lesson) is patched and every other record kept. Otherwise exactly one new completed record is appended with the lesson's course id. |
| ProgressTracker.UpsertLeavesOneRecord | convex/progress.ts:31-55 | Afterwards exactly one record exists for (user, lesson). It is completed, with the given watchTime and completedAt now: the time is overwritten, not added. |
| ProgressTracker.UpsertKeepsPairsUnique | convex/progress.ts:31-55 | With at most one record per (user, lesson) before, the same holds after. |
| ProgressTracker.UpsertIdempotent | convex/progress.ts:38-55 | A second upsert with the same arguments adds no record and changes nothing. |
| ProgressTracker.LessonsKeepCourses | convex/schema.ts:101-103 | Growing or patching the lessons table without changing any lesson's course keeps progress records denormalised. |
| ProgressTracker.UpsertKeepsDenormalised | convex/progress.ts:46-54 | A record inserted with the lesson's course id keeps every progress record's courseId equal to its lesson's. |
| ProgressTracker.CompletionFacts | convex/progress.ts:72-87 | The marked lesson's course has at least one lesson, so the division is safe. Under the invariants the upsert keeps them, completed <= total and the percentage <= 100. |
| Enrollments.Touched | convex/progress.ts:58-95 | lastAccessedAt becomes now. At 100 percent the status is completed with completedAt now. Otherwise status and completedAt are kept. |
| Enrollments.TouchNeverReopens | convex/progress.ts:90-95 | A completed enrollment stays completed, whatever the percentage. |
| Enrollments.TouchKeepsPairsUnique | convex/progress.ts:58-60 | Touching an enrollment keeps (user, course) pairs distinct. |
| Enrollments.ViewOf | convex/enrollments.ts:69-117 | The entry for enrollment k carries that enrollment and its course id. Its lesson and completion counts are bounded by the lessons and progress tables. A course without lessons shows 0 percent. |
| Enrollments.ViewCompletion | convex/enrollments.ts:80-98 | Under the progress invariants an entry never counts more completed lessons than its course has, and shows at most 100 percent. In a course with lessons it shows 100 iff `200*completed >= 199*total`, and completing every lesson shows 100. |
| Enrollments.ViewsOf | convex/enrollments.ts:62-121 | Every entry is faithful and belongs to the caller, and there are at most as many entries as the caller has enrollments. Every enrollment of the caller whose course exists is listed. |
| Enrollments.UserEnrollments | convex/enrollments.ts:56-123 | Fails exactly when `requireUser` fails. Otherwise it returns the caller's faithful entries, with enrollments of missing courses dropped. |
| Enrollments.EnrollmentPercentBounded | convex/enrollments.ts:86-98 | Under the progress invariants every entry has completed <= total and a percentage of at most 100. |
| Ordering.Insert | convex/public.ts:45 | Inserting into an ordered list keeps it ordered and adds exactly the new element. |
| Ordering.SortBy | convex/public.ts:45 | A permutation of its input, ordered by key with ties in position order. Its one caller, `Public.IndexScan`, passes the increasing positions of a `Where`, so there this is the stable sort. |
| Ordering.OrderedPrefix | convex/public.ts:48-50 | In an ordered list, an element beyond the first m comes after each of the first m. |
| Public.Limit | convex/public.ts:48-50 | The `slice(0, limit)` rule: no limit or 0 keeps everything; a positive limit keeps the first min(limit, n); a negative limit drops that many from the end. The result is always a prefix. |
| Public.InstructorName | convex/public.ts:65 | A missing or empty name becomes "Unknown Instructor". |
| Public.CardOf | convex/public.ts:52-71 | A card carries its course and id. Its instructor is present iff the instructor's user exists, and then carries the fallback name (`name || "Unknown Instructor"`) and the user's image. |
| Public.SortedListing | convex/public.ts:15-45 | Exactly the courses passing the filter, each once, ordered newest first with ties in creation order. |
| Public.ListedIds | convex/public.ts:15-50 | Filtered, sorted and limited. A course cut by the limit is never newer than a listed one, and with no limit every passing course is listed. |
| Public.Cards | convex/public.ts:52-71 | One card per listed id, in order, and no card for an id not listed. |
| Public.CardsNewestFirst | convex/public.ts:45 | The cards' createdAt never increases along the list. |
| Public.OmittedNotNewer | convex/public.ts:45-50 | A passing course cut by the limit is not newer than any listed course. |
| Public.OmittedCardsNotNewer | convex/public.ts:45-50 | The same for every cut course against every card. |
| Public.PublishedCourses | convex/public.ts:7-75 | Every card is a course passing the filters. Cards are newest first. Cut courses are no newer than listed ones. The length is the filtered count, or min(limit, count) for a positive limit. |
| Public.Listed | convex/public.ts:15-42 | The filter accepts only published courses. With no category, level or search given (absent or empty), it accepts exactly the published courses. |
| Public.ListedResults | convex/public.ts:15-42 | Every result is published. It matches any given category and level exactly, and contains any given search string case-insensitively in its title, short description or a keyword. |
| Public.IndexScan | convex/public.ts:100-121 | An ordered index scan returns exactly the matching positions, each once, ordered by the index key and then creation order. |
| Public.ChapterViewOf | convex/public.ts:105-120 | A chapter view carries its chapter and one summary per lesson of the chapter. |
| Public.ChapterViewOfFaithful | convex/public.ts:105-120 | The lesson summaries are the chapter's lessons in `orderIndex` order, with their titles and durations. |
| Public.CeilHours | convex/public.ts:148 | `ceil(m/60)`: `60(h-1) < m <= 60h`. |
| Public.Curriculum | convex/public.ts:100-121 | The course's chapters, each once, in `orderIndex` order, each with a faithful lesson list. |
| Public.CurriculumFacts | convex/public.ts:100-121 | Mapping chapter ids to views keeps the ids and makes every view faithful. |
| Public.CourseBySlug | convex/public.ts:80-151 | Several courses with the slug are an error. No course, or an unpublished one, gives none. Otherwise the published course's page. |
| Public.TotalLessons | convex/public.ts:124-127 | The first reduce: zero iff no chapter has a lesson. |
| Public.TotalMinutes | convex/public.ts:129-133 | The nested reduce over lesson minutes: 0 when there are no lessons, never negative when no duration is. |
| Public.TotalsAppend | convex/public.ts:124-133 | Both reduces add up over any split of the curriculum. |
| Public.DetailsOf | convex/public.ts:124-149 | The page of course k carries that course. The instructor is present iff its user exists. It then carries the user's id, the fallback name, and the user's bio and image. `totalLessons` is the first reduce; `totalDuration` is the least number of whole hours covering the summed minutes, so a course without lessons shows 0 hours. |
| Public.DetailsFaithful | convex/public.ts:100-121 | The page's curriculum lists the course's chapters, each once and in `orderIndex` order, each with its own lessons. |
| Public.TotalLessonsByChapter | convex/public.ts:124-133 | Summing the chapter views' lesson lists equals summing the per-chapter lesson counts. |
| Public.CourseTotalLessons | convex/public.ts:124-133 | Under denormalisation the page's totalLessons is the course's lesson count. |
| Users.Split | convex/users.ts:22 | JavaScript's `split(",")`: at least one piece, and no piece contains a comma. |
| Users.JoinSplit | convex/users.ts:22 | Joining the pieces with commas gives back the string. |
| Users.SplitJoin | convex/users.ts:22 | Splitting comma-free entries joined with commas gives back the entries. |
| Users.NewUserRole | convex/users.ts:22-23 | Admin iff the setting is present and the email is exactly one of its comma-separated pieces. Otherwise student. |
| Users.AdminIffListed | convex/users.ts:22-23 | For a setting written as comma-free entries, admin iff the email is one of them. |
| Users.NoAdminUnlisted | convex/users.ts:22-23 | Without the setting, or for an email containing a comma, the role is student. |
| Users.EmptySettingMatchesEmptyEmail | convex/users.ts:22-23 | An empty setting makes the empty email an admin and any other email a student. |
| Users.NewUser | convex/users.ts:35-44 | A new user has the clerk id, the email and the role from the admin list, no bio, and createdAt = updatedAt = now. |
| Users.Refreshed | convex/users.ts:25-33 | An existing user gets the new email, name, image and update time, and keeps clerk id, role, bio and createdAt. |
| Users.RefreshIdempotent | convex/users.ts:25-33 | Refreshing twice with the same arguments equals refreshing once. |
| Users.Sync | convex/users.ts:14-45 | Fails iff several users share the clerk id. The one user with it is refreshed in place and its id returned. Otherwise one new user is appended and its id returned. |
| Users.SyncLeavesOneUser | convex/users.ts:14-45 | Afterwards exactly one user has the clerk id, with the given email. Its role is kept if it existed, or comes from the admin list if new. Every other user is unchanged. |
| Users.SyncKeepsClerkIdsUnique | convex/users.ts:14-45 | Distinct clerk ids before means distinct clerk ids after. |
| Users.SyncIdempotent | convex/users.ts:14-45 | Syncing again with the same arguments returns the same id and adds no second user. |
| Users.CurrentUser | convex/users.ts:50-72 | No identity or no user gives none. Otherwise the caller with their enrollment count and completed count, where completed <= enrolled. |
| Users.UserByClerkId | convex/users.ts:93-103 | The user with that clerk id, or none iff no user has it. With distinct clerk ids it never fails. |
| Files.GenerateUploadUrl | convex/files.ts:6-14 | The upload URL is handed out iff the instructor-or-admin gate passes. |
| Files.VideoGuard | convex/files.ts:55-66 | Role gate, then the lesson must exist, then ownership is checked against the course named by the lesson's denormalised courseId. |
| Backend.CompleteLesson | convex/progress.ts:19-95 | No enrollment gives NotEnrolled. Success iff there is exactly one enrollment and at most one progress record. A failure is NotEnrolled or NotUnique. |
| Backend.CompleteLessonOutcome | convex/progress.ts:31-104 | A completion writes the upserted progress table and touches only the caller's enrollment: completed at 100 percent, status otherwise kept. It logs one `lesson_complete` event and replies with completed and total counts (total >= 1) and the rounded percentage. |
| Backend.CompleteLessonKeepsInvariants | convex/progress.ts:31-95 | Under the store invariants a completion keeps them, and the reply has completed <= total and a percentage of at most 100. |
| Backend.CompletionIgnoresStatus | convex/progress.ts:19-28 | Whether a completion is accepted does not depend on the enrollment's status. |
| Backend.CancelledEnrollmentCompletes | convex/progress.ts:26-95 | A cancelled enrollment in a one-lesson course accepts the completion and becomes completed at 100 percent. |
| Backend.Store.CreateCourse | convex/courses.ts:6-63 | Role gate first. The call succeeds iff no course has the resolved slug. A clash is Conflict and inserts nothing. On success it appends exactly the new draft course and returns its id and slug. Slugs stay distinct. |
| Backend.Store.UpdateCourse | convex/courses.ts:66-107 | After the course guard, only the patched course changes, by `ApplyPatch`. A failed guard changes nothing. |
| Backend.Store.UpdateCourseStatus | convex/courses.ts:110-157 | Success iff the guard passes and, when publishing, the course is publish-ready. Only status and updatedAt change. A failure leaves the course unchanged. Going back to draft needs only the guard. |
| Backend.Store.CreateChapter | convex/chapters.ts:6-41 | After the course guard, exactly one chapter is appended, with the next order index. Order indices stay distinct in every course. |
| Backend.Store.ReorderChapters | convex/chapters.ts:44-71 | After the course guard, a listed id that does not exist fails and undoes the whole mutation. Otherwise the chapters are renumbered by position, one patch per listed id. |
| Backend.Store.CreateLesson | convex/lessons.ts:6-49 | A missing chapter is NotFound. A missing or foreign course fails the course check. On success exactly one lesson is appended, numbered after its siblings and carrying its chapter's course id. |
| Backend.Store.CreateEnrollment | convex/enrollments.ts:8-51 | Any existing enrollment for (caller, course), whatever its status, fails before availability is checked: one is a Conflict, several are NotUnique. A missing or unpublished course is NotAvailable. On success one active enrollment and one enrollment event are appended. |
| Backend.Store.MarkLessonComplete | convex/progress.ts:6-105 | `requireUser`, then NotFound for a missing lesson. Then the tables become exactly what `CompleteLesson` computes, plus one analytics event. A failure writes nothing, and the invariants are kept. |
| Backend.Store.SyncUser | convex/users.ts:6-47 | The users table becomes what `Sync` computes. Afterwards exactly one user has the clerk id, and clerk ids stay distinct. |
| Backend.Store.UpdateUserRole | convex/users.ts:75-90 | Admins only. A missing target is NotFound. Only the target's role and updatedAt change. |
| Backend.Store.AttachThumbnailToCourse | convex/files.ts:17-46 | After the course guard, the old handle is deleted iff one was present, and thumbnailId and updatedAt are set. Re-attaching the current handle deletes it and leaves it stored. |
| Backend.Store.AttachVideoToLesson | convex/files.ts:49-81 | After the video guard, the old handle is deleted iff one was present, and videoId and updatedAt are set. Re-attaching the current handle deletes it and leaves it stored. |

## Left out

- Identity provider: `getUserIdentity` is replaced by the subject parameter.
- Blob storage:
  - `getUrl` and the thumbnail and video URLs it yields are not modelled.
  - An upload URL is a parameter.
  - Delete calls are logged but their failures are not modelled.
- Clocks: `Date.now()` and the current year are parameters. Nothing is claimed about time ordering.
- A mutation runs as if alone. Concurrency, transaction retries and `Promise.all` interleaving are not modelled.
- Analytics `metadata` payloads are not modelled. Events are compared on type, user, course, lesson and timestamp.
- Floating point: `Math.round` and `Math.ceil` are integer formulas over counts and minutes. Prices, durations and times are unbounded integers. A non-integer or NaN `limit` is not modelled.
- ProgressTracker.RoundedPercent: the model rounds the exact rational `100*c/n` half up. The source rounds the double `(c/n)*100`, which can land just below a half and round down. For 23 of 40 lessons the double is 57.49999999999999, so the source shows 57 and the model 58; 29 of 200 gives 14 against 15. The rounding is not modelled bit for bit. `HundredThreshold` is proved for the exact rational. That the double rounding reaches 100 at the same threshold for every n is not proved.
- ProgressTracker.PercentComplete: `getUserEnrollments` inherits the same gap. It can show one percent more than the source when `(c/n)*100` falls just below a half, as for 23 of 40.
- Text handling: lower-casing and the slug alphabet are ASCII only, so non-ASCII letters are not lower-cased. Error messages are error kinds.
- Utils.RequireUser: several users sharing a clerk id make `.unique()` throw. The model reports that as NotUnique, and every other `.unique()` lookup does the same.
- Courses.InstructorCourses: the `order("desc")` scan is modelled in table order, so the list is in creation order rather than newest first.
- Enrollments.UserEnrollments: the same holds for its `order("desc")` scan.
- The seed data, the hello-world query and the UI are not part of this model.
