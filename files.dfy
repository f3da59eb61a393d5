/** The upload gate and the guards of the two attach mutations; the blob
    store itself is outside the model. */
module Files {
  import opened Base
  import opened Schema
  import opened Utils

  /** `generateUploadUrl`: the store's fresh upload URL `url`, handed only to
      instructors and admins. */
  function GenerateUploadUrl(users: seq<User>, subject: Option<string>, url: string): (r: Result<string>)
    ensures r.Ok? <==> RequireRole(users, subject, [Instructor, Admin]).Ok?
    ensures r.Ok? ==> r.value == url
    ensures r.Err? ==> r.error == RequireRole(users, subject, [Instructor, Admin]).error
  {
    match RequireRole(users, subject, [Instructor, Admin])
    case Err(e) => Err(e)
    case Ok(_) => Ok(url)
  }

  /** The guard of `attachVideoToLesson`: instructor or admin, the lesson must
      exist, then the course named by the lesson's denormalised `courseId`
      must exist and be the caller's unless the caller is an admin. */
  function VideoGuard(users: seq<User>, courses: seq<Course>, lessons: seq<Lesson>, subject: Option<string>,
                      lessonId: LessonId): (r: Result<UserId>)
    ensures var g := RequireRole(users, subject, [Instructor, Admin]);
      && (g.Err? ==> r == g)
      && (g.Ok? && lessonId >= |lessons| ==> r == Err(NotFound))
      && (g.Ok? && lessonId < |lessons| ==> r == CourseGuard(users, courses, subject, lessons[lessonId].courseId))
    ensures r.Ok? ==> (r.value < |users| && lessonId < |lessons| && lessons[lessonId].courseId < |courses| &&
      (users[r.value].role == Admin ||
       courses[lessons[lessonId].courseId].instructorId == r.value))
  {
    match RequireRole(users, subject, [Instructor, Admin])
    case Err(e) => Err(e)
    case Ok(k) =>
      if lessonId >= |lessons| then Err(NotFound)
      else CourseGuard(users, courses, subject, lessons[lessonId].courseId)
  }
}
