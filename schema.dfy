/** The record shapes and enumerations of the six tables plus the analytics
    log. A document id is the document's position in its table: the core never
    deletes a document, so ids are allocated in creation order. Numbers the
    store keeps as double-precision floats are integers here; the comments give
    their units. */
module Schema {
  import opened Base

  type UserId = nat
  type CourseId = nat
  type ChapterId = nat
  type LessonId = nat
  /** An opaque handle issued by the blob store. */
  type StorageId = nat

  datatype Role = Student | Instructor | Admin

  datatype Category = Development | Design | Marketing | Business

  datatype Level = Beginner | Intermediate | Advanced

  datatype CourseStatus = Draft | Published

  datatype EnrollmentStatus = Active | Completed | Cancelled

  datatype EventType = PageView | CourseView | LessonStart | LessonComplete | EnrollmentCreated

  /** The string literal the store keeps for a category. */
  function CategoryLiteral(c: Category): string
  {
    match c
    case Development => "Development"
    case Design => "Design"
    case Marketing => "Marketing"
    case Business => "Business"
  }

  /** The string literal the store keeps for a level. */
  function LevelLiteral(l: Level): string
  {
    match l
    case Beginner => "Beginner"
    case Intermediate => "Intermediate"
    case Advanced => "Advanced"
  }

  /** Distinct enumeration values have distinct literals, so comparing a
      caller's string with the literal selects at most one value. */
  lemma LiteralsInjective(c1: Category, c2: Category, l1: Level, l2: Level)
    ensures CategoryLiteral(c1) == CategoryLiteral(c2) ==> c1 == c2
    ensures LevelLiteral(l1) == LevelLiteral(l2) ==> l1 == l2
  {
  }

  datatype User = User(
    clerkId: string,            // identity-provider subject
    email: string,
    name: Option<string>,
    imageUrl: Option<string>,
    role: Role,
    bio: Option<string>,
    createdAt: int,
    updatedAt: int)

  datatype Course = Course(
    title: string,
    slug: string,
    smallDescription: string,
    description: string,
    thumbnailId: Option<StorageId>,
    category: Category,
    level: Level,
    duration: int,              // hours
    price: int,                 // cents
    status: CourseStatus,
    instructorId: UserId,
    keywords: seq<string>,
    year: Option<int>,
    createdAt: int,
    updatedAt: int)

  datatype Chapter = Chapter(
    courseId: CourseId,
    title: string,
    description: Option<string>,
    orderIndex: int,
    createdAt: int,
    updatedAt: int)

  datatype Lesson = Lesson(
    chapterId: ChapterId,
    courseId: CourseId,         // denormalised copy of the chapter's course
    title: string,
    description: Option<string>,
    videoId: Option<StorageId>,
    duration: int,              // minutes
    orderIndex: int,
    content: Option<string>,
    createdAt: int,
    updatedAt: int)

  datatype Enrollment = Enrollment(
    userId: UserId,
    courseId: CourseId,
    status: EnrollmentStatus,
    paymentId: Option<string>,
    enrolledAt: int,
    completedAt: Option<int>,
    lastAccessedAt: Option<int>)

  datatype Progress = Progress(
    userId: UserId,
    lessonId: LessonId,
    courseId: CourseId,         // denormalised copy of the lesson's course
    completed: bool,
    watchTime: int,             // seconds
    completedAt: Option<int>,
    lastWatchedAt: int)

  /** An analytics row; its free-form metadata is not modelled. */
  datatype AnalyticsEvent = AnalyticsEvent(
    eventType: EventType,
    userId: Option<UserId>,
    courseId: Option<CourseId>,
    lessonId: Option<LessonId>,
    timestamp: int)

  /** A read-only view of every table, as the queries see it. */
  datatype Tables = Tables(
    users: seq<User>,
    courses: seq<Course>,
    chapters: seq<Chapter>,
    lessons: seq<Lesson>,
    enrollments: seq<Enrollment>,
    progress: seq<Progress>,
    analytics: seq<AnalyticsEvent>)

  // Index predicates: the equality conditions of the source's `withIndex` scans.

  function ByClerk(clerkId: string): User -> bool { (u: User) => u.clerkId == clerkId }
  function BySlug(slug: string): Course -> bool { (c: Course) => c.slug == slug }
  function ByInstructor(userId: UserId): Course -> bool { (c: Course) => c.instructorId == userId }
  function InCourse(courseId: CourseId): Chapter -> bool { (c: Chapter) => c.courseId == courseId }
  function InChapter(chapterId: ChapterId): Lesson -> bool { (l: Lesson) => l.chapterId == chapterId }
  function LessonInCourse(courseId: CourseId): Lesson -> bool { (l: Lesson) => l.courseId == courseId }
  function EnrollmentFor(courseId: CourseId): Enrollment -> bool { (e: Enrollment) => e.courseId == courseId }
  function EnrolledBy(userId: UserId): Enrollment -> bool { (e: Enrollment) => e.userId == userId }
  function EnrollmentOf(userId: UserId, courseId: CourseId): Enrollment -> bool
  {
    (e: Enrollment) => e.userId == userId && e.courseId == courseId
  }
  function ProgressOf(userId: UserId, lessonId: LessonId): Progress -> bool
  {
    (p: Progress) => p.userId == userId && p.lessonId == lessonId
  }
  /** The `by_user_course` scan filtered on `completed == true`. */
  function CompletedIn(userId: UserId, courseId: CourseId): Progress -> bool
  {
    (p: Progress) => p.userId == userId && p.courseId == courseId && p.completed
  }
}
