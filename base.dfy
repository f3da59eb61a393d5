/** Option and Result wrappers and the error kinds the backend raises. */
module Base {

  datatype Option<T> = None | Some(value: T)

  /** The failures the mutations and queries throw. The source throws an
      `Error` carrying a message; the model keeps only its kind. */
  datatype Error =
    | Unauthenticated   // no identity, or no user record for the identity
    | Forbidden         // role not allowed, or an instructor acting on a course it does not own
    | NotFound          // a referenced user, course, chapter or lesson does not exist
    | Conflict          // duplicate slug or duplicate enrollment
    | NotAvailable      // enrollment in a missing or unpublished course
    | NotEnrolled       // progress on a course the caller has no enrollment in
    | NoChapters        // publish gate: the course has no chapter
    | EmptyChapter      // publish gate: some chapter of the course has no lesson
    | NotUnique         // an index lookup with `.unique()` matched several documents

  datatype Result<T> = Ok(value: T) | Err(error: Error)
}
