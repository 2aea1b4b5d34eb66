/** Outcomes of the registry's operations. Where the Python code raises a
    ValueError, the model returns `Fail`/`Err` carrying one case of `Error`,
    one case per kind of error (raises of the same kind in different
    places, or with different wording, share a case). */
module Results {

  datatype Option<T> = None | Some(value: T)

  datatype Error =
    // person.__post_init__ and Instructor.__post_init__
    | InvalidName | InvalidEmail | InvalidAge
    // Course.__post_init__
    | EmptyTitle | EmptyDescription
    // Course.enroll_student, unenroll_student, set_grade
    | AlreadyEnrolled | NotEnrolled | GradeOutOfRange
    // Student.unenroll
    | StudentNotEnrolled
    // Instructor.assign_course, unassign_course
    | AlreadyAssigned | NotAssigned
    // Registry lookups and authorisation
    | UnknownStudent | UnknownCourse | UnknownInstructor | NotCourseInstructor

  /** An operation that returns a value or raises. */
  datatype Result<T> = Ok(value: T) | Err(error: Error)

  /** An operation that returns None or raises. */
  datatype Outcome = Pass | Fail(error: Error)

  function OutcomeOf<T>(r: Result<T>): Outcome
  {
    match r
    case Ok(_) => Pass
    case Err(e) => Fail(e)
  }
}
