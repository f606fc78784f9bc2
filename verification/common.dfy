/** Types shared by every part of the enrollment and grading engine: identifiers,
    clock values, the optional and result wrappers, and the error taxonomy that the
    services raise as exceptions. */
module Common {

  /** Database identity of a row (the `Long id` columns, generated by the store). */
  type Id = nat

  /** A calendar day (`LocalDate`). The clock is never read by the model: every
      operation that calls `LocalDate.now()` takes the day as a parameter. */
  type Day = nat

  /** A point in time (`LocalDateTime`), passed in for the same reason. */
  type Instant = nat

  datatype Option<T> = None | Some(value: T)

  /** The exceptions the services throw, one constructor per kind. */
  datatype Error =
    | NotFound                 // ResourceNotFoundException
    | AlreadyExists            // ResourceAlreadyExistsException
    | CapacityExceeded         // CapacityExceededException
    | PrerequisiteNotMet       // PrerequisiteNotMetException
    | EnrollmentNotActive      // EnrollmentNotActiveException
    | InvalidGrade             // InvalidGradeException
    | IllegalArgument          // IllegalArgumentException
    | IllegalState             // IllegalStateException
    | DuplicateEnrollment      // the store's unique (student_id, course_id) constraint
    | ForeignKeyViolation      // a grade row still references a bulk-deleted enrollment
    | ValidationFailed         // bean validation of an entity when it is written
    | NoEnrollmentSucceeded    // RuntimeException: no requested course could be enrolled
    | EnrollmentsFailed(failures: seq<CourseFailure>)  // RuntimeException naming each failed course

  /** One failed course of a bulk enrollment, as the aggregated message lists it. */
  datatype CourseFailure = CourseFailure(courseId: Id, reason: Error)

  datatype Result<T> = Ok(value: T) | Err(error: Error)
}
