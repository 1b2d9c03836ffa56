/** Error kinds and the result types the operations return instead of throwing. */
module Outcomes {

  /** Found or not found: the model of java.util.Optional. */
  datatype Option<+T> = None | Some(value: T)

  /** The closed set of failures. The first five are business-rule violations raised by the
      service and the teacher controller; the last two are raised by the persistence layer. */
  datatype Error =
    | TeacherNotFound(teacherId: int)
    | EntryNotFound(entryId: int)
    | SlotConflict
    | TeacherConflict
    | DuplicateEmail
      // a single-result query matched more than one row
    | NonUniqueResult
      // a save would give two teachers the same email (the unique column constraint)
    | EmailConstraintViolation

  /** The value an operation returns, or the error it throws. */
  datatype Result<+T> = Success(value: T) | Failure(error: Error)

  /** Completion of an operation that returns nothing (a Java `void ... throws`). */
  datatype Outcome = Pass | Fail(error: Error)
}
