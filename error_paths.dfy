/**
 * What a client sees when a service operation fails: the service's failures
 * run through the exception handler.
 */
module ErrorPaths {
  import opened Wrappers
  import opened Entity
  import opened Exceptions
  import opened Tables
  import opened ExceptionHandler
  import StudentService

  /** Fetching an id with no row ends in a 404 response whose details are the request's. */
  lemma MissingIdRespondsNotFound(t: Table, id: int, description: string, now: Timestamp)
    requires id !in t.rows
    ensures var r := StudentService.GetStudentById(t, id);
      && r.Err?
      && Translate(r.error, description, now)
         == Some(ErrorResponse(ErrorDetails(now, None, description), NotFound))
  {
  }

  /**
   * Creating a record whose email is taken ends in a 400 response carrying the
   * exception's message. The table is one whose emails are unique, so the
   * lookup by email finds exactly one row.
   */
  lemma DuplicateEmailRespondsBadRequest(t: Table, student: Student, description: string, now: Timestamp)
    requires UniqueEmails(t.rows) && EmailTaken(t, student.email)
    ensures var o := StudentService.SaveStudentEntity(t, student);
      && o.result.Err?
      && var resp := Translate(o.result.error, description, now);
      && resp.Some? && resp.value.status.Value() == 400
      && resp.value.body.message == Some("Student already exist with email: " + StudentService.EmailText(student.email))
      && resp.value.body.details == description
  {
  }

  /** A save rejected for a null column is not translated; it propagates as an unhandled fault. */
  lemma NullColumnNotTranslated(t: Table, student: Student, description: string, now: Timestamp)
    requires !EmailTaken(t, student.email) && !NonNull(student)
    ensures var o := StudentService.SaveStudentEntity(t, student);
      o.result.Err? && Translate(o.result.error, description, now).None?
  {
  }
}
