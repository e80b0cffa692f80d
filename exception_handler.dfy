/**
 * `GlobalExceptionHandler`: translates the two domain exceptions into an HTTP
 * response carrying an `ErrorDetails` body. The clock reading and the request
 * description are inputs.
 */
module ExceptionHandler {
  import opened Wrappers
  import opened Exceptions

  /** A reading of `LocalDateTime.now()`. */
  type Timestamp = int

  /** The two `HttpStatus` constants the handler uses. */
  datatype HttpStatus = NotFound | BadRequest
  {
    /** The numeric status code. */
    function Value(): (code: int)
      ensures 400 <= code < 500
      ensures code == 404 <==> this == NotFound
      ensures code == 400 <==> this == BadRequest
    {
      match this
      case NotFound => 404
      case BadRequest => 400
    }
  }

  datatype ErrorDetails = ErrorDetails(timestamp: Timestamp, message: Option<string>, details: string)

  datatype ErrorResponse = ErrorResponse(body: ErrorDetails, status: HttpStatus)

  /** `handleResourceNotFoundException`: 404, message copied, details from the request. */
  function HandleResourceNotFoundException(exception: Failure, description: string, now: Timestamp): (r: ErrorResponse)
    requires exception.kind == ResourceNotFound
    ensures r.status.Value() == 404
    ensures r.body.message == exception.message
    ensures r.body.details == description && r.body.timestamp == now
  {
    ErrorResponse(ErrorDetails(now, exception.message, description), NotFound)
  }

  /** `handleUserAlreadyExistsException`: 400, message copied, details from the request. */
  function HandleUserAlreadyExistsException(exception: Failure, description: string, now: Timestamp): (r: ErrorResponse)
    requires exception.kind == UserAlreadyExists
    ensures r.status.Value() == 400
    ensures r.body.message == exception.message
    ensures r.body.details == description && r.body.timestamp == now
  {
    ErrorResponse(ErrorDetails(now, exception.message, description), BadRequest)
  }

  /**
   * The `@ExceptionHandler` dispatch: a failure whose class has a handler is
   * translated by it; any other failure is not translated (`None`) and
   * propagates to the runtime's default fault handling.
   */
  function Translate(exception: Failure, description: string, now: Timestamp): (r: Option<ErrorResponse>)
    ensures r.Some? <==> exception.kind in {ResourceNotFound, UserAlreadyExists}
    ensures r.Some? ==> r.value.body == ErrorDetails(now, exception.message, description)
    ensures r.Some? ==> (r.value.status.Value() == 404 <==> exception.kind == ResourceNotFound)
    ensures r.Some? ==> (r.value.status.Value() == 400 <==> exception.kind == UserAlreadyExists)
  {
    match exception.kind
    case ResourceNotFound => Some(HandleResourceNotFoundException(exception, description, now))
    case UserAlreadyExists => Some(HandleUserAlreadyExistsException(exception, description, now))
    case DataIntegrityViolation => None
  }

  /**
   * The status of a translated response tells which of the two exceptions
   * caused it, whatever the messages, requests and times involved.
   */
  lemma StatusDeterminesKind(e1: Failure, d1: string, t1: Timestamp, e2: Failure, d2: string, t2: Timestamp)
    requires Translate(e1, d1, t1).Some? && Translate(e2, d2, t2).Some?
    requires Translate(e1, d1, t1).value.status == Translate(e2, d2, t2).value.status
    ensures e1.kind == e2.kind
  {
  }
}
