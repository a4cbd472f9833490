/**
 * Translation of error kinds into HTTP responses
 * (exceptions/handler/CustomizedResponseEntityExceptionHandler.java).
 * The most specific handler applies: not-found and already-exists errors have
 * their own statuses, every other exception falls to the catch-all handler.
 */
module ExceptionHandler {
  import opened Dto
  import opened Errors
  import opened Http

  /** The error body: the caller's timestamp and request description around the error's own message. */
  function CreateExceptionResponse(e: Error, now: string, details: string): (r: ExceptionResponse)
    ensures r.message == e.message
    ensures r.timestamp == now && r.details == details
  {
    ExceptionResponse(now, e.message, details)
  }

  /** The response the handlers give for an error. */
  function Handle(e: Error, now: string, details: string): (r: Response)
    ensures e.NotFound? ==> r.status == NOT_FOUND
    ensures e.AlreadyExists? ==> r.status == CONFLICT
    ensures e.Unexpected? ==> r.status == INTERNAL_SERVER_ERROR
    ensures r.body.ErrorBody? && r.body.error.message == e.message
    ensures r.body.error.timestamp == now && r.body.error.details == details
  {
    match e
    case NotFound(_) => Response(NOT_FOUND, ErrorBody(CreateExceptionResponse(e, now, details)))
    case AlreadyExists(_) => Response(CONFLICT, ErrorBody(CreateExceptionResponse(e, now, details)))
    case Unexpected(_) => Response(INTERNAL_SERVER_ERROR, ErrorBody(CreateExceptionResponse(e, now, details)))
  }

  /** The status alone tells the error kind: equal statuses exactly for errors of the same kind. */
  lemma StatusIdentifiesKind(a: Error, b: Error, now: string, details: string)
    ensures Handle(a, now, details).status == Handle(b, now, details).status <==> SameKind(a, b)
  {
  }

  /** No error is answered with a success status. */
  lemma ErrorStatusIsNotSuccess(e: Error, now: string, details: string)
    ensures 400 <= Handle(e, now, details).status < 600
  {
  }
}
