/**
 * The error kinds the service raises, and the outcome of a service call:
 * a value, or an error that replaces the source's thrown exceptions.
 */
module Errors {

  datatype Error =
    | NotFound(message: string)       // ResourceNotFoundException
    | AlreadyExists(message: string)  // ResourceAlreadyExistsException
    | Unexpected(message: string)     // any other exception

  datatype Outcome<+T> = Success(value: T) | Failure(error: Error)

  /** Two errors are of the same kind, whatever their messages. */
  predicate SameKind(a: Error, b: Error)
  {
    (a.NotFound? && b.NotFound?) || (a.AlreadyExists? && b.AlreadyExists?) || (a.Unexpected? && b.Unexpected?)
  }
}
