/** The transport-facing records: request and response bodies with no behaviour of their own. */
module Dto {
  import opened Wrappers
  import opened Genders

  /** Fields a client sends to create or update a person; it has no id. */
  datatype PersonRequest = PersonRequest(
    firstName: string,
    lastName: string,
    address: string,
    gender: Gender,
    email: string)

  /** The wire representation of a person, id included. */
  datatype PersonResponse = PersonResponse(
    id: Option<int>,
    firstName: string,
    lastName: string,
    address: string,
    gender: Gender,
    email: string)

  /** One entry of the gender listing: the constant's name and its description. */
  datatype GenderResponse = GenderResponse(name: string, description: string)

  /**
   * The error body. The timestamp is the handler's clock read and the details
   * the request description; both are supplied by the caller.
   */
  datatype ExceptionResponse = ExceptionResponse(timestamp: string, message: string, details: string)
}
