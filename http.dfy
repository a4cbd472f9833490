/** HTTP statuses and response values, in place of the framework's ResponseEntity. */
module Http {
  import opened Dto

  const OK := 200
  const CREATED := 201
  const NO_CONTENT := 204
  const NOT_FOUND := 404
  const CONFLICT := 409
  const INTERNAL_SERVER_ERROR := 500

  datatype Body =
    | PersonBody(person: PersonResponse)
    | PeopleBody(people: seq<PersonResponse>)
    | GendersBody(genders: seq<GenderResponse>)
    | ErrorBody(error: ExceptionResponse)
    | NoBody

  datatype Response = Response(status: int, body: Body)
}
