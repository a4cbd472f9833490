/** Conversions between the entity and its transport records (mapper/PersonMapper.java). */
module Mapper {
  import opened Wrappers
  import opened Persons
  import opened Dto

  /** The response for a person: every field, the id included, copied unchanged. */
  function ToResponse(p: Person): (r: PersonResponse)
    ensures r.id == p.id
    ensures r.firstName == p.firstName && r.lastName == p.lastName && r.address == p.address
    ensures r.gender == p.gender && r.email == p.email
  {
    PersonResponse(p.id, p.firstName, p.lastName, p.address, p.gender, p.email)
  }

  /** The entity built from a request: the five fields copied, no id. */
  function ToEntity(request: PersonRequest): (p: Person)
    ensures p.id.None?
    ensures p.firstName == request.firstName && p.lastName == request.lastName
    ensures p.address == request.address && p.gender == request.gender && p.email == request.email
  {
    NewPerson(request.firstName, request.lastName, request.address, request.gender, request.email)
  }

  /** The five data fields of a person, as a request would carry them. */
  function RequestOf(p: Person): PersonRequest
  {
    PersonRequest(p.firstName, p.lastName, p.address, p.gender, p.email)
  }

  /** Mapping a request to an entity loses nothing: the request is recovered from the entity. */
  lemma EntityKeepsRequest(request: PersonRequest)
    ensures RequestOf(ToEntity(request)) == request
  {
  }

  /** An id-less person is exactly the entity of its own fields. */
  lemma EntityOfFields(p: Person)
    requires p.id.None?
    ensures ToEntity(RequestOf(p)) == p
  {
  }

  /** The response to a freshly mapped request has no id and carries exactly the request's fields. */
  lemma ResponseOfEntity(request: PersonRequest)
    ensures ToResponse(ToEntity(request)) ==
      PersonResponse(None, request.firstName, request.lastName, request.address, request.gender, request.email)
  {
  }
}
