/**
 * The REST endpoints (controller/PersonController.java). Each endpoint calls
 * the service, maps the result with the mapper and wraps it in a status; an
 * error raised by the service is answered by the exception handler.
 */
module Controller {
  import opened Wrappers
  import opened Genders
  import opened Persons
  import opened Dto
  import opened Mapper
  import opened Errors
  import opened Http
  import opened ExceptionHandler
  import opened Repository
  import opened Service

  /** The list of responses for a list of persons: same length, element-wise `ToResponse`, order kept. */
  function ToResponses(people: seq<Person>): (rs: seq<PersonResponse>)
    ensures |rs| == |people|
    ensures forall i :: 0 <= i < |people| ==> rs[i] == ToResponse(people[i])
  {
    if people == [] then [] else [ToResponse(people[0])] + ToResponses(people[1..])
  }

  /** The listing entry of each gender constant, order kept. */
  function GenderResponses(genders: seq<Gender>): (rs: seq<GenderResponse>)
    ensures |rs| == |genders|
    ensures forall i :: 0 <= i < |genders| ==> rs[i] == GenderResponse(Name(genders[i]), Description(genders[i]))
  {
    if genders == [] then [] else [GenderResponse(Name(genders[0]), Description(genders[0]))] + GenderResponses(genders[1..])
  }

  /** An endpoint that answers with one person: the success status and the mapped person, or the handler's answer. */
  function Respond(outcome: Outcome<Person>, success: int, now: string, details: string): (r: Response)
    ensures outcome.Success? ==> r.status == success && r.body == PersonBody(ToResponse(outcome.value))
    ensures outcome.Failure? ==> r == Handle(outcome.error, now, details)
  {
    match outcome
    case Success(p) => Response(success, PersonBody(ToResponse(p)))
    case Failure(e) => Handle(e, now, details)
  }

  /** The delete endpoint: no content on success, or the handler's answer. */
  function RespondNoContent(outcome: Outcome<()>, now: string, details: string): (r: Response)
    ensures outcome.Success? ==> r == Response(NO_CONTENT, NoBody)
    ensures outcome.Failure? ==> r == Handle(outcome.error, now, details)
  {
    match outcome
    case Success(_) => Response(NO_CONTENT, NoBody)
    case Failure(e) => Handle(e, now, details)
  }

  /** The gender listing: one (name, description) pair per constant, in declaration order. */
  function ListGenders(): (r: Response)
    ensures r == Response(OK, GendersBody([GenderResponse("MALE", "Masculino"), GenderResponse("FEMALE", "Feminino")]))
  {
    var entries := GenderResponses(Values());
    assert entries == [entries[0], entries[1]];
    Response(OK, GendersBody(entries))
  }

  /** No two responses of a list are equal. */
  predicate DistinctResponses(rs: seq<PersonResponse>)
  {
    forall i, j :: 0 <= i < j < |rs| ==> rs[i] != rs[j]
  }

  /** Distinct persons have distinct responses, since a response copies every field. */
  lemma ResponsesOfDistinct(people: seq<Person>)
    requires Distinct(people)
    ensures DistinctResponses(ToResponses(people))
  {
    var rs := ToResponses(people);
    forall i, j | 0 <= i < j < |rs|
      ensures rs[i] != rs[j]
    {
      assert rs[i] == ToResponse(people[i]) && rs[j] == ToResponse(people[j]);
    }
  }

  /** The entry is the response of the row stored under the entry's id. */
  ghost predicate RespondsStored(rows: map<int, Person>, r: PersonResponse)
  {
    r.id.Some? && r.id.value in rows && r == ToResponse(rows[r.id.value])
  }

  class PersonController {
    const service: PersonService

    ghost predicate Valid()
      reads this, service, service.repository
    {
      service.Valid()
    }

    constructor (service: PersonService)
      requires service.Valid()
      ensures Valid() && this.service == service
    {
      this.service := service;
    }

    /** GET: 200 with every stored row, each once. */
    method FindAll() returns (resp: Response)
      requires Valid()
      ensures resp.status == OK && resp.body.PeopleBody?
      ensures |resp.body.people| == |service.repository.rows|
      ensures forall i :: 0 <= i < |resp.body.people| ==> RespondsStored(service.repository.rows, resp.body.people[i])
      ensures forall k :: k in service.repository.rows ==> ToResponse(service.repository.rows[k]) in resp.body.people
      ensures DistinctResponses(resp.body.people)
    {
      var people := service.FindAll();
      resp := Response(OK, PeopleBody(ToResponses(people)));
      ResponsesOfDistinct(people);
      forall k | k in service.repository.rows
        ensures ToResponse(service.repository.rows[k]) in resp.body.people
      {
        var i :| 0 <= i < |people| && people[i] == service.repository.rows[k];
        assert resp.body.people[i] == ToResponse(people[i]);
      }
    }

    /** GET /{id}: 200 with the row, or 404 "No records found for this ID!". */
    method FindById(id: int, now: string, details: string) returns (resp: Response)
      requires Valid()
      ensures id in service.repository.rows ==> resp == Response(OK, PersonBody(ToResponse(service.repository.rows[id])))
      ensures id !in service.repository.rows ==>
        resp == Response(NOT_FOUND, ErrorBody(ExceptionResponse(now, NoRecordsForId, details)))
    {
      var outcome := service.FindById(id);
      resp := Respond(outcome, OK, now, details);
    }

    /**
     * POST: 409 naming the email when one row already has it, 500 when several
     * do, the store untouched either way; otherwise 201 with the new row under
     * an id never handed out before.
     */
    method Create(request: PersonRequest, now: string, details: string) returns (resp: Response)
      requires Valid()
      modifies service.repository
      ensures Valid()
      ensures EmailTaken(old(service.repository.rows), request.email) ==> unchanged(service.repository)
      ensures EmailTaken(old(service.repository.rows), request.email) && !EmailShared(old(service.repository.rows), request.email) ==>
        resp == Response(CONFLICT, ErrorBody(ExceptionResponse(now, AlreadyExistsMessage(request.email), details)))
      ensures EmailShared(old(service.repository.rows), request.email) ==>
        resp == Response(INTERNAL_SERVER_ERROR, ErrorBody(ExceptionResponse(now, NonUniqueResult, details)))
      ensures !EmailTaken(old(service.repository.rows), request.email) ==>
        && resp.status == CREATED && resp.body.PersonBody?
        && var id := resp.body.person.id;
        && id.Some? && 0 < id.value && id.value !in old(service.repository.rows)
        && old(service.repository.nextId) <= id.value < service.repository.nextId
        && service.repository.rows == old(service.repository.rows)[id.value := ToEntity(request).(id := id)]
        && resp.body.person == ToResponse(service.repository.rows[id.value])
    {
      var outcome := service.Create(ToEntity(request));
      resp := Respond(outcome, CREATED, now, details);
    }

    /**
     * PUT /{id}: 404 on a missing id, the store untouched; otherwise the row
     * takes the request's five fields and 200 answers with it.
     */
    method Update(id: int, request: PersonRequest, now: string, details: string) returns (resp: Response)
      requires Valid()
      modifies service.repository
      ensures Valid()
      ensures id !in old(service.repository.rows) ==>
        && resp == Response(NOT_FOUND, ErrorBody(ExceptionResponse(now, NoRecordsForId, details)))
        && unchanged(service.repository)
      ensures service.repository.nextId == old(service.repository.nextId)
      ensures id in old(service.repository.rows) ==>
        && service.repository.rows == Updated(old(service.repository.rows), id, ToEntity(request))
        && resp == Response(OK, PersonBody(ToResponse(service.repository.rows[id])))
    {
      var outcome := service.Update(id, ToEntity(request));
      resp := Respond(outcome, OK, now, details);
    }

    /** DELETE /{id}: 404 on a missing id, the store untouched; otherwise 204 and the row is gone. */
    method Delete(id: int, now: string, details: string) returns (resp: Response)
      requires Valid()
      modifies service.repository
      ensures Valid()
      ensures id !in old(service.repository.rows) ==>
        && resp == Response(NOT_FOUND, ErrorBody(ExceptionResponse(now, NoRecordsForId, details)))
        && unchanged(service.repository)
      ensures service.repository.nextId == old(service.repository.nextId)
      ensures id in old(service.repository.rows) ==>
        && resp == Response(NO_CONTENT, NoBody)
        && service.repository.rows == old(service.repository.rows) - {id}
    {
      var outcome := service.Delete(id);
      resp := RespondNoContent(outcome, now, details);
    }

    /** GET /email: 200 with the one row having that email, 404 naming the email when none has it, 500 when several have it. */
    method FindByEmail(value: string, now: string, details: string) returns (resp: Response)
      requires Valid()
      ensures !EmailTaken(service.repository.rows, value) ==>
        resp == Response(NOT_FOUND, ErrorBody(ExceptionResponse(now, NoRecordsForEmail(value), details)))
      ensures EmailShared(service.repository.rows, value) ==>
        resp == Response(INTERNAL_SERVER_ERROR, ErrorBody(ExceptionResponse(now, NonUniqueResult, details)))
      ensures EmailTaken(service.repository.rows, value) && !EmailShared(service.repository.rows, value) ==>
        && resp.status == OK && resp.body.PersonBody?
        && RespondsStored(service.repository.rows, resp.body.person) && resp.body.person.email == value
        && forall k :: k in service.repository.rows && service.repository.rows[k].email == value ==>
             resp.body.person == ToResponse(service.repository.rows[k])
    {
      var outcome := service.FindByEmail(value);
      resp := Respond(outcome, OK, now, details);
    }

    /** GET /like-name: 200 with exactly the rows whose "first last" contains the term, ignoring case. */
    method FindByLikeName(term: string) returns (resp: Response)
      requires Valid()
      requires NoWildcards(term)
      ensures resp.status == OK && resp.body.PeopleBody?
      ensures forall i :: 0 <= i < |resp.body.people| ==>
        RespondsStored(service.repository.rows, resp.body.people[i]) &&
        MatchesName(service.repository.rows[resp.body.people[i].id.value], term)
      ensures forall k :: k in service.repository.rows && MatchesName(service.repository.rows[k], term) ==>
        ToResponse(service.repository.rows[k]) in resp.body.people
      ensures |resp.body.people| <= |service.repository.rows|
      ensures DistinctResponses(resp.body.people)
    {
      var people := service.FindByLikeName(term);
      resp := Response(OK, PeopleBody(ToResponses(people)));
      ResponsesOfDistinct(people);
      forall k | k in service.repository.rows && MatchesName(service.repository.rows[k], term)
        ensures ToResponse(service.repository.rows[k]) in resp.body.people
      {
        var i :| 0 <= i < |people| && people[i] == service.repository.rows[k];
        assert resp.body.people[i] == ToResponse(people[i]);
      }
    }
  }

  /**
   * The create/conflict/delete round of the endpoint suite on an empty store:
   * the first create answers 201 with the request's fields under a positive
   * id, the same request again answers 409 naming the email, deleting the new
   * row answers 204, deleting it again 404, and creating it once more gives a
   * new id, not the deleted one.
   */
  method CreateConflictDeleteScenario(now: string, details: string)
  {
    var repository := new PersonRepository();
    var service := new PersonService(repository);
    var controller := new PersonController(service);
    var request := PersonRequest("FirstName", "LastName", "City - State - Country", MALE, "email@email.com");

    var created := controller.Create(request, now, details);
    assert !EmailTaken(map[], request.email);
    assert created.status == CREATED;
    var id := created.body.person.id.value;
    assert 0 < id && created.body.person == PersonResponse(Some(id), "FirstName", "LastName", "City - State - Country", MALE, "email@email.com");

    assert EmailTaken(repository.rows, request.email) by {
      assert repository.rows[id].email == request.email;
    }
    var conflict := controller.Create(request, now, details);
    assert AlreadyExistsMessage(request.email) == "Person already exist with given e-Mail: email@email.com";
    assert conflict == Response(CONFLICT, ErrorBody(ExceptionResponse(now, "Person already exist with given e-Mail: email@email.com", details)));

    var deleted := controller.Delete(id, now, details);
    assert deleted == Response(NO_CONTENT, NoBody);
    var missing := controller.Delete(id, now, details);
    assert missing == Response(NOT_FOUND, ErrorBody(ExceptionResponse(now, "No records found for this ID!", details)));

    assert !EmailTaken(repository.rows, request.email);
    var again := controller.Create(request, now, details);
    assert again.status == CREATED && again.body.person.id.value != id;
  }
}
