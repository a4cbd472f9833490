# Person service — a Dafny model

This project models the business core of a small CRUD service for "Person"
records (first name, last name, address, gender, email). A relational table
holds the records. A service layer on top of it enforces three rules:

- lookups, updates and deletes by id fail with NotFound when the id is missing;
- create fails with AlreadyExists when the email is already stored;
- update replaces all five data fields and keeps the id.

A controller turns each call into an HTTP status and body. An exception
handler turns each error kind into a status and an error body.

The model is organised by the program's own files:

- `genders.dfy` (`Genders`): the closed enum `{MALE, FEMALE}` with its declaration order and its stored names. Each description is a function of the constant, so it is fixed once and never changes.
- `persons.dfy` (`Persons`): the Person row as a datatype. Lombok's `@EqualsAndHashCode` makes equality structural, which is datatype equality. The datatype constructor is the all-arguments constructor and `NewPerson` the five-argument one. The class `PersonEntity` is a managed instance whose five setters each change one field; each setter's frame is that one field.
- `dto.dfy`, `mapper.dfy` (`Dto`, `Mapper`): the request and response records and the two mapper functions.
- `errors.dfy`, `http.dfy`, `handler.dfy` (`Errors`, `Http`, `ExceptionHandler`): error kinds (`NotFound`, `AlreadyExists`, `Unexpected`) replace exceptions, and service results are `Outcome` values. The handler maps each kind to 404, 409 or 500, with the error's message copied verbatim.
- `repository.dfy` (`Repository`): the store. The class `PersonRepository` holds `rows: map<int, Person>` and the counter `nextId`. The counter hands out positive ids and never goes back, so an id is never handed out twice, not even after a delete. It has the inherited CRUD operations and the two declared queries. The name query's predicate is `MatchesName`: the lower-cased term occurs in the lower-cased "first last" string. A lemma ties the scanning test `Contains` to the substring definition.
- `service.dfy` (`Service`): the class `PersonService` holds the repository. Each operation is a method whose `ensures` give the result and the whole new table in terms of the old one.
  - The fixed messages are "No records found for this ID!", "Person already exist with given e-Mail: " + email and "No records found for this e-Mail: " + email.
  - `Create` and `Delete` keep email uniqueness (`EmailsUnique`).
  - `Update` does not check emails. `UpdateMayBreakEmailsUnique` gives a table where update leaves two rows with one email. The client method `DuplicateEmailThroughUpdate` reaches that state through the real `Create` and `Update` methods. After that, `FindByEmail` on the shared email fails with the query error.
- `controller.dfy` (`Controller`): pure response builders (`Respond`, `RespondNoContent`, `ToResponses`, `ListGenders`) and the class `PersonController`. Its endpoint methods call the service with `ToEntity(request)`. That input never has an id, which `PersonService.Create` requires. The client method `CreateConflictDeleteScenario` walks through create → 201, the same create → 409 naming the email, delete → 204, delete again → 404, and a fresh create → 201 under a new id, not the deleted one.

The clock read and the request description in the error body are the
parameters `now` and `details`.

Only `create` checks that an email is new. The model proves that `Create`
and `Delete` keep emails unique, and shows that `Update` can break it. Once
two rows share an email, the single-result email query fails. `findByEmail`
then answers 500, and so does `create` with that email.

## Model

| member | source | states |
|---|---|---|
| Genders.Values | src/main/java/io/github/diegorscs/model/Gender.java:6-7 | `values()` lists every constant exactly once, MALE first as declared |
| Genders.Name | src/main/java/io/github/diegorscs/model/Gender.java:7 | `name()` spells the constant's identifier: "MALE" exactly for MALE, "FEMALE" exactly for FEMALE |
| Genders.Description | src/main/java/io/github/diegorscs/model/Gender.java:7-13 | `getDescription()` is the label given at construction: "Masculino" exactly for MALE, "Feminino" exactly for FEMALE |
| Genders.FromName | src/main/java/io/github/diegorscs/model/Person.java:19-20 | a stored gender name names exactly one constant: `FromName(s) == Some(g)` iff `Name(g) == s` |
| Genders.NameRoundTrip | src/main/java/io/github/diegorscs/model/Person.java:19-20 | storing a gender by name and reading it back gives the same constant |
| Genders.FromDescription | src/main/java/io/github/diegorscs/model/Gender.java:7-13 | a label belongs to at most one constant, so the description lookup is injective |
| Genders.DescriptionsAreDistinct | src/main/java/io/github/diegorscs/model/Gender.java:7 | MALE is "Masculino", FEMALE is "Feminino", and distinct constants have distinct labels |
| Persons.NewPerson | src/main/java/io/github/diegorscs/model/Person.java:23-29 | the five-argument constructor sets the five data fields and leaves the id absent |
| Persons.EqualityIsStructural | src/main/java/io/github/diegorscs/model/Person.java:9 | two persons are equal iff all six fields are, the id included |
| Persons.PersonEntity.Load | src/main/java/io/github/diegorscs/service/impl/PersonServiceImpl.java:50-51 | the managed instance handed out by the store holds exactly the stored row |
| Persons.PersonEntity.SetFirstName | src/main/java/io/github/diegorscs/model/Person.java:8 | the setter changes firstName to the argument and nothing else |
| Persons.PersonEntity.SetLastName | src/main/java/io/github/diegorscs/model/Person.java:8 | the setter changes lastName to the argument and nothing else |
| Persons.PersonEntity.SetAddress | src/main/java/io/github/diegorscs/model/Person.java:8 | the setter changes address to the argument and nothing else |
| Persons.PersonEntity.SetGender | src/main/java/io/github/diegorscs/model/Person.java:8 | the setter changes gender to the argument and nothing else |
| Persons.PersonEntity.SetEmail | src/main/java/io/github/diegorscs/model/Person.java:8 | the setter changes email to the argument and nothing else |
| Mapper.ToResponse | src/main/java/io/github/diegorscs/mapper/PersonMapper.java:8-17 | the response carries the person's id and five data fields unchanged |
| Mapper.ToEntity | src/main/java/io/github/diegorscs/mapper/PersonMapper.java:19-27 | the entity has no id and carries the request's five fields unchanged |
| Mapper.EntityKeepsRequest | src/main/java/io/github/diegorscs/mapper/PersonMapper.java:19-27 | the request is recovered from its entity: mapping loses nothing |
| Mapper.EntityOfFields | src/main/java/io/github/diegorscs/mapper/PersonMapper.java:19-27 | every id-less person is the entity of its own five fields |
| Mapper.ResponseOfEntity | src/main/java/io/github/diegorscs/mapper/PersonMapper.java:8-27 | `ToResponse(ToEntity(r))` has no id and exactly `r`'s five field values |
| ExceptionHandler.CreateExceptionResponse | src/main/java/io/github/diegorscs/exceptions/handler/CustomizedResponseEntityExceptionHandler.java:38-40 | the error body carries the exception's message verbatim between the given timestamp and request description |
| ExceptionHandler.Handle | src/main/java/io/github/diegorscs/exceptions/handler/CustomizedResponseEntityExceptionHandler.java:18-40 | NotFound gives 404, AlreadyExists 409, any other error 500; the body message is the error's message verbatim, with the given timestamp and details |
| ExceptionHandler.StatusIdentifiesKind | src/main/java/io/github/diegorscs/exceptions/handler/CustomizedResponseEntityExceptionHandler.java:18-35 | two errors get the same status iff they are of the same kind |
| ExceptionHandler.ErrorStatusIsNotSuccess | src/main/java/io/github/diegorscs/exceptions/handler/CustomizedResponseEntityExceptionHandler.java:18-35 | every error status is a 4xx or 5xx code |
| Repository.Lower | src/main/java/io/github/diegorscs/repository/PersonRepository.java:15 | `LOWER`: same length, each character lower-cased |
| Repository.ContainsIffOccurs | src/main/java/io/github/diegorscs/repository/PersonRepository.java:15 | the scanning test `Contains(s, t)` holds iff `t` occurs in `s` at some position |
| Repository.Contains | src/main/java/io/github/diegorscs/repository/PersonRepository.java:15 | `LIKE '%' + t + '%'` holds only when `t` fits in the searched text |
| Repository.MatchesName | src/main/java/io/github/diegorscs/repository/PersonRepository.java:15 | the WHERE clause of the name query: the empty term matches every row, and no term longer than "first last" matches |
| Repository.MatchesNameIffSubstring | src/main/java/io/github/diegorscs/repository/PersonRepository.java:15-16 | a row matches iff the lower-cased term is a substring of lower-cased "first last" |
| Repository.MatchesNameIgnoresCase | src/main/java/io/github/diegorscs/repository/PersonRepository.java:15 | matching depends only on the lower-cased term |
| Repository.SubstringOfFullNameMatches | src/main/java/io/github/diegorscs/repository/PersonRepository.java:15 | any substring of "first last", the separating space included, finds the row |
| Repository.SearchSpansSeparator | src/test/java/io/github/diegorscs/unit/repository/PersonRepositoryTest.java:136-149 | "FirstName L" matches first name "FirstName", last name "LastName" |
| Repository.PersonRepository.constructor | src/test/java/io/github/diegorscs/unit/repository/PersonRepositoryTest.java:25-28 | a fresh store is valid and empty |
| Repository.PersonRepository.Save | src/test/java/io/github/diegorscs/unit/repository/PersonRepositoryTest.java:31-51 | a row without id is stored under the counter's next id, which is positive, absent from the table and at least every id handed out before, with its fields unchanged; the counter never goes back; a row with a stored id overwrites that row, keeps the id and leaves the counter; no other row changes |
| Repository.PersonRepository.FindById | src/test/java/io/github/diegorscs/unit/repository/PersonRepositoryTest.java:71-88 | the row under the id if present, empty otherwise (so empty on an empty store) |
| Repository.PersonRepository.ExistsById | src/test/java/io/github/diegorscs/unit/repository/PersonRepositoryTest.java:162-172 | true iff a row is stored under the id |
| Repository.PersonRepository.Count | src/test/java/io/github/diegorscs/unit/repository/PersonRepositoryTest.java:162-172 | the number of stored rows |
| Repository.PersonRepository.DeleteById | src/test/java/io/github/diegorscs/unit/repository/PersonRepositoryTest.java:162-172 | removes exactly that row; the count drops by one when it was present; the id counter is kept, so the id is not handed out again |
| Repository.PersonRepository.FindAll | src/test/java/io/github/diegorscs/unit/repository/PersonRepositoryTest.java:54-69 | every stored row exactly once: as many entries as rows, each a stored row, none repeated |
| Repository.PersonRepository.FindByEmail | src/main/java/io/github/diegorscs/repository/PersonRepository.java:13 | the single-result query: fails iff two or more rows have the email; empty iff none has it; otherwise the one stored row with that email |
| Repository.PersonRepository.FindByLikeName | src/main/java/io/github/diegorscs/repository/PersonRepository.java:15-16 | exactly the stored rows matching the term, each once |
| Service.Updated | src/main/java/io/github/diegorscs/service/impl/PersonServiceImpl.java:52-57 | after update the row under id has id `id` and the given five fields, and every other row is as before |
| Service.InsertKeepsEmailsUnique | src/main/java/io/github/diegorscs/service/impl/PersonServiceImpl.java:38-44 | inserting a row whose email is not stored keeps emails unique |
| Service.UpdateMayBreakEmailsUnique | src/main/java/io/github/diegorscs/service/impl/PersonServiceImpl.java:47-58 | with no email check, update can turn a table with unique emails into one with two rows sharing an email |
| Service.PersonService.constructor | src/main/java/io/github/diegorscs/service/impl/PersonServiceImpl.java:17-20 | the service works on the given store |
| Service.PersonService.FindAll | src/main/java/io/github/diegorscs/service/impl/PersonServiceImpl.java:22-26 | the store's rows unchanged, each once; never fails |
| Service.PersonService.FindById | src/main/java/io/github/diegorscs/service/impl/PersonServiceImpl.java:28-33 | the stored row when the id is present, otherwise NotFound "No records found for this ID!"; the store is unchanged |
| Service.PersonService.Create | src/main/java/io/github/diegorscs/service/impl/PersonServiceImpl.java:35-45 | fails iff the email is stored, saving nothing: AlreadyExists "Person already exist with given e-Mail: " + email when one row has it, the email query's failure when several do; otherwise adds exactly one row under a positive id never handed out before, with the person's fields, all other rows unchanged; keeps emails unique |
| Service.PersonService.Update | src/main/java/io/github/diegorscs/service/impl/PersonServiceImpl.java:47-58 | NotFound on a missing id with the store unchanged; otherwise the row takes the five fields, keeps its id, ignores the argument's id, and no other row changes; the id counter is kept |
| Service.PersonService.Delete | src/main/java/io/github/diegorscs/service/impl/PersonServiceImpl.java:60-66 | NotFound on a missing id with the store unchanged; otherwise exactly that row is removed, so it no longer exists; the id counter is kept; keeps emails unique |
| Service.PersonService.FindByEmail | src/main/java/io/github/diegorscs/service/impl/PersonServiceImpl.java:68-73 | succeeds iff exactly one row has the email, with that row; NotFound "No records found for this e-Mail: " + email when none has it; the email query's failure when several have it |
| Service.PersonService.FindByLikeName | src/main/java/io/github/diegorscs/service/impl/PersonServiceImpl.java:75-78 | exactly the matching stored rows, each once, so no more than there are rows; empty on an empty store; never fails |
| Controller.ToResponses | src/main/java/io/github/diegorscs/controller/PersonController.java:28-32 | the list endpoints' mapping: same length, element-wise `ToResponse`, order kept |
| Controller.GenderResponses | src/main/java/io/github/diegorscs/controller/PersonController.java:70-76 | one (name, description) entry per constant, in the given order |
| Controller.Respond | src/main/java/io/github/diegorscs/controller/PersonController.java:34-50 | a successful outcome gives the endpoint's status with `toResponse` of the result; an error gives the handler's response |
| Controller.RespondNoContent | src/main/java/io/github/diegorscs/controller/PersonController.java:52-56 | a successful delete gives 204 with an empty body; an error gives the handler's response |
| Controller.ListGenders | src/main/java/io/github/diegorscs/controller/PersonController.java:70-76 | 200 with exactly (MALE, "Masculino"), (FEMALE, "Feminino"), in declaration order |
| Controller.PersonController.constructor | src/main/java/io/github/diegorscs/controller/PersonController.java:24-26 | the controller works on the given service |
| Controller.PersonController.FindAll | src/main/java/io/github/diegorscs/controller/PersonController.java:28-32 | 200 with one response per stored row: as many as rows, each a stored row's response, every row covered, none repeated |
| Controller.PersonController.FindById | src/main/java/io/github/diegorscs/controller/PersonController.java:34-38 | 200 with the row's response, or 404 "No records found for this ID!" |
| Controller.PersonController.Create | src/main/java/io/github/diegorscs/controller/PersonController.java:40-44 | store unchanged when the email is stored, answering 409 naming the email when one row has it and 500 when several do; otherwise 201 with the new row, a positive id never handed out before and the request's fields |
| Controller.PersonController.Update | src/main/java/io/github/diegorscs/controller/PersonController.java:46-50 | 404 with the store unchanged on a missing id; otherwise 200 with the row carrying the request's fields under the same id; the id counter is kept |
| Controller.PersonController.Delete | src/main/java/io/github/diegorscs/controller/PersonController.java:52-56 | 404 with the store unchanged on a missing id; otherwise 204, empty body, row removed; the id counter is kept |
| Controller.PersonController.FindByEmail | src/main/java/io/github/diegorscs/controller/PersonController.java:58-62 | 200 with the one stored row having the email; 404 naming the email when none has it; 500 when several have it |
| Controller.PersonController.FindByLikeName | src/main/java/io/github/diegorscs/controller/PersonController.java:64-68 | 200 with exactly the responses of the matching stored rows, none repeated |

## Left out

- Logging: the `log.info` calls have no effect on results.
- Framework wiring: Spring routing, annotation-driven handler dispatch, `ResponseEntity` construction and JSON (de)serialisation are left out. Statuses are plain integers and bodies are datatypes.
- The clock and the request: the error body's timestamp (`LocalDateTime.now()`) and details (`request.getDescription(false)`) are the parameters `now` and `details`.
- Id generation (`GenerationType.IDENTITY`): a counter hands out positive ids in increasing order and never reuses one. No contract names a specific id value. Ids are unbounded integers, so 64-bit overflow of `Long` is not modelled.
- Concurrency: the model is sequential, so the check-then-act race between two concurrent creates with the same email is not modelled.
- Person identity: the model does not capture JPA's persistence context, where `findById` returns the managed object that is later saved. Rows are values. `Update` loads a fresh `PersonEntity` from the row, applies the five setters and saves its value.
- Null fields are not modelled. They can come from Person's no-argument constructor and from a `PersonRequest` whose body leaves fields out, since the request is not validated. A null gender cannot be represented, because `Genders.Gender` has exactly the two constants. All strings and genders are non-null.
- Repository.PersonRepository.Save: requires that the row has no id or an id that is stored. What JPA's `save` (a merge) does with an id that is set but not stored cannot be seen in these files, and no caller in the core produces such a row.
- Service.PersonService.Create: requires an input without an id, for the same reason. The controller hands it only `ToEntity(request)`, which has none.
- Repository.PersonRepository.FindByEmail: when several rows share the email, the query fails and its error is `Unexpected`. The model's message for it is the constant `NonUniqueResult`. The framework's exception type and its exact message text are left out. That state is reachable only through `update`.
- Repository.PersonRepository.FindByLikeName: requires a term without `%` or `_`, which SQL `LIKE` treats as wildcards. `LOWER` is modelled as ASCII lower-casing, not locale-dependent case mapping. SQL NULL names are not modelled.
- Service.PersonService.FindByLikeName: the same wildcard restriction on the term.
- Controller.PersonController.FindByLikeName: the same wildcard restriction on the term.
- Repository.PersonRepository.FindAll: the store's order is left open. The contract fixes membership, length and no repeats, not the order.
- Repository.PersonRepository.DeleteById: a missing id is a no-op. The service reaches `deleteById` only after the existence check.
- The `Unexpected` error kind stands for the exceptions that reach `handleAllException`. In the core, that is the failure of the email query when several rows match. The handlers inherited from `ResponseEntityExceptionHandler` are left out with the framework. They answer Spring MVC's own exceptions, such as a malformed JSON body or a missing `value` or `term` parameter, with 4xx statuses.
- The PersonService interface, PersonRequest and ExceptionResponse have no behaviour of their own. They are datatypes and method signatures here.
