/**
 * The Person service (service/impl/PersonServiceImpl.java): the business
 * rules on top of the store. Lookups by id fail with NotFound on a missing id,
 * create refuses an email that is already stored, update replaces the five
 * data fields of an existing row, delete removes an existing row.
 */
module Service {
  import opened Wrappers
  import opened Persons
  import opened Errors
  import opened Repository

  const NoRecordsForId := "No records found for this ID!"

  function AlreadyExistsMessage(email: string): string
  {
    "Person already exist with given e-Mail: " + email
  }

  function NoRecordsForEmail(email: string): string
  {
    "No records found for this e-Mail: " + email
  }

  /** At most one stored row per email. */
  ghost predicate EmailsUnique(rows: map<int, Person>)
  {
    forall j, k :: j in rows && k in rows && rows[j].email == rows[k].email ==> j == k
  }

  /** The table after update(id, person): the row under id takes person's five fields and keeps its id. */
  function Updated(rows: map<int, Person>, id: int, person: Person): (r: map<int, Person>)
    requires id in rows
    ensures r.Keys == rows.Keys
    ensures r[id].id == Some(id)
    ensures r[id].firstName == person.firstName && r[id].lastName == person.lastName
    ensures r[id].address == person.address && r[id].gender == person.gender && r[id].email == person.email
    ensures forall k :: k in rows && k != id ==> r[k] == rows[k]
  {
    rows[id := person.(id := Some(id))]
  }

  /** Creating a row whose email is not yet stored keeps the emails unique. */
  lemma InsertKeepsEmailsUnique(rows: map<int, Person>, k: int, p: Person)
    requires EmailsUnique(rows) && !EmailTaken(rows, p.email) && k !in rows
    ensures EmailsUnique(rows[k := p])
  {
  }

  /**
   * Update does not re-check uniqueness: from a table with unique emails,
   * giving the second row the first row's email leaves two rows with one email.
   */
  lemma UpdateMayBreakEmailsUnique(first: Person, second: Person)
    requires first.id == Some(1) && second.id == Some(2) && first.email != second.email
    ensures EmailsUnique(map[1 := first, 2 := second])
    ensures !EmailsUnique(Updated(map[1 := first, 2 := second], 2, second.(email := first.email)))
  {
    var after := Updated(map[1 := first, 2 := second], 2, second.(email := first.email));
    assert after[1].email == after[2].email;
  }

  class PersonService {
    const repository: PersonRepository

    ghost predicate Valid()
      reads this, repository
    {
      repository.Valid()
    }

    constructor (repository: PersonRepository)
      requires repository.Valid()
      ensures Valid() && this.repository == repository
    {
      this.repository := repository;
    }

    /** Every stored row, as the store lists them. */
    method FindAll() returns (people: seq<Person>)
      requires Valid()
      ensures |people| == |repository.rows|
      ensures forall i :: 0 <= i < |people| ==> Stored(repository.rows, people[i])
      ensures forall k :: k in repository.rows ==> repository.rows[k] in people
      ensures Distinct(people)
    {
      people := repository.FindAll();
    }

    method FindById(id: int) returns (r: Outcome<Person>)
      requires Valid()
      ensures r.Success? <==> id in repository.rows
      ensures r.Success? ==> r.value == repository.rows[id]
      ensures r.Failure? ==> r.error == NotFound(NoRecordsForId)
    {
      var found := repository.FindById(id);
      if found.None? {
        return Failure(NotFound(NoRecordsForId));
      }
      r := Success(found.value);
    }

    /**
     * Refuses an email that some row already has, leaving the store as it
     * was: AlreadyExists when one row has it, the email query's own failure
     * when several do. Otherwise stores the person under an id never handed
     * out before.
     */
    method Create(person: Person) returns (r: Outcome<Person>)
      requires Valid()
      requires person.id.None?
      modifies repository
      ensures Valid()
      ensures r.Failure? <==> EmailTaken(old(repository.rows), person.email)
      ensures r.Failure? ==> unchanged(repository)
      ensures r.Failure? && EmailShared(old(repository.rows), person.email) ==> r.error == Unexpected(NonUniqueResult)
      ensures r.Failure? && !EmailShared(old(repository.rows), person.email) ==>
        r.error == AlreadyExists(AlreadyExistsMessage(person.email))
      ensures r.Success? ==>
        && r.value.id.Some? && 0 < r.value.id.value && r.value.id.value !in old(repository.rows)
        && old(repository.nextId) <= r.value.id.value < repository.nextId
        && r.value == person.(id := r.value.id)
        && repository.rows == old(repository.rows)[r.value.id.value := r.value]
      ensures EmailsUnique(old(repository.rows)) ==> EmailsUnique(repository.rows)
    {
      var entity := repository.FindByEmail(person.email);
      if entity.Failure? {
        return Failure(entity.error);
      }
      if entity.value.Some? {
        return Failure(AlreadyExists(AlreadyExistsMessage(person.email)));
      }
      var saved := repository.Save(person);
      if EmailsUnique(old(repository.rows)) {
        InsertKeepsEmailsUnique(old(repository.rows), saved.id.value, saved);
      }
      r := Success(saved);
    }

    /**
     * Replaces the five data fields of the row under id with person's,
     * keeping the id; there is no email check.
     */
    method Update(id: int, person: Person) returns (r: Outcome<Person>)
      requires Valid()
      modifies repository
      ensures Valid()
      ensures r.Success? <==> id in old(repository.rows)
      ensures r.Failure? ==> r.error == NotFound(NoRecordsForId) && unchanged(repository)
      ensures repository.nextId == old(repository.nextId)
      ensures r.Success? ==>
        && r.value == person.(id := Some(id))
        && repository.rows == Updated(old(repository.rows), id, person)
    {
      var found := repository.FindById(id);
      if found.None? {
        return Failure(NotFound(NoRecordsForId));
      }
      var entity := new PersonEntity.Load(found.value);
      entity.SetFirstName(person.firstName);
      entity.SetLastName(person.lastName);
      entity.SetAddress(person.address);
      entity.SetGender(person.gender);
      entity.SetEmail(person.email);
      var saved := repository.Save(entity.Value());
      r := Success(saved);
    }

    /** Removes the row under id, which must exist. */
    method Delete(id: int) returns (r: Outcome<()>)
      requires Valid()
      modifies repository
      ensures Valid()
      ensures r.Success? <==> id in old(repository.rows)
      ensures r.Failure? ==> r.error == NotFound(NoRecordsForId) && unchanged(repository)
      ensures r.Success? ==> repository.rows == old(repository.rows) - {id} && id !in repository.rows
      ensures repository.nextId == old(repository.nextId)
      ensures EmailsUnique(old(repository.rows)) ==> EmailsUnique(repository.rows)
    {
      var found := repository.FindById(id);
      if found.None? {
        return Failure(NotFound(NoRecordsForId));
      }
      repository.DeleteById(id);
      r := Success(());
    }

    /**
     * The one row with this email; NotFound naming the email when no row has
     * it, and the email query's own failure when several rows have it.
     */
    method FindByEmail(email: string) returns (r: Outcome<Person>)
      requires Valid()
      ensures r.Success? <==> EmailTaken(repository.rows, email) && !EmailShared(repository.rows, email)
      ensures r.Success? ==>
        && Stored(repository.rows, r.value) && r.value.email == email
        && forall k :: k in repository.rows && repository.rows[k].email == email ==> repository.rows[k] == r.value
      ensures r.Failure? && EmailShared(repository.rows, email) ==> r.error == Unexpected(NonUniqueResult)
      ensures r.Failure? && !EmailShared(repository.rows, email) ==> r.error == NotFound(NoRecordsForEmail(email))
      ensures forall k :: EmailsUnique(repository.rows) && k in repository.rows && repository.rows[k].email == email ==>
        r == Success(repository.rows[k])
    {
      var found := repository.FindByEmail(email);
      if found.Failure? {
        return Failure(found.error);
      }
      if found.value.None? {
        return Failure(NotFound(NoRecordsForEmail(email)));
      }
      r := Success(found.value.value);
    }

    /** The rows whose name matches the term, as the store finds them; never a failure. */
    method FindByLikeName(name: string) returns (people: seq<Person>)
      requires Valid()
      requires NoWildcards(name)
      ensures |people| <= |repository.rows|
      ensures forall i :: 0 <= i < |people| ==> Stored(repository.rows, people[i]) && MatchesName(people[i], name)
      ensures forall k :: k in repository.rows && MatchesName(repository.rows[k], name) ==> repository.rows[k] in people
      ensures Distinct(people)
      ensures repository.rows == map[] ==> people == []
    {
      people := repository.FindByLikeName(name);
    }
  }

  /**
   * Two creates with different emails followed by an update that gives the
   * second person the first one's email: every call succeeds and the store
   * ends with two rows sharing one email, after which looking up that email
   * fails with the query's own error.
   */
  method DuplicateEmailThroughUpdate(first: Person, second: Person)
    requires first.id.None? && second.id.None? && first.email != second.email
  {
    var repository := new PersonRepository();
    var service := new PersonService(repository);
    var a := service.Create(first);
    assert !EmailTaken(map[], first.email);
    assert a.Success?;
    assert repository.rows == map[a.value.id.value := a.value];
    assert !EmailTaken(repository.rows, second.email);
    var b := service.Create(second);
    assert b.Success?;
    var u := service.Update(b.value.id.value, second.(email := first.email));
    assert u.Success?;
    var x, y := a.value.id.value, b.value.id.value;
    assert x in repository.rows && y in repository.rows && x != y;
    assert repository.rows[x].email == repository.rows[y].email;
    assert !EmailsUnique(repository.rows);
    var found := service.FindByEmail(first.email);
    assert EmailShared(repository.rows, first.email);
    assert found == Failure(Unexpected(NonUniqueResult));
  }
}
