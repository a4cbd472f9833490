/**
 * The Person entity (model/Person.java). A stored row is a value: Lombok's
 * @EqualsAndHashCode makes two persons equal exactly when all six fields are,
 * which is datatype equality. The datatype constructor `Person(...)` is the
 * all-arguments constructor; `NewPerson` is the five-argument one.
 * `PersonEntity` is a managed instance of the entity, whose Lombok setters
 * change one field each; the service's update works through it.
 */
module Persons {
  import opened Wrappers
  import opened Genders

  datatype Person = Person(
    id: Option<int>,
    firstName: string,
    lastName: string,
    address: string,
    gender: Gender,
    email: string)

  /** The five-argument constructor: the data fields are set, the id is left absent until persisted. */
  function NewPerson(firstName: string, lastName: string, address: string, gender: Gender, email: string): (p: Person)
    ensures p.id.None?
    ensures p.firstName == firstName && p.lastName == lastName && p.address == address
    ensures p.gender == gender && p.email == email
  {
    Person(None, firstName, lastName, address, gender, email)
  }

  /** Equality of persons is structural over all six fields, the id included. */
  lemma EqualityIsStructural(a: Person, b: Person)
    ensures a == b <==>
      a.id == b.id && a.firstName == b.firstName && a.lastName == b.lastName &&
      a.address == b.address && a.gender == b.gender && a.email == b.email
  {
  }

  /** A mutable instance of the entity, with one setter per data field. */
  class PersonEntity {
    var id: Option<int>
    var firstName: string
    var lastName: string
    var address: string
    var gender: Gender
    var email: string

    /** The row this instance currently holds. */
    function Value(): Person
      reads this
    {
      Person(id, firstName, lastName, address, gender, email)
    }

    /** An instance holding the given row, as the store hands it out. */
    constructor Load(p: Person)
      ensures Value() == p
    {
      id, firstName, lastName, address, gender, email :=
        p.id, p.firstName, p.lastName, p.address, p.gender, p.email;
    }

    method SetFirstName(firstName: string)
      modifies this`firstName
      ensures Value() == old(Value()).(firstName := firstName)
    {
      this.firstName := firstName;
    }

    method SetLastName(lastName: string)
      modifies this`lastName
      ensures Value() == old(Value()).(lastName := lastName)
    {
      this.lastName := lastName;
    }

    method SetAddress(address: string)
      modifies this`address
      ensures Value() == old(Value()).(address := address)
    {
      this.address := address;
    }

    method SetGender(gender: Gender)
      modifies this`gender
      ensures Value() == old(Value()).(gender := gender)
    {
      this.gender := gender;
    }

    method SetEmail(email: string)
      modifies this`email
      ensures Value() == old(Value()).(email := email)
    {
      this.email := email;
    }
  }
}
