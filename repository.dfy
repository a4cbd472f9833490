/**
 * The Person store (repository/PersonRepository.java): a table from id to row
 * with a counter that hands out fresh positive ids, the inherited CRUD
 * operations, and the two queries the interface declares.
 */
module Repository {
  import opened Wrappers
  import opened Persons
  import opened Errors

  // ---------------------------------------------------------------------------
  // The name query: LOWER(CONCAT(firstName, ' ', lastName)) LIKE LOWER(CONCAT('%', term, '%'))
  // ---------------------------------------------------------------------------

  /** ASCII lower-casing of one character. */
  function LowerChar(c: char): char
  {
    if 'A' <= c <= 'Z' then (c as int + 32) as char else c
  }

  /** ASCII lower-casing of a string, character by character. */
  function Lower(s: string): (r: string)
    ensures |r| == |s|
    ensures forall i :: 0 <= i < |s| ==> r[i] == LowerChar(s[i])
  {
    if s == [] then [] else [LowerChar(s[0])] + Lower(s[1..])
  }

  lemma LowerSlice(s: string, i: int, j: int)
    requires 0 <= i <= j <= |s|
    ensures Lower(s[i..j]) == Lower(s)[i..j]
  {
    assert forall k :: 0 <= k < j - i ==> Lower(s[i..j])[k] == Lower(s)[i..j][k];
  }

  lemma LowerIdempotent(s: string)
    ensures Lower(Lower(s)) == Lower(s)
  {
    assert forall k :: 0 <= k < |s| ==> Lower(Lower(s))[k] == Lower(s)[k];
  }

  predicate IsPrefix(p: string, s: string)
  {
    |p| <= |s| && s[..|p|] == p
  }

  /** `t` occurs in `s`: the test `s LIKE '%' || t || '%'` for a term without wildcards. */
  predicate Contains(s: string, t: string)
    ensures Contains(s, t) ==> |t| <= |s|
    decreases |s|
  {
    IsPrefix(t, s) || (|s| > 0 && Contains(s[1..], t))
  }

  /** `t` occurs in `s` starting at position `i`. */
  ghost predicate OccursAt(s: string, t: string, i: int)
  {
    0 <= i && i + |t| <= |s| && s[i..i + |t|] == t
  }

  /** The scanning test agrees with the definition of a substring. */
  lemma {:induction false} ContainsIffOccurs(s: string, t: string)
    ensures Contains(s, t) <==> exists i :: OccursAt(s, t, i)
    decreases |s|
  {
    if IsPrefix(t, s) {
      assert OccursAt(s, t, 0);
    }
    if |s| > 0 {
      ContainsIffOccurs(s[1..], t);
      if Contains(s[1..], t) {
        var i :| OccursAt(s[1..], t, i);
        assert s[i + 1..i + 1 + |t|] == s[1..][i..i + |t|];
        assert OccursAt(s, t, i + 1);
      }
    }
    if exists i :: OccursAt(s, t, i) {
      var i :| OccursAt(s, t, i);
      if i == 0 {
        assert IsPrefix(t, s);
      } else {
        assert s[1..][i - 1..i - 1 + |t|] == s[i..i + |t|];
        assert OccursAt(s[1..], t, i - 1);
      }
    }
  }

  /** The text the name query searches: first and last name joined by one space, lower-cased. */
  function SearchKey(p: Person): string
  {
    Lower(p.firstName + " " + p.lastName)
  }

  /**
   * A row matches a search term when the lower-cased term occurs in its search
   * key: the empty term matches every row, and no term longer than the key matches.
   */
  predicate MatchesName(p: Person, term: string)
    ensures term == [] ==> MatchesName(p, term)
    ensures MatchesName(p, term) ==> |term| <= |p.firstName| + 1 + |p.lastName|
  {
    Contains(SearchKey(p), Lower(term))
  }

  /** A term in which `LIKE` sees no wildcard. */
  predicate NoWildcards(term: string)
  {
    forall i :: 0 <= i < |term| ==> term[i] != '%' && term[i] != '_'
  }

  /** Matching is exactly case-insensitive substring containment in "first last". */
  lemma MatchesNameIffSubstring(p: Person, term: string)
    ensures MatchesName(p, term) <==> exists i :: OccursAt(SearchKey(p), Lower(term), i)
  {
    ContainsIffOccurs(SearchKey(p), Lower(term));
    if MatchesName(p, term) {
      assert exists i :: OccursAt(SearchKey(p), Lower(term), i);
    }
    if exists i :: OccursAt(SearchKey(p), Lower(term), i) {
      assert MatchesName(p, term);
    }
  }

  /** Only the lower-cased term matters. */
  lemma MatchesNameIgnoresCase(p: Person, term: string)
    ensures MatchesName(p, term) <==> MatchesName(p, Lower(term))
  {
    LowerIdempotent(term);
  }

  /** Every piece of "first last", in any letter case, finds the row, the separating space included. */
  lemma SubstringOfFullNameMatches(p: Person, term: string, i: int)
    requires OccursAt(p.firstName + " " + p.lastName, term, i)
    ensures MatchesName(p, term)
  {
    var full := p.firstName + " " + p.lastName;
    LowerSlice(full, i, i + |term|);
    assert OccursAt(Lower(full), Lower(term), i);
    ContainsIffOccurs(Lower(full), Lower(term));
  }

  /** A search for "FirstName L" finds FirstName LastName: the term spans the separator. */
  lemma SearchSpansSeparator(address: string, gender: Genders.Gender, email: string)
    ensures MatchesName(NewPerson("FirstName", "LastName", address, gender, email), "FirstName L")
  {
    var p := NewPerson("FirstName", "LastName", address, gender, email);
    assert (p.firstName + " " + p.lastName)[0..11] == "FirstName L";
    SubstringOfFullNameMatches(p, "FirstName L", 0);
  }

  /** A non-empty set of ids has a member to pick. */
  lemma NonEmptyHasElement(s: set<int>)
    requires s != {}
    ensures exists k :: k in s
  {
    if forall k :: k !in s {
      assert false;
    }
  }

  /** The row is the one stored under its own id. */
  ghost predicate Stored(rows: map<int, Person>, p: Person)
  {
    p.id.Some? && p.id.value in rows && rows[p.id.value] == p
  }

  /** Some stored row has this email. */
  ghost predicate EmailTaken(rows: map<int, Person>, email: string)
  {
    exists k :: k in rows && rows[k].email == email
  }

  /** At least two stored rows have this email. */
  ghost predicate EmailShared(rows: map<int, Person>, email: string)
  {
    exists j, k :: j in rows && k in rows && j != k && rows[j].email == email && rows[k].email == email
  }

  /** The failure of a single-result query that finds several rows. */
  const NonUniqueResult := "query did not return a unique result"

  /** No two entries of a list are equal. */
  predicate Distinct(people: seq<Person>)
  {
    forall i, j :: 0 <= i < j < |people| ==> people[i] != people[j]
  }

  // ---------------------------------------------------------------------------
  // The store
  // ---------------------------------------------------------------------------

  class PersonRepository {
    /** The table: each stored row under its own id. */
    var rows: map<int, Person>
    /** The next id the identity column hands out. */
    var nextId: int

    ghost predicate Valid()
      reads this
    {
      0 < nextId &&
      forall k :: k in rows ==> 0 < k < nextId && rows[k].id == Some(k)
    }

    /** An empty table. */
    constructor ()
      ensures Valid() && rows == map[]
    {
      rows := map[];
      nextId := 1;
    }

    /**
     * Inserts a row without an id under a fresh positive id, or overwrites
     * the stored row with the same id; returns the row as stored.
     */
    method Save(p: Person) returns (saved: Person)
      requires Valid()
      requires p.id.None? || p.id.value in rows
      modifies this
      ensures Valid()
      ensures saved.id.Some? && 0 < saved.id.value
      ensures old(nextId) <= nextId
      ensures p.id.None? ==> old(nextId) <= saved.id.value < nextId && saved == p.(id := saved.id)
      ensures p.id.None? ==> saved.id.value !in old(rows)
      ensures p.id.Some? ==> saved == p && nextId == old(nextId)
      ensures rows == old(rows)[saved.id.value := saved]
    {
      if p.id.None? {
        saved := p.(id := Some(nextId));
        nextId := nextId + 1;
      } else {
        saved := p;
      }
      rows := rows[saved.id.value := saved];
    }

    method FindById(id: int) returns (r: Option<Person>)
      requires Valid()
      ensures r.Some? <==> id in rows
      ensures r.Some? ==> r.value == rows[id]
    {
      r := if id in rows then Some(rows[id]) else None;
    }

    method ExistsById(id: int) returns (b: bool)
      requires Valid()
      ensures b <==> id in rows
    {
      b := id in rows;
    }

    method Count() returns (n: nat)
      requires Valid()
      ensures n == |rows|
    {
      n := |rows|;
    }

    /** Removes the row with this id, if there is one; the id counter is not reused. */
    method DeleteById(id: int)
      requires Valid()
      modifies this
      ensures Valid()
      ensures rows == old(rows) - {id} && nextId == old(nextId)
      ensures id in old(rows) ==> |rows| == |old(rows)| - 1
    {
      rows := rows - {id};
    }

    /** Every stored row exactly once, in the store's own order. */
    method FindAll() returns (people: seq<Person>)
      requires Valid()
      ensures |people| == |rows|
      ensures forall i :: 0 <= i < |people| ==> Stored(rows, people[i])
      ensures forall k :: k in rows ==> rows[k] in people
      ensures Distinct(people)
    {
      people := [];
      var pending := rows.Keys;
      while pending != {}
        invariant pending <= rows.Keys
        invariant |people| + |pending| == |rows|
        invariant forall i :: 0 <= i < |people| ==>
          people[i].id.Some? && people[i].id.value in rows && people[i].id.value !in pending &&
          rows[people[i].id.value] == people[i]
        invariant forall k :: k in rows && k !in pending ==> rows[k] in people
        invariant Distinct(people)
        decreases pending
      {
        NonEmptyHasElement(pending);
        var k :| k in pending;
        people := people + [rows[k]];
        pending := pending - {k};
      }
    }

    /**
     * The single-result query by email: nothing when no row has the email,
     * the row when exactly one has it, and a failure when several have it.
     */
    method FindByEmail(email: string) returns (r: Outcome<Option<Person>>)
      requires Valid()
      ensures r.Failure? <==> EmailShared(rows, email)
      ensures r.Failure? ==> r.error == Unexpected(NonUniqueResult)
      ensures r == Success(None) <==> !EmailTaken(rows, email)
      ensures r.Success? && r.value.Some? ==>
        && Stored(rows, r.value.value) && r.value.value.email == email
        && forall k :: k in rows && rows[k].email == email ==> rows[k] == r.value.value
    {
      if k :| k in rows && rows[k].email == email {
        if j :| j in rows && j != k && rows[j].email == email {
          r := Failure(Unexpected(NonUniqueResult));
        } else {
          r := Success(Some(rows[k]));
        }
      } else {
        r := Success(None);
      }
    }

    /** Exactly the stored rows whose "first last" contains the term, ignoring case, each once. */
    method FindByLikeName(term: string) returns (people: seq<Person>)
      requires Valid()
      requires NoWildcards(term)
      ensures |people| <= |rows|
      ensures forall i :: 0 <= i < |people| ==> Stored(rows, people[i]) && MatchesName(people[i], term)
      ensures forall k :: k in rows && MatchesName(rows[k], term) ==> rows[k] in people
      ensures Distinct(people)
    {
      people := [];
      var pending := rows.Keys;
      while pending != {}
        invariant pending <= rows.Keys
        invariant |people| + |pending| <= |rows|
        invariant forall i :: 0 <= i < |people| ==>
          people[i].id.Some? && people[i].id.value in rows && people[i].id.value !in pending &&
          rows[people[i].id.value] == people[i] && MatchesName(people[i], term)
        invariant forall k :: k in rows && k !in pending && MatchesName(rows[k], term) ==> rows[k] in people
        invariant Distinct(people)
        decreases pending
      {
        NonEmptyHasElement(pending);
        var k :| k in pending;
        if MatchesName(rows[k], term) {
          people := people + [rows[k]];
        }
        pending := pending - {k};
      }
    }
  }
}
