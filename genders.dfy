/**
 * The Gender enumeration (model/Gender.java): a closed set of two constants,
 * each carrying a description fixed when the constant is built.
 */
module Genders {
  import opened Wrappers

  datatype Gender = MALE | FEMALE

  /** The constants in declaration order, as `Gender.values()` lists them: every constant exactly once, MALE first. */
  function Values(): (vs: seq<Gender>)
    ensures forall g :: g in vs
    ensures forall i, j :: 0 <= i < j < |vs| ==> vs[i] != vs[j]
    ensures |vs| > 0 && vs[0] == MALE
  {
    var vs := [MALE, FEMALE];
    assert forall g :: g in vs by {
      forall g ensures g in vs {
        if g.MALE? { assert vs[0] == g; } else { assert vs[1] == g; }
      }
    }
    vs
  }

  /** The constant's symbolic name: the form in which a person's gender is stored and serialized. */
  function Name(g: Gender): (n: string)
    ensures g.MALE? <==> n == "MALE"
    ensures g.FEMALE? <==> n == "FEMALE"
  {
    match g
    case MALE => "MALE"
    case FEMALE => "FEMALE"
  }

  /** The human-readable label given to each constant at construction. */
  function Description(g: Gender): (d: string)
    ensures g.MALE? <==> d == "Masculino"
    ensures g.FEMALE? <==> d == "Feminino"
  {
    match g
    case MALE => "Masculino"
    case FEMALE => "Feminino"
  }

  /** Reading a stored name back: the constant with that name, if any. */
  function FromName(s: string): (r: Option<Gender>)
    ensures forall g :: Name(g) == s <==> r == Some(g)
  {
    if s == "MALE" then Some(MALE)
    else if s == "FEMALE" then Some(FEMALE)
    else None
  }

  /** The constant carrying a given label, if any; it exists at most once, so the labels are injective. */
  function FromDescription(d: string): (r: Option<Gender>)
    ensures forall g :: Description(g) == d <==> r == Some(g)
  {
    if d == "Masculino" then Some(MALE)
    else if d == "Feminino" then Some(FEMALE)
    else None
  }

  /** Storing a gender by its name and reading it back yields the same constant. */
  lemma NameRoundTrip(g: Gender)
    ensures FromName(Name(g)) == Some(g)
  {
  }

  /** Concrete labels, and distinct constants have distinct labels. */
  lemma DescriptionsAreDistinct(g: Gender, h: Gender)
    ensures Description(MALE) == "Masculino" && Description(FEMALE) == "Feminino"
    ensures Description(g) == Description(h) ==> g == h
  {
  }
}
