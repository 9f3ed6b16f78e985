/**
 * The person records held by the server and the seed data it starts with
 * (index.js:3-9). Fields the record may lack are `Option`s; `name` is always
 * present. Strings are sequences of characters.
 */
module Persons {
  import opened Wrappers

  /** One record of the in-memory table. `id` is only set on records created at run time. */
  datatype Person = Person(
    name: string,
    age: Option<int>,
    street: Option<string>,
    city: Option<string>,
    phone: Option<string>,
    id: Option<string>)

  /** The argument of `allPersons`: the `YesNo` enum of the schema. */
  datatype YesNo = Yes | No

  /**
   * JavaScript truthiness of `person.phone`: an absent phone and the empty
   * string are both falsy.
   */
  predicate HasPhone(p: Person) {
    p.phone.Some? && |p.phone.value| > 0
  }

  /** Some record of `ps` is named `name` (exact, case-sensitive comparison). */
  ghost predicate HasName(ps: seq<Person>, name: string) {
    exists i :: 0 <= i < |ps| && ps[i].name == name
  }

  /** `i` is the position of the first record of `ps` named `name`. */
  ghost predicate FirstNamed(ps: seq<Person>, name: string, i: int) {
    && 0 <= i < |ps|
    && ps[i].name == name
    && forall j :: 0 <= j < i ==> ps[j].name != name
  }

  /** No two records share a name. */
  ghost predicate DistinctNames(ps: seq<Person>) {
    forall i, j :: 0 <= i < j < |ps| ==> ps[i].name != ps[j].name
  }

  /** No two records carry the same id; records without an id are not compared. */
  ghost predicate DistinctIds(ps: seq<Person>) {
    forall i, j :: 0 <= i < j < |ps| && ps[i].id.Some? ==> ps[i].id != ps[j].id
  }

  /** No record carries `id`. */
  ghost predicate IdUnused(ps: seq<Person>, id: string) {
    forall i :: 0 <= i < |ps| ==> ps[i].id != Some(id)
  }

  /** The five records the table holds when the server starts. */
  function Seed(): seq<Person> {
    [ Person("John", Some(20), Some("Street 1"), Some("City 1"), Some("12345"), None),
      Person("Jane", Some(21), None, None, None, None),
      Person("Bob", Some(22), None, None, None, None),
      Person("Mary", Some(23), None, None, None, None),
      Person("Peter", Some(24), None, None, None, None) ]
  }

  /** The seed table has five records, distinct names, and no ids at all. */
  lemma SeedWellFormed()
    ensures |Seed()| == 5
    ensures DistinctNames(Seed()) && DistinctIds(Seed())
    ensures forall i :: 0 <= i < |Seed()| ==> Seed()[i].id.None?
  {
  }

  /** The first record with a given name is unique. */
  lemma FirstNamedUnique(ps: seq<Person>, name: string, i: int, k: int)
    requires FirstNamed(ps, name, i) && FirstNamed(ps, name, k)
    ensures i == k
  {
  }
}
