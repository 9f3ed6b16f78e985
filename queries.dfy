/**
 * The read-only resolvers of index.js: `Query.personCount`,
 * `Query.allPersons`, `Query.findPerson` and `Person.address`. Each takes the
 * current contents of the table as its argument and changes nothing.
 */
module Queries {
  import opened Wrappers
  import opened Persons

  /** The `Address` object computed on read from a person's own fields. */
  datatype Address = Address(street: Option<string>, city: Option<string>)

  /** `Query.personCount`: the number of records in the table. */
  function PersonCount(ps: seq<Person>): nat {
    |ps|
  }

  /** The predicate `byPhone` of `allPersons`: `Yes` keeps truthy phones, `No` the rest. */
  predicate ByPhone(f: YesNo, p: Person) {
    match f
    case Yes => HasPhone(p)
    case No => !HasPhone(p)
  }

  /** `Array.prototype.filter` with `byPhone`: the records kept, in table order. */
  function Filter(ps: seq<Person>, f: YesNo): (r: seq<Person>)
    ensures |r| <= |ps|
    ensures forall p :: p in r <==> p in ps && ByPhone(f, p)
  {
    if ps == [] then []
    else
      assert ps == [ps[0]] + ps[1..];
      (if ByPhone(f, ps[0]) then [ps[0]] else []) + Filter(ps[1..], f)
  }

  /**
   * `Query.allPersons`: the whole table without an argument, otherwise exactly
   * the records whose phone matches the argument.
   */
  function AllPersons(ps: seq<Person>, phone: Option<YesNo>): (r: seq<Person>)
    ensures phone.None? ==> r == ps
    ensures phone.Some? ==> forall p :: p in r <==> p in ps && ByPhone(phone.value, p)
  {
    match phone
    case None => ps
    case Some(f) => Filter(ps, f)
  }

  /** `Array.prototype.findIndex` by name; `None` stands for the sentinel -1. */
  function FindIndex(ps: seq<Person>, name: string): (r: Option<nat>)
    ensures r.Some? ==> FirstNamed(ps, name, r.value)
    ensures r.None? <==> !HasName(ps, name)
  {
    if ps == [] then None
    else if ps[0].name == name then Some(0)
    else
      match FindIndex(ps[1..], name)
      case None => None
      case Some(i) => Some(i + 1)
  }

  /** `Query.findPerson`: the first record named `name`, or `None` (`undefined`) if there is none. */
  function FindPerson(ps: seq<Person>, name: string): (r: Option<Person>)
    ensures r.None? <==> !HasName(ps, name)
    ensures r.Some? ==> r.value.name == name && exists i :: FirstNamed(ps, name, i) && r.value == ps[i]
  {
    match FindIndex(ps, name)
    case None => None
    case Some(i) => Some(ps[i])
  }

  /** `Person.address`: built from the person's own `street` and `city`, absent ones included. */
  function AddressOf(p: Person): Address {
    Address(p.street, p.city)
  }

  /** Two persons have the same address exactly when their street and city agree. */
  lemma AddressOfFields(p: Person, q: Person)
    ensures AddressOf(p) == AddressOf(q) <==> p.street == q.street && p.city == q.city
    ensures AddressOf(p).street == p.street && AddressOf(p).city == p.city
  {
  }

  /** Filtering distributes over concatenation, so the kept records stay in table order. */
  lemma {:induction false} FilterAppend(a: seq<Person>, b: seq<Person>, f: YesNo)
    ensures Filter(a + b, f) == Filter(a, f) + Filter(b, f)
  {
    if a == [] {
      assert a + b == b;
    } else {
      assert (a + b)[1..] == a[1..] + b;
      FilterAppend(a[1..], b, f);
    }
  }

  /**
   * The `Yes` and `No` listings partition the table: together they hold every
   * record as often as the table does, and no record is in both.
   */
  lemma {:induction false} FilterPartition(ps: seq<Person>)
    ensures multiset(Filter(ps, Yes)) + multiset(Filter(ps, No)) == multiset(ps)
    ensures |Filter(ps, Yes)| + |Filter(ps, No)| == |ps|
    ensures forall p :: !(p in Filter(ps, Yes) && p in Filter(ps, No))
  {
    if ps != [] {
      FilterPartition(ps[1..]);
      assert ps == [ps[0]] + ps[1..];
    }
  }

  /** `findPerson` returns exactly the record at the first position holding the name. */
  lemma FindPersonFirst(ps: seq<Person>, name: string, i: int)
    requires FirstNamed(ps, name, i)
    ensures FindPerson(ps, name) == Some(ps[i])
  {
    var r := FindIndex(ps, name);
    FirstNamedUnique(ps, name, i, r.value);
  }
}
