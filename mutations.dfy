/**
 * What the two mutations of index.js do to the table, as functions from the
 * table before the call to the table after it and the value returned. The
 * class in store.dfy performs them in place and is proved to agree with them;
 * the lemmas here relate them to the queries.
 */
module Mutations {
  import opened Wrappers
  import opened Persons
  import opened Queries

  /** The table after a resolver ran, and what the resolver returned. */
  datatype Step<T> = Step(store: seq<Person>, result: T)

  /** The arguments of `addPerson`; `name` and `age` are required by the schema. */
  datatype AddArgs = AddArgs(name: string, street: Option<string>, city: Option<string>, age: int)

  /** `UserInputError` with its message and the offending name as `invalidArgs`. */
  datatype InputError = UserInputError(message: string, invalidArgs: string)

  /** The message `addPerson` raises for a duplicate name. */
  const AlreadyExists: string := "Person already exists"

  /** `{ ...arg, id: uuid() }`: the arguments as given, the new id, and no phone. */
  function Created(args: AddArgs, id: string): Person {
    Person(args.name, Some(args.age), args.street, args.city, None, Some(id))
  }

  /**
   * `Mutation.addPerson`: a name already in the table is refused with a
   * `UserInputError` naming it and the table is left alone; otherwise the new
   * record is appended and returned.
   */
  function AddPerson(ps: seq<Person>, args: AddArgs, id: string): (s: Step<Result<Person, InputError>>)
    ensures s.result.Failure? <==> HasName(ps, args.name)
    ensures s.result.Failure? ==> s.store == ps && s.result.error == UserInputError(AlreadyExists, args.name)
    ensures s.result.Success? ==>
      && s.store == ps + [s.result.value]
      && s.result.value.name == args.name
      && s.result.value.age == Some(args.age)
      && s.result.value.street == args.street
      && s.result.value.city == args.city
      && s.result.value.phone.None?
      && s.result.value.id == Some(id)
  {
    if FindPerson(ps, args.name).Some? then
      Step(ps, Failure(UserInputError(AlreadyExists, args.name)))
    else
      var person := Created(args, id);
      Step(ps + [person], Success(person))
  }

  /** `q` is `p` with at most its phone changed. */
  ghost predicate SameButPhone(p: Person, q: Person) {
    q.name == p.name && q.age == p.age && q.street == p.street && q.city == p.city && q.id == p.id
  }

  /**
   * `Mutation.editPerson`: `None` (`null`) and no change when no record has the
   * name; otherwise the first such record, with its phone set, replaces the old
   * one at the same position and is returned.
   */
  function EditPerson(ps: seq<Person>, name: string, phone: string): (s: Step<Option<Person>>)
    ensures s.result.None? <==> !HasName(ps, name)
    ensures s.result.None? ==> s.store == ps
    ensures s.result.Some? ==> exists i :: FirstNamed(ps, name, i) && EditedAt(ps, s.store, i, s.result.value, phone)
  {
    match FindIndex(ps, name)
    case None => Step(ps, None)
    case Some(i) =>
      var updated := ps[i].(phone := Some(phone));
      Step(ps[i := updated], Some(updated))
  }

  /** `after` is `before` with only the record at `i` replaced by `q`, a copy whose phone alone is set. */
  ghost predicate EditedAt(before: seq<Person>, after: seq<Person>, i: int, q: Person, phone: string)
  {
    && 0 <= i < |before|
    && |after| == |before|
    && after[i] == q
    && SameButPhone(before[i], q)
    && q.phone == Some(phone)
    && forall j :: 0 <= j < |before| && j != i ==> after[j] == before[j]
  }

  /** `personCount` grows by one on a successful `addPerson` and is otherwise unchanged by either mutation. */
  lemma CountAfterMutations(ps: seq<Person>, args: AddArgs, id: string, name: string, phone: string)
    ensures PersonCount(AddPerson(ps, args, id).store) ==
      PersonCount(ps) + (if HasName(ps, args.name) then 0 else 1)
    ensures PersonCount(EditPerson(ps, name, phone).store) == PersonCount(ps)
  {
  }

  /** The table after a batch of `addPerson` calls, the k-th with the k-th id. */
  function AddAll(ps: seq<Person>, batch: seq<AddArgs>, ids: seq<string>): seq<Person>
    requires |ids| == |batch|
    decreases batch
  {
    if batch == [] then ps
    else AddAll(AddPerson(ps, batch[0], ids[0]).store, batch[1..], ids[1..])
  }

  /** The names of a batch are pairwise distinct and none is in the table yet. */
  ghost predicate FreshNames(ps: seq<Person>, batch: seq<AddArgs>) {
    && (forall i, j :: 0 <= i < j < |batch| ==> batch[i].name != batch[j].name)
    && (forall k :: 0 <= k < |batch| ==> !HasName(ps, batch[k].name))
  }

  /** N additions of new, distinct names grow the table by exactly N records. */
  lemma {:induction false} CountAfterAddAll(ps: seq<Person>, batch: seq<AddArgs>, ids: seq<string>)
    requires |ids| == |batch|
    requires FreshNames(ps, batch)
    ensures PersonCount(AddAll(ps, batch, ids)) == PersonCount(ps) + |batch|
    decreases batch
  {
    if batch != [] {
      var next := AddPerson(ps, batch[0], ids[0]).store;
      assert next == ps + [Created(batch[0], ids[0])];
      forall k | 0 <= k < |batch[1..]|
        ensures !HasName(next, batch[1..][k].name)
      {
        assert batch[1..][k] == batch[k + 1];
      }
      CountAfterAddAll(next, batch[1..], ids[1..]);
    }
  }

  /** Starting from an empty table, N additions of distinct names leave N records. */
  lemma CountFromEmpty(batch: seq<AddArgs>, ids: seq<string>)
    requires |ids| == |batch|
    requires forall i, j :: 0 <= i < j < |batch| ==> batch[i].name != batch[j].name
    ensures PersonCount(AddAll([], batch, ids)) == |batch|
  {
    CountAfterAddAll([], batch, ids);
  }

  /** `addPerson` keeps the names distinct, and keeps the ids distinct when the new id is unused. */
  lemma AddKeepsDistinct(ps: seq<Person>, args: AddArgs, id: string)
    ensures DistinctNames(ps) ==> DistinctNames(AddPerson(ps, args, id).store)
    ensures DistinctIds(ps) && IdUnused(ps, id) ==> DistinctIds(AddPerson(ps, args, id).store)
  {
    var s := AddPerson(ps, args, id);
    if s.result.Success? {
      assert forall i :: 0 <= i < |ps| ==> s.store[i] == ps[i];
    }
  }

  /** `editPerson` leaves every name and id where it was, so distinct names and ids stay distinct. */
  lemma EditKeepsDistinct(ps: seq<Person>, name: string, phone: string)
    ensures DistinctNames(ps) ==> DistinctNames(EditPerson(ps, name, phone).store)
    ensures DistinctIds(ps) ==> DistinctIds(EditPerson(ps, name, phone).store)
  {
  }

  /** After a successful `addPerson`, `findPerson` of the name returns the new record. */
  lemma {:induction false} FindAfterAdd(ps: seq<Person>, args: AddArgs, id: string)
    ensures AddPerson(ps, args, id).result.Success? ==>
      FindPerson(AddPerson(ps, args, id).store, args.name) == Some(AddPerson(ps, args, id).result.value)
  {
    var s := AddPerson(ps, args, id);
    if s.result.Success? {
      assert FirstNamed(s.store, args.name, |ps|);
      FindPersonFirst(s.store, args.name, |ps|);
    }
  }

  /** After `editPerson`, `findPerson` of the name returns what `editPerson` returned. */
  lemma FindAfterEdit(ps: seq<Person>, name: string, phone: string)
    ensures FindPerson(EditPerson(ps, name, phone).store, name) == EditPerson(ps, name, phone).result
  {
    var s := EditPerson(ps, name, phone);
    if s.result.Some? {
      var i :| FirstNamed(ps, name, i) && EditedAt(ps, s.store, i, s.result.value, phone);
      assert FirstNamed(s.store, name, i);
      FindPersonFirst(s.store, name, i);
    }
  }

  /**
   * The edited record is listed by `allPersons(phone: Yes)` exactly when the new
   * phone is non-empty, and by `allPersons(phone: No)` otherwise.
   */
  lemma EditedListedByPhone(ps: seq<Person>, name: string, phone: string)
    requires HasName(ps, name)
    ensures EditPerson(ps, name, phone).result.Some?
    ensures var s := EditPerson(ps, name, phone);
      && (s.result.value in AllPersons(s.store, Some(Yes)) <==> phone != "")
      && (s.result.value in AllPersons(s.store, Some(No)) <==> phone == "")
  {
    var s := EditPerson(ps, name, phone);
    var i :| FirstNamed(ps, name, i) && EditedAt(ps, s.store, i, s.result.value, phone);
    assert s.store[i] in s.store;
  }

  /** `editPerson` changes no record's address. */
  lemma EditKeepsAddresses(ps: seq<Person>, name: string, phone: string)
    ensures var s := EditPerson(ps, name, phone);
      forall j :: 0 <= j < |ps| ==> AddressOf(s.store[j]) == AddressOf(ps[j])
  {
  }
}
