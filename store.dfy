/**
 * The module-level `persons` array of index.js as an object that owns it.
 * The mutations change it in place, as `persons.push(person)` and
 * `persons[personIndex] = updatedPerson` do, and each is proved to leave the
 * table and return the value that the functions of module Mutations give.
 */
module Store {
  import opened Wrappers
  import opened Persons
  import opened Queries
  import opened Mutations

  class PersonStore {
    /** The records, in insertion order. */
    var persons: seq<Person>

    /** The table as the server starts: the five seed records. */
    constructor ()
      ensures persons == Seed()
      ensures DistinctNames(persons) && DistinctIds(persons)
    {
      persons := Seed();
      SeedWellFormed();
    }

    /**
     * `Mutation.addPerson`. `id` stands for the value of `uuid()`, which is
     * never an id the table already holds.
     */
    method AddPerson(args: AddArgs, id: string) returns (r: Result<Person, InputError>)
      requires IdUnused(persons, id)
      modifies this
      ensures Step(persons, r) == Mutations.AddPerson(old(persons), args, id)
      ensures DistinctNames(old(persons)) ==> DistinctNames(persons)
      ensures DistinctIds(old(persons)) ==> DistinctIds(persons)
    {
      AddKeepsDistinct(persons, args, id);
      if FindPerson(persons, args.name).Some? {
        return Failure(UserInputError(AlreadyExists, args.name));
      }
      var person := Created(args, id);
      persons := persons + [person];
      return Success(person);
    }

    /** `Mutation.editPerson`: overwrite the phone of the first record named `name`. */
    method EditPerson(name: string, phone: string) returns (r: Option<Person>)
      modifies this
      ensures Step(persons, r) == Mutations.EditPerson(old(persons), name, phone)
      ensures DistinctNames(old(persons)) ==> DistinctNames(persons)
      ensures DistinctIds(old(persons)) ==> DistinctIds(persons)
    {
      EditKeepsDistinct(persons, name, phone);
      var personIndex := FindIndex(persons, name);
      if personIndex.None? {
        return None;
      }
      var updatedPerson := persons[personIndex.value].(phone := Some(phone));
      persons := persons[personIndex.value := updatedPerson];
      return Some(updatedPerson);
    }
  }

  /** The example requests against the seed table, run through the store. */
  method SeedScenarios()
  {
    var store := new PersonStore();
    assert PersonCount(store.persons) == 5;

    var dup := store.AddPerson(AddArgs("John", Some("X"), Some("Y"), 20), "id-1");
    assert FirstNamed(Seed(), "John", 0);
    assert dup == Failure(UserInputError(AlreadyExists, "John"));
    assert store.persons == Seed();

    var jane := store.EditPerson("Jane", "555");
    assert FirstNamed(Seed(), "Jane", 1);
    assert jane == Some(Person("Jane", Some(21), None, None, Some("555"), None));
    EditedListedByPhone(Seed(), "Jane", "555");
    assert jane.value in AllPersons(store.persons, Some(Yes));
    assert jane.value !in AllPersons(store.persons, Some(No));

    var zoe := store.AddPerson(AddArgs("Zoe", None, None, 30), "id-2");
    assert !HasName(Seed()[1 := jane.value], "Zoe");
    assert zoe == Success(Person("Zoe", Some(30), None, None, None, Some("id-2")));
    assert PersonCount(store.persons) == 6;
  }
}
