# Person directory resolvers

A model of the resolvers of a small GraphQL demonstration server. The server
keeps an ordered in-memory table of person records, seeded with five records
at start-up. The resolvers are:

- the queries `personCount`, `allPersons` (optionally filtered by whether a
  record has a phone) and `findPerson` (first record with an exact name);
- the computed `address` field of a person;
- the mutations `addPerson`, which refuses a duplicate name and otherwise
  appends a record with a fresh id, and `editPerson`, which overwrites the phone
  of the first record with a given name.

Layout:

- `wrappers.dfy`: `Option` and `Result`.
- `persons.dfy` (module `Persons`): the `Person` record, the `YesNo` enum, phone
  truthiness, the seed table, and the predicates used in contracts (a name is
  present, the first position of a name, distinct names, distinct ids).
- `queries.dfy` (module `Queries`): the read-only resolvers as functions of the
  table, and lemmas about the phone filter.
- `mutations.dfy` (module `Mutations`): each mutation as a function from the
  table before the call to the table after it plus the returned value (`Step`),
  and lemmas that relate the mutations to the queries and to the name and id
  invariants.
- `store.dfy` (module `Store`): class `PersonStore` owns the table as a field.
  Its methods update it in place, as the source's `push` and indexed assignment
  do. Each method is proved to produce exactly the `Step` of module `Mutations`.

Modelling choices:

- A phone counts as present only when it is a non-empty string. This is
  JavaScript truthiness: an absent phone and `""` are both falsy in the filter.
- `findIndex`'s `-1` and `find`'s `undefined` are `None`. `editPerson`'s
  `null` result is `None` too.
- The `UserInputError` thrown for a duplicate name is a `Failure` value. It
  carries the message "Person already exists" and the name as `invalidArgs`.
- The value of `uuid()` is a parameter of `AddPerson`. The method requires that
  no record already carries it, which is what a v1 UUID guarantees.
- `address` is always an object whose two fields may be absent. The source
  builds the object literal unconditionally, so it is never `null`.

## Model

| member | source | states |
|---|---|---|
| `Persons.SeedWellFormed` | index.js:3-9 | the seed table has five records with pairwise distinct names and no ids |
| `Queries.Filter` | index.js:70-73 | the filtered list holds exactly the table's records that `byPhone` accepts, and is no longer than the table |
| `Queries.AllPersons` | index.js:66-74 | with no argument the whole table; with `Yes`/`No` a record is listed iff it is in the table and its phone is truthy/falsy |
| `Queries.FilterAppend` | index.js:73 | filtering distributes over concatenation, so listed records keep their table order |
| `Queries.FilterPartition` | index.js:70-73 | the `Yes` and `No` listings together hold each record as often as the table does, their lengths add up to the table's, and no record is in both |
| `Queries.FindIndex` | index.js:104 | returns the first position whose name equals the argument; returns none iff no record has that name |
| `Queries.FindPerson` | index.js:75-78 | returns none iff no record has the name; otherwise the record at the first position with that name, which carries that name |
| `Queries.FindPersonFirst` | index.js:77 | whenever position i is the first one with the name, `findPerson` returns the record at i |
| `Queries.AddressOfFields` | index.js:83-88 | the address carries the person's own street and city, absent ones included, and two addresses are equal iff street and city agree |
| `Mutations.AddPerson` | index.js:91-101 | fails iff the name is present, then with `UserInputError("Person already exists", name)` and the table unchanged; otherwise appends and returns a record with the given name, age, street and city, the new id and no phone |
| `Mutations.EditPerson` | index.js:102-112 | returns none iff no record has the name, then the table is unchanged; otherwise only the record at the first matching position is replaced, by a copy with the new phone and the same name, age, street, city and id, which is returned; the length is unchanged |
| `Mutations.CountAfterMutations` | index.js:65 | `personCount` grows by one after a successful `addPerson` and is otherwise unchanged by `addPerson` and `editPerson` |
| `Mutations.CountAfterAddAll` | index.js:91-100 | a batch of N `addPerson` calls with distinct names that are not yet in the table grows `personCount` by exactly N |
| `Mutations.CountFromEmpty` | index.js:91-100 | from an empty table, N `addPerson` calls with distinct names leave `personCount` equal to N |
| `Mutations.AddKeepsDistinct` | index.js:92-99 | `addPerson` keeps names pairwise distinct, and keeps ids distinct when the new id is unused |
| `Mutations.EditKeepsDistinct` | index.js:104-110 | `editPerson` keeps names and ids pairwise distinct |
| `Mutations.FindAfterAdd` | index.js:98-100 | after a successful `addPerson`, `findPerson` of the name returns the new record |
| `Mutations.FindAfterEdit` | index.js:104-111 | after `editPerson`, `findPerson` of the name returns exactly what `editPerson` returned |
| `Mutations.EditedListedByPhone` | index.js:109-110 | the edited record is listed by `allPersons(Yes)` iff the new phone is non-empty and by `allPersons(No)` iff it is empty |
| `Mutations.EditKeepsAddresses` | index.js:109-110 | `editPerson` changes no record's address |
| `Store.PersonStore.constructor` | index.js:3-9 | the table starts as the seed records, with distinct names and ids |
| `Store.PersonStore.AddPerson` | index.js:91-101 | the in-place append leaves the table and returns the value that `Mutations.AddPerson` gives, and keeps names and ids distinct |
| `Store.PersonStore.EditPerson` | index.js:102-112 | the in-place slot overwrite leaves the table and returns the value that `Mutations.EditPerson` gives, and keeps names and ids distinct |

`Queries.PersonCount` (index.js:65), `Queries.AddressOf` (index.js:83-88) and
`Mutations.Created` (index.js:98) carry no contract of their own. What they
promise is stated by `CountAfterMutations`, `AddressOfFields` and
`Mutations.AddPerson`. `Store.SeedScenarios` states, as verified assertions about
a store built from the seed table, the outcome of three example requests: a
duplicate "John" is refused, Jane gets a phone and moves to the `Yes` listing,
and adding "Zoe" leaves six records.

## Left out

- The GraphQL schema (index.js:12-46) and the Apollo server (index.js:117-124) are left out: parsing, validation and HTTP serving belong to the external engine. What the schema demands is kept as parameter types: `name` and `age` for `addPerson`, `name` and `phone` for `editPerson`.
- The schema's 32-bit range for `Int` is not modelled; `age` is an unbounded integer, and the engine rejects out-of-range values before a resolver runs.
- `uuid()` (index.js:2, 98) is a library call; its result is a parameter, assumed unused in the table.
- Apollo's exception machinery behind `UserInputError` is not modelled; the error is a returned value.
- An optional argument passed explicitly as `null` is not told apart from an omitted one; both are `None`.
- `allPersons` without an argument returns the live array itself; the model returns its value, so aliasing with later mutations is not captured.
- The comments and unused `root` parameters (index.js:47-61) carry no behaviour.
