# Student directory stores, modelled in Dafny

The repository has two small HTTP services that manage student records in
memory. Each offers list, get, create, update and delete.

- `new_app/student-api/main.py` keeps a dictionary `students_db` from integer
  ids to validated `Student` records. A `Student` nests an `Address`. Create
  rejects a duplicate id. Update first checks that the path id equals the
  body's id, then that the id is present, and then replaces the whole record.
  Delete removes the key.
- `docker/student-api/main.py` keeps a list `students` of untyped
  dictionaries. The list starts with two seed records. Each record is found
  by its `"roll"` entry. Every handler scans the list from the front and acts
  on the first match. Add appends after a duplicate scan. Update merges the
  body's entries into the matched dictionary. Delete pops the matched element
  and returns it.

The model has three files:

- `outcomes.dfy` (module `Outcomes`): the error kinds `NotFound`, `Conflict`
  and `IdMismatch`, a `Result`, and a `Step` that pairs a reply with the store
  after the call. HTTP status codes are not modelled.
- `map_store.dfy` (module `MapStore`): the keyed store. A Python dictionary
  remembers insertion order, and `list(students_db.values())` returns values
  in that order. So the state is the map plus the insertion order of its keys
  (`Store`). Each handler is a pure function of the store before the call:
  `Lookup`, `Listing`, `CreateStep`, `UpdateStep` and `DeleteStep`. The class
  `StudentsDb` holds the two fields and updates them in place. Each of its
  methods is proved equal to the matching function. Lemmas about request
  sequences (`Run`) cover record counting and the store invariants.
- `list_store.dfy` (module `ListStore`): the list store. A `Record` is its
  roll (a JSON `Value`) plus a map of its other entries. `IndexOf` is the
  first-match scan. `Merge` is Python's `dict.update`. `AddStep`,
  `UpdateStep` and `DeleteStep` are the handlers as functions. The class
  `Students` holds a `seq<Record>`. Its `Locate` method runs the index loop
  that all the handlers use.

Two points about ids in the keyed store:

- Ids are meant to be positive, but only the get path checks `id > 0`
  (`new_app/student-api/main.py:60`). The `Student` schema (line 32) accepts
  any integer. `NonPositiveIdListedButNotFetchable` shows the effect: a
  record with id 0 can be created and is listed, but no get can reach it. So
  "list length equals the number of ids get succeeds on" holds only while
  every stored id is positive.
- A path/body id mismatch gets its own error kind, `IdMismatch`.

## Model

| member | source | states |
|---|---|---|
| `MapStore.Without` | new_app/student-api/main.py:108 | Removing a key from the insertion order leaves exactly the other keys. A list without repeats stays without repeats and loses exactly one entry when the key was there. |
| `MapStore.WithoutAt` | new_app/student-api/main.py:108 | In an insertion order without repeats, removing the key at position k gives the order with exactly that position cut out; the other keys keep their relative order. |
| `MapStore.OrderSize` | new_app/student-api/main.py:41 | When the insertion order lists every key exactly once, it is exactly as long as the dictionary is large. |
| `MapStore.Lookup` | new_app/student-api/main.py:59-65 | Fails with NotFound exactly when the id is not a key. Otherwise it returns the record stored under that id. |
| `MapStore.Listing` | new_app/student-api/main.py:54 | The listing has one entry per position of the insertion order, and entry i is the record stored under the i-th inserted key. Completeness and the one-per-key property are in `ListingExact`. |
| `MapStore.ListingExact` | new_app/student-api/main.py:50-54 | The listing is as long as the store. Every stored record appears in it, and every entry is a stored record. When records sit under their own ids, no id is listed twice. |
| `MapStore.CreateStep` | new_app/student-api/main.py:72-79 | Conflict exactly when the id is already a key, and then the store is unchanged. Otherwise: the reply is the student; the key set grows by exactly that id; the new entry is the student; other entries are unchanged; the size grows by one; a get of that id returns the student; the listing is the old listing with the student appended at the end. The order/map consistency and "id equals key" are both preserved. |
| `MapStore.UpdateStep` | new_app/student-api/main.py:86-95 | A path id different from the body id gives IdMismatch with no change, even when the id is absent. A matching but absent id gives NotFound with no change. Success happens exactly when the ids match and the id is present. Then the record under the id is replaced whole, the key set and order stay the same, no other entry changes, and the listing changes only at that key's position. Both invariants are preserved. |
| `MapStore.DeleteStep` | new_app/student-api/main.py:102-108 | NotFound exactly when the id is absent, with no change. Otherwise exactly that key is removed, the other entries are unchanged and the size drops by one. The listing loses exactly that key's entry, and the others keep their order. Afterwards a get of the id fails with NotFound. Both invariants are preserved. |
| `MapStore.DeleteListing` | new_app/student-api/main.py:108 | Deleting the key at position k of the insertion order removes exactly the k-th entry of the listing. |
| `MapStore.RunSize` | new_app/student-api/main.py:72-108 | After any sequence of create, update and delete requests, the number of records is the starting number plus the accepted creations minus the accepted deletions. |
| `MapStore.RunKeepsInvariant` | new_app/student-api/main.py:72-108 | Any sequence of requests keeps two things true: the insertion order lists each key once, and every record sits under its own id. |
| `MapStore.NonPositiveIdListedButNotFetchable` | new_app/student-api/main.py:60 | Creating a student with id at most 0 in an empty store succeeds and makes a one-entry listing. But no positive id, the only kind the get path accepts, is then a key. |
| `MapStore.StudentsDb.constructor` | new_app/student-api/main.py:41 | The dictionary starts empty and satisfies the invariants. |
| `MapStore.StudentsDb.GetAllStudents` | new_app/student-api/main.py:50-54 | Returns the stored records in insertion order, one per key, without changing the store. Each returned record is the one stored under its id. |
| `MapStore.StudentsDb.GetStudent` | new_app/student-api/main.py:59-65 | For a path id greater than 0, returns what `Lookup` gives, without changing the store. |
| `MapStore.StudentsDb.CreateStudent` | new_app/student-api/main.py:72-79 | The reply and the new state are exactly those of `CreateStep` on the old state. The invariants are kept. |
| `MapStore.StudentsDb.UpdateStudent` | new_app/student-api/main.py:86-95 | The reply and the new state are exactly those of `UpdateStep` on the old state. The invariants are kept. |
| `MapStore.StudentsDb.DeleteStudent` | new_app/student-api/main.py:102-108 | The reply and the new state are exactly those of `DeleteStep` on the old state. The invariants are kept. |
| `ListStore.IndexOf` | docker/student-api/main.py:41-42 | Gives the position of the first record whose roll equals the key: that record matches and no earlier one does. It is the list length exactly when no record matches. |
| `ListStore.Seed` | docker/student-api/main.py:20-23 | The initial list holds two records, with rolls 1 and 2, and no roll is repeated. |
| `ListStore.Merge` | docker/student-api/main.py:67 | The merged dictionary is the old one overridden by the body. Entries in the body overwrite, entries absent from the body keep their old values, and a roll in the body becomes the record's roll. |
| `ListStore.AddStep` | docker/student-api/main.py:49-59 | Conflict exactly when some record has the same roll, and then the list is unchanged. Otherwise the list grows by one: earlier records are unchanged and the last record is the new one. Unique rolls stay unique. |
| `ListStore.UpdateStep` | docker/student-api/main.py:62-71 | NotFound exactly when no record has the path roll, with no change. Otherwise the first matching record becomes the merge of itself with the body, and the reply is that merged record. The length and every other position are unchanged. |
| `ListStore.DeleteStep` | docker/student-api/main.py:74-83 | NotFound exactly when no record has the roll, with no change. Otherwise it returns the first matching record and removes it; the others keep their order and the length drops by one. Unique rolls stay unique, and once they are unique, no record with that roll remains. |
| `ListStore.UpdateKeepsUnique` | docker/student-api/main.py:65-67 | On a list with unique rolls, an update leaves the rolls unique when its body carries no roll, repeats the path roll, or names a roll no record holds. |
| `ListStore.UpdateUniqueIff` | docker/student-api/main.py:65-67 | On a list with unique rolls that holds the path roll, the update keeps the rolls unique exactly when the body carries no roll, repeats the path roll, or names a roll no record holds. Any other body creates a duplicate, because line 67 merges the body's roll unchecked. |
| `ListStore.UpdateCanDuplicateRoll` | docker/student-api/main.py:66-67 | The body's roll is not checked. Updating roll 1 of the initial list with body `{"roll": 2}` leaves two records with roll 2. |
| `ListStore.RunKeepsUnique` | docker/student-api/main.py:53-83 | Start from unique rolls and apply any sequence of adds, deletes and updates, where each update's body is safe in the list it is applied to: the rolls stay unique. |
| `ListStore.Students.constructor` | docker/student-api/main.py:20-23 | The list starts as the two seed records. |
| `ListStore.Students.GetStudents` | docker/student-api/main.py:32-35 | Returns the stored list as it is, without changing it. |
| `ListStore.Students.Locate` | docker/student-api/main.py:77-78 | The index loop returns the first position whose roll equals the key, or the length when none does. Every earlier record fails to match. |
| `ListStore.Students.GetStudent` | docker/student-api/main.py:38-46 | Succeeds exactly when some record has the roll, and then returns the first such record. Otherwise it fails with NotFound. The list is not changed. |
| `ListStore.Students.AddStudent` | docker/student-api/main.py:49-59 | The reply and the new list are exactly those of `AddStep` on the old list. |
| `ListStore.Students.UpdateStudent` | docker/student-api/main.py:62-71 | The reply and the new list are exactly those of `UpdateStep` on the old list. |
| `ListStore.Students.DeleteStudent` | docker/student-api/main.py:74-83 | The reply and the new list are exactly those of `DeleteStep` on the old list. |

## Left out

- HTTP routing, the 201/204/400/404/422/500 status codes and the response
  wrappers such as `{"message": ..., "student": ...}` are not modelled. The
  model returns the record itself, or an error kind.
- The root and index welcome endpoints, the CORS middleware and all logging
  (including the `app.log` file handler) are left out. None of them touches
  the store.
- Request validation by the web framework is outside the model. This covers
  field presence and types, and the syntax of `EmailStr`. Validated input is
  what the model receives; `email` is an opaque string. The `gt=0`
  constraint on the get path becomes the precondition `id > 0` of
  `MapStore.StudentsDb.GetStudent`.
- The generic `except Exception` handlers that answer 500 are left out.
  Nothing in the modelled logic raises.
- A record without a `"roll"` key is not modelled: in the model, `roll` is a
  required part of every `Record`. In the service, adding such a body to a
  non-empty list raises `KeyError` at the duplicate scan (line 54). On an
  empty list that scan never runs, so line 57 appends the roll-less
  dictionary. From then on, every scan that reaches it raises `KeyError` and
  the request fails with a 500: get (line 42), add (line 54), update
  (line 66) and delete (line 78). Neither the 500 nor this state is
  modelled.
- JSON values are modelled as integers and strings only. Floats, booleans,
  null and nested values are left out; Python's equality between them and
  integers (for example `True == 1`) is therefore not modelled. The order of
  entries inside one record is also not modelled.
- Object identity and aliasing are not modelled. The list service appends
  the caller's dictionary itself, merges into it in place, and
  `get_students` returns the live list. The model works with record values.
- Concurrent requests against the shared store are out of scope; the model
  serves one request at a time.
