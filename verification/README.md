# Persona store of the persona-builder popup, in Dafny

This project models the data layer and persona selection of the browser
extension's popup (`popup.js`). The popup keeps personas, visited-page history,
page snapshots and insights in an IndexedDB database named `personaBuilder`
(version 1) with four object stores:

| store | key path | indexes |
|---|---|---|
| `personas` | `id` | none |
| `history` | `id` | `byPersona` (`personaId`), `byPersonaVisitedAt` (`[personaId, visitedAt]`), `byPersonaUrl` (`[personaId, url]`) |
| `pageSnapshots` | `historyId` | `byHistory` (`historyId`, unique), `byPersona` (`personaId`) |
| `insights` | `id` | `byPersona` (`personaId`) |

The model is functional. A database is an immutable value. Every object store
is a map from primary key to record. Every operation is a pure function from
the old database to a `Result` holding either the new database or an IndexedDB
error. The modules follow the layers of the source:

- `Strings`: character-wise lexicographic order, which stands in for
  `localeCompare` and for IndexedDB key order, and JavaScript's `trim`.
- `Records`: the four record shapes and key-path evaluation. A key path that
  names an absent property yields no key.
- `ObjectStores`: one object store and the `put`, `delete` and `getAll`
  primitives. `put` is an upsert that checks unique indexes. `getAll` returns
  records in ascending primary-key order.
- `PersonaDatabase`: the schema, the upgrade step and `openDb`, the invariant
  `Valid`, and one-store transactions.
- `Repository`: `addPersona`, `listPersonas`, `addHistoryEntry`,
  `addPageSnapshot` and `addInsight`.
- `Popup`: `selectPersona`, `refreshPersonas` and `addPersonaFlow`.

Some inputs come from outside the program and are passed in as parameters:
the result of `makeId()` (`freshId`, `seedId`), the result of
`new Date().toISOString()` (`now`), the database already on disk, and the
cached handle. Where a property needs a fresh id, the lemma says so in its
`requires`.

The `<select>` element is modelled only by its value. Rebuilding its options
selects the first one. Assigning a value that no option carries leaves
nothing selected, and the value then reads back as "".

Personas with equal `createdAt` are listed in increasing `id` order, not in
insertion order: `getAll` returns records in primary-key order and the sort
is stable (`Repository.SortKeepsTies`).

## Model

| member | source | states |
|---|---|---|
| `Strings.LessEqTransitive` | popup.js:169 | The order that compares creation stamps is transitive. |
| `Strings.LessEqTotal` | popup.js:169 | Any two creation stamps are comparable, so the sort comparator is a total preorder. |
| `Strings.LessEqAntisymmetric` | popup.js:169 | Two stamps that each compare no greater than the other are equal. |
| `Strings.Trim` | popup.js:279 | The trimmed name neither starts nor ends with white space. It is empty exactly when the input is all white space. |
| `Strings.TrimIsInfix` | popup.js:279 | The trimmed name is an infix of the input, and only white space is cut from either end. |
| `Strings.TrimIdempotent` | popup.js:279 | Trimming a trimmed name changes nothing. |
| `ObjectStores.Put` | popup.js:114-120 | A record without the key-path property fails with DataError. A record that would duplicate a unique index key fails with ConstraintError. Otherwise the record is stored under its key, no other key changes, the key set grows by at most that key, and keys stay consistent with records. |
| `ObjectStores.Remove` | popup.js:127-133 | The key is absent afterwards and every other entry is unchanged. Removing an absent key returns the store unchanged. |
| `ObjectStores.GetAll` | popup.js:100-106 | Reading an index the store lacks fails with NotFoundError. Otherwise the result holds exactly the stored records the source and query select. When every record sits under the key its key path yields, store reads and keyed reads come back in strictly ascending key order, so nothing appears twice. An unkeyed store read returns one record per key. |
| `ObjectStores.KeysInOrder` | popup.js:100-106 | The keys of a store are listed once each, in strictly ascending order. |
| `ObjectStores.PutThenGet` | popup.js:114-120 | After a successful put, reading the store at the record's key yields exactly that record. |
| `ObjectStores.RemoveUndoesPut` | popup.js:127-133 | Deleting the key that a put introduced gives back the original store, so the upsert added exactly one entry. |
| `ObjectStores.RemoveIdempotent` | popup.js:127-133 | Deleting a key twice is the same as deleting it once. |
| `ObjectStores.IndexOnFieldIsFilter` | popup.js:100-106 | Reading a single-property index with a key returns exactly the stored records whose property equals that key. |
| `PersonaDatabase.Upgrade` | popup.js:61-85 | Afterwards all four stores exist. Stores that already existed keep their definition and data. The only stores added are the four, each new and empty. |
| `PersonaDatabase.UpgradeIdempotent` | popup.js:61-85 | Running the upgrade step twice is the same as running it once. |
| `PersonaDatabase.UpgradeEmpty` | popup.js:64-84 | On an empty database the upgrade creates exactly the four stores, and they hold no records. Their key paths are `id`, `id`, `historyId` and `id`. `personas` has no index. `history` has `byPersona`, `byPersonaVisitedAt` and `byPersonaUrl`, none unique. `pageSnapshots` has a unique `byHistory` and `byPersona`. `insights` has `byPersona`. |
| `PersonaDatabase.Open` | popup.js:51-92 | A cached handle is returned as it is. A newer stored version fails with VersionError. A missing or older database is upgraded to version 1 with all four stores present and existing stores untouched. A version-1 database is opened unchanged. |
| `PersonaDatabase.OpenNewIsValid` | popup.js:57-90 | Opening a database for the first time yields one that satisfies the invariant, with every store empty. |
| `PersonaDatabase.PutInto` | popup.js:114-120 | A missing store fails with NotFoundError, and a record without the key property fails with DataError. On success that store holds the record under its key, and every other entry of every store is unchanged. |
| `PersonaDatabase.DeleteFrom` | popup.js:127-133 | The key is gone from the named store, and every other entry of every store is unchanged. Deleting an absent key leaves the database unchanged, and deletion keeps the invariant. |
| `PersonaDatabase.Read` | popup.js:166-167 | A read on a missing store fails with NotFoundError, and so does a read of an index the store lacks. Otherwise the result holds exactly the records of that store the source and query select. When keys match records, store reads and keyed reads come in ascending key order. An unkeyed store read returns one record per key. |
| `PersonaDatabase.PutKeepsValid` | popup.js:65-84 | Putting a record of the right kind into one of the four stores succeeds and keeps the invariant. The unique `byHistory` index never rejects it. |
| `PersonaDatabase.ByPersonaIsFilter` | popup.js:69-83 | On the history, snapshot and insight stores, a `byPersona` lookup for `p` returns exactly the stored records whose `personaId` is `p`, no more and no fewer, in primary-key order. |
| `Repository.AddPersona` | popup.js:149-160 | The returned persona carries the fresh id, the given name and the creation stamp. It is the record stored under that id, nothing else changes, and the invariant is kept. |
| `Repository.SortByCreatedAt` | popup.js:169 | The sort result is a permutation of its input. |
| `Repository.SortIsSorted` | popup.js:169 | The sort result is non-decreasing by `createdAt`. |
| `Repository.SortKeepsTies` | popup.js:165-169 | When the input is in id order, as a store read returns it, personas with equal `createdAt` stay in id order. |
| `Repository.ListPersonas` | popup.js:165-170 | The result holds the same personas as the store, and as many as it has keys. It is sorted by `createdAt`. When the store's keys match its records, no persona appears twice, and ties are in id order when the key path is `id`. A missing store fails with NotFoundError. |
| `Repository.AddPersonaThenList` | popup.js:149-170 | With a fresh id, the listing after `addPersona` is one longer, contains the new persona, and still contains every persona listed before. |
| `Repository.AddHistoryEntry` | popup.js:177-187 | The returned record is the stored one, and its `personaId` is the argument. Its `id` is the supplied id when that is non-empty and the fresh id otherwise. Every other property is copied from the input, and the invariant is kept. |
| `Repository.HistoryEntryFoundByPersona` | popup.js:177-187 | A history entry just added is returned by the `byPersona` index for its persona. |
| `Repository.AddInsight` | popup.js:204-214 | Same as `addHistoryEntry`, for insights: the id is supplied or fresh, `personaId` is forced, other properties are copied, and the record returned is the one stored. |
| `Repository.InsightFoundByPersona` | popup.js:204-214 | An insight just added is returned by the `byPersona` index for its persona. |
| `Repository.AddPageSnapshot` | popup.js:193-197 | A snapshot is upserted under its `historyId` and the invariant is kept. A record without `historyId` fails with DataError. |
| `Repository.SnapshotOverwrites` | popup.js:193-197 | After two snapshots with the same `historyId`, exactly one record holds that history id. It sits under that key and carries the second snapshot. |
| `Popup.SelectPersona` | popup.js:253-261 | With no id given (or an empty one), the first persona is selected. A given id is selected when a persona carries it, and nothing is selected when none does. With no id and no personas the selection stays as it was. |
| `Popup.RefreshPersonas` | popup.js:266-276 | Afterwards the list is non-empty. On an empty store, exactly one persona named "Default Persona" is added, and it is the list and the selection. Otherwise nothing is written, the list is the sorted listing, and `selectPersona` picks the requested or the first persona. |
| `Popup.RefreshSeedsOnce` | popup.js:266-276 | A second refresh writes nothing, so the default persona is seeded at most once. |
| `Popup.AddPersonaFlow` | popup.js:278-289 | A name that is blank after trimming cancels with nothing changed. Otherwise the trimmed name is stored as a new persona and listed. It becomes the selection, and the input is cleared and the form hidden. |

## Left out

- The asynchronous IndexedDB plumbing (requests, promises, `tx.commit?.()`, the `transaction` helper) is not modelled. Each operation is one atomic step on the database value.
- Failures that come from the environment rather than the data (a refused `indexedDB.open`, quota or I/O errors) are not modelled. The model raises only NotFoundError, DataError, ConstraintError and VersionError, where the data causes them.
- `makeId` and the clock are not modelled. Their results are parameters, and freshness of an id is a lemma hypothesis.
- The memoised `db` handle is modelled only by `Open` returning a cached handle unchanged.
- Interleavings of concurrent calls are not modelled. In particular, two `refreshPersonas` calls racing on an empty store are not covered.
- `localeCompare` is modelled as character-wise lexicographic order. That agrees with locale collation on ISO 8601 timestamps of one shape. IndexedDB compares strings by UTF-16 code unit, while the model compares Unicode scalar values. The two orders differ only between characters outside the Basic Multilingual Plane and characters U+E000 to U+FFFF.
- Key ranges (`IDBKeyRange`) in `getAll` are not modelled. The popup never passes one.
- `ObjectStores.GetAll`: for an index read without a key, the order by index key and then primary key is not stated. The model returns primary-key order, and the ordering clause covers only store reads and keyed reads.
- The upgrade step does not add missing indexes to a store that already exists, and neither does the model.
- The `content` of an insight is an arbitrary value in the source. The model carries it as opaque text.
- The DOM is not modelled: `getElement`, the option elements built by `renderPersonas` (only their effect on the select's value is kept), `togglePersonaForm`, the event listeners, `captureCurrentPersona` and the console logging.
- The active-persona pointer (`getActivePersonaId`, `setActivePersonaId`, `watchActivePersona`) is not part of this model. Neither are `deleteHistoryEntry`, `getPageSnapshot` and `listHistoryForPersona`. They live in `active-persona.mjs` and `persona-db.mjs`, which are not part of this model. `ObjectStores.Remove`, `PersonaDatabase.DeleteFrom` and `ObjectStores.GetAll` cover the primitives they would use.
- `options.mjs` (rendering), `content.mjs` (capture wrapper), the type declarations and the logging stubs hold no store logic.
- `Repository.AddPersona`, `Repository.AddHistoryEntry` and `Repository.AddInsight`: the key the record is stored under is stated only for a database satisfying `Valid`. On a store whose key path was changed outside the upgrade step, the record lands under whatever that key path yields.
