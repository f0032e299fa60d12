# Character cache: a Dafny model

This project models the local character cache of an Android app that lists
characters from a remote catalog. The model covers:

- the `characters` table (`CharacterEntity` rows behind `CharacterDao`);
- the pass-through `CharacterRepository`;
- the load and refresh policy of the database-backed `CharacterFragment`.

That policy decides when the table is cleared, when the remote API is asked
for a page, and what the list shows.

Modules, one per source file plus a helper module:

- `Wrappers`: `Option`, which stands for a Kotlin nullable. The page entered by
  the user is an `Option<int>`, the result of `toIntOrNull`.
- `CharacterModel`: the remote `Character` record. Its class file is not part of
  this model. Its six fields are the ones every named-argument construction in
  the fragment uses.
- `Entity`: the row datatype `CharacterEntity`. It has a surrogate key `id`
  that defaults to 0 and six domain fields.
- `Dao`: the table as a class `CharacterDao` that holds a `seq` of rows and a
  key counter. Pure functions (`InsertOne`, `InsertAll`, `Overwrite`,
  `UpdateAll`) specify the table operations. Lemmas prove what those operations
  keep and what they promise.
- `Repository`: `CharacterRepository`, whose only state is its DAO reference.
  Every method forwards to the DAO.
- `Fragment`: two parts.
  - The entity/character mappings and the clear-then-insert composite
    `Refreshed`.
  - The coordinator class `CharacterFragment`. Its `displayed` field stands for
    the list adapter, `notices` for the toasts, and the ghost log `apiRequests`
    records the page of every remote request.
  - The outcome of a remote request is a parameter,
    `ApiResult = Ok(characters) | Err(message)`.

Key assignment follows Room's `autoGenerate` on an integer primary key. That
is SQLite `AUTOINCREMENT`, and Room binds a key of 0 as "no key".

- A row inserted with key 0 gets the next value of a counter that only grows.
  Clearing the table does not reset the counter.
- A row inserted with a non-zero key replaces the stored row with that key
  (conflict strategy REPLACE). If no row has that key, it is added, and the
  counter moves past the key.

`ValidTable` is the table invariant. It says the counter is past every stored
key, no stored row has key 0, and no two rows share a key. Every operation
preserves it.

`SELECT *` has no `ORDER BY`, so every read promises the table's contents as a
multiset, never an order.

Facts about the code that a reader of the screen might not expect:

- The load-page button (`CharacterFragment.kt:92-102`) never checks the cache:
  for a usable page it always clears the table and then fetches. Only
  `fetchCharacters` (`CharacterFragment.kt:147-169`) serves a non-empty table
  without a remote request, and its only call site is commented out
  (`CharacterFragment.kt:105`). It is modelled as its own operation,
  `FetchCharacters`.
- The refresh button does not reject a missing or non-positive page: it falls
  back to page 10. The load-page button only shows a message in that case.
- A failed remote request is not passed on to any caller: every exception is
  caught and shown as a toast. The model appends `ApiError(message)` to
  `notices` and changes nothing else.
- A refresh whose fetch fails leaves the table empty, because the clear has
  already happened.
- Nothing stops domain duplicates: a fetched page that holds two equal
  characters stores both, under different keys (`InsertAllFresh`).
- `MainActivity.kt:3` imports the older, network-only `CharacterFragment`, not
  the database-backed one modelled here.

## Model

| member | source | states |
|---|---|---|
| `Entity.NewCharacterEntity` | app/src/main/java/com/example/fifthmobilelab/entity/CharacterEntity.kt:7-15 | all six domain fields must be supplied; a new entity's key is the default 0 |
| `Entity.EntityEquality` | app/src/main/java/com/example/fifthmobilelab/entity/CharacterEntity.kt:7-15 | data-class equality is key equality plus equality of the six domain fields |
| `Entity.DistinctKeysDistinctRows` | app/src/main/java/com/example/fifthmobilelab/entity/CharacterEntity.kt:7-15 | two domain-duplicates with different keys are distinct rows |
| `Dao.Overwrite` | app/src/main/java/com/example/fifthmobilelab/dao/CharacterDao.kt:18-19 | rows whose key equals the given row's key become that row; every other row is unchanged; the size is unchanged |
| `Dao.InsertOneStores` | app/src/main/java/com/example/fifthmobilelab/dao/CharacterDao.kt:15-16 | one REPLACE insert (the `InsertOne` step) stores the row's domain fields under the returned key, which is the row's own key when it has one; no stored key is lost; every row under another key stays; the counter never goes back |
| `Dao.InsertAllKeepsKeys` | app/src/main/java/com/example/fifthmobilelab/dao/CharacterDao.kt:15-16 | a list of inserts (`InsertAll`) never loses a stored key, every returned key is stored afterwards, and the counter never goes back |
| `Dao.InsertOneValid` | app/src/main/java/com/example/fifthmobilelab/dao/CharacterDao.kt:15-16 | a single REPLACE insert keeps keys unique and non-zero; the key it returns is non-zero and is stored |
| `Dao.InsertAllValid` | app/src/main/java/com/example/fifthmobilelab/entity/CharacterEntity.kt:8 | after any list of inserts no two stored rows share a key and no row has key 0 |
| `Dao.InsertAllIdsLength` | app/src/main/java/com/example/fifthmobilelab/dao/CharacterDao.kt:15-16 | inserting returns exactly one key per input row |
| `Dao.InsertAllFresh` | app/src/main/java/com/example/fifthmobilelab/dao/CharacterDao.kt:15-16 | rows with key 0 are appended as new rows in order, under consecutive counter keys; existing rows stay as they were; nothing is deduplicated by domain fields |
| `Dao.FreshIdsAreNew` | app/src/main/java/com/example/fifthmobilelab/entity/CharacterEntity.kt:8 | generated keys are never 0, are pairwise distinct, and differ from every key already stored |
| `Dao.InsertReplacesExisting` | app/src/main/java/com/example/fifthmobilelab/dao/CharacterDao.kt:15 | inserting a row whose key is stored replaces that row only; size and counter are unchanged |
| `Dao.UpdateAllFrame` | app/src/main/java/com/example/fifthmobilelab/dao/CharacterDao.kt:18-19 | update by key keeps size and keys; a row no input matches is unchanged; a changed row is one of the input rows |
| `Dao.UpdateAllOverwrites` | app/src/main/java/com/example/fifthmobilelab/dao/CharacterDao.kt:18-19 | update by key (`UpdateAll`) overwrites every row whose key matches an input row with the last input row carrying that key |
| `Dao.UpdateAllValid` | app/src/main/java/com/example/fifthmobilelab/dao/CharacterDao.kt:18-19 | update by key keeps the primary-key invariant |
| `Dao.CharacterDao.constructor` | app/src/main/java/com/example/fifthmobilelab/dao/CharacterDao.kt:6-24 | a new table is empty, valid, and will hand out key 1 first |
| `Dao.CharacterDao.GetAllCharactersFlow` | app/src/main/java/com/example/fifthmobilelab/dao/CharacterDao.kt:9-10 | the observed query denotes the current contents of the table |
| `Dao.CharacterDao.GetAllCharacters` | app/src/main/java/com/example/fifthmobilelab/dao/CharacterDao.kt:12-13 | read-all returns exactly the stored rows as a multiset, the same contents as the observed query, and changes nothing |
| `Dao.CharacterDao.InsertRow` | app/src/main/java/com/example/fifthmobilelab/dao/CharacterDao.kt:15-16 | one row inserted with REPLACE: the new table and returned key are those of `InsertOne`; the invariant is kept |
| `Dao.CharacterDao.InsertCharacters` | app/src/main/java/com/example/fifthmobilelab/dao/CharacterDao.kt:15-16 | the new table and the returned keys are those of `InsertAll` on the old table; one key per input row; the invariant is kept |
| `Dao.CharacterDao.UpdateCharacters` | app/src/main/java/com/example/fifthmobilelab/dao/CharacterDao.kt:18-19 | the rows become `UpdateAll` of the old rows: a row whose key matches an input row becomes the last input row with that key, every other row is unchanged; size and counter unchanged; the invariant is kept |
| `Dao.CharacterDao.ClearCharacters` | app/src/main/java/com/example/fifthmobilelab/dao/CharacterDao.kt:21-22 | afterwards the table is empty; the key counter is kept |
| `Repository.CharacterRepository.constructor` | app/src/main/java/com/example/fifthmobilelab/repository/CharacterRepository.kt:7 | the repository's only state is the DAO it is given |
| `Repository.CharacterRepository.CharactersFlow` | app/src/main/java/com/example/fifthmobilelab/repository/CharacterRepository.kt:9 | the feed is the DAO's observed query: always the current table contents |
| `Repository.CharacterRepository.InsertCharacters` | app/src/main/java/com/example/fifthmobilelab/repository/CharacterRepository.kt:11-13 | the same effect on the table as the DAO insert; the returned keys are dropped |
| `Repository.CharacterRepository.GetAllCharacters` | app/src/main/java/com/example/fifthmobilelab/repository/CharacterRepository.kt:15-17 | exactly the DAO's read-all; the table is not changed |
| `Repository.CharacterRepository.ClearCharacters` | app/src/main/java/com/example/fifthmobilelab/repository/CharacterRepository.kt:19-21 | the table is emptied |
| `Fragment.ToCharacterDomain` | app/src/main/java/com/example/fifthmobilelab/fragments/CharacterFragment.kt:152-161 | one row to a character (`ToCharacter`): two rows give the same character exactly when they are domain-duplicates; the key plays no part |
| `Fragment.ToEntity` | app/src/main/java/com/example/fifthmobilelab/fragments/CharacterFragment.kt:175-184 | one character to a row: the key is left unset and the character's six fields are carried unchanged |
| `Fragment.ToCharacters` | app/src/main/java/com/example/fifthmobilelab/fragments/CharacterFragment.kt:152-161 | rows map one for one, in order, to characters that carry their six domain fields |
| `Fragment.ToEntities` | app/src/main/java/com/example/fifthmobilelab/fragments/CharacterFragment.kt:175-184 | one entity per fetched character, each with key 0 and the six fields copied unchanged |
| `Fragment.CharacterRoundTrip` | app/src/main/java/com/example/fifthmobilelab/fragments/CharacterFragment.kt:175-184 | character to entity to character is the identity |
| `Fragment.EntityRoundTrip` | app/src/main/java/com/example/fifthmobilelab/fragments/CharacterFragment.kt:59-68 | entity to character to entity drops only the key |
| `Fragment.CharactersRoundTrip` | app/src/main/java/com/example/fifthmobilelab/fragments/CharacterFragment.kt:175-184 | the round trip holds on whole lists |
| `Fragment.ToCharactersAppend` | app/src/main/java/com/example/fifthmobilelab/fragments/CharacterFragment.kt:152-161 | mapping rows distributes over concatenation |
| `Fragment.ToCharactersPermutation` | app/src/main/java/com/example/fifthmobilelab/fragments/CharacterFragment.kt:149-163 | reading the same rows in another order shows the same characters as a multiset |
| `Fragment.RefreshPage` | app/src/main/java/com/example/fifthmobilelab/fragments/CharacterFragment.kt:81-88 | the refresh button always asks for a positive page |
| `Fragment.InsertFetchedIntoEmpty` | app/src/main/java/com/example/fifthmobilelab/fragments/CharacterFragment.kt:175-185 | inserting a fetch into an empty table stores the fetched characters in order, under consecutive keys from the counter |
| `Fragment.Refreshed` | app/src/main/java/com/example/fifthmobilelab/fragments/CharacterFragment.kt:80-88 | clear then insert: the table holds exactly the fetched characters, in order, and the counter has moved past one new key each |
| `Fragment.RefreshReplacesAll` | app/src/main/java/com/example/fifthmobilelab/fragments/CharacterFragment.kt:80-88 | after clear and insert the table is valid and holds exactly the fetched characters; no key and no row from before remains |
| `Fragment.RefreshIdempotent` | app/src/main/java/com/example/fifthmobilelab/fragments/CharacterFragment.kt:78-90 | two successive successful refreshes with the same fetch show the same records; only keys differ |
| `Fragment.CharacterFragment.constructor` | app/src/main/java/com/example/fifthmobilelab/fragments/CharacterFragment.kt:34-54 | the screen starts over a valid table with an empty list, no message and no request |
| `Fragment.CharacterFragment.OnCharactersEmitted` | app/src/main/java/com/example/fifthmobilelab/fragments/CharacterFragment.kt:57-70 | on each feed emission the list shows the table's rows as characters, as a multiset |
| `Fragment.CharacterFragment.FetchCharactersFromApi` | app/src/main/java/com/example/fifthmobilelab/fragments/CharacterFragment.kt:171-196 | one request for the page; on success one new row per fetched character, earlier rows kept, and the list is exactly the fetched list; on failure table and list are unchanged and an error notice is added |
| `Fragment.CharacterFragment.FetchCharacters` | app/src/main/java/com/example/fifthmobilelab/fragments/CharacterFragment.kt:147-169 | with a non-empty table: no request, table unchanged, the list shows the stored rows as characters; with an empty table: the API fetch for the same page |
| `Fragment.CharacterFragment.OnRefreshClicked` | app/src/main/java/com/example/fifthmobilelab/fragments/CharacterFragment.kt:78-90 | clears first, then requests the entered page if present and positive, page 10 otherwise; on success the table holds only the fetched rows; on failure the table stays empty |
| `Fragment.CharacterFragment.OnLoadPageClicked` | app/src/main/java/com/example/fifthmobilelab/fragments/CharacterFragment.kt:92-102 | a missing or non-positive page changes nothing but adds a notice; a usable page clears, then fetches that page without checking the cache |

## Left out

- Coroutines are not modelled: the `Dispatchers.IO`/`Main` launches and the nested launch inside `fetchCharactersFromApi`. Each handler is one sequential step, so the races between overlapping button presses are not captured.
- Flow timing is not modelled. The feed is the current table contents, and `OnCharactersEmitted` is one emission; when and how often subscribers are called is left out.
- The remote client `CharacterApi` (ktor HTTP) is not part of this model. Its outcome is the `ApiResult` parameter.
- Parsing the page text with `toIntOrNull` is not modelled; the parsed value is the `Option<int>` parameter.
- The list type converters (`util.Converters`) are not part of this model. String lists are stored and read back unchanged.
- Storage failures are not modelled. An exception thrown by the insert inside `fetchCharactersFromApi` would also end in the error toast.
- Integer widths are not modelled: the 32-bit `Int` key, the 64-bit `Long` row ids returned by insert, and key counter overflow. Keys are unbounded integers.
- Dao.CharacterDao.GetAllCharacters: states the rows read back as a multiset, not as an ordered list, because the query has no `ORDER BY`.
- Dao.InsertReplacesExisting: states REPLACE as an in-place overwrite. SQLite deletes the old row and inserts the new one, which gives the same contents; only the row order, which is not observable, differs.
- UI is not modelled: the RecyclerView adapter (only the `displayed` field remains), navigation, view bindings and the text of the toasts (only the `Notice` kind and the error message remain).
- `saveCharactersToFile` is not modelled. It is MediaStore file I/O built on `Character.toString`, whose file is not part of this model, and nothing calls it.
- `fragments/SettingsFragment.kt`, `AppDatabase.kt`, `MainActivity.kt`, `fragment/CharacterFragment.kt` and `app/build.gradle.kts` are not part of this model. They hold theme/font/language preferences, file backup and restore, the database singleton, the activity's UI setup, the older network-only screen and build configuration.
