# OpenPositions: a verified model of the position service and its stores

This project models the layer beneath the HTTP controller of a job-positions backend.
That layer has four parts:

- **Location store**: a read-only table of `(id, name)` rows.
- **Position store**: a table of position records keyed by `PositionId`, with Add, Get, GetAll, Update and Delete.
- **Adapter**: translates a position between its storage shape, which holds a `LocationId`, and its wire shape, which holds a location name.
- **Position service**: composes the other three parts.

Each operation returns either a value or a failure.
The failures mirror the exceptions the code throws: `NullResult`, `InvalidLocation` and `Database(message)`.
A fourth failure, `NullReference`, stands for the runtime error raised when the name-to-id scan dereferences a null location name.

Files and modules:

- `Outcomes.dfy`: `Option`, `Result` and the `Error` kinds with their message constants.
- `Models.dfy`: the `Location`, `OpenPosition` and `OpenPositionDto` records, and the validity predicate `Valid` that the data annotations of `OpenPosition` declare.
- `LocationRepository.dfy`: the location table as a value, `LocationTable(initialised, rows)`, and its `GetAll`.
- `Adapter.dfy`: the four mapper overloads as functions, the first-match scans behind them, and round-trip lemmas.
- `PositionRepository.dfy`: the class `PositionRepo`.
  - It has a `positions: seq<OpenPosition>` field, changed in place by `Add`, `Update` and `Delete`.
  - It has an `initialised` flag, which stands for the context's table being non-null.
  - Specification functions `IndexOfId`, `Lookup` and `ListAll` describe it.
  - Lemmas state how each change affects later lookups.
- `Services.dfy`: the class `PositionService`.
  - It has the position store and the location table as fields.
  - `GetAll`'s `foreach` loop is proved against the specification function `AllPositionDtos`.
  - `GetAllLocations` is written as a function.
  - Lemmas cover Add followed by Get, Update followed by Get, and the unit-test scenarios.

The store keeps its keys unique (`KeysUnique`, the `[Key]` on `PositionId`).
Every mutating method preserves this as part of `PositionRepo.Valid()`.

In these places the model follows what the code does:

- The name-to-id scan fails with a null-reference error on a null name that it reaches before a match. It does not skip that row.
- The id-to-name lookup can return a null name.
- Update never changes the key.
- A lookup on an empty location table fails with `NullResult`, the location store's failure, not with `InvalidLocation`.

## Model

| member | source | states |
|---|---|---|
| `Models.Valid` | OpenPositionsSolution/OpenPositionsApp/Models/OpenPosition.cs:14-35 | A valid record has a present, non-blank role name of at least five characters, a present non-blank domain, required skills and educational qualification, a job description that is absent or at least 15 characters long, and an experience that is absent or between 1 and 50 inclusive. |
| `Models.KeysUnique` | OpenPositionsSolution/OpenPositionsApp/Models/OpenPosition.cs:11-12 | In a table with unique keys, two rows with the same key are the same row. Any table of at most one row has unique keys. |
| `Models.ValidIgnoresKeyAndLocation` | OpenPositionsSolution/OpenPositionsApp/Models/OpenPosition.cs:11-35 | The field rules never look at the key or the location id, so the key the database assigns on Add and the location translation cannot change whether a record is valid. |
| `Models.ValidExperienceInRange` | OpenPositionsSolution/OpenPositionsApp/Models/OpenPosition.cs:34-35 | For every record, an experience of x years is valid exactly when the record is valid without an experience and 1 <= x <= 50. The range is inclusive at both ends. |
| `Models.ValidJobDescriptionLength` | OpenPositionsSolution/OpenPositionsApp/Models/OpenPosition.cs:21-22 | For every record, a job description s is valid exactly when the record is valid without one and s has at least 15 characters. |
| `Models.ValidRoleName` | OpenPositionsSolution/OpenPositionsApp/Models/OpenPosition.cs:14-16 | For every record, a role name s is valid exactly when it has at least five characters, is not all white space and the rest of the record is valid. A null role name is never valid. |
| `Models.InvalidWhenRequiredFieldMissing` | OpenPositionsSolution/OpenPositionsApp/Models/OpenPosition.cs:18-32 | For every record, a null or all-white-space Domain, ReqSkills or EducationalQual makes it invalid. |
| `LocationRepository.GetAll` | OpenPositionsSolution/OpenPositionsApp/Repositories/LocationRepo.cs:35-46 | On an initialised, non-empty table it returns the rows unchanged and in order. An empty table gives NullResult. A missing table gives a Database error with message "Context not Initialized". |
| `Adapter.Lower` | OpenPositionsSolution/OpenPositionsApp/Adapter/Adapter.cs:70 | Lower-casing keeps the length and maps each character by itself: upper-case ASCII letters become lower-case and every other character is kept. |
| `Adapter.LowerIdempotent` | OpenPositionsSolution/OpenPositionsApp/Adapter/Adapter.cs:70 | Case folding applied twice gives the same string as applying it once. |
| `Adapter.FirstNameMatch` | OpenPositionsSolution/OpenPositionsApp/Adapter/Adapter.cs:70-76 | Returns the index of the first row whose name equals the key after lower-casing. Every row before it has a non-null name that does not match. A null name reached before any match gives NullReference. No match with no null name on the way gives InvalidLocation, and this holds in both directions. |
| `Adapter.FirstIdMatch` | OpenPositionsSolution/OpenPositionsApp/Adapter/Adapter.cs:86-92 | Returns the index of the first row with the given id, with no earlier row having it. Returns none exactly when no row has the id. |
| `Adapter.LocationIdByName` | OpenPositionsSolution/OpenPositionsApp/Adapter/Adapter.cs:65-77 | A result is the id of the first row whose name matches ignoring case. On a readable table, InvalidLocation holds exactly when every row has a present name and none matches. NullReference holds exactly when the scan reaches a null name before a match, and no other error occurs. A failure of the location store is returned unchanged. |
| `Adapter.LocationNameById` | OpenPositionsSolution/OpenPositionsApp/Adapter/Adapter.cs:81-93 | A result is the possibly-null name of the first row with that id. On a readable table, the lookup succeeds exactly when some row has the id, and InvalidLocation holds exactly when none has. A store failure is returned unchanged. |
| `Adapter.PositionToDto` | OpenPositionsSolution/OpenPositionsApp/Adapter/Adapter.cs:26-40 | Succeeds exactly when the location id resolves, with the same error otherwise. The key and the six other fields are copied, and the location is the resolved name. |
| `Adapter.DtoToPosition` | OpenPositionsSolution/OpenPositionsApp/Adapter/Adapter.cs:44-61 | An absent location gives location id 0 and always succeeds. A present location is resolved by name, and the conversion succeeds or fails exactly as that lookup does. On success the key and the six other fields are copied. |
| `Adapter.LookupsPropagateStoreFailure` | OpenPositionsSolution/OpenPositionsApp/Adapter/Adapter.cs:65-93 | On an empty or missing location table, both lookups fail with the store's error, NullResult or Database, and never with InvalidLocation. |
| `Adapter.LocationIdByNameIgnoresCase` | OpenPositionsSolution/OpenPositionsApp/Adapter/Adapter.cs:70 | Two names that are equal after lower-casing resolve alike, and a name resolves like its lower-cased form. |
| `Adapter.DtoToPositionRejectsUnknownLocation` | OpenPositionsSolution/OpenPositionsApp/Adapter/Adapter.cs:44-77 | On a readable table, converting a DTO fails with InvalidLocation exactly when it names a location and every row has a present name that differs from it ignoring case. |
| `Adapter.LocationIdByNameFindsPresentName` | OpenPositionsSolution/OpenPositionsApp/Adapter/Adapter.cs:67-74 | If a name matches row i and no row before i has a null name, the lookup succeeds. It returns the id of the first matching row at or before i. |
| `Adapter.NameIdRoundTrip` | OpenPositionsSolution/OpenPositionsApp/Adapter/Adapter.cs:65-93 | When location ids are distinct, the id a name resolves to resolves back to a stored name. That name equals the given one ignoring case. |
| `Adapter.DtoRoundTrip` | OpenPositionsSolution/OpenPositionsApp/Adapter/Adapter.cs:26-61 | When location ids are distinct, converting a DTO with a location to storage shape and back gives the same key and six other fields. The location comes back equal ignoring case. |
| `Adapter.PositionRoundTrip` | OpenPositionsSolution/OpenPositionsApp/Adapter/Adapter.cs:26-61 | On a well-formed location table, a record whose location id resolves comes back unchanged after conversion to wire shape and back. Well-formed means initialised, distinct ids, no null names and names distinct ignoring case. |
| `PositionRepository.IndexOfId` | OpenPositionsSolution/OpenPositionsApp/Repositories/PositionRepo.cs:87 | Returns the index of the first row with the key, with no earlier row having it. Returns none exactly when no row has the key. |
| `PositionRepository.Lookup` | OpenPositionsSolution/OpenPositionsApp/Repositories/PositionRepo.cs:83-94 | A missing table gives Database. Otherwise the lookup succeeds exactly when some row has the key, and returns a stored row with that key. Any other failure is NullResult. |
| `PositionRepository.ListAll` | OpenPositionsSolution/OpenPositionsApp/Repositories/PositionRepo.cs:104-115 | Returns every row unchanged exactly when the table is initialised and non-empty. An empty table gives NullResult and a missing one gives Database. |
| `PositionRepository.Overwrite` | OpenPositionsSolution/OpenPositionsApp/Repositories/PositionRepo.cs:133-139 | The overwritten record is the incoming record with the existing key. Exactly the seven non-key fields are replaced. |
| `PositionRepository.LookupAfterAppend` | OpenPositionsSolution/OpenPositionsApp/Repositories/PositionRepo.cs:38-42 | Appending under an unused key keeps keys unique. That key then finds the new record, and every other key finds what it found before. |
| `PositionRepository.LookupAfterOverwrite` | OpenPositionsSolution/OpenPositionsApp/Repositories/PositionRepo.cs:130-141 | Overwriting the row the incoming key finds stores the incoming record itself and keeps keys unique. The key finds it, and every other key is unaffected. |
| `PositionRepository.LookupAfterRemove` | OpenPositionsSolution/OpenPositionsApp/Repositories/PositionRepo.cs:61-66 | Removing the row a key finds keeps keys unique. The key then gives NullResult, and every other key finds what it found before. |
| `PositionRepository.PositionRepo.Add` | OpenPositionsSolution/OpenPositionsApp/Repositories/PositionRepo.cs:36-46 | On an initialised store, appends the item under the database-assigned key, returns it and keeps keys unique. On a missing table, returns Database and changes nothing. |
| `PositionRepository.PositionRepo.Get` | OpenPositionsSolution/OpenPositionsApp/Repositories/PositionRepo.cs:83-94 | Returns Lookup of the key over the current table. |
| `PositionRepository.PositionRepo.GetAll` | OpenPositionsSolution/OpenPositionsApp/Repositories/PositionRepo.cs:104-115 | Returns ListAll over the current table. |
| `PositionRepository.PositionRepo.Update` | OpenPositionsSolution/OpenPositionsApp/Repositories/PositionRepo.cs:126-147 | Fails exactly when Get of the incoming key fails, with the same error and no change. Otherwise it replaces only the matched row with its overwritten value and returns that value. |
| `PositionRepository.PositionRepo.Delete` | OpenPositionsSolution/OpenPositionsApp/Repositories/PositionRepo.cs:57-72 | Returns what Get of the key returned. On success it removes exactly the matched row and keeps the rest in order. On failure it changes nothing. |
| `Services.TranslateAll` | OpenPositionsSolution/OpenPositionsApp/Services/PositionService.cs:91-97 | Succeeds exactly when every record translates, with the same length and each element the translation of the record at that index. Which error a failure carries is stated by `TranslateAllFirstFailure` and `TranslateAllFailsAt`. |
| `Services.TranslateAllFirstFailure` | OpenPositionsSolution/OpenPositionsApp/Services/PositionService.cs:93-97 | A failed translation of the list carries the error of some record, and every record before that one translates. |
| `Services.TranslateAllFailsAt` | OpenPositionsSolution/OpenPositionsApp/Services/PositionService.cs:93-97 | If record i is the first whose translation fails, the whole list fails with exactly that record's error. |
| `Services.AllPositionDtos` | OpenPositionsSolution/OpenPositionsApp/Services/PositionService.cs:89-101 | A missing table gives Database and an empty table gives NullResult. The result succeeds exactly when the table is non-empty and every record translates. It then has the table's length and order, each element translated. |
| `Services.NonNullNames` | OpenPositionsSolution/OpenPositionsApp/Services/PositionService.cs:133-136 | A string is in the list exactly when some row carries it as its name. The list is empty exactly when every name is null. |
| `Services.NonNullNamesAppend` | OpenPositionsSolution/OpenPositionsApp/Services/PositionService.cs:133-136 | The filter distributes over concatenation, so table order is kept. |
| `Services.NonNullNamesWhenAllPresent` | OpenPositionsSolution/OpenPositionsApp/Services/PositionService.cs:133-136 | With no null name, the list is exactly the names, row by row. |
| `Services.GetAllLocations` | OpenPositionsSolution/OpenPositionsApp/Services/PositionService.cs:130-140 | A store failure is returned unchanged. A result is the non-null names in order and is never empty. On a readable table, the call succeeds exactly when some row has a non-null name. On an initialised table, NullResult holds exactly when every name is null. |
| `Services.GetAllLocationsWithNullNames` | OpenPositionsSolution/TestOpenpositions/UnitTest1.cs:439-492 | Two rows with null names give NullResult. A named row followed by a null-named row gives that one name. |
| `Services.AddedRecordTranslates` | OpenPositionsSolution/OpenPositionsApp/Services/PositionService.cs:43-45 | The record Add stores always translates back, so Add never fails after the table has changed. |
| `Services.GetAfterAdd` | OpenPositionsSolution/OpenPositionsApp/Services/PositionService.cs:39-47 | After Add, Get of the assigned key returns the added DTO. Its key is the assigned one, the six other fields are as given, and the location is as given ignoring case. |
| `Services.GetAfterUpdate` | OpenPositionsSolution/OpenPositionsApp/Services/PositionService.cs:112-120 | After Update, Get of the same key returns the translation of the incoming record. |
| `Services.AddChennaiScenario` | OpenPositionsSolution/TestOpenpositions/UnitTest1.cs:33-92 | With Chennai seeded as location 1, "Chennai" and "chennai" both resolve to 1. The DTO becomes a record with location id 1, and the record stored under key 1 comes back as the same DTO with key 1. |
| `Services.PositionService.Add` | OpenPositionsSolution/OpenPositionsApp/Services/PositionService.cs:39-47 | A null location gives NullResult and leaves the store unchanged. A conversion failure is returned unchanged with the store untouched, and so is a missing table. Otherwise exactly the converted record is appended under the assigned key, and its translation is returned and succeeds. |
| `Services.PositionService.Delete` | OpenPositionsSolution/OpenPositionsApp/Services/PositionService.cs:58-63 | Returns the translation of the store's Get result. A store failure passes unchanged. Exactly the matched row is removed, or nothing on failure. |
| `Services.PositionService.Get` | OpenPositionsSolution/OpenPositionsApp/Services/PositionService.cs:74-79 | Returns the translation of Lookup of the key. Store failures pass unchanged. |
| `Services.PositionService.GetAll` | OpenPositionsSolution/OpenPositionsApp/Services/PositionService.cs:89-101 | Returns AllPositionDtos of the current table. The foreach loop is proved against it. |
| `Services.PositionService.Update` | OpenPositionsSolution/OpenPositionsApp/Services/PositionService.cs:112-120 | A null location gives NullResult and leaves the store unchanged. Conversion and lookup failures are returned unchanged with no change. Otherwise the row with the DTO's key becomes the converted record, and its translation is returned. |

## Left out

- The HTTP controller (`PositionController.cs`), `Program.cs` wiring, authorisation, logging and status-code mapping are not part of this model. They are framework plumbing.
- Asynchronous execution (`async`/`await`) is left out. Every call is modelled sequentially, and nothing runs concurrently.
- The ORM is not modelled. `ToListAsync`, `FirstOrDefaultAsync`, `Add`, `Remove` and `SaveChangesAsync` become operations on an in-memory sequence. A failure raised by the database connector is not modelled, so `Database` arises only where the code itself raises it: a missing context or table in the position store, and a missing `Locations` table in the location store.
- LocationRepository.GetAll: a null database context is not represented. The code at LocationRepo.cs:37 dereferences the context without checking it, so a null context throws a NullReferenceException rather than the DatabaseException its doc-comment promises. `LocationTable.initialised` stands only for a null `Locations` set.
- PositionRepository.PositionRepo.Add: the key is assigned by the database, which the code does not show. The model takes that key as the parameter `assignedId`, and its requires clause says the key is unused. Any key the incoming record carries is ignored.
- EF change tracking and aliasing are not modelled. Get returns the tracked entity and Update mutates that same object. The model replaces the matched row by its overwritten value in the sequence.
- The navigation property `OpenPosition.Locations` is not modelled. It is an ORM reference that Update does not copy.
- The summary DTO `PositionDTO.cs` is not modelled. Only the controller uses it, to carry a key for Delete.
- `ToLower()` is modelled as ASCII case folding. Culture-sensitive folding of other characters is not modelled.
- The whitespace test of `[Required]` is modelled over ASCII white space only.
- `[MinLength]` is modelled over characters, not UTF-16 code units, so a string with characters outside the Basic Multilingual Plane is measured differently.
- Models.Valid is a standalone predicate. No code path of the service or the stores calls a validator, so it is neither a precondition nor a postcondition of Add or Update.
- Integers are unbounded. The code does no arithmetic on `int` keys, ids or experience, so 32-bit width plays no part.
- Null checks that are dead in the code are left out. Examples are `locations != null` after the location store's `GetAll`, and `position != null` after the position store's `Get`. Those calls return a value or throw. The service's own `list.Count > 0` check in GetAll is kept, as the code has it.
- The message strings of `Messages.cs` and of `NullResultException` and `InvalidLocationException` are not modelled. Only the `DatabaseException` messages are kept, as `DefaultDatabaseMessage` and `ContextNotInitialized`.
- The foreign-key rule that every stored position's location id resolves is not modelled as an invariant. The code does not enforce it. Services.AddedRecordTranslates shows that Add never violates it.
