# Read-through profile cache: a Dafny model

This project models the core of a small Spring WebFlux service. The service puts a
persistent audit table (`users_audit`) in front of a remote user-profile service
(JSONPlaceholder's `GET /users/{id}`). The core is `UserService` in
`SpringDataJdbcApplication.java`:

- `getUserById(id)` is the read-through lookup. It parses the path id with
  `Integer.valueOf` and reads the row whose primary key is that number. A
  missing row becomes the all-null sentinel `UserAudit(null, null, null)`.
  If the row holds a profile, the lookup serves it. Otherwise it fetches the
  raw id from upstream. A fetch error becomes `UserNotFoundException` with
  the upstream's message. A fetched profile is saved as a new row, with the
  primary key unset and `userId` set to the parsed id, and the saved row's
  profile is returned.
- `getAllDbUsers()` and `getDbUserById(id)` are the administrative queries.

The model is one sequential run of each pipeline:

- `Domain` holds the records `User`, `Address`, `Company`, `Geo` and `UserAudit`.
- `JavaInteger` is `Integer.valueOf`, together with `Integer.toString` as its inverse.
- `AuditStore` has two parts. The `Table` value gives the repository's
  semantics: `findById`, `findAll`, and `save` with a 32-bit id sequence.
  The `UserAuditRepository` class holds that state in fields and updates it
  in place in `Save`.
- `PlaceholderClient` models the upstream as a fixed function from id to
  answer. A ghost log records each request that is actually sent.
- `Service` has three parts:
  - `ReadThrough` is the lookup protocol as a function of the table, the
    upstream and the id.
  - The lemmas about `ReadThrough` state the protocol's properties.
  - The `UserService` class has the method `GetUserById`. It is proved to
    produce exactly `ReadThrough`'s reply, new table and requests.

The hit check reads by primary key, while the miss path writes the requested
id into `userId`. The model keeps this mismatch as written (see Findings).

## Model

| member | source | states |
|---|---|---|
| JavaInteger.ValueOf | src/main/java/net/samitkumar/spring_data_jdbc/SpringDataJdbcApplication.java:101-102 | A string is accepted exactly when it is an optional sign followed by one or more decimal digits whose signed value lies in the 32-bit range. The key is that signed value. Anything else, including an out-of-range numeral, is a NumberFormatException. |
| JavaInteger.OverflowRejected | src/main/java/net/samitkumar/spring_data_jdbc/SpringDataJdbcApplication.java:101-102 | "2147483648" (one past the largest int) is rejected, while "-2147483648" is accepted as the smallest int. |
| JavaInteger.ValueOfToString | src/main/java/net/samitkumar/spring_data_jdbc/SpringDataJdbcApplication.java:101-102 | Every 32-bit integer is parsed back from its decimal text (the inverse of Integer.toString). |
| JavaInteger.LeadingZeroIgnored | src/main/java/net/samitkumar/spring_data_jdbc/SpringDataJdbcApplication.java:101-102 | A leading zero before a non-empty digit string does not change the parsed key. |
| Service.LeadingZeroLookup | src/main/java/net/samitkumar/spring_data_jdbc/SpringDataJdbcApplication.java:101-107 | Path ids "0"+s and s share a cache key: one misses exactly when the other does, and on a miss the upstream is asked for the raw string "0"+s. |
| AuditStore.Table.FindById | src/main/java/net/samitkumar/spring_data_jdbc/SpringDataJdbcApplication.java:127 | findById fails exactly when the read fails. Otherwise it finds a row exactly when the key is present, and returns the row under that key. On a valid table, that row carries the key as its id. |
| AuditStore.Table.ListedCoversRows | src/main/java/net/samitkumar/spring_data_jdbc/SpringDataJdbcApplication.java:115 | The listing behind findAll contains every stored row. |
| AuditStore.Table.FindAll | src/main/java/net/samitkumar/spring_data_jdbc/SpringDataJdbcApplication.java:115 | findAll fails exactly when the read fails. Otherwise it returns the listing: the stored rows in ascending primary-key order. |
| AuditStore.Table.Save | src/main/java/net/samitkumar/spring_data_jdbc/SpringDataJdbcApplication.java:110 | An entity with an unset id is inserted under a fresh key, the next sequence value. It is returned with that id, and the sequence advances. The insert fails when the sequence is exhausted or its next value is already a key. An entity with an id replaces the row under that same id and is returned unchanged; it fails when that row is missing. A failed save changes nothing. The table invariant is kept. |
| AuditStore.UserAuditRepository.Save | src/main/java/net/samitkumar/spring_data_jdbc/SpringDataJdbcApplication.java:110 | The in-place save yields the same result and new state as Table.Save, and keeps the invariant. |
| PlaceholderClient.JsonPlaceholderClient.GetUserById | src/main/java/net/samitkumar/spring_data_jdbc/SpringDataJdbcApplication.java:86-90 | Returns the upstream's answer for the id and logs exactly one request for it. |
| Service.ReadThrough | src/main/java/net/samitkumar/spring_data_jdbc/SpringDataJdbcApplication.java:100-112 | At most one upstream request, for the raw id. The table changes only after a successful fetch, and then the reply is the fetched profile. UserNotFound comes only from a failed fetch and never comes with a write. The table invariant is kept. |
| Service.NumberFormatFirst | src/main/java/net/samitkumar/spring_data_jdbc/SpringDataJdbcApplication.java:101-102 | A non-numeric id fails with NumberFormatException before any read, fetch or write. |
| Service.ReadFailurePropagates | src/main/java/net/samitkumar/spring_data_jdbc/SpringDataJdbcApplication.java:101-102 | A failing read propagates untranslated, with no fetch and no write. |
| Service.CacheHit | src/main/java/net/samitkumar/spring_data_jdbc/SpringDataJdbcApplication.java:101-106 | If the row under the parsed primary key holds a profile, that profile is served. Nothing is fetched and the table is unchanged. |
| Service.FetchAndSave | src/main/java/net/samitkumar/spring_data_jdbc/SpringDataJdbcApplication.java:106-111 | The miss path sends exactly one request, for the raw id. The table changes only when the fetch succeeded, and then the reply is the fetched profile. UserNotFound comes only from a failed fetch, with its message, and leaves the table unchanged. The table invariant is kept. |
| Service.FetchIffMiss | src/main/java/net/samitkumar/spring_data_jdbc/SpringDataJdbcApplication.java:102-106 | The upstream is asked exactly when the read succeeds but finds no row or a row with null data. |
| Service.FetchSuccessInserts | src/main/java/net/samitkumar/spring_data_jdbc/SpringDataJdbcApplication.java:106-111 | After a successful fetch and save, exactly one row is added. It sits under the next sequence value, with userId the parsed id and data the fetched profile. The reply is that profile. |
| Service.FetchFailureTranslated | src/main/java/net/samitkumar/spring_data_jdbc/SpringDataJdbcApplication.java:109 | A failed fetch ends in UserNotFound carrying the upstream's message, and the table is unchanged. |
| Service.EmptyFetchCompletesEmpty | src/main/java/net/samitkumar/spring_data_jdbc/SpringDataJdbcApplication.java:106-111 | If the upstream answers without a value, the lookup completes empty and nothing is saved. |
| Service.SaveFailureNotTranslated | src/main/java/net/samitkumar/spring_data_jdbc/SpringDataJdbcApplication.java:109-110 | A failing save surfaces as a repository failure with its own message, never as UserNotFound, and the table is unchanged. The failure is a write fault, an exhausted sequence or a duplicate key. |
| Service.RepeatLookup | src/main/java/net/samitkumar/spring_data_jdbc/SpringDataJdbcApplication.java:102-107 | After a fetch-and-save, a repeated lookup of the same id is served from the table exactly when the assigned primary key equals the parsed id, and then serves the fetched profile. Otherwise it fetches again and, while the sequence has a value left, inserts a second row with the same userId under the next key. At the end of the sequence the repeat fails with the exhausted-sequence error and adds nothing. |
| Service.IdempotentHit | src/main/java/net/samitkumar/spring_data_jdbc/SpringDataJdbcApplication.java:101-106 | Two lookups of a cached id give the same reply, with no request and no write. |
| Service.FirstLookupThenHit | src/main/java/net/samitkumar/spring_data_jdbc/SpringDataJdbcApplication.java:100-112 | On an empty table, lookup "1" fetches and stores row (1, 1, profile). A second lookup "1" is served from the table. |
| Service.UpstreamNotFound | src/main/java/net/samitkumar/spring_data_jdbc/SpringDataJdbcApplication.java:159-161 | If the upstream fails "999" with "404 Not Found", the lookup yields UserNotFound("404 Not Found") and nothing is stored. |
| Service.WrongProfileServed | src/main/java/net/samitkumar/spring_data_jdbc/SpringDataJdbcApplication.java:102-107 | On an empty table, lookup "2" stores user 2's profile under primary key 1. A later lookup "1" serves that profile without asking upstream. |
| Service.ReadThroughByUserId | src/main/java/net/samitkumar/spring_data_jdbc/SpringDataJdbcApplication.java:100-112 | In the corrected lookup, which hits on userId, a served profile is one that was stored for the requested id. Its other guarantees are those of ReadThrough. |
| Service.ByUserIdHit | src/main/java/net/samitkumar/spring_data_jdbc/SpringDataJdbcApplication.java:100-112 | With the corrected hit check, an id that has a stored profile (some row with that userId and non-null data) in a readable valid table is served from the table, with no request and no write. |
| Service.ByUserIdRepeatHits | src/main/java/net/samitkumar/spring_data_jdbc/SpringDataJdbcApplication.java:100-112 | With the corrected hit check, repeating a lookup that fetched and saved is served from the table: the same profile, no request, no write. |
| Service.UserService.constructor | src/main/java/net/samitkumar/spring_data_jdbc/SpringDataJdbcApplication.java:92-98 | The service holds the given client and repository. |
| Service.UserService.GetUserById | src/main/java/net/samitkumar/spring_data_jdbc/SpringDataJdbcApplication.java:100-112 | The method yields ReadThrough's reply on the old table. The repository ends in ReadThrough's new table, and the client's log grows by ReadThrough's requests. |
| Service.UserService.GetAllDbUsers | src/main/java/net/samitkumar/spring_data_jdbc/SpringDataJdbcApplication.java:114-117 | The result never completes empty. A read failure surfaces as itself. Otherwise the result holds every stored row, only stored rows, and no row twice. |
| Service.UserService.GetDbUserById | src/main/java/net/samitkumar/spring_data_jdbc/SpringDataJdbcApplication.java:119-122 | A non-numeric id fails with NumberFormatException. A missing row fails with NoSuchElement. Otherwise the result is the stored row whose primary key is the parsed id. It never completes empty. |

## Findings

| source | as written | input that shows it | evidently intended | confidence | as-written member | corrected member |
|---|---|---|---|---|---|---|
| src/main/java/net/samitkumar/spring_data_jdbc/SpringDataJdbcApplication.java:102 | The hit check calls `findById(Integer.valueOf(id))`, which looks up by the row's primary key. The miss path (line 107) stores the requested id in `userId` and lets the database assign the primary key. | Empty table, upstream answers "2" with profile P. lookup("2") stores row (1, 2, P). Then lookup("1") returns P without asking upstream. A repeated lookup("2") fetches again and stores a second row with userId 2. | The hit check reads the row whose `userId` is the requested id. A served profile is then one stored for that id, and a repeated lookup is served from the table. | medium, not executed | Service.WrongProfileServed | Service.ReadThroughByUserId |

The `UserService` class keeps the code as written. The corrected lookup,
`Service.ReadThroughByUserId`, is proved to serve only profiles stored for the
requested id. `Service.ByUserIdRepeatHits` proves that a repeated lookup is
then never re-fetched.

## Notes on the code

- The hit check reads by primary key (line 102), not by the `userId` column
  that the miss path writes (line 107); see Findings.
- `getDbUserById` fails with `NoSuchElementException` from `orElseThrow()`
  (line 120), not with the 404-mapped `UserNotFoundException`. The model
  returns `NoSuchElement`.

## Left out

- Spring bootstrap, bean wiring and the router functions (lines 38-77) are
  configuration and web layer. So is the HTTP status mapping of
  `UserNotFoundException`. Its no-argument constructor (lines 155-157) is
  never called by the core and is not modelled.
- The HTTP client and proxy factory (lines 43-47, 86-90) are network I/O. They
  are modelled as a fixed function from id to answer. Retries, timeouts and
  an upstream whose answer changes over time are not modelled.
- `jsonPlaceholderClient.getUserById(id)` is invoked when the pipeline is
  assembled, on every call. It only builds a lazy request, so the model
  counts a request only when the miss path subscribes to it.
- Scheduling on `Schedulers.boundedElastic()` and the check-then-act race
  between concurrent lookups are out of scope. Each lookup is modelled as
  one sequential run.
- Logging (lines 72, 104, 108) is not modelled.
- The Jackson converters (lines 129-149) are thin wrappers over a library
  whose behaviour cannot be seen. Profiles are stored as values, so there is
  no codec round trip in the model.
- `Geo`'s `Double` coordinates are carried as opaque reals. Profile string
  fields are modelled as non-null.
- The nested `Address`, `Company` and `Geo` references, which may be null in
  Java, are always present in the model, and so are the two coordinates.
- JavaInteger.ValueOf: accepts only ASCII digits. Java's `Character.digit`
  also accepts other Unicode decimal digits.
- AuditStore.Table.FindAll: lists rows in ascending primary key. The source's
  `findAll` promises no order.
- The repository's internals (SQL, transactions, connection pool) are
  abstracted as a map plus a 32-bit id sequence. The service is assumed to
  be the only writer of `users_audit`: every operation requires the table
  invariant (each row under its own key, every key drawn from the sequence),
  which another writer could break. A failed insert does not
  consume a sequence value in the model, although the database's does. The sequence is assumed to
  start at 1, the default for an auto-increment column; the schema is not
  part of the source. Read and write failures are
  environment fields with a message. The texts of `SequenceExhausted` and
  `UpdateMissing` are short stand-ins for the database's messages.
- A null exception message from the upstream is not modelled.
