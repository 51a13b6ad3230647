# Dynamic mock engine — a Dafny model

This project models the mock engine of a small Express server (`server.js`). Operators
register a mock by method and path with a JSON response template. A mock may also name a
CSV file whose rows are cycled round robin into the replies, and may set a simulated
delay. Every request whose path (Express's `req.path`, without the query string) is not the
root page and does not start with `/_admin` is looked up under the key `METHOD:PATH`:

- A miss gets a 404.
- A hit counts the request, records the hit time, spreads the next CSV row over the
  template, moves the cursor on (wrapping at the end) and schedules the reply after a
  jittered delay.

The registry is written to a backup file after every successful add and every remove; a
rejected add writes nothing. At start-up it is
reloaded from that file with every counter reset.

Modules, leaf first:

- `Wrappers` (`wrappers.dfy`): `Option` and `Result`.
- `Json` (`json.dfy`): JSON values, CSV rows, and the object spread `{ ...base, ...row }`.
- `Mocks` (`mocks.dfy`): one mock. Its configuration and stored record; key construction;
  CSV loading through a loader parameter; the cursor step of one dispatch; the reply body,
  status and delay; consecutive dispatches and their round-robin lemmas.
- `Tables` (`tables.dfy`): the registry's contents as a value, meaning the key-to-record map
  plus the insertion order that a JavaScript `Map` keeps. Also insert and delete, the
  backup snapshot, the reload fold, and the save-then-load round trip.
- `Server` (`server.dfy`): the `Registry` class. Its `entries` map and `order` sequence are
  updated in place by `Add`, `Remove`, `Hydrate` and `Dispatch`; `List` reads them. The
  module ends with the two-row `GET /users` example.

Inputs the program gets from outside are parameters:

- CSV file contents: a loader `string -> CsvLoad` that says missing, parsed rows, or
  malformed.
- The clock reading: `now` for one dispatch, and one reading per request for a run of
  consecutive dispatches.
- The random jitter: an integer standing for `r * (deviation || 0)`, with `r` in [-1, 1]. The
  source draws `r` from `Math.random() * 2 - 1`, in [-1, 1), so the model admits a slightly
  wider range.
- Whether the backup write succeeds: `writeOk`.

Behaviour of `server.js` that the model follows as written:

- A saved record holds everything: configuration, rows and counters. The reload overrides
  the rows and counters (`Tables.RestoreReadsConfigs` shows that they cannot matter).
- The add route does not check that a path is present. A missing path gives the key
  `METHOD:undefined`. Only a missing method fails, because upper-casing it throws.
- A CSV file that does not parse makes the add route answer 500 and change nothing. During
  the start-up reload the same error stops the loop, and it stops the start-up too.
- A CSV file that is missing gives a mock with no rows.
- Reading the row and advancing the cursor happen in one synchronous step. The model
  treats each dispatch as one atomic step.

## Model

| member | source | states |
|---|---|---|
| `Json.Overlay` | server.js:105 | the merged object has the fields of both; each row column gives its cell text, and every other field keeps its template value |
| `Json.OverlayOneColumn` | server.js:105 | a one-column row adds or replaces exactly that field |
| `Mocks.Upper` | server.js:63 | the upper-cased method has the same length, and each character is upper-cased in place |
| `Mocks.UpperNoLower` | server.js:63 | an upper-cased method has no lower-case letter, and has colons exactly where the input had them |
| `Mocks.KeyInjective` | server.js:63 | when neither verb has a colon, `verb:path` determines both the verb and the path |
| `Mocks.KeyOf` | server.js:63 | the stored key (built the same way by the reload at server.js:37) is the upper-cased posted method, one colon, then the path text, with `undefined` for an absent path |
| `Mocks.LowerCaseVerbMisses` | server.js:90-93 | the lookup does not upper-case, so a request verb with a lower-case letter (and, as an HTTP method token, no colon) never matches a key made by the add route, whatever method was posted, colons included |
| `Mocks.LoadRows` | server.js:64-71 | no row data without a truthy file reference or when the file is missing; the loader's rows when it parses; a failure exactly when parsing throws |
| `Mocks.Fresh` | server.js:72 | a freshly stored record keeps the configuration and rows, has cursor 0, hits 0 and no last hit, and meets the cursor invariant |
| `Mocks.Stored` | server.js:37 | the record stored for an admissible configuration is initial: rows from the loader, counters reset |
| `Mocks.Selected` | server.js:103-104 | a row is selected exactly when the rows are non-empty, and it is the row at the cursor |
| `Mocks.Body` | server.js:102-105 | the body has the template's fields plus the selected row's columns; row columns win, other fields keep the template value; with no rows the body is the template |
| `Mocks.Advance` | server.js:99-106 | one dispatch adds exactly one hit and sets the hit time; with rows the cursor becomes `(cursor + 1) % n`, without rows it stays; the cursor invariant is kept; configuration and rows are unchanged |
| `Mocks.ReplyFor` | server.js:102-110 | the reply built before the cursor moves: the status is never 0, a positive delay is `avgDelay + jitter`, and the body is the template, or the template with the row at the cursor spread over it |
| `Mocks.Hit` | server.js:99-110 | serving a request step by step, as the middleware does, ends in exactly the dispatch step `Advance` and the reply `ReplyFor` |
| `Mocks.Status` | server.js:110 | the status is never 0: it is the configured code when that is truthy, and 200 otherwise |
| `Mocks.Delay` | server.js:109-110 | the delay is never negative, never below `avgDelay + jitter`, and equals `avgDelay + jitter` whenever it is positive |
| `Mocks.DelayBounds` | server.js:109-110 | for a jitter the draw can produce, the delay is at least `avg - abs(dev)`, at most `max(0, avg + abs(dev))`, and at most `avg + dev` when both are non-negative |
| `Mocks.Iterate` | server.js:99-106 | consecutive dispatches, one per clock reading, keep the cursor invariant, the configuration and the rows |
| `Mocks.IterateStep` | server.js:99-106 | one more request at reading `t` after a run is exactly the dispatch step `Advance` at `t` applied to the state the run left, as successive `Dispatch` calls do |
| `Mocks.IterateLastHit` | server.js:100 | after a non-empty run the recorded hit time is the reading of the last request |
| `Mocks.IterateCounters` | server.js:99-106 | after `k` dispatches, whatever the clock readings, the hit count has grown by `k`; the cursor has moved `k` rows on modulo `n`, or stayed when there are no rows |
| `Mocks.CycleRestoresCursor` | server.js:106 | `n` dispatches to a mock with `n` rows, at any clock readings, bring the cursor back to where it started |
| `Mocks.BodiesInOrder` | server.js:102-106 | the `i`-th of consecutive dispatches merges the row `i` places after the cursor, wrapping; without rows every body is the template |
| `Mocks.CyclePositionsDistinct` | server.js:106 | within one round, an earlier and a later run of requests from the same state leave different cursors, so no two requests of the round are served the same row |
| `Mocks.FirstRoundInOrder` | server.js:102-106 | from the first row, the `i`-th request of the first round gets row `i` spread over the template |
| `Mocks.FreshCycle` | server.js:72-106 | a freshly stored mock serves its rows in file order, one per dispatch at any clock readings, and is back at the first row after a full round |
| `Tables.Put` | server.js:72 | `Map.set`, as the add route and the reload at server.js:37 call it: the key gets the new record and every other entry is kept; an existing key keeps its place in the order, a new one goes last |
| `Tables.PutValid` | server.js:72 | storing a well-formed record under its key keeps the registry invariant |
| `Tables.AdvanceValid` | server.js:99-106 | dispatching to a stored mock keeps the registry invariant |
| `Tables.Without` | server.js:82 | deleting never lengthens the order, and deleting an absent key leaves it unchanged |
| `Tables.WithoutMembers` | server.js:82 | the order loses exactly the deleted key and keeps every other key; a duplicate-free order stays duplicate-free |
| `Tables.WithoutOnly` | server.js:82 | deleting a key that occurs only at position `p` leaves the keys before and after it, in order |
| `Tables.WithoutAt` | server.js:82 | deleting the key at position `p` keeps the keys before and after it in their order |
| `Tables.Drop` | server.js:82 | `Map.delete`: the key leaves the entries and the order, and every other entry is kept |
| `Tables.DropValid` | server.js:82 | deleting keeps the registry invariant, leaves the key absent, and changes nothing when the key was absent |
| `Tables.Snapshot` | server.js:24 | the snapshot lists the records in insertion order, one per key, and each record's configuration rebuilds its key |
| `Tables.Restore` | server.js:31-38 | the reload loop over the backup never loses a key already present, keeps the existing order as a prefix, and completes at once on an empty backup |
| `Tables.RestoreValid` | server.js:31-38 | reloading any backup keeps the registry invariant |
| `Tables.RestoreInitial` | server.js:31-38 | every reloaded record has its counters reset and its rows from the loader, whatever the backup carried |
| `Tables.RestoreComplete` | server.js:31-38 | the reload stores every record exactly when every record has a method and its CSV reference is absent, names a missing file, or names a file that parses |
| `Tables.RestoreAppend` | server.js:37 | a record later in the backup overwrites an earlier one with the same key; an inadmissible record stops the reload |
| `Tables.RestoreConcat` | server.js:31-38 | reloading a backup in two parts is reloading the first part and then, if it completed, the second from where it left off; an abort in the first part ends the reload there |
| `Tables.RestoreReadsConfigs` | server.js:37 | the reload reads only configurations, so the saved rows and counters cannot affect it |
| `Tables.SaveLoadRoundTrip` | server.js:23-41 | saving then reloading gives the same keys in the same order and the same configurations, with fresh counters and re-read rows |
| `Server.Bypassed` | server.js:89 | a path is passed on exactly when it is `/` or starts with `/_admin` |
| `Server.Registry.constructor` | server.js:20 | the registry starts empty |
| `Server.Registry.Hydrate` | server.js:28-41 | the registry after the reload loop is the reload fold over the backup; `ok` is true exactly when the fold completes |
| `Server.Registry.Add` | server.js:60-78 | a missing method or a malformed CSV file answers 500 and changes nothing; otherwise the key maps to a fresh record, every other key is unchanged, and a new key goes last in the order; then 201 and the snapshot written, or 500 when the write fails |
| `Server.Registry.Remove` | server.js:81-85 | the key is absent afterwards and every other entry is untouched; an absent key changes nothing; then the snapshot is written |
| `Server.Registry.List` | server.js:80 | the listing is the records in insertion order |
| `Server.Registry.Dispatch` | server.js:88-111 | the root page and `/_admin…` pass through unchanged; a miss on the exact `verb:path` key gives 404 and changes nothing; a hit replies with the mock's status, merged body and delay, and replaces only that mock, with its dispatch step applied |
| `Server.UsersStored` | server.js:63-93 | the `GET /users` configuration is admissible, is stored under `GET:/users`, the key a `GET /users` request looks up and does not bypass, and its record holds both rows with the counters at zero |
| `Server.UsersRoundRobin` | server.js:102-106 | three requests to the two-row `GET /users` mock, at any three clock readings, get row 1, row 2 and row 1 again, each spread over the template |

## Left out

- Express routing and middleware (`express.json`, `express.static`, file upload), the upload
  and health routes, and starting the HTTP and HTTPS servers: these are I/O plumbing. A file
  under `public/` that the static handler serves first is not modelled.
- File-system calls and JSON text: the backup is a sequence of records, and whether writing
  it succeeds is the `writeOk` parameter. When a remove's write fails, the resulting 500
  comes from Express's default error handler.
- CSV parsing is a foreign library call; the loader parameter stands for reading and
  parsing a file.
- `setTimeout` and requests in flight at the same time: the model computes the delay but not
  the asynchronous timing.
- `Math.random` and floating-point numbers: the jitter is an integer parameter, and all JSON
  numbers are integers.
- `toLocaleTimeString`: the hit time is an opaque string parameter.
- Payload logging and console output.
- Configuration fields have fixed types in the model. A string `avgDelay` or `deviation`
  (which JavaScript would concatenate at server.js:109, so `"100" + 12.5` gives
  `"10012.5"`), a method that is not a string (which throws when upper-cased at server.js:63
  and server.js:37), and a truthy `csvFile` that is not a string (which throws in
  `path.join` at server.js:66 and server.js:33) are not modelled.
- Mocks.Upper: upper-cases ASCII letters only, not the full Unicode mapping of `toUpperCase`.
- Fields of a posted configuration beyond method, path, responseBody, statusCode, avgDelay,
  deviation and csvFile are not modelled. A responseBody that is present but not an object
  is not modelled either; an absent one is the empty object.
- JSON objects are maps, so the field order of an emitted body is not modelled.
- Only the status of the admin routes' answers is modelled, not their message bodies.
- Node's range check on status codes is not modelled.
- A remove request without a `key` behaves like one whose key is not registered, so it is
  not modelled separately.
- A stored record is a value in the map, so a dispatch replaces the entry rather than
  changing a shared object. The only other holder of that object is the pending reply, and
  it reads only `statusCode`, which a dispatch never changes.
- When the start-up reload throws, the process ends. The model stops the loop with
  `ok == false` and says which records were stored before that.
