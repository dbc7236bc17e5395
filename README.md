# URL shortener storage layer, in Dafny

This project models the storage layer of a small URL-shortening service. A long
URL is stored under a short alias, and an alias resolves back to its URL. All of
that state sits in one SQLite table, `urls(id, alias, url)`. The storage layer
(`internal/database/db/db.go`) has a handle type `DB` with three operations.
Each one turns what the store signals into a small closed set of outcomes:

- `SaveURL(url, alias)` inserts a row and returns its new id. A UNIQUE violation on
  `alias` becomes `ErrURLExists`.
- `GetURL(alias)` returns the URL stored under the alias. "No rows" becomes
  `ErrURLNotFound`.
- `DeleteURL(alias)` removes the alias's row. Zero affected rows becomes
  `ErrURLNotFound`.

Also modelled: `createTable`, the schema initialisation. It runs two
`IF NOT EXISTS` statements in order.

The project has two modules:

- `UrlsTable` (`urls_table.dfy`) is the SQLite side. The table is a sequence of
  rows. `WellFormed` covers the schema's constraints: unique aliases, unique ids,
  and ids in SQLite's ROWID range. Each of the three prepared statements is a
  pure function on the rows: `ExecInsert`, `QueryUrl` and `ExecDelete`. New ids
  are assigned the way SQLite does it for an `INTEGER PRIMARY KEY` without
  `AUTOINCREMENT`: one more than the largest live id, and 1 for an empty table.
  The lemmas relate the statements to each other: round trips, what is left
  unchanged, conflicts, and delete undoing insert.
- `Storage` (`storage.dfy`) is `db.go` itself. It holds the error kinds, and the
  class `DB` whose fields are the store's state: `tableExists`, `indexExists`
  and `rows`. Its methods `CreateTable`, `SaveURL`, `GetURL` and `DeleteURL`
  follow the Go code branch by branch. `CreateTable` keeps the Go loop over the
  schema queries.

Driver calls can fail for reasons outside the program: `Prepare`, `Exec`,
`QueryRow`/`Scan`, `LastInsertId` and `RowsAffected`. The model does not pick
such a failure nondeterministically. Instead, each operation takes a `fault`
parameter that names the call that fails in this run. Every such failure is the
generic error `ErrStore`. The contracts say exactly what the table holds in
each case:
- A failed `Prepare` ran nothing, so the table is unchanged.
- A failed `Exec` leaves the table unchanged, because a SQLite statement is atomic.
- A failed `LastInsertId` or `RowsAffected` comes after the statement took
  effect. `SaveURL` can then report `ErrStore` even though the row was inserted.
  `DeleteURL` can report it even though the row was removed.

A statement on a store without the `urls` table fails at `Prepare` ("no such
table"). The model follows the code here too: that is `ErrStore`.

Three points about the stored data and the errors:

- Ids can be reused. The schema has no `AUTOINCREMENT`, so deleting the row
  with the largest id lets the next insert take that id again.
  `UrlsTable.RowidReused` shows this on a concrete sequence of statements.
- Empty aliases and URLs are accepted. Go strings are never NULL, so
  `NOT NULL` admits `""`. Nothing in `SaveURL` checks for emptiness, and
  `ExecInsert` accepts any string.
- `SaveURL` wraps `ErrURLExists` with the operation name, while `GetURL` and
  `DeleteURL` return `ErrURLNotFound` unwrapped. The model keeps only the kind.

## Model

| member | source | states |
|---|---|---|
| UrlsTable.MaxId | internal/database/db/db.go:43 | the result is at least every live id, and it is either 0 or the id of some row |
| UrlsTable.NextRowid | internal/database/db/db.go:43 | an id is chosen exactly when the largest live id is below 2^63-1, and it is then that largest id plus one (1 for an empty table): in range, and greater than, so different from, every live id; no id is chosen only when some row already holds the largest ROWID |
| UrlsTable.Find | internal/database/db/db.go:83-90 | a row is found exactly when some row has the alias, and the row found has that alias and is in the table |
| UrlsTable.FindUnique | internal/database/db/db.go:44 | under the UNIQUE constraint, the lookup returns the one row holding the alias |
| UrlsTable.Remove | internal/database/db/db.go:105-111 | the rows left are rows of the table without the alias, and every row with another alias is kept |
| UrlsTable.ExecInsert | internal/database/db/db.go:42-46 | the insert is rejected with the UNIQUE code exactly when the alias is present; it fails with SQLITE_FULL exactly when the alias is absent and no rowid is left; it is accepted exactly when the alias is absent and the largest id is below 2^63-1, and then it appends exactly one row (id, alias, url) with id = largest live id + 1, greater than every other id; an accepted insert keeps the table well formed |
| UrlsTable.QueryUrl | internal/database/db/db.go:83-90 | a URL is answered exactly when some row has the alias, and it is that row's URL |
| UrlsTable.ExecDelete | internal/database/db/db.go:105-115 | afterwards no row has the alias, rows with other aliases are all kept, no row is added, and the affected count is the number of rows removed |
| UrlsTable.FindAppend | internal/database/db/db.go:64 | appending a row with another alias does not change what the lookup of an alias finds |
| UrlsTable.FindRemove | internal/database/db/db.go:111 | deleting one alias does not change what the lookup of a different alias finds |
| UrlsTable.RemoveAbsent | internal/database/db/db.go:111 | deleting an alias that no row has leaves the table exactly as it was |
| UrlsTable.RemoveWellFormed | internal/database/db/db.go:42-46 | deleting rows keeps aliases unique, ids unique and ids in range |
| UrlsTable.RemoveCount | internal/database/db/db.go:44 | under the UNIQUE constraint, a delete removes exactly one row when the alias is present and none otherwise |
| UrlsTable.RemoveAppend | internal/database/db/db.go:111 | deleting the alias of the last row removes it together with every earlier row with that alias |
| UrlsTable.RemoveLast | internal/database/db/db.go:111 | deleting the alias of a just-appended row whose alias was new gives back exactly the earlier rows |
| UrlsTable.DeleteWellFormed | internal/database/db/db.go:115-121 | the delete keeps the table well formed, and reports 1 affected row when the alias was present and 0 otherwise |
| UrlsTable.DeleteAbsent | internal/database/db/db.go:115-121 | a delete of an absent alias affects 0 rows and leaves the table unchanged |
| UrlsTable.InsertThenQuery | internal/database/db/db.go:56-99 | round trip: after an accepted insert of (url, alias), the lookup of alias answers exactly url |
| UrlsTable.InsertKeepsOthers | internal/database/db/db.go:56-77 | an accepted insert does not change the lookup answer of any other alias |
| UrlsTable.InsertTwice | internal/database/db/db.go:64-70 | a second insert under an alias just inserted is rejected with the UNIQUE code, whatever its url |
| UrlsTable.DeleteThenQuery | internal/database/db/db.go:83-111 | after the delete of an alias, its lookup finds nothing |
| UrlsTable.DeleteKeepsOthers | internal/database/db/db.go:105-111 | the delete of an alias does not change the lookup answer of any other alias |
| UrlsTable.InsertThenDelete | internal/database/db/db.go:58-115 | delete undoes insert: deleting the alias just inserted affects 1 row and restores the table exactly |
| UrlsTable.RowidReused | internal/database/db/db.go:43 | ids can repeat: insert a, insert b (id 2), delete b, and the next insert gets id 2 again |
| Storage.SaveExecError | internal/database/db/db.go:66-71 | a failed insert is ErrURLExists exactly when the driver reports a SQLite error with the UNIQUE-constraint extended code; every other failure is the generic error, never ErrURLNotFound |
| Storage.DB.Open | internal/database/db/db.go:12-14 | a handle on a store in a given well-formed state |
| Storage.DB.ExecSchema | internal/database/db/db.go:42-50 | `CREATE TABLE IF NOT EXISTS` always succeeds and leaves an existing table as it is; `CREATE INDEX IF NOT EXISTS` succeeds exactly when the table exists; a failing Exec changes nothing; rows are never touched |
| Storage.DB.CreateTable | internal/database/db/db.go:39-55 | succeeds exactly when neither schema statement fails; never changes the rows; on success the table and its index exist; on an initialised store it changes nothing at all |
| Storage.DB.SaveURL | internal/database/db/db.go:56-78 | a Prepare or Exec failure gives the generic error with the table unchanged; otherwise, with the alias present the result is ErrURLExists and nothing changes; with it absent and the largest live id below 2^63-1, exactly one row (id, alias, url) is appended with id = largest live id + 1, and with no fault the call returns Ok of that id (a LastInsertId failure gives the generic error after the row was appended); with it absent and a row already at id 2^63-1, the insert fails with SQLITE_FULL, which is the generic error, and nothing changes; the table stays well formed; the result is never ErrURLNotFound |
| Storage.DB.GetURL | internal/database/db/db.go:80-100 | returns a URL exactly when a row has the alias, and it is that row's URL; ErrURLNotFound exactly when no row has it; the generic error on a driver failure; it never changes the store |
| Storage.DB.DeleteURL | internal/database/db/db.go:102-124 | a Prepare or Exec failure gives the generic error with the table unchanged; otherwise the alias's row is removed and every other row is kept; nil exactly when the alias was present, so exactly one row was removed; ErrURLNotFound exactly when it was absent, and then the table is unchanged; the table stays well formed |
| Storage.Scenario | internal/database/db/db.go:39-124 | on a fresh store: initialisation succeeds, Save("https://example.com", "ex1") returns id 1, Get("ex1") returns that URL, a second Save under "ex1" is ErrURLExists, Delete("ex1") succeeds, and a later Get("ex1") is ErrURLNotFound |
| Storage.InitTwice | internal/database/db/db.go:39-55 | running createTable twice on an existing table succeeds both times and keeps exactly the rows that were there |

## Left out

- `NewDB` (`sql.Open`, `Ping`, `Close` on a failed ping): this is connection
  lifecycle and I/O. The constructor `DB.Open` abstracts it as a handle on a
  store in a given state. The missing `Close` after a failed `createTable` is a
  resource leak, not a property of the table.
- `stmt.Close` and `defer`: releasing a resource has no effect on the table.
- The `op` prefixes that `fmt.Errorf` wraps errors with. Only the error kind is kept.
- The index `idx_alias`: it affects only speed. The model records only whether it exists.
- Concurrency and SQLite's locking. Operations are sequential, so "concurrent
  saves under one alias" is modelled as two saves in a row
  (`UrlsTable.InsertTwice`).
- UrlsTable.NextRowid: when the largest ROWID is already 2^63-1, SQLite tries
  random unused ROWIDs before it gives up with SQLITE_FULL. The model fails
  with SQLITE_FULL at once.
- Storage.DB.Open: the store is assumed to have been written only by this
  program, so every id is in 1..2^63-1 (`IdsInRange`). SQLite also admits rows
  written with an explicit ROWID of 0 or below; for such a table SQLite would
  give the next row max+1 even when that is not positive, while the model gives 1.
- Storage.DB.GetURL: a failure of `QueryRow`/`Scan` is one driver fault. Both
  `ExecFails` and `ResultFails` map to it, and a driver fault takes precedence
  over "no rows".
- The two-state life cycle of a handle (closed / open) is not modelled.
  Statements on a store without the table fail as `Prepare` would.
- Logging (`pkg/logger/logger.go`), configuration loading
  (`internal/config/config.go`), the wiring in `cmd/main.go` and the request and
  response shapes in `internal/handlers/save.go`: none of them has behaviour
  that touches the table. Alias generation does not exist in the code.
