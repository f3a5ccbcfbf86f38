# Asset tag counter store, in Dafny

The asset tag service hands out increasing numbers. Its only logic is the counter store in
`database.py`. The store keeps one SQLite table, `counters`. A CHECK constraint pins the table's
single key to `id = 1`, and its `current_value` defaults to 0.

- `init_database` creates the table if it is absent. It then inserts row `(1, 0)` only if that row
  is missing.
- `get_next_number` runs one `UPDATE ... SET current_value = current_value + 1 WHERE id = 1
  RETURNING current_value` and returns the value it yields.
- `get_db` wraps each of them. It commits on normal exit, and it rolls back and re-raises on any
  exception.

The project has three modules:

- `Results` (`results.dfy`): `Result` and `Outcome`, a value or the error raised instead.
- `CountersTable` (`counters_table.dfy`): the table as a value `Db` (does the table exist, and its
  rows as `id |-> current_value`). It gives the meaning of each SQL statement on that value, and the
  effect of both operations on the committed database (`InitResult`/`AfterInit`,
  `NextResult`/`AfterNext`). Lemmas cover single calls and any sequence of calls.
- `Database` (`database.py`'s own structure): the class `Connection`. Its fields hold the table as
  the connection sees it (`tableExists`, `rows`), whether a transaction is open, and the committed
  database. Each executed statement, `Commit` and `Rollback` is a method with `modifies this`.
  `FinishTransaction` is the exit of `get_db`. `InitDatabase` and `GetNextNumber` are the two
  operations. Each is proved to leave the committed database equal to the corresponding
  `CountersTable` function of the old one.

Errors are values (`Error`): `NoSuchTable`, `NoRow` for `fetchone()` returning `None` and the
indexing raising, and `StorageFailure(stmt)`. The storage layer can also raise for reasons outside
the table, such as a locked or unwritable file. Those failures are a parameter: `failing` is the set
of statements that raise.

Transactions follow Python's `sqlite3` module in its default (legacy) mode. That mode issues `BEGIN`
implicitly before `INSERT` and `UPDATE`, and never before `CREATE TABLE`. So `CREATE TABLE` commits
at once. `conn.commit()` and `conn.rollback()` do nothing when no transaction is open.

### Initialisation is not all-or-nothing

`get_db` (database.py:18-27) commits the block or rolls it back. But `CREATE TABLE` runs in
autocommit mode, before the implicit `BEGIN` of the `INSERT`, so the rollback cannot undo it. A
failure of the `INSERT` or of the `COMMIT` therefore leaves the table created but empty
(`AfterInit`, `InitFailureAddsNoRow`). In that state `get_next_number` fails with `NoRow` and hands
out nothing. The next `init_database` inserts the row.

## Model

| member | source | states |
|---|---|---|
| `CountersTable.CheckConstraintKeepsOneRow` | database.py:35-44 | An `INSERT OR IGNORE` of any id into an existing table keeps every id equal to 1, so at most one row exists. It is a no-op when the row exists or the id breaks the CHECK. |
| `CountersTable.UpdateReturnsNewValue` | database.py:50-55 | The UPDATE keeps the key set. RETURNING yields one row exactly when row 1 exists, and that row holds the new value, old + 1. |
| `CountersTable.InitOnFreshStore` | database.py:30-44 | On a file without the table, a fault-free `init_database` succeeds and leaves exactly the table with the single row (1, 0). |
| `CountersTable.InitCreatesSingleRow` | database.py:30-44 | `init_database` keeps the schema invariant. It succeeds exactly when none of CREATE, INSERT and COMMIT raises. After success the table exists and its keys are exactly {1}. A missing row is created with value 0. |
| `CountersTable.InitKeepsExistingRow` | database.py:41-44 | When row 1 exists, `init_database` leaves the database unchanged, whatever its value and whatever fails. |
| `CountersTable.InitIdempotent` | database.py:29-44 | A second `init_database` after a successful one changes nothing. |
| `CountersTable.InitFailureAddsNoRow` | database.py:21-44 | A failed `init_database` adds no row. The only change it can leave is the autocommitted table creation. |
| `CountersTable.InitKeepsCurrentValue` | database.py:36-44 | `init_database` never changes the counter value, reading a missing row as its default 0. |
| `CountersTable.NextIncrementsByOne` | database.py:46-56 | `get_next_number` succeeds exactly when the table and row 1 exist and neither the UPDATE nor the COMMIT raises. It then returns old + 1 and changes nothing but row 1's value. On failure the committed database is the pre-call one. |
| `CountersTable.NextErrors` | database.py:50-56 | A missing table raises exactly `NoSuchTable`. A missing row 1 yields `None` from `fetchone()` and raises `NoRow`. |
| `CountersTable.CallStep` | database.py:30-56 | Any single call keeps the schema invariant. It hands out at most one number, which is the counter value + 1, and it raises the counter by exactly the count it hands out. |
| `CountersTable.RunIssuesConsecutive` | database.py:30-56 | Over any sequence of calls, failures included, the handed-out numbers are exactly value+1, value+2, …, with no repeat and no gap. The final value is the start value plus their count. |
| `CountersTable.FreshStoreIssuesOneToN` | database.py:30-56 | From a new file, the numbers any sequence of calls hands out are 1, 2, 3, … and strictly increasing. |
| `CountersTable.FaultFreeNextsAllSucceed` | database.py:46-56 | Once row 1 exists, n fault-free `get_next_number` calls each return a number. |
| `CountersTable.InitThenNextsIssueOneToN` | database.py:30-56 | `init_database` on a new file followed by n fault-free `get_next_number` calls returns exactly 1, 2, …, n. |
| `CountersTable.CurrentValueNeverDecreases` | database.py:36-56 | Along any sequence of calls from a non-negative state, the counter value never decreases and stays non-negative. |
| `CountersTable.RowNeverDisappears` | database.py:41-56 | Once the table and row 1 exist, every later state still has them, with a value at least as large. |
| `Database.Connection.constructor` | database.py:14 | A new connection sees the database file as committed, with no transaction open. |
| `Database.Connection.ExecuteCreateTable` | database.py:33-38 | CREATE TABLE IF NOT EXISTS sets the table-exists flag and keeps the rows. Outside a transaction it is committed at once. |
| `Database.Connection.ExecuteInsertOrIgnore` | database.py:41-44 | The INSERT raises `NoSuchTable` without the table. Otherwise it opens the implicit transaction and inserts the row only when the key is absent and passes the CHECK. The committed database is untouched. |
| `Database.Connection.ExecuteIncrementReturning` | database.py:50-55 | The UPDATE raises `NoSuchTable` without the table. Otherwise it opens the implicit transaction, adds 1 to row 1 if present, and yields the new value(s). The committed database is untouched. |
| `Database.Connection.Commit` | database.py:24 | A commit makes the connection's view the committed database and closes the transaction. A failed commit changes nothing. |
| `Database.Connection.Rollback` | database.py:26 | A rollback restores the view to the committed database and closes the transaction. |
| `Database.FinishTransaction` | database.py:18-27 | `get_db`'s exit re-raises the body's error, or raises the commit's error. The committed database afterwards is either the whole view at exit (success) or the database as committed when the block exits (error), so no statement run inside the block's transaction is committed on its own. A `CREATE TABLE` run before the transaction opened was already committed. |
| `Database.InitDatabase` | database.py:30-44 | The method's result and new committed database are `InitResult`/`AfterInit` of the old one, and no transaction is left open. |
| `Database.GetNextNumber` | database.py:46-56 | The method's result and new committed database are `NextResult`/`AfterNext` of the old one, and no transaction is left open. |
| `Database.RestartScenario` | database.py:30-56 | On a new file: start-up, then a request returns 1. A request whose commit fails raises and consumes nothing. After a restart on the same file and a second `init_database`, the next request returns 2. |

## Left out

- The connection plumbing: `sqlite3.connect`, `row_factory`, the `DB_PATH` location and the thread-local connection cache (database.py:6-16). A connection is created from the file's contents by `Connection`'s constructor.
- Threads and several workers sharing the file. SQLite makes each statement and each transaction atomic, and the model takes each operation as one sequential step. Interleavings are not modelled.
- `main.py`: building the web application and the route handlers that wrap results in a dictionary. Its start-up call to `init_database` appears only in `RestartScenario`.
- A read-only peek operation and credential checks: neither appears in `database.py` or `main.py`.
- Database.GetNextNumber: does not model SQLite's 64-bit INTEGER bound. At 2^63 - 1, `current_value + 1` becomes a floating-point value. The model's integers are unbounded.
- Database.Connection.Rollback: never fails in the model. A rollback that itself raises is not modelled.
- Why a storage-layer statement fails (locking, I/O, a full disk) is not modelled. Only the fact that it raises is, through the `failing` parameter.
