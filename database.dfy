/**
 * The counter store of the asset tag service: one connection to the database
 * file, the statements it executes, the commit-or-rollback exit of get_db,
 * and the operations init_database and get_next_number built from them.
 *
 * Transactions follow Python's sqlite3 module in its default mode: a BEGIN is
 * issued implicitly before an INSERT or an UPDATE when no transaction is open,
 * and never before CREATE TABLE, which therefore commits at once.
 */
module Database {
  import opened Results
  import opened CountersTable

  /** A connection to the database file, and the file itself. */
  class Connection {
    // the table as this connection sees it, its own uncommitted changes included
    var tableExists: bool
    var rows: map<int, int>
    // whether a transaction is open
    var inTransaction: bool
    // the database as committed to the file; ROLLBACK returns to it
    var committed: Db

    function View(): (d: Db)
      reads this
    {
      Db(tableExists, rows)
    }

    ghost predicate Valid()
      reads this
    {
      && Consistent(View())
      && Consistent(committed)
      && (!inTransaction ==> View() == committed)
    }

    /** Opens a connection on a database file holding `file`. */
    constructor (file: Db)
      requires Consistent(file)
      ensures Valid() && !inTransaction && committed == file
    {
      tableExists, rows := file.tableExists, file.rows;
      inTransaction := false;
      committed := file;
    }

    /** CREATE TABLE IF NOT EXISTS counters (...); outside a transaction it commits at once. */
    method ExecuteCreateTable(fails: bool) returns (out: Outcome<Error>)
      requires Valid()
      modifies this
      ensures Valid() && inTransaction == old(inTransaction)
      ensures out == if fails then Fail(StorageFailure(CreateStmt)) else Pass
      ensures View() == if fails then old(View()) else WithTable(old(View()))
      ensures committed == if inTransaction then old(committed) else View()
    {
      if fails {
        return Fail(StorageFailure(CreateStmt));
      }
      tableExists := true;
      if !inTransaction {
        committed := View();
      }
      out := Pass;
    }

    /** INSERT OR IGNORE INTO counters (id, current_value) VALUES (id, value). */
    method ExecuteInsertOrIgnore(id: int, value: int, fails: bool) returns (out: Outcome<Error>)
      requires Valid()
      modifies this
      ensures Valid() && committed == old(committed)
      ensures out ==
        if !old(tableExists) then Fail(NoSuchTable)
        else if fails then Fail(StorageFailure(InsertStmt))
        else Pass
      ensures inTransaction == (old(inTransaction) || old(tableExists))
      ensures View() == if out.Pass? then WithRowInserted(old(View()), id, value) else old(View())
    {
      if !tableExists {
        return Fail(NoSuchTable);
      }
      inTransaction := true;
      if fails {
        return Fail(StorageFailure(InsertStmt));
      }
      if id == RowId && id !in rows {
        rows := rows[id := value];
      }
      out := Pass;
    }

    /** UPDATE counters SET current_value = current_value + 1 WHERE id = 1 RETURNING current_value. */
    method ExecuteIncrementReturning(fails: bool) returns (cursor: Result<seq<int>, Error>)
      requires Valid()
      modifies this
      ensures Valid() && committed == old(committed)
      ensures cursor ==
        if !old(tableExists) then Err(NoSuchTable)
        else if fails then Err(StorageFailure(UpdateStmt))
        else Ok(Returned(old(View())))
      ensures inTransaction == (old(inTransaction) || old(tableExists))
      ensures View() == if cursor.Ok? then Incremented(old(View())) else old(View())
    {
      if !tableExists {
        return Err(NoSuchTable);
      }
      inTransaction := true;
      if fails {
        return Err(StorageFailure(UpdateStmt));
      }
      var returned := [];
      if RowId in rows {
        rows := rows[RowId := rows[RowId] + 1];
        returned := [rows[RowId]];
      }
      cursor := Ok(returned);
    }

    /** conn.commit(): with no transaction open there is nothing to commit. */
    method Commit(fails: bool) returns (out: Outcome<Error>)
      requires Valid()
      modifies this
      ensures Valid() && View() == old(View())
      ensures out == if fails && old(inTransaction) then Fail(StorageFailure(CommitStmt)) else Pass
      ensures out.Pass? ==> !inTransaction && committed == View()
      ensures out.Fail? ==> inTransaction && committed == old(committed)
    {
      if !inTransaction {
        return Pass;
      }
      if fails {
        return Fail(StorageFailure(CommitStmt));
      }
      committed := View();
      inTransaction := false;
      out := Pass;
    }

    /** conn.rollback(): the connection sees the committed database again. */
    method Rollback()
      requires Valid()
      modifies this
      ensures Valid() && !inTransaction
      ensures committed == old(committed) && View() == committed
    {
      tableExists, rows := committed.tableExists, committed.rows;
      inTransaction := false;
    }
  }

  /**
   * The exit of a get_db block: commit when the body finished normally;
   * roll back and re-raise when the body or the commit raised.
   */
  method FinishTransaction(conn: Connection, body: Outcome<Error>, commitFails: bool) returns (out: Outcome<Error>)
    requires conn.Valid()
    modifies conn
    ensures conn.Valid() && !conn.inTransaction
    ensures out ==
      if body.Fail? then body
      else if commitFails && old(conn.inTransaction) then Fail(StorageFailure(CommitStmt))
      else Pass
    ensures conn.committed == if out.Pass? then old(conn.View()) else old(conn.committed)
  {
    if body.Fail? {
      conn.Rollback();
      return body;
    }
    out := conn.Commit(commitFails);
    if out.Fail? {
      conn.Rollback();
    }
  }

  /** init_database: create the table if absent, then insert row (1, 0) if absent. */
  method InitDatabase(conn: Connection, failing: set<Stmt>) returns (out: Outcome<Error>)
    requires conn.Valid() && !conn.inTransaction
    modifies conn
    ensures conn.Valid() && !conn.inTransaction
    ensures out == InitResult(old(conn.committed), failing)
    ensures conn.committed == AfterInit(old(conn.committed), failing)
  {
    var body := conn.ExecuteCreateTable(CreateStmt in failing);
    if body.Pass? {
      body := conn.ExecuteInsertOrIgnore(RowId, InitialValue, InsertStmt in failing);
    }
    out := FinishTransaction(conn, body, CommitStmt in failing);
  }

  /** get_next_number: increment row 1 and return its new value, in one transaction. */
  method GetNextNumber(conn: Connection, failing: set<Stmt>) returns (r: Result<int, Error>)
    requires conn.Valid() && !conn.inTransaction
    modifies conn
    ensures conn.Valid() && !conn.inTransaction
    ensures r == NextResult(old(conn.committed), failing)
    ensures conn.committed == AfterNext(old(conn.committed), failing)
  {
    var cursor := conn.ExecuteIncrementReturning(UpdateStmt in failing);
    var body: Outcome<Error>;
    var number := 0;
    if cursor.Err? {
      body := Fail(cursor.error);
    } else if cursor.value == [] {
      // fetchone() gives None, and None[0] raises
      body := Fail(NoRow);
    } else {
      number := cursor.value[0];
      body := Pass;
    }
    var out := FinishTransaction(conn, body, CommitStmt in failing);
    r := if out.Pass? then Ok(number) else Err(out.error);
  }

  /**
   * Start-up on a new file, a request, a request whose commit fails, a restart
   * on the same file (with init_database again) and one more request.
   */
  method RestartScenario() returns (first: Result<int, Error>, failed: Result<int, Error>, afterRestart: Result<int, Error>)
    ensures first == Ok(1)
    ensures failed == Err(StorageFailure(CommitStmt))
    ensures afterRestart == Ok(2)
  {
    var conn := new Connection(Fresh);
    var started := InitDatabase(conn, {});
    first := GetNextNumber(conn, {});
    failed := GetNextNumber(conn, {CommitStmt});
    var restarted := new Connection(conn.committed);
    started := InitDatabase(restarted, {});
    afterRestart := GetNextNumber(restarted, {});
  }
}
