/**
 * The `counters` table of the asset tag database as a value, the meaning of
 * each SQL statement the service runs against it, and the effect of the two
 * operations init_database and get_next_number on the committed database.
 *
 * A storage layer that raises for reasons outside the table (a locked or
 * unwritable file) is a parameter: `failing` names the statements that raise.
 */
module CountersTable {
  import opened Results

  /** The only id the CHECK (id = 1) constraint admits. */
  const RowId: int := 1

  /** The DEFAULT of current_value, and the value init_database inserts. */
  const InitialValue: int := 0

  /** Whether the table exists, and its rows as id |-> current_value. */
  datatype Db = Db(tableExists: bool, rows: map<int, int>)

  /** A database file in which the table was never created. */
  const Fresh: Db := Db(false, map[])

  /** The statements of the two operations, including the COMMIT of get_db. */
  datatype Stmt = CreateStmt | InsertStmt | UpdateStmt | CommitStmt

  datatype Error =
    | NoSuchTable           // the UPDATE or INSERT names a table that does not exist
    | NoRow                 // fetchone() gave None, and indexing None raised
    | StorageFailure(at: Stmt)  // the storage layer raised at that statement

  /** What the schema guarantees: ids are 1 only, and no rows without the table. */
  predicate Consistent(d: Db) {
    d.rows.Keys <= {RowId} && (!d.tableExists ==> d.rows == map[])
  }

  predicate NonNegative(d: Db) {
    RowId in d.rows ==> d.rows[RowId] >= 0
  }

  /** current_value of row 1, reading a missing row as the value init_database would give it. */
  function CurrentValue(d: Db): (v: int) {
    if d.tableExists && RowId in d.rows then d.rows[RowId] else InitialValue
  }

  // ---------------------------------------------------------------------------
  // The statements, each on a table that exists

  /** CREATE TABLE IF NOT EXISTS counters (...): an existing table is kept as it is. */
  function WithTable(d: Db): (d': Db) {
    d.(tableExists := true)
  }

  /**
   * INSERT OR IGNORE INTO counters (id, current_value) VALUES (id, value):
   * a row that breaks the CHECK constraint or repeats a primary key is skipped.
   */
  function WithRowInserted(d: Db, id: int, value: int): (d': Db) {
    if id == RowId && id !in d.rows then d.(rows := d.rows[id := value]) else d
  }

  /** UPDATE counters SET current_value = current_value + 1 WHERE id = 1. */
  function Incremented(d: Db): (d': Db) {
    if RowId in d.rows then d.(rows := d.rows[RowId := d.rows[RowId] + 1]) else d
  }

  /** The rows RETURNING current_value yields for that UPDATE, one per updated row. */
  function Returned(d: Db): (values: seq<int>) {
    if RowId in d.rows then [d.rows[RowId] + 1] else []
  }

  lemma CheckConstraintKeepsOneRow(d: Db, id: int, value: int)
    requires Consistent(d) && d.tableExists
    ensures Consistent(WithRowInserted(d, id, value))
    ensures |WithRowInserted(d, id, value).rows| <= 1
    ensures RowId in d.rows ==> WithRowInserted(d, id, value) == d
    ensures id != RowId ==> WithRowInserted(d, id, value) == d
  {
    var keys := WithRowInserted(d, id, value).rows.Keys;
    assert keys <= {RowId};
    if keys != {} {
      assert keys == {RowId};
    }
  }

  lemma UpdateReturnsNewValue(d: Db)
    requires Consistent(d)
    ensures Consistent(Incremented(d))
    ensures |Returned(d)| <= 1
    ensures |Returned(d)| == 1 <==> RowId in d.rows
    ensures RowId in d.rows ==>
      Returned(d)[0] == Incremented(d).rows[RowId] == d.rows[RowId] + 1
    ensures Incremented(d).rows.Keys == d.rows.Keys
  {
  }

  // ---------------------------------------------------------------------------
  // The two operations, on the committed database

  /** What init_database raises: the first of its statements that fails. */
  function InitResult(d: Db, failing: set<Stmt>): (out: Outcome<Error>) {
    if CreateStmt in failing then Fail(StorageFailure(CreateStmt))
    else if InsertStmt in failing then Fail(StorageFailure(InsertStmt))
    else if CommitStmt in failing then Fail(StorageFailure(CommitStmt))
    else Pass
  }

  /**
   * The committed database after init_database. CREATE TABLE runs outside a
   * transaction and commits at once, so when the INSERT or the COMMIT fails
   * the rollback keeps the table.
   */
  function AfterInit(d: Db, failing: set<Stmt>): (d': Db) {
    if CreateStmt in failing then d
    else if InitResult(d, failing).Fail? then WithTable(d)
    else WithRowInserted(WithTable(d), RowId, InitialValue)
  }

  /** What get_next_number returns or raises. */
  function NextResult(d: Db, failing: set<Stmt>): (r: Result<int, Error>) {
    if !d.tableExists then Err(NoSuchTable)
    else if UpdateStmt in failing then Err(StorageFailure(UpdateStmt))
    else if Returned(d) == [] then Err(NoRow)
    else if CommitStmt in failing then Err(StorageFailure(CommitStmt))
    else Ok(Returned(d)[0])
  }

  /** The committed database after get_next_number: rolled back unless it returned. */
  function AfterNext(d: Db, failing: set<Stmt>): (d': Db) {
    if NextResult(d, failing).Ok? then Incremented(d) else d
  }

  lemma InitOnFreshStore()
    ensures InitResult(Fresh, {}) == Pass
    ensures AfterInit(Fresh, {}) == Db(true, map[RowId := InitialValue])
  {
  }

  lemma InitCreatesSingleRow(d: Db, failing: set<Stmt>)
    requires Consistent(d)
    ensures Consistent(AfterInit(d, failing))
    ensures InitResult(d, failing).Pass? <==>
      CreateStmt !in failing && InsertStmt !in failing && CommitStmt !in failing
    ensures InitResult(d, failing).Pass? ==>
      AfterInit(d, failing).tableExists && AfterInit(d, failing).rows.Keys == {RowId}
    ensures InitResult(d, failing).Pass? && RowId !in d.rows ==>
      AfterInit(d, failing).rows[RowId] == InitialValue
  {
  }

  lemma InitKeepsExistingRow(d: Db, failing: set<Stmt>)
    requires d.tableExists && RowId in d.rows
    ensures AfterInit(d, failing) == d
  {
  }

  lemma InitIdempotent(d: Db, failing: set<Stmt>)
    requires Consistent(d)
    ensures AfterInit(AfterInit(d, {}), failing) == AfterInit(d, {})
  {
  }

  lemma InitFailureAddsNoRow(d: Db, failing: set<Stmt>)
    requires InitResult(d, failing).Fail?
    ensures AfterInit(d, failing).rows == d.rows
    ensures AfterInit(d, failing) == d || (CreateStmt !in failing && AfterInit(d, failing) == WithTable(d))
  {
  }

  lemma InitKeepsCurrentValue(d: Db, failing: set<Stmt>)
    requires Consistent(d)
    ensures CurrentValue(AfterInit(d, failing)) == CurrentValue(d)
  {
  }

  lemma NextIncrementsByOne(d: Db, failing: set<Stmt>)
    requires Consistent(d)
    ensures Consistent(AfterNext(d, failing))
    ensures NextResult(d, failing).Ok? <==>
      d.tableExists && RowId in d.rows && UpdateStmt !in failing && CommitStmt !in failing
    ensures NextResult(d, failing).Ok? ==>
      && NextResult(d, failing).value == d.rows[RowId] + 1
      && AfterNext(d, failing) == d.(rows := d.rows[RowId := NextResult(d, failing).value])
    ensures NextResult(d, failing).Err? ==> AfterNext(d, failing) == d
  {
  }

  lemma NextErrors(d: Db, failing: set<Stmt>)
    ensures NextResult(d, failing) == Err(NoSuchTable) <==> !d.tableExists
    ensures NextResult(d, failing) == Err(NoRow) <==>
      d.tableExists && UpdateStmt !in failing && RowId !in d.rows
  {
  }

  // ---------------------------------------------------------------------------
  // Any sequence of calls

  datatype Call = InitCall(failing: set<Stmt>) | NextCall(failing: set<Stmt>)

  function Apply(d: Db, c: Call): (d': Db) {
    match c
    case InitCall(f) => AfterInit(d, f)
    case NextCall(f) => AfterNext(d, f)
  }

  /** The number a call hands out: the value a successful get_next_number returns. */
  function HandedOut(d: Db, c: Call): (numbers: seq<int>) {
    match c
    case InitCall(_) => []
    case NextCall(f) => if NextResult(d, f).Ok? then [NextResult(d, f).value] else []
  }

  /** The committed database after the calls, one after another. */
  function Final(d: Db, calls: seq<Call>): (d': Db)
    decreases |calls|
  {
    if calls == [] then d else Final(Apply(d, calls[0]), calls[1..])
  }

  /** The numbers the calls hand out, in order. */
  function Issued(d: Db, calls: seq<Call>): (numbers: seq<int>)
    decreases |calls|
  {
    if calls == [] then [] else HandedOut(d, calls[0]) + Issued(Apply(d, calls[0]), calls[1..])
  }

  /** `n` calls of get_next_number that meet no storage failure. */
  function Nexts(n: nat): (calls: seq<Call>) {
    if n == 0 then [] else [NextCall({})] + Nexts(n - 1)
  }

  lemma CallStep(d: Db, c: Call)
    requires Consistent(d)
    ensures Consistent(Apply(d, c))
    ensures |HandedOut(d, c)| <= 1
    ensures CurrentValue(Apply(d, c)) == CurrentValue(d) + |HandedOut(d, c)|
    ensures |HandedOut(d, c)| == 1 ==> HandedOut(d, c)[0] == CurrentValue(d) + 1
  {
    match c
    case InitCall(f) =>
      InitCreatesSingleRow(d, f);
      InitKeepsCurrentValue(d, f);
    case NextCall(f) =>
      NextIncrementsByOne(d, f);
  }

  lemma {:induction false} RunIssuesConsecutive(d: Db, calls: seq<Call>)
    requires Consistent(d)
    ensures Consistent(Final(d, calls))
    ensures CurrentValue(Final(d, calls)) == CurrentValue(d) + |Issued(d, calls)|
    ensures forall i :: 0 <= i < |Issued(d, calls)| ==> Issued(d, calls)[i] == CurrentValue(d) + 1 + i
    decreases |calls|
  {
    if calls != [] {
      var d1 := Apply(d, calls[0]);
      CallStep(d, calls[0]);
      RunIssuesConsecutive(d1, calls[1..]);
      var h, rest := HandedOut(d, calls[0]), Issued(d1, calls[1..]);
      assert Issued(d, calls) == h + rest;
      forall i | 0 <= i < |h + rest|
        ensures (h + rest)[i] == CurrentValue(d) + 1 + i
      {
        if i >= |h| {
          assert (h + rest)[i] == rest[i - |h|];
        }
      }
    }
  }

  lemma FreshStoreIssuesOneToN(calls: seq<Call>)
    ensures forall i :: 0 <= i < |Issued(Fresh, calls)| ==> Issued(Fresh, calls)[i] == i + 1
    ensures forall i, j :: 0 <= i < j < |Issued(Fresh, calls)| ==> Issued(Fresh, calls)[i] < Issued(Fresh, calls)[j]
  {
    RunIssuesConsecutive(Fresh, calls);
  }

  lemma {:induction false} FaultFreeNextsAllSucceed(d: Db, n: nat)
    requires Consistent(d) && d.tableExists && RowId in d.rows
    ensures |Issued(d, Nexts(n))| == n
    decreases n
  {
    if n > 0 {
      var calls := Nexts(n);
      assert calls[0] == NextCall({}) && calls[1..] == Nexts(n - 1);
      NextIncrementsByOne(d, {});
      FaultFreeNextsAllSucceed(Apply(d, calls[0]), n - 1);
    }
  }

  lemma InitThenNextsIssueOneToN(n: nat)
    ensures Issued(Fresh, [InitCall({})] + Nexts(n)) == seq(n, i => i + 1)
  {
    var calls := [InitCall({})] + Nexts(n);
    var started := AfterInit(Fresh, {});
    assert calls[1..] == Nexts(n);
    FaultFreeNextsAllSucceed(started, n);
    RunIssuesConsecutive(Fresh, calls);
  }

  lemma {:induction false} FinalSplit(d: Db, calls: seq<Call>, k: nat)
    requires k <= |calls|
    ensures Final(d, calls) == Final(Final(d, calls[..k]), calls[k..])
    decreases k
  {
    if k > 0 {
      assert calls[..k][0] == calls[0] && calls[..k][1..] == calls[1..][..k - 1];
      assert calls[k..] == calls[1..][k - 1..];
      FinalSplit(Apply(d, calls[0]), calls[1..], k - 1);
    }
  }

  lemma CurrentValueNeverDecreases(d: Db, calls: seq<Call>, k: nat)
    requires Consistent(d) && NonNegative(d) && k <= |calls|
    ensures 0 <= CurrentValue(Final(d, calls[..k])) <= CurrentValue(Final(d, calls))
    ensures NonNegative(Final(d, calls))
  {
    FinalSplit(d, calls, k);
    RunIssuesConsecutive(d, calls[..k]);
    RunIssuesConsecutive(Final(d, calls[..k]), calls[k..]);
  }

  lemma {:induction false} RowNeverDisappears(d: Db, calls: seq<Call>)
    requires Consistent(d) && d.tableExists && RowId in d.rows
    ensures Final(d, calls).tableExists && RowId in Final(d, calls).rows
    ensures d.rows[RowId] <= Final(d, calls).rows[RowId]
    decreases |calls|
  {
    if calls != [] {
      CallStep(d, calls[0]);
      RowNeverDisappears(Apply(d, calls[0]), calls[1..]);
    }
  }
}
