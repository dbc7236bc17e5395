/**
  The storage layer of the URL shortener: a handle on the SQLite store and its
  operations SaveURL, GetURL and DeleteURL on the `urls` table, plus the schema
  initialisation createTable. Each operation turns what the store signals into
  a small closed set of outcomes: success, ErrURLExists, ErrURLNotFound, or a
  generic store error.

  Every call into the database driver (Prepare, Exec, QueryRow/Scan,
  LastInsertId, RowsAffected) can fail for reasons outside the program. Which
  one fails in a given run is the `fault` parameter of the operation.
*/
module Storage {
  import opened UrlsTable

  /** The error kinds of the storage layer. The operation name the errors are
      wrapped with is not modelled. */
  datatype Error =
    | ErrURLExists   // the alias is already taken (save)
    | ErrURLNotFound // no row has the alias (get, delete)
    | ErrStore       // every other failure of the store or of its driver

  datatype Result<T> = Ok(value: T) | Err(error: Error)

  /** The result of an operation that returns only an error, Pass for nil. */
  datatype Outcome = Pass | Fail(error: Error)

  /** Which driver call fails in one run of an operation.
      ExecFails: executing the statement (Exec, or QueryRow/Scan for a
      query) reports an error that is not a constraint violation.
      ResultFails: reading the statement's result (LastInsertId,
      RowsAffected) fails after the statement took effect. */
  datatype Fault = NoFault | PrepareFails | ExecFails | ResultFails

  /** An error the driver's Exec returns: a SQLite error with its extended
      result code, or an error of another type. */
  datatype DriverError = SqliteError(extendedCode: int) | OtherError

  /** How SaveURL classifies a failed Exec: only a SQLite error whose
      extended code is the UNIQUE-constraint code is a conflict. */
  function SaveExecError(e: DriverError): (k: Error)
    ensures k == ErrURLExists <==> e == SqliteError(SqliteConstraintUnique)
    ensures k != ErrURLNotFound
  {
    if e.SqliteError? && e.extendedCode == SqliteConstraintUnique then ErrURLExists else ErrStore
  }

  /** The two statements createTable runs, in order. */
  datatype SchemaQuery = CreateUrlsTable | CreateAliasIndex

  const SchemaQueries: seq<SchemaQuery> := [CreateUrlsTable, CreateAliasIndex]

  class DB {
    /** The store's state: whether the `urls` table and its index exist, and
        the rows of the table. */
    var tableExists: bool
    var indexExists: bool
    var rows: seq<Row>

    ghost predicate Valid()
      reads this
    {
      WellFormed(rows) && (!tableExists ==> rows == [] && !indexExists)
    }

    /** A handle on a store that is in the given state. */
    constructor Open(hasTable: bool, hasIndex: bool, existing: seq<Row>)
      requires WellFormed(existing)
      requires !hasTable ==> existing == [] && !hasIndex
      ensures Valid()
      ensures tableExists == hasTable && indexExists == hasIndex && rows == existing
    {
      tableExists, indexExists, rows := hasTable, hasIndex, existing;
    }

    /** Exec of one schema statement, both `IF NOT EXISTS`: creating what
        already exists is a no-op; the index cannot be created on a missing
        table. */
    method ExecSchema(q: SchemaQuery, fails: bool) returns (ok: bool)
      requires Valid()
      modifies this`tableExists, this`indexExists
      ensures Valid()
      ensures ok == (!fails && (q == CreateUrlsTable || old(tableExists)))
      ensures tableExists == (old(tableExists) || (ok && q == CreateUrlsTable))
      ensures indexExists == (old(indexExists) || (ok && q == CreateAliasIndex))
    {
      if fails {
        return false;
      }
      match q
      case CreateUrlsTable =>
        tableExists := true;
        ok := true;
      case CreateAliasIndex =>
        if tableExists {
          indexExists := true;
        }
        ok := tableExists;
    }

    /** createTable: runs the schema statements in order and stops at the
        first that fails. `failAt` is the index of the statement whose Exec
        fails, if any. It never touches the rows, so it is safe to run on an
        initialised store. */
    method CreateTable(failAt: Option<nat>) returns (r: Outcome)
      requires Valid()
      modifies this`tableExists, this`indexExists
      ensures Valid()
      ensures rows == old(rows)
      ensures r == Pass <==> failAt != Some(0) && failAt != Some(1)
      ensures r.Fail? ==> r.error == ErrStore
      ensures tableExists == (old(tableExists) || failAt != Some(0))
      ensures indexExists == (old(indexExists) || r == Pass)
      ensures r == Pass ==> tableExists && indexExists
    {
      var i := 0;
      while i < |SchemaQueries|
        invariant 0 <= i <= |SchemaQueries|
        invariant Valid()
        invariant rows == old(rows)
        invariant forall k :: 0 <= k < i ==> failAt != Some(k)
        invariant tableExists == (old(tableExists) || i > 0)
        invariant indexExists == (old(indexExists) || i > 1)
      {
        var ok := ExecSchema(SchemaQueries[i], failAt == Some(i));
        if !ok {
          return Fail(ErrStore);
        }
        i := i + 1;
      }
      return Pass;
    }

    /** SaveURL: inserts `(url, alias)` and returns the new row's id. */
    method SaveURL(url: string, alias: string, fault: Fault) returns (r: Result<int>)
      requires Valid()
      modifies this`rows
      ensures Valid()
      ensures !tableExists || fault == PrepareFails || fault == ExecFails ==>
        r == Err(ErrStore) && rows == old(rows)
      ensures tableExists && (fault == NoFault || fault == ResultFails) ==>
        match ExecInsert(old(rows), url, alias)
        case Inserted(id, after) => rows == after && r == (if fault == NoFault then Ok(id) else Err(ErrStore))
        case Rejected(code) => rows == old(rows) && r == Err(SaveExecError(SqliteError(code)))
      ensures r == Err(ErrURLExists) <==>
        tableExists && (fault == NoFault || fault == ResultFails) && HasAlias(old(rows), alias)
      ensures r == Err(ErrURLExists) ==> rows == old(rows)
      ensures tableExists && fault == NoFault && !HasAlias(old(rows), alias) && MaxId(old(rows)) < MaxRowid ==>
        r == Ok(MaxId(old(rows)) + 1)
      ensures r.Ok? ==> rows == old(rows) + [Row(r.value, alias, url)]
      ensures r.Ok? ==> 1 <= r.value <= MaxRowid && forall i :: 0 <= i < |old(rows)| ==> old(rows)[i].id < r.value
      ensures r != Err(ErrURLNotFound)
    {
      if fault == PrepareFails || !tableExists {
        return Err(ErrStore);
      }
      var res: InsertResult;
      if fault == ExecFails {
        res := Rejected(SqliteIoErr);
      } else {
        res := ExecInsert(rows, url, alias);
      }
      match res
      case Rejected(code) =>
        r := Err(SaveExecError(SqliteError(code)));
      case Inserted(id, after) =>
        rows := after;
        if fault == ResultFails {
          r := Err(ErrStore);
        } else {
          r := Ok(id);
        }
    }

    /** GetURL: the url stored under `alias`. */
    method GetURL(alias: string, fault: Fault) returns (r: Result<string>)
      ensures !tableExists || fault != NoFault ==> r == Err(ErrStore)
      ensures r == Err(ErrURLNotFound) <==> tableExists && fault == NoFault && !HasAlias(rows, alias)
      ensures r.Ok? <==> tableExists && fault == NoFault && HasAlias(rows, alias)
      ensures r.Ok? ==> exists i :: 0 <= i < |rows| && rows[i].alias == alias && rows[i].url == r.value
      ensures r != Err(ErrURLExists)
    {
      if fault == PrepareFails || !tableExists {
        return Err(ErrStore);
      }
      if fault != NoFault {
        return Err(ErrStore);
      }
      var found := QueryUrl(rows, alias);
      match found
      case None => r := Err(ErrURLNotFound);
      case Some(u) => r := Ok(u);
    }

    /** DeleteURL: removes the row stored under `alias`. */
    method DeleteURL(alias: string, fault: Fault) returns (r: Outcome)
      requires Valid()
      modifies this`rows
      ensures Valid()
      ensures !tableExists || fault == PrepareFails || fault == ExecFails ==>
        r == Fail(ErrStore) && rows == old(rows)
      ensures tableExists && (fault == NoFault || fault == ResultFails) ==>
        rows == ExecDelete(old(rows), alias).after
      ensures r == Pass <==> tableExists && fault == NoFault && HasAlias(old(rows), alias)
      ensures r == Fail(ErrURLNotFound) <==> tableExists && fault == NoFault && !HasAlias(old(rows), alias)
      ensures r == Fail(ErrURLNotFound) ==> rows == old(rows)
      ensures r == Pass ==> |rows| == |old(rows)| - 1 && !HasAlias(rows, alias)
      ensures r != Fail(ErrURLExists)
    {
      if fault == PrepareFails || !tableExists {
        return Fail(ErrStore);
      }
      if fault == ExecFails {
        return Fail(ErrStore);
      }
      DeleteWellFormed(rows, alias);
      if !HasAlias(rows, alias) {
        DeleteAbsent(rows, alias);
      }
      var res := ExecDelete(rows, alias);
      rows := res.after;
      if fault == ResultFails {
        return Fail(ErrStore);
      }
      if res.affected == 0 {
        return Fail(ErrURLNotFound);
      }
      return Pass;
    }
  }

  /** The documented walk through the layer on a fresh store: the first save
      gets id 1, a get answers its url, a second save under the same alias
      conflicts, a delete succeeds, and a get afterwards finds nothing. */
  method Scenario() returns (init: Outcome, id: Result<int>, got: Result<string>,
                             again: Result<int>, deleted: Outcome, gone: Result<string>)
    ensures init == Pass
    ensures id == Ok(1)
    ensures got == Ok("https://example.com")
    ensures again == Err(ErrURLExists)
    ensures deleted == Pass
    ensures gone == Err(ErrURLNotFound)
  {
    var db := new DB.Open(false, false, []);
    init := db.CreateTable(None);
    id := db.SaveURL("https://example.com", "ex1", NoFault);
    assert db.rows == [Row(1, "ex1", "https://example.com")];
    assert db.rows[0].alias == "ex1";
    got := db.GetURL("ex1", NoFault);
    again := db.SaveURL("https://other.com", "ex1", NoFault);
    deleted := db.DeleteURL("ex1", NoFault);
    assert db.rows == [];
    gone := db.GetURL("ex1", NoFault);
  }

  /** Initialising an already initialised store twice keeps every row: the
      second run succeeds and neither drops nor duplicates any. */
  method InitTwice(existing: seq<Row>) returns (first: Outcome, second: Outcome, kept: seq<Row>)
    requires WellFormed(existing)
    ensures first == Pass && second == Pass
    ensures kept == existing
  {
    var db := new DB.Open(true, false, existing);
    first := db.CreateTable(None);
    second := db.CreateTable(None);
    kept := db.rows;
  }
}
