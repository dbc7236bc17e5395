/**
  The `urls` table of the SQLite store behind the storage layer, as its schema
  declares it (`id INTEGER PRIMARY KEY`, `alias TEXT NOT NULL UNIQUE`,
  `url TEXT NOT NULL`), and what SQLite does to it for each of the three
  statements the storage layer prepares:

    INSERT INTO urls(url,alias) values(?,?)
    SELECT url FROM urls WHERE alias = ?
    DELETE FROM urls WHERE alias = ?

  The table is a sequence of rows; the constraints of the schema are the
  predicate WellFormed, which every statement preserves.
*/
module UrlsTable {

  datatype Option<T> = None | Some(value: T)

  /** The largest ROWID SQLite assigns: the largest signed 64-bit integer. */
  const MaxRowid: int := 0x7fff_ffff_ffff_ffff

  /** SQLite (extended) result codes a statement on the table can fail with. */
  const SqliteIoErr: int := 10
  const SqliteFull: int := 13
  const SqliteConstraintUnique: int := 2067

  /** One mapping `(id, alias, url)`. Go strings are never NULL, so the
      `NOT NULL` columns admit every string, the empty one included. */
  datatype Row = Row(id: int, alias: string, url: string)

  predicate HasAlias(rows: seq<Row>, alias: string)
  {
    exists i :: 0 <= i < |rows| && rows[i].alias == alias
  }

  /** `alias ... UNIQUE`: no two rows share an alias. */
  predicate AliasesUnique(rows: seq<Row>)
  {
    forall i, j :: 0 <= i < |rows| && 0 <= j < |rows| && i != j ==> rows[i].alias != rows[j].alias
  }

  /** `id INTEGER PRIMARY KEY`: no two rows share an id. */
  predicate IdsUnique(rows: seq<Row>)
  {
    forall i, j :: 0 <= i < |rows| && 0 <= j < |rows| && i != j ==> rows[i].id != rows[j].id
  }

  /** Every id was assigned by SQLite for an insert without an explicit id. */
  predicate IdsInRange(rows: seq<Row>)
  {
    forall i :: 0 <= i < |rows| ==> 1 <= rows[i].id <= MaxRowid
  }

  predicate WellFormed(rows: seq<Row>)
  {
    AliasesUnique(rows) && IdsUnique(rows) && IdsInRange(rows)
  }

  /** The largest live id, 0 for an empty table. */
  function MaxId(rows: seq<Row>): (m: int)
    ensures 0 <= m
    ensures forall i :: 0 <= i < |rows| ==> rows[i].id <= m
    ensures m == 0 || exists i :: 0 <= i < |rows| && rows[i].id == m
  {
    if rows == [] then 0
    else
      var rest := MaxId(rows[1..]);
      assert forall i :: 1 <= i < |rows| ==> rows[i] == rows[1..][i - 1];
      if rows[0].id > rest then rows[0].id else rest
  }

  /** The ROWID SQLite gives a row inserted without one into a table without
      AUTOINCREMENT: one more than the largest ROWID in the table (1 for an
      empty table). None when the largest ROWID is already MaxRowid; SQLite
      then searches for an unused ROWID at random, which is not modelled. */
  function NextRowid(rows: seq<Row>): (r: Option<int>)
    ensures r.Some? <==> MaxId(rows) < MaxRowid
    ensures r.Some? ==> r.value == MaxId(rows) + 1
    ensures r.Some? ==> 1 <= r.value <= MaxRowid
    ensures r.Some? ==> forall i :: 0 <= i < |rows| ==> rows[i].id < r.value
    ensures r.None? ==> exists i :: 0 <= i < |rows| && rows[i].id >= MaxRowid
  {
    var m := MaxId(rows);
    if m < MaxRowid then Some(m + 1) else None
  }

  /** The first row whose alias is `alias`. */
  function Find(rows: seq<Row>, alias: string): (r: Option<Row>)
    ensures r.Some? <==> HasAlias(rows, alias)
    ensures r.Some? ==> r.value in rows && r.value.alias == alias
  {
    if rows == [] then None
    else if rows[0].alias == alias then Some(rows[0])
    else
      assert forall i :: 1 <= i < |rows| ==> rows[i] == rows[1..][i - 1];
      Find(rows[1..], alias)
  }

  /** The rows whose alias is not `alias`, in their order. */
  function Remove(rows: seq<Row>, alias: string): (r: seq<Row>)
    ensures |r| <= |rows|
    ensures forall i :: 0 <= i < |r| ==> r[i] in rows && r[i].alias != alias
    ensures forall i :: 0 <= i < |rows| && rows[i].alias != alias ==> rows[i] in r
  {
    if rows == [] then []
    else
      assert forall i :: 1 <= i < |rows| ==> rows[i] == rows[1..][i - 1];
      if rows[0].alias == alias then Remove(rows[1..], alias)
      else [rows[0]] + Remove(rows[1..], alias)
  }

  /** Outcome of the INSERT: the new row's id and the table after it, or the
      result code SQLite rejects the statement with. */
  datatype InsertResult = Inserted(rowid: int, after: seq<Row>) | Rejected(code: int)

  /** `INSERT INTO urls(url,alias) values(?,?)`. */
  function ExecInsert(rows: seq<Row>, url: string, alias: string): (r: InsertResult)
    ensures r == Rejected(SqliteConstraintUnique) <==> HasAlias(rows, alias)
    ensures r == Rejected(SqliteFull) <==> !HasAlias(rows, alias) && NextRowid(rows).None?
    ensures r.Rejected? ==> r.code == SqliteConstraintUnique || r.code == SqliteFull
    ensures r.Inserted? <==> !HasAlias(rows, alias) && MaxId(rows) < MaxRowid
    ensures r.Inserted? ==> r.rowid == MaxId(rows) + 1
    ensures r.Inserted? ==> r.after == rows + [Row(r.rowid, alias, url)]
    ensures r.Inserted? ==> forall i :: 0 <= i < |rows| ==> rows[i].id < r.rowid
    ensures WellFormed(rows) && r.Inserted? ==> WellFormed(r.after)
  {
    if Find(rows, alias).Some? then Rejected(SqliteConstraintUnique)
    else
      match NextRowid(rows)
      case None => Rejected(SqliteFull)
      case Some(id) =>
        var after := rows + [Row(id, alias, url)];
        assert forall i :: 0 <= i < |rows| ==> after[i] == rows[i];
        Inserted(id, after)
  }

  /** `SELECT url FROM urls WHERE alias = ?`, first row of the answer. */
  function QueryUrl(rows: seq<Row>, alias: string): (r: Option<string>)
    ensures r.Some? <==> HasAlias(rows, alias)
    ensures r.Some? ==> exists i :: 0 <= i < |rows| && rows[i].alias == alias && rows[i].url == r.value
  {
    match Find(rows, alias)
    case None => None
    case Some(row) => Some(row.url)
  }

  /** Outcome of the DELETE: how many rows it removed and the table after it. */
  datatype DeleteResult = Deleted(affected: nat, after: seq<Row>)

  /** `DELETE FROM urls WHERE alias = ?`. */
  function ExecDelete(rows: seq<Row>, alias: string): (r: DeleteResult)
    ensures !HasAlias(r.after, alias)
    ensures r.affected == |rows| - |r.after|
    ensures forall i :: 0 <= i < |r.after| ==> r.after[i] in rows
    ensures forall i :: 0 <= i < |rows| && rows[i].alias != alias ==> rows[i] in r.after
  {
    var after := Remove(rows, alias);
    Deleted(|rows| - |after|, after)
  }

  /** Under the UNIQUE constraint the row the SELECT finds is the only row
      with that alias. */
  lemma {:induction false} FindUnique(rows: seq<Row>, alias: string, k: nat)
    requires AliasesUnique(rows)
    requires k < |rows| && rows[k].alias == alias
    ensures Find(rows, alias) == Some(rows[k])
  {
    if k > 0 {
      assert rows[0].alias != alias;
      assert forall i :: 1 <= i < |rows| ==> rows[i] == rows[1..][i - 1];
      FindUnique(rows[1..], alias, k - 1);
    }
  }

  /** A row appended with another alias does not change what the SELECT finds. */
  lemma {:induction false} FindAppend(rows: seq<Row>, row: Row, alias: string)
    requires row.alias != alias
    ensures Find(rows + [row], alias) == Find(rows, alias)
  {
    if rows != [] {
      assert (rows + [row])[1..] == rows[1..] + [row];
      FindAppend(rows[1..], row, alias);
    }
  }

  /** Removing an alias does not change what the SELECT finds for another. */
  lemma {:induction false} FindRemove(rows: seq<Row>, removed: string, alias: string)
    requires removed != alias
    ensures Find(Remove(rows, removed), alias) == Find(rows, alias)
  {
    if rows != [] {
      FindRemove(rows[1..], removed, alias);
    }
  }

  /** A DELETE of an alias no row has leaves the table as it is. */
  lemma {:induction false} RemoveAbsent(rows: seq<Row>, alias: string)
    requires !HasAlias(rows, alias)
    ensures Remove(rows, alias) == rows
  {
    if rows != [] {
      assert forall i :: 1 <= i < |rows| ==> rows[i] == rows[1..][i - 1];
      RemoveAbsent(rows[1..], alias);
      assert [rows[0]] + rows[1..] == rows;
    }
  }

  /** A row whose alias and id no row of a well-formed table has can be put
      in front of it. */
  lemma ConsWellFormed(x: Row, rows: seq<Row>)
    requires WellFormed(rows) && 1 <= x.id <= MaxRowid
    requires forall i :: 0 <= i < |rows| ==> rows[i].alias != x.alias && rows[i].id != x.id
    ensures WellFormed([x] + rows)
  {
    var r := [x] + rows;
    assert forall i :: 1 <= i < |r| ==> r[i] == rows[i - 1];
  }

  /** Deleting rows keeps the schema's constraints. */
  lemma {:induction false} RemoveWellFormed(rows: seq<Row>, alias: string)
    requires WellFormed(rows)
    ensures WellFormed(Remove(rows, alias))
  {
    if rows != [] {
      var rest := rows[1..];
      assert forall i :: 1 <= i < |rows| ==> rows[i] == rest[i - 1];
      assert WellFormed(rest);
      RemoveWellFormed(rest, alias);
      if rows[0].alias != alias {
        var r := Remove(rest, alias);
        forall k | 0 <= k < |r|
          ensures r[k].alias != rows[0].alias && r[k].id != rows[0].id
        {
          var i :| 0 <= i < |rest| && rest[i] == r[k];
          assert rows[i + 1] == r[k];
        }
        ConsWellFormed(rows[0], r);
      }
    }
  }

  /** Under the UNIQUE constraint the DELETE removes at most one row: exactly
      one when the alias is present, none otherwise. */
  lemma {:induction false} RemoveCount(rows: seq<Row>, alias: string)
    requires AliasesUnique(rows)
    ensures |rows| - |Remove(rows, alias)| == if HasAlias(rows, alias) then 1 else 0
  {
    if rows != [] {
      var rest := rows[1..];
      assert forall i :: 1 <= i < |rows| ==> rows[i] == rest[i - 1];
      assert AliasesUnique(rest);
      if rows[0].alias == alias {
        assert !HasAlias(rest, alias);
        RemoveAbsent(rest, alias);
      } else {
        RemoveCount(rest, alias);
        assert HasAlias(rows, alias) == HasAlias(rest, alias);
      }
    }
  }

  /** Removing an alias whose row is the last one gives back the rows before it. */
  lemma RemoveLast(rows: seq<Row>, row: Row)
    requires !HasAlias(rows, row.alias)
    ensures Remove(rows + [row], row.alias) == rows
  {
    RemoveAppend(rows, row, row.alias);
    RemoveAbsent(rows, row.alias);
  }

  lemma {:induction false} RemoveAppend(rows: seq<Row>, row: Row, alias: string)
    requires row.alias == alias
    ensures Remove(rows + [row], alias) == Remove(rows, alias)
  {
    if rows == [] {
      assert [] + [row] == [row];
    } else {
      assert (rows + [row])[1..] == rows[1..] + [row];
      RemoveAppend(rows[1..], row, alias);
    }
  }

  /** The DELETE keeps the schema's constraints and, under them, reports one
      affected row exactly when the alias was present. */
  lemma DeleteWellFormed(rows: seq<Row>, alias: string)
    requires WellFormed(rows)
    ensures WellFormed(ExecDelete(rows, alias).after)
    ensures ExecDelete(rows, alias).affected == if HasAlias(rows, alias) then 1 else 0
  {
    RemoveWellFormed(rows, alias);
    RemoveCount(rows, alias);
  }

  /** A DELETE of an absent alias affects no row and changes nothing. */
  lemma DeleteAbsent(rows: seq<Row>, alias: string)
    requires !HasAlias(rows, alias)
    ensures ExecDelete(rows, alias) == Deleted(0, rows)
  {
    RemoveAbsent(rows, alias);
  }

  /** Round trip: after an accepted INSERT, the SELECT of its alias answers
      exactly the inserted url. */
  lemma InsertThenQuery(rows: seq<Row>, url: string, alias: string)
    requires WellFormed(rows)
    requires ExecInsert(rows, url, alias).Inserted?
    ensures QueryUrl(ExecInsert(rows, url, alias).after, alias) == Some(url)
  {
    var after := ExecInsert(rows, url, alias).after;
    FindUnique(after, alias, |rows|);
  }

  /** An accepted INSERT leaves the answer of the SELECT for every other alias as it was. */
  lemma InsertKeepsOthers(rows: seq<Row>, url: string, alias: string, other: string)
    requires other != alias
    requires ExecInsert(rows, url, alias).Inserted?
    ensures QueryUrl(ExecInsert(rows, url, alias).after, other) == QueryUrl(rows, other)
  {
    var r := ExecInsert(rows, url, alias);
    FindAppend(rows, Row(r.rowid, alias, url), other);
  }

  /** A second INSERT under an alias that was just inserted is rejected by the
      UNIQUE constraint, whatever its url. */
  lemma InsertTwice(rows: seq<Row>, url: string, url2: string, alias: string)
    requires ExecInsert(rows, url, alias).Inserted?
    ensures ExecInsert(ExecInsert(rows, url, alias).after, url2, alias) == Rejected(SqliteConstraintUnique)
  {
    var after := ExecInsert(rows, url, alias).after;
    assert after[|rows|].alias == alias;
  }

  /** After the DELETE of an alias the SELECT of that alias finds no row. */
  lemma DeleteThenQuery(rows: seq<Row>, alias: string)
    ensures QueryUrl(ExecDelete(rows, alias).after, alias) == None
  {
  }

  /** The DELETE of an alias leaves the answer of the SELECT for every other alias as it was. */
  lemma DeleteKeepsOthers(rows: seq<Row>, alias: string, other: string)
    requires other != alias
    ensures QueryUrl(ExecDelete(rows, alias).after, other) == QueryUrl(rows, other)
  {
    FindRemove(rows, alias, other);
  }

  /** The DELETE undoes an accepted INSERT: one row affected, and the table is
      exactly as it was before the INSERT. */
  lemma InsertThenDelete(rows: seq<Row>, url: string, alias: string)
    requires ExecInsert(rows, url, alias).Inserted?
    ensures ExecDelete(ExecInsert(rows, url, alias).after, alias) == Deleted(1, rows)
  {
    var r := ExecInsert(rows, url, alias);
    RemoveLast(rows, Row(r.rowid, alias, url));
  }

  /** Ids are reused: without AUTOINCREMENT, deleting the row with the largest
      id lets the next INSERT take that id again. */
  lemma RowidReused()
    ensures
      var first := ExecInsert([], "u1", "a");
      var second := ExecInsert(first.after, "u2", "b");
      var third := ExecInsert(ExecDelete(second.after, "b").after, "u3", "c");
      second == Inserted(2, [Row(1, "a", "u1"), Row(2, "b", "u2")]) && third.Inserted? && third.rowid == 2
  {
    var first := ExecInsert([], "u1", "a");
    assert first == Inserted(1, [Row(1, "a", "u1")]);
    var second := ExecInsert(first.after, "u2", "b");
    assert MaxId(first.after) == 1;
    assert second == Inserted(2, [Row(1, "a", "u1"), Row(2, "b", "u2")]);
    InsertThenDelete(first.after, "u2", "b");
    assert ExecDelete(second.after, "b").after == first.after;
  }
}
