/**
 * One relational table held in memory: its rows by primary key and the counter of its
 * SERIAL id sequence. The methods of Table are the three statements the repositories
 * send to the store (INSERT, UPDATE, DELETE); SELECTs are functions over `rows`.
 */
module Tables {
  import opened Values
  import opened Query

  /**
   * The row `INSERT ... RETURNING *` stores: every column at its default (NOW() for the
   * stamped columns, NULL otherwise), then the supplied values, then the new id.
   */
  function Inserted(columns: set<string>, stamped: set<string>, values: Record, id: int, now: int): Record {
    (map c | c in columns :: if c in stamped then Moment(now) else Null) + values + map["id" := Int(id)]
  }

  /** The inserted row: every column, the new id, a supplied value where given, its default elsewhere. */
  lemma InsertedRow(columns: set<string>, stamped: set<string>, values: Record, id: int, now: int)
    requires "id" in columns && values.Keys <= columns && "id" !in values
    ensures var row := Inserted(columns, stamped, values, id, now);
      && row.Keys == columns
      && row["id"] == Int(id)
      && forall c :: c in columns && c != "id" ==>
           row[c] == if c in values then values[c] else if c in stamped then Moment(now) else Null
  {
  }

  /** A column the insert supplies no value for holds its default: NOW() when stamped, NULL otherwise. */
  lemma InsertedDefault(columns: set<string>, stamped: set<string>, values: Record, id: int, now: int, c: string)
    requires c in columns && c !in values && c != "id"
    ensures var row := Inserted(columns, stamped, values, id, now);
      c in row && row[c] == if c in stamped then Moment(now) else Null
  {
  }

  /** A column the insert supplies a value for holds that value. */
  lemma InsertedSupplied(columns: set<string>, stamped: set<string>, values: Record, id: int, now: int, c: string)
    requires c in values && c != "id"
    ensures var row := Inserted(columns, stamped, values, id, now);
      c in row && row[c] == values[c]
  {
  }

  /**
   * rec, stored under id, would share a non-NULL value of a UNIQUE column with another
   * row (Postgres treats NULLs as distinct).
   */
  predicate Clash(rows: map<int, Record>, id: int, rec: Record, unique: set<string>) {
    exists k, c :: k in rows.Keys && c in unique && k != id && c in rec && rec[c] != Null && Has(rows[k], c, rec[c])
  }

  /** With a single UNIQUE column c, a clash is another row holding rec's non-NULL value of c. */
  lemma ClashSingle(rows: map<int, Record>, id: int, rec: Record, c: string)
    ensures Clash(rows, id, rec, {c}) <==>
      c in rec && rec[c] != Null && exists k :: k in rows && k != id && Has(rows[k], c, rec[c])
  {
    if c in rec && rec[c] != Null && exists k :: k in rows && k != id && Has(rows[k], c, rec[c]) {
      var k :| k in rows && k != id && Has(rows[k], c, rec[c]);
      assert k in rows.Keys && c in {c};
    }
  }

  /** Every row is stored under an id the sequence has handed out, with every column and its own id. */
  predicate Fits(rows: map<int, Record>, columns: set<string>, nextId: int) {
    "id" in columns && forall k :: k in rows ==> 1 <= k < nextId && rows[k].Keys == columns && rows[k]["id"] == Int(k)
  }

  /** Storing a full row under its own, handed-out id keeps the rows fitting. */
  lemma FitsPut(rows: map<int, Record>, columns: set<string>, nextId: int, id: int, row: Record)
    requires Fits(rows, columns, nextId) && 1 <= id < nextId && row.Keys == columns && row["id"] == Int(id)
    ensures Fits(rows[id := row], columns, nextId)
  {
  }

  /**
   * No two stored rows share a non-NULL value of a UNIQUE column: the invariant the UNIQUE
   * constraints keep.
   */
  predicate Distinguished(rows: map<int, Record>, unique: set<string>) {
    forall a, b, c :: a in rows && b in rows && a != b && c in unique && c in rows[a] && rows[a][c] != Null ==>
      !Has(rows[b], c, rows[a][c])
  }

  /** Storing a row that clashes with no other row keeps the UNIQUE invariant. */
  lemma DistinguishedPut(rows: map<int, Record>, id: int, row: Record, unique: set<string>)
    requires Distinguished(rows, unique) && !Clash(rows, id, row, unique)
    ensures Distinguished(rows[id := row], unique)
  {
    var rows' := rows[id := row];
    forall a, b, c | a in rows' && b in rows' && a != b && c in unique && c in rows'[a] && rows'[a][c] != Null
      ensures !Has(rows'[b], c, rows'[a][c])
    {
      if a == id {
        assert !(b in rows.Keys && Has(rows[b], c, row[c]));
      } else if b == id {
        if Has(row, c, rows[a][c]) {
          assert a in rows.Keys && Has(rows[a], c, row[c]);
        }
      }
    }
  }

  /** Under the invariant, a non-NULL value of a UNIQUE column is held by at most one row. */
  lemma UniqueRow(rows: map<int, Record>, unique: set<string>, c: string, v: Value, a: int, b: int)
    requires Distinguished(rows, unique) && c in unique && v != Null
    requires a in rows && Has(rows[a], c, v) && b in rows && Has(rows[b], c, v)
    ensures a == b
  {
  }

  /**
   * Under the invariant, writing the columns w (and columns outside the UNIQUE ones) over
   * the stored row id clashes exactly when w itself gives another row's UNIQUE value: the
   * columns the row keeps clash with nothing.
   */
  lemma ClashMerged(rows: map<int, Record>, id: int, unique: set<string>, w: Record, extra: Record)
    requires Distinguished(rows, unique) && id in rows
    requires forall c :: c in extra ==> c !in unique
    ensures Clash(rows, id, rows[id] + w + extra, unique) <==> Clash(rows, id, w, unique)
  {
    var rec := rows[id] + w + extra;
    if Clash(rows, id, rec, unique) {
      var k, c :| k in rows.Keys && c in unique && k != id && c in rec && rec[c] != Null && Has(rows[k], c, rec[c]);
      assert c in w;
    }
    if Clash(rows, id, w, unique) {
      var k, c :| k in rows.Keys && c in unique && k != id && c in w && w[c] != Null && Has(rows[k], c, w[c]);
      assert rec[c] == w[c];
    }
  }

  /** Whether every placeholder of the SET list names a bound parameter. */
  predicate Bound(sets: seq<(string, int)>, params: seq<Value>) {
    forall k :: 0 <= k < |sets| ==> 1 <= sets[k].1 <= |params|
  }

  /** Two assignments of the SET list name the same column once folded. */
  predicate Repeated(sets: seq<(string, int)>) {
    exists j, k :: 0 <= j < k < |sets| && Fold(sets[j].0) == Fold(sets[k].0)
  }

  /**
   * The error Postgres raises for `UPDATE t SET <sets>, updated_at = NOW() WHERE id = $where`
   * before it looks at any row, or None when the statement is accepted. The column names
   * are unquoted identifiers, so they are folded to lower case first.
   */
  function StatementError(columns: set<string>, sets: seq<(string, int)>, where: int, params: seq<Value>): Option<DbError> {
    if exists k :: 0 <= k < |sets| && Fold(sets[k].0) !in columns then Some(UndefinedColumn)
    else if (exists k :: 0 <= k < |sets| && Fold(sets[k].0) == "updated_at") || Repeated(sets) then Some(MultipleAssignment)
    else if !(1 <= where <= |params|) || !Bound(sets, params) then Some(MissingParameter)
    else if !params[where - 1].Int? then Some(InvalidInteger)
    else None
  }

  /** The row after the assignments `column = $p` of a SET list, applied left to right. */
  function Assign(row: Record, sets: seq<(string, int)>, params: seq<Value>): Record
    requires Bound(sets, params)
  {
    if sets == [] then row
    else
      var n := |sets| - 1;
      assert forall k :: 0 <= k < n ==> sets[..n][k] == sets[k];
      Assign(row, sets[..n], params)[Fold(sets[n].0) := params[sets[n].1 - 1]]
  }

  /** A SET list naming only columns of the row leaves the row with the same columns. */
  lemma {:induction false} AssignKeys(row: Record, sets: seq<(string, int)>, params: seq<Value>)
    requires Bound(sets, params)
    requires forall k :: 0 <= k < |sets| ==> Fold(sets[k].0) in row
    ensures Assign(row, sets, params).Keys == row.Keys
  {
    if sets != [] {
      var n := |sets| - 1;
      var init := sets[..n];
      assert forall k :: 0 <= k < n ==> init[k] == sets[k];
      AssignKeys(row, init, params);
    }
  }

  /** A column no assignment names keeps its value. */
  lemma {:induction false} AssignKeeps(row: Record, sets: seq<(string, int)>, params: seq<Value>, c: string)
    requires Bound(sets, params)
    requires c in row && forall k :: 0 <= k < |sets| ==> Fold(sets[k].0) != c
    ensures c in Assign(row, sets, params) && Assign(row, sets, params)[c] == row[c]
  {
    if sets != [] {
      var n := |sets| - 1;
      var init := sets[..n];
      assert forall k :: 0 <= k < n ==> init[k] == sets[k];
      AssignKeeps(row, init, params, c);
      assert Fold(sets[n].0) != c;
    }
  }

  class Table {
    /** The table's columns, including id and updated_at. */
    const columns: set<string>
    /** The columns carrying a UNIQUE constraint. */
    const unique: set<string>
    /** The columns whose default is NOW(). */
    const stamped: set<string>
    var rows: map<int, Record>
    /** The next value of the id sequence. */
    var nextId: int

    ghost predicate Valid()
      reads this
    {
      && "id" in columns && "updated_at" in columns && "id" !in stamped
      && unique <= columns && stamped <= columns && "updated_at" !in unique
      && 1 <= nextId
      && Fits(rows, columns, nextId)
      && Distinguished(rows, unique)
    }

    constructor (columns: set<string>, unique: set<string>, stamped: set<string>)
      requires "id" in columns && "updated_at" in columns && "id" !in stamped
      requires unique <= columns && stamped <= columns && "updated_at" !in unique
      ensures Valid()
      ensures this.columns == columns && this.unique == unique && this.stamped == stamped
      ensures rows == map[] && nextId == 1
    {
      this.columns := columns;
      this.unique := unique;
      this.stamped := stamped;
      rows := map[];
      nextId := 1;
    }

    /** `SELECT * FROM t`: every stored row once, in ascending id order. */
    function All(): (r: seq<Record>)
      reads this
      requires Valid()
      ensures forall k :: k in rows ==> rows[k] in r
      ensures forall x :: x in r ==> exists k :: k in rows && rows[k] == x
      ensures Ascending(r)
    {
      assert IdKeyed(rows) by {
        forall k | k in rows ensures IdOf(rows[k]) == k {
          assert Col(rows[k], "id") == Int(k);
        }
      }
      Scan(rows, 1, nextId)
    }

    /** `SELECT * FROM t WHERE p`: exactly the stored rows satisfying p, in ascending id order. */
    function Filter(p: Record -> bool): (r: seq<Record>)
      reads this
      requires Valid()
      ensures forall k :: k in rows && p(rows[k]) ==> rows[k] in r
      ensures forall x :: x in r ==> p(x) && exists k :: k in rows && rows[k] == x
      ensures Ascending(r)
    {
      WhereAscending(All(), p);
      Where(All(), p)
    }

    /** `SELECT * FROM t WHERE p`, then `rows[0] || null`: some stored row satisfying p, or None when none does. */
    function FindFirst(p: Record -> bool): (r: Option<Record>)
      reads this
      requires Valid()
      ensures r.None? <==> forall k :: k in rows ==> !p(rows[k])
      ensures r.Some? ==> p(r.value) && exists k :: k in rows && rows[k] == r.value
    {
      var s := Filter(p);
      assert s != [] ==> s[0] in s;
      First(s)
    }

    /**
     * `SELECT t.*, <partner columns> FROM t JOIN ... WHERE p`: the stored rows satisfying p
     * that f widens, widened; in ascending id order when f keeps the id of each row it widens.
     */
    function Select(p: Record -> bool, f: Record -> Option<Record>): (r: seq<Record>)
      reads this
      requires Valid()
      ensures forall k :: k in rows && p(rows[k]) && f(rows[k]).Some? ==> f(rows[k]).value in r
      ensures forall x :: x in r ==> exists k :: k in rows && p(rows[k]) && f(rows[k]) == Some(x)
      ensures (forall k :: k in rows && p(rows[k]) && f(rows[k]).Some? ==> Col(f(rows[k]).value, "id") == Col(rows[k], "id")) ==> Ascending(r)
    {
      var mine := Filter(p);
      var r := Joined(mine, f);
      assert (forall k :: k in rows && p(rows[k]) && f(rows[k]).Some? ==> Col(f(rows[k]).value, "id") == Col(rows[k], "id")) ==> Ascending(r) by {
        if forall k :: k in rows && p(rows[k]) && f(rows[k]).Some? ==> Col(f(rows[k]).value, "id") == Col(rows[k], "id") {
          SelectedAscending(p, f);
        }
      }
      SelectedRows(p, f);
      r
    }

    /** Every widened row comes from a stored row satisfying p. */
    lemma SelectedRows(p: Record -> bool, f: Record -> Option<Record>)
      requires Valid()
      ensures forall x :: x in Joined(Filter(p), f) ==> exists k :: k in rows && p(rows[k]) && f(rows[k]) == Some(x)
    {
      var mine := Filter(p);
      forall x | x in Joined(mine, f) ensures exists k :: k in rows && p(rows[k]) && f(rows[k]) == Some(x) {
        var y :| y in mine && f(y) == Some(x);
        var k :| k in rows && rows[k] == y;
      }
    }

    /** Widening that keeps each row's id keeps the id order of the filtered rows. */
    lemma SelectedAscending(p: Record -> bool, f: Record -> Option<Record>)
      requires Valid()
      requires forall k :: k in rows && p(rows[k]) && f(rows[k]).Some? ==> Col(f(rows[k]).value, "id") == Col(rows[k], "id")
      ensures Ascending(Joined(Filter(p), f))
    {
      var mine := Filter(p);
      forall y | y in mine && f(y).Some? ensures IdOf(f(y).value) == IdOf(y) {
        var k :| k in rows && rows[k] == y;
        assert Col(f(y).value, "id") == Col(y, "id");
      }
      JoinedAscending(mine, f);
    }

    /** `SELECT * FROM t WHERE id = $1`, then `rows[0] || null`. */
    function FindById(id: int): (r: Option<Record>)
      reads this
      requires Valid()
      ensures r.None? <==> id !in rows
      ensures r.Some? ==> r.value.Keys == columns && r.value["id"] == Int(id)
    {
      if id in rows then Some(rows[id]) else None
    }

    /**
     * `INSERT INTO t (...) VALUES (...) RETURNING *`. The id sequence advances even when
     * the row is rejected: Postgres does not give back a sequence value on failure.
     */
    method Insert(values: Record, now: int) returns (r: Result<Record>)
      requires Valid()
      requires values.Keys <= columns && "id" !in values
      modifies this`rows, this`nextId
      ensures Valid()
      ensures nextId == old(nextId) + 1 && old(nextId) !in old(rows)
      ensures var row := Inserted(columns, stamped, values, old(nextId), now);
        if Clash(old(rows), old(nextId), row, unique)
        then r == Err(UniqueViolation) && rows == old(rows)
        else r == Ok(row) && rows == old(rows)[old(nextId) := row]
    {
      var id := nextId;
      nextId := nextId + 1;
      var row := Inserted(columns, stamped, values, id, now);
      if Clash(rows, id, row, unique) {
        r := Err(UniqueViolation);
      } else {
        DistinguishedPut(rows, id, row, unique);
        rows := rows[id := row];
        r := Ok(row);
      }
    }

    /** `DELETE FROM t WHERE id = $1`; removed is `rowCount > 0`. */
    method Delete(id: int) returns (removed: bool)
      requires Valid()
      modifies this`rows
      ensures Valid()
      ensures removed <==> id in old(rows)
      ensures rows == old(rows) - {id}
    {
      removed := id in rows;
      rows := rows - {id};
    }

    /**
     * `UPDATE t SET <sets>, updated_at = NOW() WHERE id = $where RETURNING *` with the
     * positional parameters params, then `rows[0] || null`. The repositories never assign id.
     */
    method ExecuteUpdate(sets: seq<(string, int)>, where: int, params: seq<Value>, now: int)
      returns (r: Result<Option<Record>>)
      requires Valid()
      requires forall k :: 0 <= k < |sets| ==> Fold(sets[k].0) != "id"
      modifies this`rows
      ensures Valid()
      ensures StatementError(columns, sets, where, params).Some? ==>
        r == Err(StatementError(columns, sets, where, params).value) && rows == old(rows)
      ensures StatementError(columns, sets, where, params).None? ==>
        var id := params[where - 1].i;
        if id !in old(rows) then r == Ok(None) && rows == old(rows)
        else
          var row := Assign(old(rows)[id], sets, params)["updated_at" := Moment(now)];
          if Clash(old(rows), id, row, unique) then r == Err(UniqueViolation) && rows == old(rows)
          else r == Ok(Some(row)) && rows == old(rows)[id := row]
    {
      var e := StatementError(columns, sets, where, params);
      if e.Some? {
        return Err(e.value);
      }
      var id := params[where - 1].i;
      if id !in rows {
        return Ok(None);
      }
      var written := Assign(rows[id], sets, params);
      AssignKeys(rows[id], sets, params);
      AssignKeeps(rows[id], sets, params, "id");
      assert written.Keys == columns && written["id"] == Int(id);
      var row := written["updated_at" := Moment(now)];
      if Clash(rows, id, row, unique) {
        return Err(UniqueViolation);
      }
      FitsPut(rows, columns, nextId, id, row);
      DistinguishedPut(rows, id, row, unique);
      rows := rows[id := row];
      r := Ok(Some(row));
    }
  }
}
