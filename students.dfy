/** StudentModel: the students table, one row per student user, with a UNIQUE student_number. */
module Students {
  import opened Values
  import opened Query
  import opened Tables
  import opened Joins
  import opened PartialUpdate

  const Columns: set<string> := {"id", "user_id", "student_number", "date_of_birth", "gender", "address", "parent_name",
                                 "parent_phone", "parent_email", "enrollment_date", "status", "created_at", "updated_at"}
  const Stamped: set<string> := {"created_at", "updated_at"}
  const Unique: set<string> := {"student_number"}
  /** The columns create names in its INSERT. */
  const InsertColumns: set<string> := {"user_id", "student_number", "date_of_birth", "gender", "address", "parent_name",
                                       "parent_phone", "parent_email", "enrollment_date", "status"}
  /** The update whitelist: every column but id, user_id and the timestamps. */
  const Allowed: set<string> := {"student_number", "date_of_birth", "gender", "address", "parent_name", "parent_phone",
                                 "parent_email", "enrollment_date", "status"}

  /** t is the students table. */
  ghost predicate IsTable(t: Table)
    reads t
  {
    t.Valid() && t.columns == Columns && t.unique == Unique && t.stamped == Stamped
  }

  /** The values create's INSERT supplies; a field the caller left undefined is bound as NULL. */
  function InsertValues(student: Record): Record {
    map c | c in InsertColumns :: Col(student, c)
  }

  /** The row create stores under id. */
  function Stored(student: Record, id: int, now: int): Record {
    Inserted(Columns, Stamped, InsertValues(student), id, now)
  }

  /** The stored student carries the fresh id and all ten supplied columns as given. */
  lemma StoredStudent(student: Record, id: int, now: int)
    ensures var row := Stored(student, id, now);
      && row["id"] == Int(id)
      && forall c :: c in InsertColumns ==> row[c] == Col(student, c)
  {
    assert InsertValues(student).Keys == InsertColumns;
    InsertedRow(Columns, Stamped, InsertValues(student), id, now);
  }

  /** One supplied column of the stored student. */
  lemma StoredColumn(student: Record, id: int, now: int, c: string)
    requires c in InsertColumns
    ensures c in Stored(student, id, now) && Stored(student, id, now)[c] == Col(student, c)
  {
    StoredStudent(student, id, now);
  }

  /** Another stored student than id already holds the (non-NULL) student number n. */
  predicate NumberTaken(rows: map<int, Record>, id: int, n: Value) {
    n != Null && exists k :: k in rows && k != id && Has(rows[k], "student_number", n)
  }

  /**
   * `StudentModel.create`: the new student, or a unique violation (and no row) when its
   * student number is taken; the id sequence advances either way.
   */
  method Create(t: Table, student: Record, now: int) returns (r: Result<Record>)
    requires IsTable(t)
    modifies t`rows, t`nextId
    ensures IsTable(t)
    ensures t.nextId == old(t.nextId) + 1 && old(t.nextId) !in old(t.rows)
    ensures NumberTaken(old(t.rows), old(t.nextId), Col(student, "student_number")) ==>
      r == Err(UniqueViolation) && t.rows == old(t.rows)
    ensures !NumberTaken(old(t.rows), old(t.nextId), Col(student, "student_number")) ==>
      r == Ok(Stored(student, old(t.nextId), now)) && t.rows == old(t.rows)[old(t.nextId) := r.value]
  {
    assert InsertValues(student).Keys == InsertColumns;
    StoredStudent(student, t.nextId, now);
    ClashSingle(t.rows, t.nextId, Stored(student, t.nextId, now), "student_number");
    r := t.Insert(InsertValues(student), now);
  }

  /** `StudentModel.findById`. */
  function FindById(t: Table, id: int): (r: Option<Record>)
    reads t
    requires IsTable(t)
    ensures r.None? <==> id !in t.rows
    ensures r.Some? ==> r.value == t.rows[id] && r.value["id"] == Int(id)
  {
    t.FindById(id)
  }

  /** `StudentModel.findByUserId`: a stored student linked to that user, or None when there is none. */
  function FindByUserId(t: Table, userId: int): (r: Option<Record>)
    reads t
    requires IsTable(t)
    ensures r.None? <==> forall k :: k in t.rows ==> !Has(t.rows[k], "user_id", Int(userId))
    ensures r.Some? ==> Has(r.value, "user_id", Int(userId)) && exists k :: k in t.rows && t.rows[k] == r.value
  {
    t.FindFirst(s => Has(s, "user_id", Int(userId)))
  }

  /**
   * `StudentModel.findByStudentNumber`: the stored student with that number, or None when
   * there is none; the UNIQUE constraint makes it the only one.
   */
  function FindByStudentNumber(t: Table, number: string): (r: Option<Record>)
    reads t
    requires IsTable(t)
    ensures r.None? <==> forall k :: k in t.rows ==> !Has(t.rows[k], "student_number", Text(number))
    ensures r.Some? ==> Has(r.value, "student_number", Text(number)) && exists k :: k in t.rows && t.rows[k] == r.value
    ensures r.Some? ==> forall k :: k in t.rows && Has(t.rows[k], "student_number", Text(number)) ==> t.rows[k] == r.value
  {
    var r := t.FindFirst(s => Has(s, "student_number", Text(number)));
    assert r.Some? ==> forall k :: k in t.rows && Has(t.rows[k], "student_number", Text(number)) ==> t.rows[k] == r.value by {
      if r.Some? {
        var j :| j in t.rows && t.rows[j] == r.value;
        forall k | k in t.rows && Has(t.rows[k], "student_number", Text(number)) ensures t.rows[k] == r.value {
          UniqueRow(t.rows, Unique, "student_number", Text(number), j, k);
        }
      }
    }
    r
  }

  /** The students whose user row exists, each with the user's name and email, in id order. */
  function Listing(students: Table, users: Table): (r: seq<Record>)
    reads students, users
    requires students.Valid()
    ensures forall k :: k in students.rows && WithUser(students.rows[k], users.rows).Some? ==>
      WithUser(students.rows[k], users.rows).value in r
    ensures forall x :: x in r ==> exists k :: k in students.rows && WithUser(students.rows[k], users.rows) == Some(x)
    ensures Ascending(r)
  {
    var us := users.rows;
    students.Select(s => true, s => WithUser(s, us))
  }

  /**
   * `StudentModel.findAll(limit, offset)`: at most limit students of the listing from position
   * offset on, each of them a student with an existing user; a negative limit or offset is an error.
   */
  function FindAll(students: Table, users: Table, limit: int, offset: int): (r: Result<seq<Record>>)
    reads students, users
    requires students.Valid()
    ensures r.Err? <==> limit < 0 || offset < 0
    ensures r.Ok? ==>
      var all := Listing(students, users);
      && |r.value| <= limit
      && |r.value| == (if offset + limit <= |all| then limit else if offset <= |all| then |all| - offset else 0)
      && (forall j :: 0 <= j < |r.value| ==> r.value[j] == all[offset + j])
      && Ascending(r.value)
    ensures r.Ok? ==> forall x :: x in r.value ==>
      exists k :: k in students.rows && WithUser(students.rows[k], users.rows) == Some(x)
  {
    Window(Listing(students, users), limit, offset)
  }

  /** The whitelist's names are lower case, so Postgres reads each as written. */
  lemma AllowedFolded()
    ensures Folded(Allowed)
  {
    assert NoUpper("student_number");
    assert NoUpper("date_of_birth");
    assert NoUpper("gender");
    assert NoUpper("address");
    assert NoUpper("parent_name");
    assert NoUpper("parent_phone");
    assert NoUpper("parent_email");
    assert NoUpper("enrollment_date");
    assert NoUpper("status");
  }

  /**
   * `StudentModel.update`: null, and no write, when no whitelisted key with a defined value
   * remains or the id is unknown; a unique violation, and no write, exactly when the new
   * student number is another student's; otherwise the patched row.
   */
  method Update(t: Table, id: int, patch: seq<Entry>, now: int) returns (r: Result<Option<Record>>)
    requires IsTable(t) && DistinctKeys(patch)
    modifies t`rows
    ensures IsTable(t)
    ensures r == Ok(None) <==> Changes(patch, Some(Allowed)) == map[] || id !in old(t.rows)
    ensures var w := Changes(patch, Some(Allowed));
      r.Err? <==> w != map[] && id in old(t.rows) && "student_number" in w && NumberTaken(old(t.rows), id, w["student_number"])
    ensures r.Err? ==> r.error == UniqueViolation && t.rows == old(t.rows)
    ensures !r.Ok? || r.value.None? ==> t.rows == old(t.rows)
    ensures r.Ok? && r.value.Some? ==>
      && r.value.value == Patched(old(t.rows)[id], patch, Some(Allowed), now)
      && t.rows == old(t.rows)[id := r.value.value]
  {
    AllowedFolded();
    WhitelistedChanges(patch, Allowed);
    ClashSingle(t.rows, id, Changes(patch, Some(Allowed)), "student_number");
    r := PartialUpdate.Update(t, id, patch, Some(Allowed), now);
  }

  /** A student update never changes the id, the linked user or the creation time. */
  lemma UpdateKeepsUser(row: Record, patch: seq<Entry>, now: int)
    requires row.Keys == Columns
    ensures var after := Patched(row, patch, Some(Allowed), now);
      && after.Keys == Columns
      && after["id"] == row["id"] && after["user_id"] == row["user_id"] && after["created_at"] == row["created_at"]
  {
    AllowedFolded();
    ChangesWhitelisted(patch, Some(Allowed));
    PatchedKeeps(row, patch, Some(Allowed), now, "id");
    PatchedKeeps(row, patch, Some(Allowed), now, "user_id");
    PatchedKeeps(row, patch, Some(Allowed), now, "created_at");
  }

  /** `StudentModel.delete`: true exactly when a row with that id existed. */
  method Delete(t: Table, id: int) returns (removed: bool)
    requires IsTable(t)
    modifies t`rows
    ensures IsTable(t)
    ensures removed <==> id in old(t.rows)
    ensures t.rows == old(t.rows) - {id}
  {
    removed := t.Delete(id);
  }
}
