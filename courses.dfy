/** CourseModel: the courses table, with a UNIQUE code and an update that has no whitelist. */
module Courses {
  import opened Values
  import opened Query
  import opened Tables
  import opened Joins
  import opened PartialUpdate

  const Columns: set<string> := {"id", "code", "name", "description", "teacher_id", "credits", "level", "subject",
                                 "start_date", "end_date", "status", "max_students", "created_at", "updated_at"}
  const Stamped: set<string> := {"created_at", "updated_at"}
  const Unique: set<string> := {"code"}
  /** The columns create names in its INSERT. */
  const InsertColumns: set<string> := {"code", "name", "description", "teacher_id", "credits", "level", "subject",
                                       "start_date", "end_date", "status", "max_students"}

  /** t is the courses table. */
  ghost predicate IsTable(t: Table)
    reads t
  {
    t.Valid() && t.columns == Columns && t.unique == Unique && t.stamped == Stamped
  }

  function InsertValues(course: Record): Record {
    map c | c in InsertColumns :: Col(course, c)
  }

  /** The row create stores under id. */
  function Stored(course: Record, id: int, now: int): Record {
    Inserted(Columns, Stamped, InsertValues(course), id, now)
  }

  /** The stored course carries the fresh id and all eleven supplied columns as given. */
  lemma StoredCourse(course: Record, id: int, now: int)
    ensures var row := Stored(course, id, now);
      && row["id"] == Int(id)
      && forall c :: c in InsertColumns ==> row[c] == Col(course, c)
  {
    assert InsertValues(course).Keys == InsertColumns;
    InsertedRow(Columns, Stamped, InsertValues(course), id, now);
  }

  /** Another stored course than id already has the (non-NULL) code. */
  predicate CodeTaken(rows: map<int, Record>, id: int, code: Value) {
    code != Null && exists k :: k in rows && k != id && Has(rows[k], "code", code)
  }

  /**
   * `CourseModel.create`: the new course, or a unique violation (and no row) when its code is
   * taken; the id sequence advances either way.
   */
  method Create(t: Table, course: Record, now: int) returns (r: Result<Record>)
    requires IsTable(t)
    modifies t`rows, t`nextId
    ensures IsTable(t)
    ensures t.nextId == old(t.nextId) + 1 && old(t.nextId) !in old(t.rows)
    ensures CodeTaken(old(t.rows), old(t.nextId), Col(course, "code")) ==>
      r == Err(UniqueViolation) && t.rows == old(t.rows)
    ensures !CodeTaken(old(t.rows), old(t.nextId), Col(course, "code")) ==>
      r == Ok(Stored(course, old(t.nextId), now)) && t.rows == old(t.rows)[old(t.nextId) := r.value]
  {
    assert InsertValues(course).Keys == InsertColumns;
    StoredCourse(course, t.nextId, now);
    ClashSingle(t.rows, t.nextId, Stored(course, t.nextId, now), "code");
    r := t.Insert(InsertValues(course), now);
  }

  /** `CourseModel.findById`. */
  function FindById(t: Table, id: int): (r: Option<Record>)
    reads t
    requires IsTable(t)
    ensures r.None? <==> id !in t.rows
    ensures r.Some? ==> r.value == t.rows[id] && r.value["id"] == Int(id)
  {
    t.FindById(id)
  }

  /**
   * `CourseModel.findByCode`: the stored course with that code, or None when there is none;
   * the UNIQUE constraint makes it the only one.
   */
  function FindByCode(t: Table, code: string): (r: Option<Record>)
    reads t
    requires IsTable(t)
    ensures r.None? <==> forall k :: k in t.rows ==> !Has(t.rows[k], "code", Text(code))
    ensures r.Some? ==> Has(r.value, "code", Text(code)) && exists k :: k in t.rows && t.rows[k] == r.value
    ensures r.Some? ==> forall k :: k in t.rows && Has(t.rows[k], "code", Text(code)) ==> t.rows[k] == r.value
  {
    var r := t.FindFirst(c => Has(c, "code", Text(code)));
    assert r.Some? ==> forall k :: k in t.rows && Has(t.rows[k], "code", Text(code)) ==> t.rows[k] == r.value by {
      if r.Some? {
        var j :| j in t.rows && t.rows[j] == r.value;
        forall k | k in t.rows && Has(t.rows[k], "code", Text(code)) ensures t.rows[k] == r.value {
          UniqueRow(t.rows, Unique, "code", Text(code), j, k);
        }
      }
    }
    r
  }

  /** The courses whose teacher exists, each with the teacher's full name, in id order. */
  function Listing(courses: Table, users: Table): (r: seq<Record>)
    reads courses, users
    requires courses.Valid()
    ensures forall k :: k in courses.rows && WithTeacher(courses.rows[k], users.rows).Some? ==>
      WithTeacher(courses.rows[k], users.rows).value in r
    ensures forall x :: x in r ==> exists k :: k in courses.rows && WithTeacher(courses.rows[k], users.rows) == Some(x)
    ensures Ascending(r)
  {
    var us := users.rows;
    courses.Select(c => true, c => WithTeacher(c, us))
  }

  /**
   * `CourseModel.findAll(limit, offset)`: at most limit courses of the listing from position
   * offset on, each a course whose teacher exists; a negative limit or offset is an error.
   */
  function FindAll(courses: Table, users: Table, limit: int, offset: int): (r: Result<seq<Record>>)
    reads courses, users
    requires courses.Valid()
    ensures r.Err? <==> limit < 0 || offset < 0
    ensures r.Ok? ==>
      var all := Listing(courses, users);
      && |r.value| <= limit
      && |r.value| == (if offset + limit <= |all| then limit else if offset <= |all| then |all| - offset else 0)
      && (forall j :: 0 <= j < |r.value| ==> r.value[j] == all[offset + j])
      && Ascending(r.value)
    ensures r.Ok? ==> forall x :: x in r.value ==>
      exists k :: k in courses.rows && WithTeacher(courses.rows[k], users.rows) == Some(x)
  {
    Window(Listing(courses, users), limit, offset)
  }

  /** `CourseModel.findByTeacher`: exactly the stored courses taught by that teacher. */
  function FindByTeacher(t: Table, teacherId: int): (r: seq<Record>)
    reads t
    requires IsTable(t)
    ensures forall k :: k in t.rows && Has(t.rows[k], "teacher_id", Int(teacherId)) ==> t.rows[k] in r
    ensures forall x :: x in r ==> Has(x, "teacher_id", Int(teacherId)) && exists k :: k in t.rows && t.rows[k] == x
    ensures Ascending(r)
  {
    t.Filter(c => Has(c, "teacher_id", Int(teacherId)))
  }

  /**
   * `CourseModel.update`, which has no whitelist: every defined key whose column is not id
   * is written. null, and no write, when no such key remains or the id is unknown; an
   * error, and no write, when a key names no column, when updated_at or some column is
   * assigned twice, or exactly when the new code is another course's; otherwise the
   * patched row.
   */
  method Update(t: Table, id: int, patch: seq<Entry>, now: int) returns (r: Result<Option<Record>>)
    requires IsTable(t)
    modifies t`rows
    ensures IsTable(t)
    ensures var w := Changes(patch, None);
      if w == map[] then r == Ok(None) && t.rows == old(t.rows)
      else if !(w.Keys <= Columns) then r == Err(UndefinedColumn) && t.rows == old(t.rows)
      else if "updated_at" in w || !SingleAssignments(patch, None) then r == Err(MultipleAssignment) && t.rows == old(t.rows)
      else if id !in old(t.rows) then r == Ok(None) && t.rows == old(t.rows)
      else if "code" in w && CodeTaken(old(t.rows), id, w["code"]) then r == Err(UniqueViolation) && t.rows == old(t.rows)
      else r == Ok(Some(Patched(old(t.rows)[id], patch, None, now))) && t.rows == old(t.rows)[id := r.value.value]
  {
    ClashSingle(t.rows, id, Changes(patch, None), "code");
    r := PartialUpdate.Update(t, id, patch, None, now);
  }

  /**
   * Without a whitelist, the update writes column c exactly when some entry whose key folds
   * to c has a defined value and c is not id: teacher_id and code included; when no column
   * is assigned twice, it writes that entry's value.
   */
  lemma UpdateWritesEveryKey(patch: seq<Entry>, c: string)
    ensures c in Changes(patch, None) <==>
      c != "id" && exists j :: 0 <= j < |patch| && Fold(patch[j].key) == c && patch[j].value.Some?
    ensures SingleAssignments(patch, None) ==>
      forall j :: 0 <= j < |patch| && Fold(patch[j].key) == c && c != "id" && patch[j].value.Some? ==>
        Changes(patch, None)[c] == patch[j].value.value
  {
    ChangesKeyByKey(patch, None, c);
  }

  /** A patch of only id (in any case) and undefined values writes nothing, so update answers null. */
  lemma OnlyIdWritesNothing(patch: seq<Entry>)
    requires forall j :: 0 <= j < |patch| ==> Fold(patch[j].key) == "id" || patch[j].value.None?
    ensures Changes(patch, None) == map[]
  {
    NothingKept(patch, None);
  }

  /** `CourseModel.delete`: true exactly when a row with that id existed. */
  method Delete(t: Table, id: int) returns (removed: bool)
    requires IsTable(t)
    modifies t`rows
    ensures IsTable(t)
    ensures removed <==> id in old(t.rows)
    ensures t.rows == old(t.rows) - {id}
  {
    removed := t.Delete(id);
  }
}
