/** AttendanceModel: the attendance table, one row per student, course and date. */
module Attendance {
  import opened Values
  import opened Query
  import opened Tables
  import opened Joins
  import opened PartialUpdate

  const Columns: set<string> := {"id", "student_id", "course_id", "date", "status", "notes", "created_at", "updated_at"}
  const Stamped: set<string> := {"created_at", "updated_at"}
  /** The columns create names in its INSERT. */
  const InsertColumns: set<string> := {"student_id", "course_id", "date", "status", "notes"}
  /** The update whitelist. */
  const Allowed: set<string> := {"date", "status", "notes"}

  /** t is the attendance table. */
  ghost predicate IsTable(t: Table)
    reads t
  {
    t.Valid() && t.columns == Columns && t.unique == {} && t.stamped == Stamped
  }

  function InsertValues(attendance: Record): Record {
    map c | c in InsertColumns :: Col(attendance, c)
  }

  /** The row create stores under id. */
  function Stored(attendance: Record, id: int, now: int): Record {
    Inserted(Columns, Stamped, InsertValues(attendance), id, now)
  }

  /** The stored record carries the fresh id and all five supplied columns as given. */
  lemma StoredAttendance(attendance: Record, id: int, now: int)
    ensures var row := Stored(attendance, id, now);
      && row["id"] == Int(id)
      && forall c :: c in InsertColumns ==> row[c] == Col(attendance, c)
  {
    assert InsertValues(attendance).Keys == InsertColumns;
    InsertedRow(Columns, Stamped, InsertValues(attendance), id, now);
  }

  /** `AttendanceModel.create`: the table has no UNIQUE column, so the insert always succeeds. */
  method Create(t: Table, attendance: Record, now: int) returns (r: Record)
    requires IsTable(t)
    modifies t`rows, t`nextId
    ensures IsTable(t)
    ensures r == Stored(attendance, old(t.nextId), now)
    ensures old(t.nextId) !in old(t.rows) && t.rows == old(t.rows)[old(t.nextId) := r]
    ensures t.nextId == old(t.nextId) + 1
  {
    var res := t.Insert(InsertValues(attendance), now);
    r := res.value;
  }

  /** `AttendanceModel.findById`. */
  function FindById(t: Table, id: int): (r: Option<Record>)
    reads t
    requires IsTable(t)
    ensures r.None? <==> id !in t.rows
    ensures r.Some? ==> r.value == t.rows[id] && r.value["id"] == Int(id)
  {
    t.FindById(id)
  }

  predicate OfPair(a: Record, studentId: int, courseId: int) {
    Has(a, "student_id", Int(studentId)) && Has(a, "course_id", Int(courseId))
  }

  predicate OnDay(a: Record, courseId: int, date: int) {
    Has(a, "course_id", Int(courseId)) && Has(a, "date", Moment(date))
  }

  /** `AttendanceModel.findByStudentAndCourse`: exactly the pair's records, latest date first. */
  function FindByStudentAndCourse(t: Table, studentId: int, courseId: int): (r: seq<Record>)
    reads t
    requires IsTable(t)
    ensures Sorted(r, "date", true)
    ensures forall k :: k in t.rows && OfPair(t.rows[k], studentId, courseId) ==> t.rows[k] in r
    ensures forall x :: x in r ==> OfPair(x, studentId, courseId) && exists k :: k in t.rows && t.rows[k] == x
    ensures Distinct(r)
  {
    var mine := t.Filter(a => OfPair(a, studentId, courseId));
    assert Distinct(SortBy(mine, "date", true)) by {
      AscendingDistinct(mine);
      SortByDistinct(mine, "date", true);
    }
    SortBy(mine, "date", true)
  }

  /**
   * `AttendanceModel.findByCourseAndDate`: the course's records for exactly that date whose
   * student and user rows exist, with the student's name and number.
   */
  function FindByCourseAndDate(attendance: Table, students: Table, users: Table, courseId: int, date: int)
    : (r: seq<Record>)
    reads attendance, students, users
    requires attendance.Valid()
    ensures forall k :: (k in attendance.rows && OnDay(attendance.rows[k], courseId, date) &&
                         WithStudent(attendance.rows[k], students.rows, users.rows).Some?) ==>
                        WithStudent(attendance.rows[k], students.rows, users.rows).value in r
    ensures forall x :: x in r ==>
      exists k :: (k in attendance.rows && OnDay(attendance.rows[k], courseId, date) &&
                   WithStudent(attendance.rows[k], students.rows, users.rows) == Some(x))
    ensures Ascending(r)
  {
    var ss := students.rows;
    var us := users.rows;
    attendance.Select(a => OnDay(a, courseId, date), a => WithStudent(a, ss, us))
  }

  /** The whitelist's names are lower case, so Postgres reads each as written. */
  lemma AllowedFolded()
    ensures Folded(Allowed)
  {
    assert NoUpper("date");
    assert NoUpper("status");
    assert NoUpper("notes");
  }

  /** A patch with distinct keys writes whitelisted columns of the table, each once, and never the timestamp. */
  lemma ChangesFit(patch: seq<Entry>)
    requires DistinctKeys(patch)
    ensures Changes(patch, Some(Allowed)).Keys <= Columns && "updated_at" !in Changes(patch, Some(Allowed))
    ensures SingleAssignments(patch, Some(Allowed))
  {
    AllowedFolded();
    WhitelistedChanges(patch, Allowed);
  }

  /**
   * `AttendanceModel.update`: null, and no write, when no whitelisted key with a defined
   * value remains or the id is unknown; otherwise the patched row.
   */
  method Update(t: Table, id: int, patch: seq<Entry>, now: int) returns (r: Option<Record>)
    requires IsTable(t) && DistinctKeys(patch)
    modifies t`rows
    ensures IsTable(t)
    ensures r.None? <==> Changes(patch, Some(Allowed)) == map[] || id !in old(t.rows)
    ensures r.None? ==> t.rows == old(t.rows)
    ensures r.Some? ==> (r.value == Patched(old(t.rows)[id], patch, Some(Allowed), now) &&
                         t.rows == old(t.rows)[id := r.value])
  {
    ChangesFit(patch);
    var res := PartialUpdate.Update(t, id, patch, Some(Allowed), now);
    r := res.value;
  }

  /** An attendance update never moves the record to another student or course. */
  lemma UpdateKeepsPair(row: Record, patch: seq<Entry>, now: int)
    requires row.Keys == Columns
    ensures var after := Patched(row, patch, Some(Allowed), now);
      && after.Keys == Columns
      && after["id"] == row["id"] && after["student_id"] == row["student_id"]
      && after["course_id"] == row["course_id"] && after["created_at"] == row["created_at"]
  {
    AllowedFolded();
    ChangesWhitelisted(patch, Some(Allowed));
    PatchedKeeps(row, patch, Some(Allowed), now, "id");
    PatchedKeeps(row, patch, Some(Allowed), now, "student_id");
    PatchedKeeps(row, patch, Some(Allowed), now, "course_id");
    PatchedKeeps(row, patch, Some(Allowed), now, "created_at");
  }

  /** `AttendanceModel.delete`: true exactly when a row with that id existed. */
  method Delete(t: Table, id: int) returns (removed: bool)
    requires IsTable(t)
    modifies t`rows
    ensures IsTable(t)
    ensures removed <==> id in old(t.rows)
    ensures t.rows == old(t.rows) - {id}
  {
    removed := t.Delete(id);
  }
}
