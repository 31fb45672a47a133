/** EnrollmentModel: the enrollments table, linking a student to a course. */
module Enrollments {
  import opened Values
  import opened Query
  import opened Tables
  import opened Joins
  import opened PartialUpdate

  const Columns: set<string> := {"id", "student_id", "course_id", "enrollment_date", "status", "grade", "final_score",
                                 "created_at", "updated_at"}
  const Stamped: set<string> := {"created_at", "updated_at"}
  /** The columns create names in its INSERT: grade and final_score are not among them. */
  const InsertColumns: set<string> := {"student_id", "course_id", "enrollment_date", "status"}
  /** The update whitelist. */
  const Allowed: set<string> := {"enrollment_date", "status", "grade", "final_score"}

  /** t is the enrollments table; nothing makes a (student, course) pair unique. */
  ghost predicate IsTable(t: Table)
    reads t
  {
    t.Valid() && t.columns == Columns && t.unique == {} && t.stamped == Stamped
  }

  function InsertValues(enrollment: Record): Record {
    map c | c in InsertColumns :: Col(enrollment, c)
  }

  /** The row create stores under id. */
  function Stored(enrollment: Record, id: int, now: int): Record {
    Inserted(Columns, Stamped, InsertValues(enrollment), id, now)
  }

  /**
   * The stored enrollment carries the fresh id and the four supplied columns; grade and
   * final_score start NULL whatever the caller passed.
   */
  lemma StoredEnrollment(enrollment: Record, id: int, now: int)
    ensures var row := Stored(enrollment, id, now);
      && row["id"] == Int(id)
      && (forall c :: c in InsertColumns ==> row[c] == Col(enrollment, c))
      && row["grade"] == Null && row["final_score"] == Null
  {
    var values := InsertValues(enrollment);
    assert values.Keys == InsertColumns;
    InsertedRow(Columns, Stamped, values, id, now);
    assert "grade" !in values && "final_score" !in values;
    InsertedDefault(Columns, Stamped, values, id, now, "grade");
    InsertedDefault(Columns, Stamped, values, id, now, "final_score");
  }

  /** `EnrollmentModel.create`: the table has no UNIQUE column, so the insert always succeeds. */
  method Create(t: Table, enrollment: Record, now: int) returns (r: Record)
    requires IsTable(t)
    modifies t`rows, t`nextId
    ensures IsTable(t)
    ensures r == Stored(enrollment, old(t.nextId), now)
    ensures old(t.nextId) !in old(t.rows) && t.rows == old(t.rows)[old(t.nextId) := r]
    ensures t.nextId == old(t.nextId) + 1
  {
    var res := t.Insert(InsertValues(enrollment), now);
    r := res.value;
  }

  /** `EnrollmentModel.findById`. */
  function FindById(t: Table, id: int): (r: Option<Record>)
    reads t
    requires IsTable(t)
    ensures r.None? <==> id !in t.rows
    ensures r.Some? ==> r.value == t.rows[id] && r.value["id"] == Int(id)
  {
    t.FindById(id)
  }

  predicate OfPair(e: Record, studentId: int, courseId: int) {
    Has(e, "student_id", Int(studentId)) && Has(e, "course_id", Int(courseId))
  }

  /**
   * `EnrollmentModel.findByStudentAndCourse`: some enrollment of the pair, or None when there
   * is none; when the pair is enrolled twice, either row may come back.
   */
  function FindByStudentAndCourse(t: Table, studentId: int, courseId: int): (r: Option<Record>)
    reads t
    requires IsTable(t)
    ensures r.None? <==> forall k :: k in t.rows ==> !OfPair(t.rows[k], studentId, courseId)
    ensures r.Some? ==> OfPair(r.value, studentId, courseId) && exists k :: k in t.rows && t.rows[k] == r.value
  {
    t.FindFirst(e => OfPair(e, studentId, courseId))
  }

  /** Two enrollments of the same pair can be stored side by side. */
  lemma PairNotUnique(t: Table, studentId: int, courseId: int, now: int)
    requires IsTable(t)
    ensures var e := map["student_id" := Int(studentId), "course_id" := Int(courseId)];
      !Clash(t.rows, t.nextId, Stored(e, t.nextId, now), t.unique)
  {
  }

  predicate OfStudent(e: Record, studentId: int) {
    Has(e, "student_id", Int(studentId))
  }

  predicate OfCourse(e: Record, courseId: int) {
    Has(e, "course_id", Int(courseId))
  }

  /** `EnrollmentModel.findByStudent`: the student's enrollments whose course exists, with its name and code. */
  function FindByStudent(enrollments: Table, courses: Table, studentId: int): (r: seq<Record>)
    reads enrollments, courses
    requires enrollments.Valid()
    ensures forall k :: (k in enrollments.rows && OfStudent(enrollments.rows[k], studentId) &&
                         WithCourse(enrollments.rows[k], courses.rows).Some?) ==>
                        WithCourse(enrollments.rows[k], courses.rows).value in r
    ensures forall x :: x in r ==>
      exists k :: (k in enrollments.rows && OfStudent(enrollments.rows[k], studentId) &&
                   WithCourse(enrollments.rows[k], courses.rows) == Some(x))
    ensures Ascending(r)
  {
    var cs := courses.rows;
    enrollments.Select(e => OfStudent(e, studentId), e => WithCourse(e, cs))
  }

  /**
   * `EnrollmentModel.findByCourse`: the course's enrollments whose student and user rows
   * exist, with the student's name and number.
   */
  function FindByCourse(enrollments: Table, students: Table, users: Table, courseId: int): (r: seq<Record>)
    reads enrollments, students, users
    requires enrollments.Valid()
    ensures forall k :: (k in enrollments.rows && OfCourse(enrollments.rows[k], courseId) &&
                         WithStudent(enrollments.rows[k], students.rows, users.rows).Some?) ==>
                        WithStudent(enrollments.rows[k], students.rows, users.rows).value in r
    ensures forall x :: x in r ==>
      exists k :: (k in enrollments.rows && OfCourse(enrollments.rows[k], courseId) &&
                   WithStudent(enrollments.rows[k], students.rows, users.rows) == Some(x))
    ensures Ascending(r)
  {
    var ss := students.rows;
    var us := users.rows;
    enrollments.Select(e => OfCourse(e, courseId), e => WithStudent(e, ss, us))
  }

  /** The whitelist's names are lower case, so Postgres reads each as written. */
  lemma AllowedFolded()
    ensures Folded(Allowed)
  {
    assert NoUpper("enrollment_date");
    assert NoUpper("status");
    assert NoUpper("grade");
    assert NoUpper("final_score");
  }

  /** A patch with distinct keys writes whitelisted columns of the table, each once, and never the timestamp. */
  lemma ChangesFit(patch: seq<Entry>)
    requires DistinctKeys(patch)
    ensures Changes(patch, Some(Allowed)).Keys <= Columns && "updated_at" !in Changes(patch, Some(Allowed))
    ensures SingleAssignments(patch, Some(Allowed))
  {
    AllowedFolded();
    WhitelistedChanges(patch, Allowed);
  }

  /**
   * `EnrollmentModel.update`: null, and no write, when no whitelisted key with a defined
   * value remains or the id is unknown; otherwise the patched row.
   */
  method Update(t: Table, id: int, patch: seq<Entry>, now: int) returns (r: Option<Record>)
    requires IsTable(t) && DistinctKeys(patch)
    modifies t`rows
    ensures IsTable(t)
    ensures r.None? <==> Changes(patch, Some(Allowed)) == map[] || id !in old(t.rows)
    ensures r.None? ==> t.rows == old(t.rows)
    ensures r.Some? ==> (r.value == Patched(old(t.rows)[id], patch, Some(Allowed), now) &&
                         t.rows == old(t.rows)[id := r.value])
  {
    ChangesFit(patch);
    var res := PartialUpdate.Update(t, id, patch, Some(Allowed), now);
    r := res.value;
  }

  /** An enrollment update never moves it to another student or course. */
  lemma UpdateKeepsPair(row: Record, patch: seq<Entry>, now: int)
    requires row.Keys == Columns
    ensures var after := Patched(row, patch, Some(Allowed), now);
      && after.Keys == Columns
      && after["id"] == row["id"] && after["student_id"] == row["student_id"]
      && after["course_id"] == row["course_id"] && after["created_at"] == row["created_at"]
  {
    AllowedFolded();
    ChangesWhitelisted(patch, Some(Allowed));
    PatchedKeeps(row, patch, Some(Allowed), now, "id");
    PatchedKeeps(row, patch, Some(Allowed), now, "student_id");
    PatchedKeeps(row, patch, Some(Allowed), now, "course_id");
    PatchedKeeps(row, patch, Some(Allowed), now, "created_at");
  }

  /** `EnrollmentModel.delete`: true exactly when a row with that id existed. */
  method Delete(t: Table, id: int) returns (removed: bool)
    requires IsTable(t)
    modifies t`rows
    ensures IsTable(t)
    ensures removed <==> id in old(t.rows)
    ensures t.rows == old(t.rows) - {id}
  {
    removed := t.Delete(id);
  }
}
