/** AssignmentModel: the assignments table, one row per piece of coursework. */
module Assignments {
  import opened Values
  import opened Query
  import opened Tables
  import opened Joins
  import opened PartialUpdate

  const Columns: set<string> := {"id", "course_id", "title", "description", "due_date", "max_points", "type", "status",
                                 "created_at", "updated_at"}
  const Stamped: set<string> := {"created_at", "updated_at"}
  /** The columns create names in its INSERT. */
  const InsertColumns: set<string> := {"course_id", "title", "description", "due_date", "max_points", "type", "status"}
  /** The update whitelist. */
  const Allowed: set<string> := {"title", "description", "due_date", "max_points", "type", "status"}

  /** t is the assignments table. */
  ghost predicate IsTable(t: Table)
    reads t
  {
    t.Valid() && t.columns == Columns && t.unique == {} && t.stamped == Stamped
  }

  function InsertValues(assignment: Record): Record {
    map c | c in InsertColumns :: Col(assignment, c)
  }

  /** The row create stores under id. */
  function Stored(assignment: Record, id: int, now: int): Record {
    Inserted(Columns, Stamped, InsertValues(assignment), id, now)
  }

  /** The stored assignment carries the fresh id and all seven supplied columns as given. */
  lemma StoredAssignment(assignment: Record, id: int, now: int)
    ensures var row := Stored(assignment, id, now);
      && row["id"] == Int(id)
      && forall c :: c in InsertColumns ==> row[c] == Col(assignment, c)
  {
    assert InsertValues(assignment).Keys == InsertColumns;
    InsertedRow(Columns, Stamped, InsertValues(assignment), id, now);
  }

  /** `AssignmentModel.create`: the table has no UNIQUE column, so the insert always succeeds. */
  method Create(t: Table, assignment: Record, now: int) returns (r: Record)
    requires IsTable(t)
    modifies t`rows, t`nextId
    ensures IsTable(t)
    ensures r == Stored(assignment, old(t.nextId), now)
    ensures old(t.nextId) !in old(t.rows) && t.rows == old(t.rows)[old(t.nextId) := r]
    ensures t.nextId == old(t.nextId) + 1
  {
    var res := t.Insert(InsertValues(assignment), now);
    r := res.value;
  }

  /** `AssignmentModel.findById`. */
  function FindById(t: Table, id: int): (r: Option<Record>)
    reads t
    requires IsTable(t)
    ensures r.None? <==> id !in t.rows
    ensures r.Some? ==> r.value == t.rows[id] && r.value["id"] == Int(id)
  {
    t.FindById(id)
  }

  /** `AssignmentModel.findByCourse`: exactly the course's assignments, earliest due first. */
  function FindByCourse(t: Table, courseId: int): (r: seq<Record>)
    reads t
    requires IsTable(t)
    ensures Sorted(r, "due_date", false)
    ensures forall k :: k in t.rows && Has(t.rows[k], "course_id", Int(courseId)) ==> t.rows[k] in r
    ensures forall x :: x in r ==> Has(x, "course_id", Int(courseId)) && exists k :: k in t.rows && t.rows[k] == x
    ensures Distinct(r)
  {
    var mine := t.Filter(a => Has(a, "course_id", Int(courseId)));
    assert Distinct(SortBy(mine, "due_date", false)) by {
      AscendingDistinct(mine);
      SortByDistinct(mine, "due_date", false);
    }
    SortBy(mine, "due_date", false)
  }

  /** The assignments whose course exists, each with the course's name, in id order. */
  function Listing(assignments: Table, courses: Table): (r: seq<Record>)
    reads assignments, courses
    requires assignments.Valid()
    ensures forall k :: k in assignments.rows && WithCourseName(assignments.rows[k], courses.rows).Some? ==>
      WithCourseName(assignments.rows[k], courses.rows).value in r
    ensures forall x :: x in r ==>
      exists k :: k in assignments.rows && WithCourseName(assignments.rows[k], courses.rows) == Some(x)
    ensures Ascending(r)
  {
    var cs := courses.rows;
    assignments.Select(a => true, a => WithCourseName(a, cs))
  }

  /**
   * `AssignmentModel.findAll(limit, offset)`: at most limit assignments of the listing from
   * position offset on, each one whose course exists; a negative limit or offset is an error.
   */
  function FindAll(assignments: Table, courses: Table, limit: int, offset: int): (r: Result<seq<Record>>)
    reads assignments, courses
    requires assignments.Valid()
    ensures r.Err? <==> limit < 0 || offset < 0
    ensures r.Ok? ==>
      var all := Listing(assignments, courses);
      && |r.value| <= limit
      && |r.value| == (if offset + limit <= |all| then limit else if offset <= |all| then |all| - offset else 0)
      && (forall j :: 0 <= j < |r.value| ==> r.value[j] == all[offset + j])
      && Ascending(r.value)
    ensures r.Ok? ==> forall x :: x in r.value ==>
      exists k :: k in assignments.rows && WithCourseName(assignments.rows[k], courses.rows) == Some(x)
  {
    Window(Listing(assignments, courses), limit, offset)
  }

  /** The whitelist's names are lower case, so Postgres reads each as written. */
  lemma AllowedFolded()
    ensures Folded(Allowed)
  {
    assert NoUpper("title");
    assert NoUpper("description");
    assert NoUpper("due_date");
    assert NoUpper("max_points");
    assert NoUpper("type");
    assert NoUpper("status");
  }

  /** A patch with distinct keys writes whitelisted columns of the table, each once, and never the timestamp. */
  lemma ChangesFit(patch: seq<Entry>)
    requires DistinctKeys(patch)
    ensures Changes(patch, Some(Allowed)).Keys <= Columns && "updated_at" !in Changes(patch, Some(Allowed))
    ensures SingleAssignments(patch, Some(Allowed))
  {
    AllowedFolded();
    WhitelistedChanges(patch, Allowed);
  }

  /**
   * `AssignmentModel.update`: null, and no write, when no whitelisted key with a defined
   * value remains or the id is unknown; otherwise the patched row.
   */
  method Update(t: Table, id: int, patch: seq<Entry>, now: int) returns (r: Option<Record>)
    requires IsTable(t) && DistinctKeys(patch)
    modifies t`rows
    ensures IsTable(t)
    ensures r.None? <==> Changes(patch, Some(Allowed)) == map[] || id !in old(t.rows)
    ensures r.None? ==> t.rows == old(t.rows)
    ensures r.Some? ==> (r.value == Patched(old(t.rows)[id], patch, Some(Allowed), now) &&
                         t.rows == old(t.rows)[id := r.value])
  {
    ChangesFit(patch);
    var res := PartialUpdate.Update(t, id, patch, Some(Allowed), now);
    r := res.value;
  }

  /** An assignment update never moves it to another course. */
  lemma UpdateKeepsCourse(row: Record, patch: seq<Entry>, now: int)
    requires row.Keys == Columns
    ensures var after := Patched(row, patch, Some(Allowed), now);
      && after.Keys == Columns
      && after["id"] == row["id"] && after["course_id"] == row["course_id"] && after["created_at"] == row["created_at"]
  {
    AllowedFolded();
    ChangesWhitelisted(patch, Some(Allowed));
    PatchedKeeps(row, patch, Some(Allowed), now, "id");
    PatchedKeeps(row, patch, Some(Allowed), now, "course_id");
    PatchedKeeps(row, patch, Some(Allowed), now, "created_at");
  }

  /** `AssignmentModel.delete`: true exactly when a row with that id existed. */
  method Delete(t: Table, id: int) returns (removed: bool)
    requires IsTable(t)
    modifies t`rows
    ensures IsTable(t)
    ensures removed <==> id in old(t.rows)
    ensures t.rows == old(t.rows) - {id}
  {
    removed := t.Delete(id);
  }
}
