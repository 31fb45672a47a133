/** The grade endpoints: listings, the per-course report with its average, create, update, delete. */
module GradeRoutes {
  import opened Values
  import opened Tables
  import opened PartialUpdate
  import opened Http
  import Grades

  /** The roles `authorize` admits to each guarded endpoint. */
  const CourseListers: set<Role> := {Admin, Teacher}
  const Creators: set<Role> := {Admin, Teacher}
  const Updaters: set<Role> := {Admin, Teacher}
  const Deleters: set<Role> := {Admin}

  /**
   * `GET /student/:studentId`: every authenticated caller gets the grades of the student
   * named in the path; the student-role branch checks nothing. A path that does not parse
   * reaches the store as NaN, which rejects it.
   */
  function StudentGrades(grades: Table, courses: Table, caller: Caller, studentId: Option<int>): (r: Response)
    reads grades, courses
    requires grades.Valid()
    ensures r.status == 200 <==> studentId.Some?
    ensures r.status == 200 ==> r.body == Many(Grades.FindByStudent(grades, courses, studentId.value),
                                               |Grades.FindByStudent(grades, courses, studentId.value)|)
  {
    match studentId
    case None => ServerError("Failed to fetch grades")
    case Some(s) =>
      var gs := Grades.FindByStudent(grades, courses, s);
      Response(200, Many(gs, |gs|))
  }

  /** The listing does not depend on who asks: a student sees another student's grades. */
  lemma StudentGradesIgnoreCaller(grades: Table, courses: Table, a: Caller, b: Caller, studentId: Option<int>)
    requires grades.Valid()
    ensures StudentGrades(grades, courses, a, studentId) == StudentGrades(grades, courses, b, studentId)
  {
  }

  /**
   * `GET /student/:studentId/course/:courseId`: the pair's grades, their number, and the
   * pair's weighted average (null when it has no grades); 500 when a path segment does not
   * parse or the average divides by a zero total weight.
   */
  function CourseReport(grades: Table, assignments: Table, studentId: Option<int>, courseId: Option<int>): (r: Response)
    reads grades, assignments
    requires grades.Valid()
    ensures r.status == 200 <==>
      studentId.Some? && courseId.Some? && Grades.CourseAverage(grades, studentId.value, courseId.value).Ok?
    ensures r.status == 200 ==>
      var gs := Grades.FindByStudentAndCourse(grades, assignments, studentId.value, courseId.value);
      r.body == GradeReport(gs, Grades.CourseAverage(grades, studentId.value, courseId.value).value, |gs|)
    ensures r.status != 200 ==> r.status == 500
  {
    if studentId.None? || courseId.None? then ServerError("Failed to fetch grades")
    else
      var gs := Grades.FindByStudentAndCourse(grades, assignments, studentId.value, courseId.value);
      match Grades.CourseAverage(grades, studentId.value, courseId.value)
      case Err(_) => ServerError("Failed to fetch grades")
      case Ok(average) => Response(200, GradeReport(gs, average, |gs|))
  }

  /** A pair without grades reports an empty list, a null average and a count of zero. */
  lemma EmptyReport(grades: Table, assignments: Table, studentId: int, courseId: int)
    requires grades.Valid()
    requires forall k :: k in grades.rows ==> !Grades.OfStudentAndCourse(grades.rows[k], studentId, courseId)
    ensures CourseReport(grades, assignments, Some(studentId), Some(courseId)) == Response(200, GradeReport([], None, 0))
  {
  }

  /** `GET /course/:courseId`, for admins and teachers: the course's grades and their number. */
  function CourseGrades(grades: Table, students: Table, users: Table, caller: Caller, courseId: Option<int>)
    : (r: Response)
    reads grades, students, users
    requires grades.Valid()
    requires caller.role in CourseListers
    ensures r.status == 200 <==> courseId.Some?
    ensures r.status == 200 ==>
      var gs := Grades.FindByCourse(grades, students, users, courseId.value);
      r.body == Many(gs, |gs|)
  {
    match courseId
    case None => ServerError("Failed to fetch grades")
    case Some(c) =>
      var gs := Grades.FindByCourse(grades, students, users, c);
      Response(200, Many(gs, |gs|))
  }

  /**
   * The grade the create handler passes to the model: the body's fields, the body's weight
   * or 1.0 when it is missing or falsy, and the caller as grader.
   */
  function NewGrade(body: Record, caller: Caller): Record {
    map["student_id" := Col(body, "student_id"), "course_id" := Col(body, "course_id"),
        "assignment_id" := Col(body, "assignment_id"), "grade_value" := Col(body, "grade_value"),
        "grade_letter" := Col(body, "grade_letter"), "weight" := OrElse(Col(body, "weight"), Real(1.0)),
        "graded_by" := Int(caller.id)]
  }

  /**
   * `POST /`, for admins and teachers: 201 and the stored grade, graded by the caller, with
   * weight 1.0 when the body's weight is missing or falsy.
   */
  method Create(grades: Table, caller: Caller, body: Record, now: int) returns (r: Response)
    requires Grades.IsTable(grades)
    requires caller.role in Creators
    modifies grades`rows, grades`nextId
    ensures Grades.IsTable(grades)
    ensures r.status == 201 && r.body.One?
    ensures r.body.row == Grades.Stored(NewGrade(body, caller), old(grades.nextId), now)
    ensures r.body.row["graded_by"] == Int(caller.id)
    ensures r.body.row["weight"] == if Truthy(Col(body, "weight")) then body["weight"] else Real(1.0)
    ensures grades.rows == old(grades.rows)[old(grades.nextId) := r.body.row]
    ensures grades.nextId == old(grades.nextId) + 1
  {
    var g := NewGrade(body, caller);
    Grades.StoredGrade(g, grades.nextId, now);
    Grades.StoredWeight(g, grades.nextId, now);
    var row := Grades.Create(grades, g, now);
    r := Response(201, One(row));
  }

  /**
   * `PUT /:id`, for admins and teachers: 404 when the model answers null (nothing
   * whitelisted to write, or no such grade), 200 and the updated grade otherwise. An id that
   * does not parse is bound as NaN, which the store rejects, unless nothing is left to write.
   */
  method Update(grades: Table, caller: Caller, id: Option<int>, patch: seq<Entry>, now: int) returns (r: Response)
    requires Grades.IsTable(grades) && DistinctKeys(patch)
    requires caller.role in Updaters
    modifies grades`rows
    ensures Grades.IsTable(grades)
    ensures id.None? ==> grades.rows == old(grades.rows)
    ensures id.None? ==> r.status == if Changes(patch, Some(Grades.Allowed)) == map[] then 404 else 500
    ensures id.Some? ==>
      && (r.status == 404 <==> Changes(patch, Some(Grades.Allowed)) == map[] || id.value !in old(grades.rows))
      && (r.status == 404 ==> grades.rows == old(grades.rows))
      && (r.status != 404 ==>
            && r == Response(200, One(Patched(old(grades.rows)[id.value], patch, Some(Grades.Allowed), now)))
            && grades.rows == old(grades.rows)[id.value := r.body.row])
  {
    if id.None? {
      if Changes(patch, Some(Grades.Allowed)) == map[] {
        return NotFound("Grade not found");
      }
      return ServerError("Failed to update grade");
    }
    var grade := Grades.Update(grades, id.value, patch, now);
    if grade.None? {
      return NotFound("Grade not found");
    }
    r := Response(200, One(grade.value));
  }

  /** `DELETE /:id`, for admins: 404 exactly when no grade was removed. */
  method Delete(grades: Table, caller: Caller, id: Option<int>) returns (r: Response)
    requires Grades.IsTable(grades)
    requires caller.role in Deleters
    modifies grades`rows
    ensures Grades.IsTable(grades)
    ensures id.None? ==> r.status == 500 && grades.rows == old(grades.rows)
    ensures id.Some? ==> (r.status == 404 <==> id.value !in old(grades.rows))
    ensures id.Some? ==> r.status == 404 || r.status == 200
    ensures id.Some? ==> grades.rows == old(grades.rows) - {id.value}
  {
    if id.None? {
      return ServerError("Failed to delete grade");
    }
    var deleted := Grades.Delete(grades, id.value);
    if !deleted {
      return NotFound("Grade not found");
    }
    r := Response(200, Message("Grade deleted successfully"));
  }
}
