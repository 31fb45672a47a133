/**
 * The joins several repositories share. Each widens a row with columns of its partner row
 * and answers None when an inner join finds no partner.
 */
module Joins {
  import opened Values

  /** The integer a foreign-key column holds; NULL (or any non-integer) joins nothing. */
  function KeyOf(r: Record, c: string): Option<int> {
    match Col(r, c)
    case Int(k) => Some(k)
    case _ => None
  }

  /** `JOIN courses c ON x.course_id = c.id`, adding `c.name as course_name, c.code as course_code`. */
  function WithCourse(x: Record, courses: map<int, Record>): (r: Option<Record>)
    ensures r.Some? <==> KeyOf(x, "course_id").Some? && KeyOf(x, "course_id").value in courses
    ensures r.Some? ==>
      var course := courses[KeyOf(x, "course_id").value];
      && "course_name" in r.value && r.value["course_name"] == Col(course, "name")
      && "course_code" in r.value && r.value["course_code"] == Col(course, "code")
    ensures r.Some? ==> forall c :: c in x && c != "course_name" && c != "course_code" ==> c in r.value && r.value[c] == x[c]
    ensures r.Some? ==> Col(r.value, "id") == Col(x, "id")
  {
    match KeyOf(x, "course_id")
    case Some(c) =>
      if c in courses
      then Some(x + map["course_name" := Col(courses[c], "name"), "course_code" := Col(courses[c], "code")])
      else None
    case None => None
  }

  /**
   * `JOIN students s ON x.student_id = s.id JOIN users u ON s.user_id = u.id`, adding
   * `u.first_name, u.last_name, s.student_number`.
   */
  function WithStudent(x: Record, students: map<int, Record>, users: map<int, Record>): (r: Option<Record>)
    ensures r.Some? <==>
      && KeyOf(x, "student_id").Some? && KeyOf(x, "student_id").value in students
      && KeyOf(students[KeyOf(x, "student_id").value], "user_id").Some?
      && KeyOf(students[KeyOf(x, "student_id").value], "user_id").value in users
    ensures r.Some? ==>
      var student := students[KeyOf(x, "student_id").value];
      var user := users[KeyOf(student, "user_id").value];
      && "first_name" in r.value && r.value["first_name"] == Col(user, "first_name")
      && "last_name" in r.value && r.value["last_name"] == Col(user, "last_name")
      && "student_number" in r.value && r.value["student_number"] == Col(student, "student_number")
    ensures r.Some? ==>
      forall c :: c in x && c != "first_name" && c != "last_name" && c != "student_number" ==> c in r.value && r.value[c] == x[c]
    ensures r.Some? ==> Col(r.value, "id") == Col(x, "id")
  {
    match KeyOf(x, "student_id")
    case Some(s) =>
      if s in students then
        match KeyOf(students[s], "user_id")
        case Some(u) =>
          if u in users then
            Some(x + map["first_name" := Col(users[u], "first_name"), "last_name" := Col(users[u], "last_name"),
                         "student_number" := Col(students[s], "student_number")])
          else None
        case None => None
      else None
    case None => None
  }

  /**
   * `LEFT JOIN assignments a ON x.assignment_id = a.id`, adding `a.title as assignment_title`:
   * the row is always kept, with a NULL title when it has no assignment.
   */
  function WithAssignmentTitle(x: Record, assignments: map<int, Record>): (r: Record)
    ensures "assignment_title" in r && r["assignment_title"] ==
      if KeyOf(x, "assignment_id").Some? && KeyOf(x, "assignment_id").value in assignments
      then Col(assignments[KeyOf(x, "assignment_id").value], "title") else Null
    ensures forall c :: c in x && c != "assignment_title" ==> c in r && r[c] == x[c]
    ensures Col(r, "id") == Col(x, "id")
  {
    var title := match KeyOf(x, "assignment_id")
      case Some(a) => if a in assignments then Col(assignments[a], "title") else Null
      case None => Null;
    x["assignment_title" := title]
  }

  /** `JOIN users u ON x.user_id = u.id`, adding `u.first_name, u.last_name, u.email`. */
  function WithUser(x: Record, users: map<int, Record>): (r: Option<Record>)
    ensures r.Some? <==> KeyOf(x, "user_id").Some? && KeyOf(x, "user_id").value in users
    ensures r.Some? ==>
      var user := users[KeyOf(x, "user_id").value];
      && "first_name" in r.value && r.value["first_name"] == Col(user, "first_name")
      && "last_name" in r.value && r.value["last_name"] == Col(user, "last_name")
      && "email" in r.value && r.value["email"] == Col(user, "email")
    ensures r.Some? ==> forall c :: c in x && c != "first_name" && c != "last_name" && c != "email" ==> c in r.value && r.value[c] == x[c]
    ensures r.Some? ==> Col(r.value, "id") == Col(x, "id")
  {
    match KeyOf(x, "user_id")
    case Some(u) =>
      if u in users
      then Some(x + map["first_name" := Col(users[u], "first_name"), "last_name" := Col(users[u], "last_name"),
                        "email" := Col(users[u], "email")])
      else None
    case None => None
  }

  /** `JOIN courses c ON x.course_id = c.id`, adding only `c.name as course_name`. */
  function WithCourseName(x: Record, courses: map<int, Record>): (r: Option<Record>)
    ensures r.Some? <==> KeyOf(x, "course_id").Some? && KeyOf(x, "course_id").value in courses
    ensures r.Some? ==> "course_name" in r.value && r.value["course_name"] == Col(courses[KeyOf(x, "course_id").value], "name")
    ensures r.Some? ==> forall c :: c in x && c != "course_name" ==> c in r.value && r.value[c] == x[c]
    ensures r.Some? ==> Col(r.value, "id") == Col(x, "id")
  {
    match KeyOf(x, "course_id")
    case Some(c) => if c in courses then Some(x["course_name" := Col(courses[c], "name")]) else None
    case None => None
  }

  /** SQL `a || ' ' || b` on two text values; NULL when either is NULL (or not text). */
  function FullName(a: Value, b: Value): (r: Value)
    ensures r != Null <==> a.Text? && b.Text?
    ensures r != Null ==> r == Text(a.s + " " + b.s)
  {
    if a.Text? && b.Text? then Text(a.s + " " + b.s) else Null
  }

  /** `JOIN users u ON x.teacher_id = u.id`, adding `u.first_name || ' ' || u.last_name as teacher_name`. */
  function WithTeacher(x: Record, users: map<int, Record>): (r: Option<Record>)
    ensures r.Some? <==> KeyOf(x, "teacher_id").Some? && KeyOf(x, "teacher_id").value in users
    ensures r.Some? ==>
      var u := users[KeyOf(x, "teacher_id").value];
      "teacher_name" in r.value && r.value["teacher_name"] == FullName(Col(u, "first_name"), Col(u, "last_name"))
    ensures r.Some? ==> forall c :: c in x && c != "teacher_name" ==> c in r.value && r.value[c] == x[c]
    ensures r.Some? ==> Col(r.value, "id") == Col(x, "id")
  {
    match KeyOf(x, "teacher_id")
    case Some(t) =>
      if t in users then Some(x["teacher_name" := FullName(Col(users[t], "first_name"), Col(users[t], "last_name"))])
      else None
    case None => None
  }
}
