/** The student endpoints: listing, the owner-checked read, the two-step create, update, delete. */
module StudentRoutes {
  import opened Values
  import opened Tables
  import opened PartialUpdate
  import opened Http
  import Users
  import Students

  /** The roles `authorize` admits to each guarded endpoint. */
  const Listers: set<Role> := {Admin, Teacher}
  const Creators: set<Role> := {Admin}
  const Updaters: set<Role> := {Admin}
  const Deleters: set<Role> := {Admin}

  /**
   * `GET /`, for admins and teachers: `findAll(parseInt(limit) || 100, parseInt(offset) || 0)`;
   * a negative limit or offset reaches the store, which rejects it.
   */
  function List(students: Table, users: Table, caller: Caller, limit: Option<int>, offset: Option<int>): (r: Response)
    reads students, users
    requires students.Valid()
    requires caller.role in Listers
    ensures var page := Students.FindAll(students, users, QueryOr(limit, 100), QueryOr(offset, 0));
      && (r.status == 200 <==> page.Ok?)
      && (r.status == 200 ==> r.body == Many(page.value, |page.value|) && |page.value| <= QueryOr(limit, 100))
      && (r.status != 200 ==> r.status == 500)
  {
    var page := Students.FindAll(students, users, QueryOr(limit, 100), QueryOr(offset, 0));
    match page
    case Err(_) => ServerError("Failed to fetch students")
    case Ok(rows) => Response(200, Many(rows, |rows|))
  }

  /** Without usable query parameters the listing is the first page of at most 100 students. */
  lemma ListDefaults(students: Table, users: Table, caller: Caller, limit: Option<int>, offset: Option<int>)
    requires students.Valid()
    requires caller.role in Listers
    requires limit.None? || limit.value == 0
    requires offset.None? || offset.value == 0
    ensures var r := List(students, users, caller, limit, offset);
      && r.status == 200 && r.body.Many? && |r.body.rows| <= 100
      && |r.body.rows| == if |Students.Listing(students, users)| <= 100 then |Students.Listing(students, users)| else 100
  {
  }

  /**
   * `GET /:id`: 404 for an unknown student, whoever asks; a caller with role student then
   * gets 403 unless the student linked to their user id is that very row; any other role
   * gets the row.
   */
  method GetById(students: Table, caller: Caller, id: Option<int>) returns (r: Response)
    requires Students.IsTable(students)
    ensures id.None? ==> r.status == 500
    ensures id.Some? && id.value !in students.rows ==> r.status == 404
    ensures id.Some? && id.value in students.rows && caller.role != StudentRole ==>
      r == Response(200, One(students.rows[id.value]))
    ensures id.Some? && id.value in students.rows && caller.role == StudentRole ==>
      var own := Students.FindByUserId(students, caller.id);
      if own.Some? && own.value["id"] == Int(id.value) then r == Response(200, One(students.rows[id.value]))
      else r.status == 403
  {
    if id.None? {
      return ServerError("Failed to fetch student");
    }
    var student := Students.FindById(students, id.value);
    if student.None? {
      return NotFound("Student not found");
    }
    if caller.role == StudentRole {
      var userStudent := Students.FindByUserId(students, caller.id);
      if userStudent.None? || userStudent.value["id"] != student.value["id"] {
        return Response(403, Failure("Forbidden"));
      }
    }
    r := Response(200, One(student.value));
  }

  /**
   * A caller with role student only ever reads a row linked to their own user id, and reads
   * it when it is the only student row linked to them.
   */
  lemma StudentsReadOnlyThemselves(students: Table, caller: Caller, id: int, r: Response)
    requires Students.IsTable(students)
    requires caller.role == StudentRole
    requires id in students.rows
    requires var own := Students.FindByUserId(students, caller.id);
      if own.Some? && own.value["id"] == Int(id) then r == Response(200, One(students.rows[id]))
      else r.status == 403
    ensures r.status == 200 ==> Has(students.rows[id], "user_id", Int(caller.id))
    ensures (Has(students.rows[id], "user_id", Int(caller.id)) &&
             forall k :: k in students.rows && Has(students.rows[k], "user_id", Int(caller.id)) ==> k == id)
            ==> r.status == 200
  {
    var own := Students.FindByUserId(students, caller.id);
    if own.Some? {
      var k :| k in students.rows && students.rows[k] == own.value;
      assert own.value["id"] == Int(k);
    }
  }

  /** The user account create makes for a new student: role 'student', the body's own fields. */
  function NewUser(body: Record, passwordHash: Value): Record {
    map["username" := Col(body, "username"), "email" := Col(body, "email"), "password_hash" := passwordHash,
        "role" := Text("student"), "first_name" := Col(body, "first_name"), "last_name" := Col(body, "last_name"),
        "phone" := Col(body, "phone")]
  }

  /**
   * The student record create makes for user userId. toDate is `new Date(...)`; a missing or
   * falsy enrollment date becomes the clock's now, a missing or falsy status 'active'.
   */
  function NewStudent(body: Record, userId: Value, toDate: Value -> Value, now: int): Record {
    map["user_id" := userId, "student_number" := Col(body, "student_number"),
        "date_of_birth" := toDate(Col(body, "date_of_birth")), "gender" := Col(body, "gender"),
        "address" := Col(body, "address"), "parent_name" := Col(body, "parent_name"),
        "parent_phone" := Col(body, "parent_phone"), "parent_email" := Col(body, "parent_email"),
        "enrollment_date" := toDate(OrElse(Col(body, "enrollment_date"), Int(now))),
        "status" := OrElse(Col(body, "status"), Text("active"))]
  }

  /** The part of the new user the response exposes: id, username and email, never the hash. */
  function Exposed(user: Record): (r: Record) {
    map["id" := Col(user, "id"), "username" := Col(user, "username"), "email" := Col(user, "email")]
  }

  /** The response exposes exactly id, username and email of the new user. */
  lemma ExposedFields(user: Record)
    ensures Exposed(user).Keys == {"id", "username", "email"}
    ensures "password_hash" !in Exposed(user) && "role" !in Exposed(user)
  {
  }

  /**
   * `POST /`, for admins. hash is `bcrypt.hash(·, 10)`: the hash of a password, or None when
   * bcrypt rejects it, as it rejects a missing one; the rejection is caught and answered 500
   * before anything is stored. Then the user account with role 'student', then the student
   * record linked to it; 201 with the student and the exposed user. A failing user insert
   * answers 500 with nothing stored; a failing student insert answers 500 but the new user
   * stays: there is no rollback.
   */
  method Create(users: Table, students: Table, caller: Caller, body: Record, hash: Value -> Option<Value>,
                toDate: Value -> Value, now: int) returns (r: Response)
    requires Users.IsTable(users) && Students.IsTable(students) && users != students
    requires caller.role in Creators
    requires hash(Null).None?
    modifies users`rows, users`nextId, students`rows, students`nextId
    ensures Users.IsTable(users) && Students.IsTable(students)
    ensures hash(Col(body, "password")).None? ==>
      && r.status == 500
      && users.rows == old(users.rows) && students.rows == old(students.rows)
      && users.nextId == old(users.nextId) && students.nextId == old(students.nextId)
    ensures hash(Col(body, "password")).Some? ==>
      var passwordHash := hash(Col(body, "password")).value;
      var userId := old(users.nextId);
      var user := Users.Stored(NewUser(body, passwordHash), userId, now);
      && users.nextId == old(users.nextId) + 1
      && (if Users.Taken(old(users.rows), userId, NewUser(body, passwordHash)) then
            && r.status == 500
            && users.rows == old(users.rows) && students.rows == old(students.rows)
            && students.nextId == old(students.nextId)
          else
            && users.rows == old(users.rows)[userId := user]
            && students.nextId == old(students.nextId) + 1
            && var sid := old(students.nextId);
               var student := NewStudent(body, Int(userId), toDate, now);
               if Students.NumberTaken(old(students.rows), sid, Col(student, "student_number")) then
                 r.status == 500 && students.rows == old(students.rows)
               else
                 && students.rows == old(students.rows)[sid := Students.Stored(student, sid, now)]
                 && r == Response(201, Enrolled(Students.Stored(student, sid, now), Exposed(user))))
  {
    var passwordHash := hash(Col(body, "password"));
    if passwordHash.None? {
      return ServerError("Failed to create student");
    }
    var user := Users.Create(users, NewUser(body, passwordHash.value), now);
    if user.Err? {
      return ServerError("Failed to create student");
    }
    Users.StoredUser(NewUser(body, passwordHash.value), old(users.nextId), now);
    var student := Students.Create(students, NewStudent(body, user.value["id"], toDate, now), now);
    if student.Err? {
      return ServerError("Failed to create student");
    }
    r := Response(201, Enrolled(student.value, Exposed(user.value)));
  }

  /** A body without a password is answered 500, and nothing is stored. */
  lemma MissingPasswordRejected(body: Record, hash: Value -> Option<Value>)
    requires hash(Null).None?
    requires "password" !in body
    ensures hash(Col(body, "password")).None?
  {
  }

  /** The new user always has role 'student'. */
  lemma CreatedUserIsStudent(body: Record, passwordHash: Value, userId: int, now: int)
    ensures Users.Stored(NewUser(body, passwordHash), userId, now)["role"] == Text("student")
  {
    Users.StoredUser(NewUser(body, passwordHash), userId, now);
  }

  /** The new student row points at the new user, and its status defaults to 'active'. */
  lemma CreatedStudentLinks(body: Record, toDate: Value -> Value, userId: int, sid: int, now: int)
    ensures var st := Students.Stored(NewStudent(body, Int(userId), toDate, now), sid, now);
      && st["user_id"] == Int(userId)
      && st["status"] == if "status" in body && Truthy(body["status"]) then body["status"] else Text("active")
  {
    var student := NewStudent(body, Int(userId), toDate, now);
    Students.StoredColumn(student, sid, now, "user_id");
    Students.StoredColumn(student, sid, now, "status");
  }

  /**
   * `PUT /:id`, for admins: 404 exactly when the model answers null, 500 exactly when the
   * new student number is another student's.
   */
  method Update(students: Table, caller: Caller, id: Option<int>, patch: seq<Entry>, now: int) returns (r: Response)
    requires Students.IsTable(students) && DistinctKeys(patch)
    requires caller.role in Updaters
    modifies students`rows
    ensures Students.IsTable(students)
    ensures id.None? ==> students.rows == old(students.rows)
    ensures id.None? ==> r.status == if Changes(patch, Some(Students.Allowed)) == map[] then 404 else 500
    ensures id.Some? ==>
      && (r.status == 404 <==> Changes(patch, Some(Students.Allowed)) == map[] || id.value !in old(students.rows))
      && (var w := Changes(patch, Some(Students.Allowed));
          r.status == 500 <==>
            w != map[] && id.value in old(students.rows) && "student_number" in w &&
            Students.NumberTaken(old(students.rows), id.value, w["student_number"]))
      && (r.status != 200 ==> students.rows == old(students.rows))
      && (r.status == 200 ==>
            && r == Response(200, One(Patched(old(students.rows)[id.value], patch, Some(Students.Allowed), now)))
            && students.rows == old(students.rows)[id.value := r.body.row])
      && (r.status == 200 || r.status == 404 || r.status == 500)
  {
    if id.None? {
      if Changes(patch, Some(Students.Allowed)) == map[] {
        return NotFound("Student not found");
      }
      return ServerError("Failed to update student");
    }
    var student := Students.Update(students, id.value, patch, now);
    match student
    case Err(_) => r := ServerError("Failed to update student");
    case Ok(None) => r := NotFound("Student not found");
    case Ok(Some(row)) => r := Response(200, One(row));
  }

  /** `DELETE /:id`, for admins: 404 exactly when no student was removed. */
  method Delete(students: Table, caller: Caller, id: Option<int>) returns (r: Response)
    requires Students.IsTable(students)
    requires caller.role in Deleters
    modifies students`rows
    ensures Students.IsTable(students)
    ensures id.None? ==> r.status == 500 && students.rows == old(students.rows)
    ensures id.Some? ==> (r.status == 404 <==> id.value !in old(students.rows))
    ensures id.Some? ==> r.status == 404 || r.status == 200
    ensures id.Some? ==> students.rows == old(students.rows) - {id.value}
  {
    if id.None? {
      return ServerError("Failed to delete student");
    }
    var deleted := Students.Delete(students, id.value);
    if !deleted {
      return NotFound("Student not found");
    }
    r := Response(200, Message("Student deleted successfully"));
  }
}
