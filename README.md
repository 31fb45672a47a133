# School administration backend: repositories and two route files

This project models the data-access layer of a school administration backend. The
repositories for users, students, courses, enrollments, assignments, attendance and
grades are modelled as one relational store held in memory. The grade and student HTTP
handlers that add decisions on top of the repositories are modelled too.

- A table is a class `Tables.Table`. It holds its rows by primary key (`rows: map<int, Record>`)
  and the counter of its SERIAL id sequence (`nextId`). A row is a map from column name to value.
- `create` is `Table.Insert`. It fills every column with its default (NOW() or NULL), then with
  the supplied values, then with the fresh id. The id sequence advances even when a UNIQUE
  constraint rejects the row.
- The `findBy…` queries are functions over the stored rows, built from five pieces:
  - a scan in ascending id order;
  - WHERE;
  - inner and left joins;
  - ORDER BY (`Query.SortBy`, proved sorted and a permutation);
  - LIMIT/OFFSET (`Query.Window`).
- `update` is shared by all seven repositories (`PartialUpdate.Update`). A `for` loop
  (`BuildSetClause`) walks the entries of the patch in order. It keeps an entry whose value is
  defined, whose key is not `id` and whose key is whitelisted, and pairs that column with
  placeholder `$k`. When nothing is kept, it answers null without writing. Otherwise it binds
  the id to `$n+1` and executes the statement. Executing the statement is itself modelled: an
  unknown column, a second assignment to `updated_at`, an unknown id, or a UNIQUE violation
  each have their own outcome.
- `delete` answers whether a row was removed.
- `calculateCourseAverage` is `SUM(grade_value * weight) / SUM(weight)` with SQL's NULL
  rules. It is proved equal to Σ(v·w)/Σw over numeric rows, to lie between the lowest and the
  highest grade when the weights are positive, and to give 300/3.5 ≈ 85.71 on the example from
  the tests.
- The handlers in `routes/grades.ts` and `routes/students.ts` are functions (the listings) or
  methods (the handlers that write or read step by step). Each returns a `Response` with a
  status and a body.

Where the system's written description and the code differ, the model follows the code:

- `update` answers null both when nothing survives the whitelist and when the id is unknown.
  The two cases are not distinguished.
- A grade's weight becomes 1.0 not only when it is missing but whenever it is falsy: 0,
  null or the empty string.
- The average is null when no row matches. When rows match but their weights sum to zero, the
  store raises a division-by-zero error, which the handler answers with 500.
- Creating a student is not all-or-nothing. The user row stays when the student insert fails.
- Nothing prevents two enrollments of the same student and course.

Column names in the SET list are unquoted, so Postgres folds them to lower case (`Values.Fold`).
The model applies that folding wherever a patch key becomes a column. A table's invariant
(`Table.Valid`) holds that every row is stored under its own id with every column, and that no
two rows share a non-NULL value of a UNIQUE column; insert and update keep it. A patch is
`Object.entries` of a JSON object, so its keys are distinct (`PartialUpdate.DistinctKeys`), and
the update methods take that as given. The one place where the code does not do what it evidently
means, the `id` filter of `CourseModel.update`, is listed under Findings. The model's filter
compares the folded key with id.

## Model

| member | source | states |
|---|---|---|
| Values.FoldFixed | backend/src/models/Course.ts:76 | Postgres folds an unquoted column name to lower case; folding leaves a name unchanged exactly when it has no upper-case letter |
| Tables.InsertedRow | backend/src/models/Grade.ts:19-33 | `INSERT ... RETURNING *` stores every column of the table. The row gets the new id, a supplied value wherever one is given, and otherwise NOW() for the stamped columns and NULL for the rest |
| Tables.InsertedDefault | backend/src/models/Grade.ts:19-22 | A column the insert does not name holds NOW() when it is stamped, and NULL otherwise |
| Tables.InsertedSupplied | backend/src/models/Grade.ts:19-33 | A column the insert names holds the supplied value |
| Tables.ClashSingle | backend/src/models/Course.ts:21-41 | With one UNIQUE column, an insert or update is rejected exactly when another row already holds the same non-NULL value |
| Tables.FitsPut | backend/src/models/Grade.ts:93-97 | Storing a row that has every column and its own, already issued id keeps every row stored under its id with every column |
| Tables.DistinguishedPut | backend/src/models/User.ts:17-25 | Storing a row that clashes with no other row keeps the UNIQUE invariant: no two rows share a non-NULL value of a UNIQUE column |
| Tables.UniqueRow | backend/src/models/User.ts:32-40 | Under the UNIQUE invariant, two stored rows holding the same non-NULL value of a UNIQUE column are the same row |
| Tables.ClashMerged | backend/src/models/Course.ts:85-88 | An UPDATE breaks a UNIQUE constraint exactly when the columns it writes do: the untouched columns of the row, and a non-UNIQUE updated_at, never cause a clash |
| Tables.Table.All | backend/src/models/User.ts:43 | `SELECT * FROM t` lists each stored row, and only stored rows, in strictly ascending id order, so no row twice |
| Tables.Table.Filter | backend/src/models/Course.ts:65 | `SELECT * FROM t WHERE p` lists exactly the stored rows satisfying p, in strictly ascending id order |
| Tables.Table.Select | backend/src/models/Enrollment.ts:40-46 | A filtered inner join lists every matching row that has a partner, widened with the partner's columns, and nothing else. When the widening keeps the id, the list is in strictly ascending id order |
| Tables.Table.SelectedRows | backend/src/models/Enrollment.ts:40-46 | Every row of a filtered join comes from a stored row that satisfies the filter and has a partner |
| Tables.Table.SelectedAscending | backend/src/models/Enrollment.ts:40-46 | A join that keeps each row's id keeps the ascending id order of the filtered rows |
| Tables.Table.FindFirst | backend/src/models/User.ts:33-34 | `rows[0] \|\| null` after a filter: None exactly when no stored row matches; otherwise a matching stored row |
| Tables.Table.FindById | backend/src/models/Grade.ts:36-39 | None exactly when the id is not stored; otherwise a row with every column and that id |
| Tables.Table.Insert | backend/src/models/Grade.ts:18-34 | The id sequence advances by one whether or not the insert succeeds. On a UNIQUE clash the result is an error and the table is unchanged; otherwise the new row is stored under the fresh id and returned. The table invariant, including UNIQUE, is kept |
| Tables.Table.Delete | backend/src/models/Grade.ts:100-103 | Answers true exactly when the id was stored; afterwards the id is gone and every other row is untouched |
| Tables.Table.ExecuteUpdate | backend/src/models/Grade.ts:93-97 | An UPDATE with a SET list and `updated_at = NOW()`. It returns an error before touching anything for an unknown column, a column assigned twice (updated_at included, names compared folded), an unbound parameter or a non-integer id. It returns no row for an unknown id. Otherwise it writes exactly the one row, unless a UNIQUE constraint rejects it |
| Tables.Assign | backend/src/models/Grade.ts:94 | The SET list `c = $p`, applied left to right, assigns the folded column name |
| Tables.AssignKeys | backend/src/models/Grade.ts:94 | A SET list naming only columns of the row, once folded, leaves the row with the same columns |
| Tables.AssignKeeps | backend/src/models/Grade.ts:94 | A column that no assignment names, once folded, keeps its value |
| Query.Scan | backend/src/models/User.ts:43 | A scan of an id range lists every stored row in the range, and only those, in strictly ascending id order |
| Query.AscendingDistinct | backend/src/models/User.ts:43 | A listing in ascending id order lists no row twice |
| Query.AscendingTail | backend/src/models/User.ts:43 | The tail of an ascending listing is ascending, and every id in it is above the head's |
| Query.AscendingCons | backend/src/models/User.ts:43 | A row whose id is below every id of an ascending listing can be put in front of it |
| Query.Where | backend/src/models/Grade.ts:46 | WHERE keeps exactly the rows satisfying the condition, each as many times as in the input (the order is stated by WhereAppend) |
| Query.WhereCons | backend/src/models/Grade.ts:46 | WHERE over a row put in front of the rest is that row (when it satisfies the condition) followed by WHERE over the rest |
| Query.WhereAppend | backend/src/models/Grade.ts:46 | WHERE keeps the input order: WHERE over a concatenation is the concatenation of WHERE over each part |
| Query.WhereSingle | backend/src/models/Grade.ts:46 | WHERE keeps a single row exactly when it satisfies the condition |
| Query.WhereAscending | backend/src/models/Grade.ts:46 | WHERE keeps an ascending id order |
| Query.Joined | backend/src/models/Grade.ts:45 | An inner join keeps exactly the rows that have a partner, widened, one widened row for each input row with a partner |
| Query.JoinedAscending | backend/src/models/Grade.ts:45 | A join that keeps each row's id keeps an ascending id order |
| Query.InOrderTotal | backend/src/models/Grade.ts:47 | Of any two rows, one may precede the other under ORDER BY |
| Query.InOrderTransitive | backend/src/models/Grade.ts:47 | May-precede under ORDER BY is transitive |
| Query.InsertSorted | backend/src/models/Grade.ts:47 | Inserting into a sorted list keeps it sorted and adds exactly that row |
| Query.SortBy | backend/src/models/Grade.ts:47 | ORDER BY returns a sorted permutation of its input |
| Query.SortedTail | backend/src/models/Grade.ts:47 | The tail of a sorted list is sorted, and its head may precede every row of the tail |
| Query.PrecedesAll | backend/src/models/Grade.ts:47 | A row that may precede the head of a sorted list may precede every row of it |
| Query.SortedCons | backend/src/models/Grade.ts:47 | A row that may precede every row of a sorted list can be put in front of it |
| Query.DistinctTail | backend/src/models/Grade.ts:47 | The tail of a listing without repeats has none and does not hold the head |
| Query.DistinctCons | backend/src/models/Grade.ts:47 | A row missing from a listing without repeats can be put in front of it |
| Query.InsertSortedDistinct | backend/src/models/Grade.ts:47 | Inserting a new row into a sorted listing without repeats makes none |
| Query.SortByDistinct | backend/src/models/Grade.ts:47 | ORDER BY lists no row twice when its input does not |
| Query.Window | backend/src/models/User.ts:42-45 | LIMIT/OFFSET is an error exactly when either one is negative. Otherwise it returns the rows from position `offset` on, min(limit, n - offset) of them (none past the end), and keeps an ascending id order |
| Joins.WithCourse | backend/src/models/Grade.ts:43-45 | The course join succeeds exactly when the row's course exists. course_name and course_code are that course's name and code, and every other column, id included, is kept |
| Joins.WithStudent | backend/src/models/Grade.ts:65-68 | The two-step join succeeds exactly when the row's student and that student's user exist. first_name and last_name are the user's, student_number the student's, and every other column, id included, is kept |
| Joins.WithAssignmentTitle | backend/src/models/Grade.ts:54-56 | The LEFT JOIN always keeps the row and every other column. assignment_title is the assignment's title, or NULL when no assignment matches |
| Joins.WithUser | backend/src/models/Student.ts:59-61 | The user join succeeds exactly when the student's user exists. first_name, last_name and email are the user's, and every other column, id included, is kept |
| Joins.WithCourseName | backend/src/models/Assignment.ts:50 | The course join succeeds exactly when the row's course exists. course_name is its name, and every other column, id included, is kept |
| Joins.FullName | backend/src/models/Course.ts:56 | `first_name \|\| ' ' \|\| last_name` is NULL unless both names are text. When both are, it is the two names joined by one space |
| Joins.WithTeacher | backend/src/models/Course.ts:56-58 | The teacher join succeeds exactly when the teacher exists. teacher_name is the teacher's full name, and every other column, id included, is kept |
| PartialUpdate.UpperCaseIdRewritesId | backend/src/models/Course.ts:74-86 | For every defined entry whose key folds to `id` but is not `id`, the filter as written lets it through and its SET assignment overwrites the primary key of whatever row it is applied to with the entry's value; the folded filter drops every such entry |
| PartialUpdate.IdSpellings | backend/src/models/Course.ts:76 | The keys that fold to `id` are exactly `id`, `ID`, `Id` and `iD` |
| PartialUpdate.FoldLength | backend/src/models/Course.ts:76 | Folding a name keeps its length |
| PartialUpdate.BuildSetClause | backend/src/models/Grade.ts:78-88 | The loop pairs the k-th kept entry, in entry order, with placeholder `$k+1`. It binds the kept values in the same order and ends with i one past the last placeholder |
| PartialUpdate.ChangesKeyByKey | backend/src/models/Grade.ts:82-88 | An update writes column c exactly when some entry whose key folds to c has a defined value, c is not id and the key is whitelisted. When no column is assigned twice, it writes that entry's value |
| PartialUpdate.WrittenKeys | backend/src/models/Grade.ts:84 | A column is written exactly when some assignment names it, once folded |
| PartialUpdate.KeptFromEntries | backend/src/models/Grade.ts:83 | Every kept pair comes from an entry that passes the filter |
| PartialUpdate.KeptEntry | backend/src/models/Grade.ts:83-85 | Every entry that passes the filter is kept |
| PartialUpdate.KeptKeysDistinct | backend/src/models/Grade.ts:82-88 | The kept keys are distinct when the patch's keys are |
| PartialUpdate.WhitelistSingle | backend/src/models/Grade.ts:77-88 | Against a lower-case whitelist, a patch with distinct keys assigns no column twice |
| PartialUpdate.WrittenValue | backend/src/models/Grade.ts:85 | A kept entry's value is the value written to its column |
| PartialUpdate.ChangesWhitelisted | backend/src/models/Grade.ts:83 | No update writes id, in any spelling, and a whitelisted update writes only whitelisted columns |
| PartialUpdate.NothingKept | backend/src/models/Grade.ts:90 | The update writes nothing exactly when no entry passes the filter |
| PartialUpdate.PatchedKeeps | backend/src/models/Grade.ts:94 | After an update, id and every non-whitelisted column except updated_at keep their values, and updated_at is now |
| PartialUpdate.PatchedClash | backend/src/models/Course.ts:85-88 | The patched row breaks a UNIQUE constraint exactly when the written columns do |
| PartialUpdate.WhitelistedChanges | backend/src/models/User.ts:49-60 | A patch with distinct keys against a lower-case whitelist writes only whitelisted columns, never id, and each at most once |
| PartialUpdate.AssignBuilt | backend/src/models/Grade.ts:92-96 | All placeholders of the built SET list are bound, and executing it writes exactly the kept pairs |
| PartialUpdate.BuiltStatement | backend/src/models/Grade.ts:92-96 | The built statement binds every placeholder and never names id. It fails exactly when the changes name a missing column, assign updated_at or assign a column twice. Otherwise `$i` is the id |
| PartialUpdate.SetListRepeats | backend/src/models/Course.ts:76-86 | The SET list assigns some column twice exactly when the patch keeps two keys that fold to the same name |
| PartialUpdate.SetListNamesChanges | backend/src/models/Course.ts:76-86 | The SET list names, folded, exactly the columns the update writes |
| PartialUpdate.PatchedByStatement | backend/src/models/Grade.ts:92-96 | Executing the built statement on a row leaves exactly the patched row: the changes applied and updated_at refreshed |
| PartialUpdate.Update | backend/src/models/Grade.ts:75-98 | Null and no write when nothing is kept. Otherwise, with no write: an error for an unknown column, an error for a column assigned twice (updated_at included), null for an unknown id, a UNIQUE violation when another row holds a written value. Otherwise the row becomes that row with the changes and a fresh updated_at. No other row changes |
| Grades.StoredGrade | backend/src/models/Grade.ts:18-34 | A created grade has the fresh id and the six pass-through fields as given |
| Grades.StoredWeight | backend/src/models/Grade.ts:29 | A created grade's weight is the given weight, or 1.0 when it is missing or falsy (0 included) |
| Grades.StoredStamps | backend/src/models/Grade.ts:19-22 | A created grade is graded, created and updated at the moment of the insert |
| Grades.Create | backend/src/models/Grade.ts:18-34 | The insert always succeeds (no UNIQUE column) and stores exactly the new row under a fresh id |
| Grades.FindById | backend/src/models/Grade.ts:36-39 | The stored grade with that id, or None |
| Grades.FindByStudent | backend/src/models/Grade.ts:41-50 | Exactly the student's grades whose course exists, with course name and code, in descending graded_at order, each once |
| Grades.FindByStudentAndCourse | backend/src/models/Grade.ts:52-61 | Exactly the pair's grades, each with its assignment title (NULL without one), in descending graded_at order, each once |
| Grades.FindByCourse | backend/src/models/Grade.ts:63-73 | Exactly the course's grades whose student and user exist, with name and number, in descending graded_at order, each once |
| Grades.AllowedFolded | backend/src/models/Grade.ts:77 | Every whitelisted name is lower case, so each names the column it spells |
| Grades.ChangesFit | backend/src/models/Grade.ts:77 | A patch with distinct keys writes only columns of the table, never updated_at, and each at most once |
| Grades.Update | backend/src/models/Grade.ts:75-98 | Null, with no write, exactly when no whitelisted defined key remains or the id is unknown. Otherwise the patched row, written in place, with no other row changed. The table has no UNIQUE column, so no other outcome exists |
| Grades.UpdateKeepsOwnership | backend/src/models/Grade.ts:75-88 | An update never changes id, student_id, course_id, assignment_id, graded_by, graded_at or created_at |
| Grades.Delete | backend/src/models/Grade.ts:100-103 | True exactly when the grade existed; it is gone afterwards |
| Grades.DeleteTwice | backend/src/models/Grade.ts:100-103 | Deleting an existing grade twice answers true, then false |
| Grades.SqlSum | backend/src/models/Grade.ts:108 | SQL SUM is NULL exactly when every summed value is NULL |
| Grades.CourseAverage | backend/src/models/Grade.ts:105-114 | With no matching grade, the average is null |
| Grades.SumsOfNumbers | backend/src/models/Grade.ts:108 | Over numeric rows, the two SQL sums are Σ(v·w) and Σw |
| Grades.AverageOfNumbers | backend/src/models/Grade.ts:105-114 | Over numeric rows, the average is null for no rows, an error when Σw = 0, and Σ(v·w)/Σw otherwise |
| Grades.SumsBounded | backend/src/models/Grade.ts:108 | With positive weights, lo·Σw ≤ Σ(v·w) ≤ hi·Σw whenever every grade lies in [lo, hi] |
| Grades.StepBounded | backend/src/models/Grade.ts:108 | Adding one positively weighted grade within [lo, hi] keeps both sums within lo and hi times the total weight |
| Grades.MeanBounded | backend/src/models/Grade.ts:108 | With positive weights, Σ(v·w)/Σw lies between the lowest and highest grade |
| Grades.AverageWithinGrades | backend/src/models/Grade.ts:105-114 | With positive weights, the average of a non-empty set of grades exists and lies between the lowest and the highest grade |
| Grades.QuotientBounded | backend/src/models/Grade.ts:108 | Dividing by a positive total preserves the bounds |
| Grades.EqualWeights | backend/src/models/Grade.ts:108 | With one common weight w, Σw = w·n and Σ(v·w) = w·Σv, so the average is the plain mean |
| Grades.AverageExample | backend/src/__tests__/basic.test.ts:50-61 | Grades 85, 90 and 80 with weights 1, 1.5 and 1 average 300/3.5, which lies between 85.71 and 85.72 |
| Users.StoredUser | backend/src/models/User.ts:17-25 | A created user has the fresh id and all seven supplied columns as given |
| Users.ClashIffTaken | backend/src/models/User.ts:17-25 | Inserting a user breaks a UNIQUE constraint exactly when another user has the same non-NULL username or email |
| Users.Create | backend/src/models/User.ts:17-25 | A taken username or email gives an error and no row. Otherwise the new user is stored under the fresh id |
| Users.FindById | backend/src/models/User.ts:27-30 | The stored user with that id, or None |
| Users.FindByUsername | backend/src/models/User.ts:32-35 | The stored user with that username, or None exactly when there is none; the row is the only one with that username |
| Users.FindByEmail | backend/src/models/User.ts:37-40 | The stored user with that email, or None exactly when there is none; the row is the only one with that email |
| Users.FindAll | backend/src/models/User.ts:42-45 | An error exactly for a negative limit or offset. Otherwise the rows of the stored users from position offset on, min(limit, n - offset) of them (none past the end), in ascending id order |
| Users.AllowedFolded | backend/src/models/User.ts:49 | Every whitelisted name is lower case, so each names the column it spells |
| Users.ChangesClash | backend/src/models/User.ts:49-69 | An update that cannot write username breaks a UNIQUE constraint exactly when its new email is another user's |
| Users.Update | backend/src/models/User.ts:47-70 | Null, with no write, exactly when no whitelisted defined key remains or the id is unknown. An error, with no write, exactly when the new email is another user's. Otherwise the patched row |
| Users.UpdateKeepsCredentials | backend/src/models/User.ts:47-60 | An update never changes id, username, password_hash, role or created_at |
| Users.Delete | backend/src/models/User.ts:72-75 | True exactly when the user existed; it is gone afterwards |
| Students.StoredStudent | backend/src/models/Student.ts:20-40 | A created student has the fresh id and all ten supplied columns as given |
| Students.StoredColumn | backend/src/models/Student.ts:26-37 | Each supplied column of a created student holds the supplied value |
| Students.Create | backend/src/models/Student.ts:20-40 | A taken student number gives an error and no row. Otherwise the new student is stored under the fresh id |
| Students.FindById | backend/src/models/Student.ts:42-45 | The stored student with that id, or None |
| Students.FindByUserId | backend/src/models/Student.ts:47-50 | A stored student whose user_id matches, or None exactly when there is none |
| Students.FindByStudentNumber | backend/src/models/Student.ts:52-55 | The stored student with that student_number, or None exactly when there is none; the row is the only one with that number |
| Students.Listing | backend/src/models/Student.ts:58-61 | Exactly the students whose user exists, with the user's name and email, each once, in ascending id order |
| Students.FindAll | backend/src/models/Student.ts:57-65 | An error exactly for a negative limit or offset. Otherwise the rows of the listing, each a student whose user exists from position offset on, min(limit, n - offset) of them (none past the end), in ascending id order |
| Students.AllowedFolded | backend/src/models/Student.ts:69-70 | Every whitelisted name is lower case, so each names the column it spells |
| Students.Update | backend/src/models/Student.ts:67-91 | Null, with no write, exactly when no whitelisted defined key remains or the id is unknown. An error, with no write, exactly when the new student_number is another student's. Otherwise the patched row |
| Students.UpdateKeepsUser | backend/src/models/Student.ts:69-81 | An update never changes id, user_id or created_at |
| Students.Delete | backend/src/models/Student.ts:93-96 | True exactly when the student existed; it is gone afterwards |
| Enrollments.StoredEnrollment | backend/src/models/Enrollment.ts:16-24 | A created enrollment has the fresh id and the four supplied columns; grade and final_score start NULL |
| Enrollments.Create | backend/src/models/Enrollment.ts:16-24 | The insert always succeeds and stores exactly the new row under a fresh id |
| Enrollments.FindById | backend/src/models/Enrollment.ts:26-29 | The stored enrollment with that id, or None |
| Enrollments.FindByStudentAndCourse | backend/src/models/Enrollment.ts:31-37 | Some enrollment of the pair, or None exactly when there is none |
| Enrollments.PairNotUnique | backend/src/models/Enrollment.ts:16-24 | A second enrollment of the same pair is never rejected |
| Enrollments.FindByStudent | backend/src/models/Enrollment.ts:39-47 | Exactly the student's enrollments whose course exists, with course name and code, each once, in ascending id order |
| Enrollments.FindByCourse | backend/src/models/Enrollment.ts:49-58 | Exactly the course's enrollments whose student and user exist, with name and number, each once, in ascending id order |
| Enrollments.AllowedFolded | backend/src/models/Enrollment.ts:62 | Every whitelisted name is lower case, so each names the column it spells |
| Enrollments.ChangesFit | backend/src/models/Enrollment.ts:62 | A patch with distinct keys writes only columns of the table, never updated_at, and each at most once |
| Enrollments.Update | backend/src/models/Enrollment.ts:60-83 | Null, with no write, exactly when no whitelisted defined key remains or the id is unknown. Otherwise the patched row, written in place, with no other row changed. The table has no UNIQUE column, so no other outcome exists |
| Enrollments.UpdateKeepsPair | backend/src/models/Enrollment.ts:60-73 | An update never changes id, student_id, course_id or created_at |
| Enrollments.Delete | backend/src/models/Enrollment.ts:85-88 | True exactly when the enrollment existed; it is gone afterwards |
| Courses.StoredCourse | backend/src/models/Course.ts:21-42 | A created course has the fresh id and all eleven supplied columns as given |
| Courses.Create | backend/src/models/Course.ts:21-42 | A taken code gives an error and no row. Otherwise the new course is stored under the fresh id |
| Courses.FindById | backend/src/models/Course.ts:44-47 | The stored course with that id, or None |
| Courses.FindByCode | backend/src/models/Course.ts:49-52 | The stored course with that code, or None exactly when there is none; the row is the only one with that code |
| Courses.Listing | backend/src/models/Course.ts:55-59 | Exactly the courses whose teacher exists, each with teacher_name, each once, in ascending id order |
| Courses.FindAll | backend/src/models/Course.ts:54-62 | An error exactly for a negative limit or offset. Otherwise the rows of the listing, each a course whose teacher exists from position offset on, min(limit, n - offset) of them (none past the end), in ascending id order |
| Courses.FindByTeacher | backend/src/models/Course.ts:64-67 | Exactly the stored courses with that teacher_id, each once, in ascending id order |
| Courses.Update | backend/src/models/Course.ts:69-90 | Without a whitelist: null and no write when no defined key other than id (in any spelling) remains, or the id is unknown. An error and no write for an unknown column, for updated_at or a column assigned twice, or exactly when the new code is another course's. Otherwise the patched row |
| Courses.UpdateWritesEveryKey | backend/src/models/Course.ts:74-80 | Column c is written exactly when some defined entry's key folds to c and c is not id, so teacher_id and code are included; when no column is assigned twice, it gets that entry's value |
| Courses.OnlyIdWritesNothing | backend/src/models/Course.ts:82 | A patch of only id, in any spelling, and undefined values writes nothing |
| Courses.Delete | backend/src/models/Course.ts:92-95 | True exactly when the course existed; it is gone afterwards |
| Assignments.StoredAssignment | backend/src/models/Assignment.ts:17-33 | A created assignment has the fresh id and all seven supplied columns as given |
| Assignments.Create | backend/src/models/Assignment.ts:17-33 | The insert always succeeds and stores exactly the new row under a fresh id |
| Assignments.FindById | backend/src/models/Assignment.ts:35-38 | The stored assignment with that id, or None |
| Assignments.FindByCourse | backend/src/models/Assignment.ts:40-46 | Exactly the course's assignments, in ascending due_date order, each once |
| Assignments.Listing | backend/src/models/Assignment.ts:50 | Exactly the assignments whose course exists, with course_name, each once, in ascending id order |
| Assignments.FindAll | backend/src/models/Assignment.ts:48-54 | An error exactly for a negative limit or offset. Otherwise the rows of the listing, each an assignment whose course exists from position offset on, min(limit, n - offset) of them (none past the end), in ascending id order |
| Assignments.AllowedFolded | backend/src/models/Assignment.ts:58 | Every whitelisted name is lower case, so each names the column it spells |
| Assignments.ChangesFit | backend/src/models/Assignment.ts:58 | A patch with distinct keys writes only columns of the table, never updated_at, and each at most once |
| Assignments.Update | backend/src/models/Assignment.ts:56-79 | Null, with no write, exactly when no whitelisted defined key remains or the id is unknown. Otherwise the patched row, written in place, with no other row changed. The table has no UNIQUE column, so no other outcome exists |
| Assignments.UpdateKeepsCourse | backend/src/models/Assignment.ts:56-69 | An update never changes id, course_id or created_at |
| Assignments.Delete | backend/src/models/Assignment.ts:81-84 | True exactly when the assignment existed; it is gone afterwards |
| Attendance.StoredAttendance | backend/src/models/Attendance.ts:15-23 | A created record has the fresh id and all five supplied columns as given |
| Attendance.Create | backend/src/models/Attendance.ts:15-23 | The insert always succeeds and stores exactly the new row under a fresh id |
| Attendance.FindById | backend/src/models/Attendance.ts:25-28 | The stored record with that id, or None |
| Attendance.FindByStudentAndCourse | backend/src/models/Attendance.ts:30-36 | Exactly the pair's records, in descending date order, each once |
| Attendance.FindByCourseAndDate | backend/src/models/Attendance.ts:38-48 | Exactly the course's records for that date whose student and user exist, with name and number, each once, in ascending id order |
| Attendance.AllowedFolded | backend/src/models/Attendance.ts:52 | Every whitelisted name is lower case, so each names the column it spells |
| Attendance.ChangesFit | backend/src/models/Attendance.ts:52 | A patch with distinct keys writes only columns of the table, never updated_at, and each at most once |
| Attendance.Update | backend/src/models/Attendance.ts:50-73 | Null, with no write, exactly when no whitelisted defined key remains or the id is unknown. Otherwise the patched row, written in place, with no other row changed. The table has no UNIQUE column, so no other outcome exists |
| Attendance.UpdateKeepsPair | backend/src/models/Attendance.ts:50-63 | An update never changes id, student_id, course_id or created_at |
| Attendance.Delete | backend/src/models/Attendance.ts:75-78 | True exactly when the record existed; it is gone afterwards |
| Http.QueryOr | backend/src/routes/students.ts:12-13 | `parseInt(q) \|\| d` is the parsed number unless it is NaN or 0, and the default otherwise |
| GradeRoutes.StudentGrades | backend/src/routes/grades.ts:8-22 | 200 with the student's grades and their count exactly when the path parses |
| GradeRoutes.StudentGradesIgnoreCaller | backend/src/routes/grades.ts:13-17 | The listing is the same whoever asks, so the student-role branch restricts nothing |
| GradeRoutes.CourseReport | backend/src/routes/grades.ts:25-37 | 200 exactly when both ids parse and the average is defined. The report carries the pair's grades, the average of the same pair, and the number of grades listed. Anything else is 500 |
| GradeRoutes.EmptyReport | backend/src/routes/grades.ts:30-33 | A pair without grades reports no grades, a null average and a count of 0 |
| GradeRoutes.CourseGrades | backend/src/routes/grades.ts:40-48 | For admins and teachers, 200 with the course's grades and their count exactly when the path parses |
| GradeRoutes.Create | backend/src/routes/grades.ts:51-67 | For admins and teachers, 201 with the stored grade under the next id, which the sequence then passes. graded_by is the caller, and weight is the body's weight or 1.0 when missing or falsy |
| GradeRoutes.Update | backend/src/routes/grades.ts:70-83 | 404 with no write exactly when the model answers null. Otherwise 200 with the patched grade |
| GradeRoutes.Delete | backend/src/routes/grades.ts:86-99 | For admins, 404 exactly when no grade was removed, 200 otherwise |
| StudentRoutes.List | backend/src/routes/students.ts:11-20 | 200 with at most `parseInt(limit) \|\| 100` students and their count when the window is valid, 500 otherwise |
| StudentRoutes.ListDefaults | backend/src/routes/students.ts:12-13 | Without usable parameters, the first min(100, n) rows of the listing |
| StudentRoutes.GetById | backend/src/routes/students.ts:23-43 | 404 for an unknown id before any ownership check. A student-role caller gets 403 unless their linked student row is the requested one. Every other role gets the row |
| StudentRoutes.StudentsReadOnlyThemselves | backend/src/routes/students.ts:32-37 | A student-role caller is answered 200 only for a row linked to their own user. They are answered 200 for it when it is the only row linked to them |
| StudentRoutes.ExposedFields | backend/src/routes/students.ts:76 | The response exposes exactly the new user's id, username and email, and never the password hash |
| StudentRoutes.Create | backend/src/routes/students.ts:47-80 | A password that `bcrypt.hash` rejects, a missing one among them, answers 500 before anything is stored or any sequence advances. Otherwise the user sequence advances. A user insert that fails answers 500 and stores nothing. Otherwise the user, with role student, is stored first, and the student sequence advances. A student insert that then fails answers 500 and leaves that user in place (no rollback). Otherwise the answer is 201 with the student linked to the new user and the exposed user fields |
| StudentRoutes.MissingPasswordRejected | backend/src/routes/students.ts:48-51 | A body without a password is rejected by the hash |
| StudentRoutes.CreatedUserIsStudent | backend/src/routes/students.ts:52-60 | The new user always has role 'student' |
| StudentRoutes.CreatedStudentLinks | backend/src/routes/students.ts:63-74 | The new student's user_id is the new user's id, and its status is the body's status or 'active' when missing or falsy |
| StudentRoutes.Update | backend/src/routes/students.ts:84-97 | For admins, 404 exactly when the model answers null, 500 exactly when the new student_number is another student's, 200 with the patched row otherwise |
| StudentRoutes.Delete | backend/src/routes/students.ts:100-113 | For admins, 404 exactly when no student was removed, 200 otherwise |

## Left out

- The Postgres driver (`pool.query`) is not modelled. Each SQL statement is replaced by
  in-memory operations that apply the same filter, join, order and window.
- Queries without ORDER BY come back in ascending id order. SQL leaves that order open.
  Ties under ORDER BY come back in one fixed order chosen by the insertion sort.
- ORDER BY is modelled only for timestamp columns. Any value of another kind in the sort
  column sorts as NULL does, after every timestamp.
- Constraints are partly modelled. The UNIQUE constraints on users.username, users.email,
  students.student_number and courses.code are modelled. Column types, NOT NULL, foreign keys
  and CHECK constraints are not. The database schema is not part of this model.
- Each table's column set is taken from the entity's interface in its model file.
- `NOW()`, `Date.now()` and the clock are an integer parameter `now`. `new Date(...)` is a
  function parameter `toDate`.
- Floating point is not modelled. The average is computed over exact reals. The NUMERIC string
  the driver returns is taken as the number it denotes.
- `bcrypt.hash` is not modelled. StudentRoutes.Create takes it as a function parameter `hash`
  that yields the hash, or None where bcrypt rejects the password. It is required to reject
  NULL, which is what a missing password reads as; which other values it rejects is left open.
- The `authenticate` and `authorize` middleware are not part of this model. The caller is a
  parameter, and each handler behind `authorize` requires the caller's role to be in that
  handler's role set.
- The token's user id is taken to be numeric, so `parseInt(req.user.id)` is that id.
- Path and query parameters arrive already parsed: `Some(n)` for a number, `None` for NaN.
  The store's rejection of NaN is modelled as a 500.
- JSON serialisation is not modelled; a response body is a datatype.
- `routes/courses.ts`, `routes/assignments.ts`, `routes/attendance.ts`, `routes/auth.ts`,
  `index.ts` and the stub routes are not part of this model.
- Concurrency and connection pooling are not modelled. Each request runs alone.
- Grades.CourseAverage: its own contract states only the no-rows case. The value of the
  average is stated by the lemmas about `WeightedAverage` (AverageOfNumbers,
  AverageWithinGrades, AverageExample).
- Users.FindAll, Students.FindAll, Courses.FindAll, Assignments.FindAll: the window is stated
  against the listing in id order, because SQL fixes no order for these queries.
- The default arguments of `findAll(limit = 100, offset = 0)` (User.ts:42, Student.ts:57,
  Course.ts:54, Assignment.ts:48) are not modelled. Each FindAll takes both arguments, and
  every modelled caller passes both.
- Enrollments.FindByStudentAndCourse: when a pair is enrolled twice, the contract does not say
  which row comes back.
- Courses.Update: a key is taken to be a plain identifier. A key holding other SQL text
  (quotes, spaces, a comment, a second assignment) is pasted into the statement as is, and the
  model does not parse such text, so injection through a key is not modelled.
- Values.Fold: only ASCII letters fold. Postgres folds other letters depending on the locale.
- StudentRoutes.GetById: `StudentModel.findByUserId` returns some row linked to the user. The
  contract is stated in terms of that row, which is not unique when two students share a user.

## Findings

| source | as written | input that shows it | evidently intended | confidence | as-written member | corrected member |
|---|---|---|---|---|---|---|
| backend/src/models/Course.ts:74-86 | The loop drops a key only when it is exactly `id`, then pastes the key unquoted into the SET list, where Postgres folds it to lower case | `CourseModel.update(3, {ID: 5})` on a stored course 3: the statement is `SET ID = $1, updated_at = NOW() WHERE id = $2`, which moves the course to id 5 | No update writes the primary key, whatever the key's case | not executed | PartialUpdate.UpperCaseIdRewritesId | PartialUpdate.ChangesWhitelisted |
