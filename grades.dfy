/** GradeModel: the grades table, its queries, its whitelisted update and the weighted course average. */
module Grades {
  import opened Values
  import opened Query
  import opened Tables
  import opened Joins
  import opened PartialUpdate

  const Columns: set<string> := {"id", "student_id", "course_id", "assignment_id", "grade_value", "grade_letter",
                                 "weight", "graded_by", "graded_at", "created_at", "updated_at"}
  /** Columns whose default is NOW(). */
  const Stamped: set<string> := {"graded_at", "created_at", "updated_at"}
  /** The columns create names in its INSERT. */
  const InsertColumns: set<string> := {"student_id", "course_id", "assignment_id", "grade_value", "grade_letter",
                                       "weight", "graded_by"}
  /** The update whitelist. */
  const Allowed: set<string> := {"grade_value", "grade_letter", "weight"}

  /** t is the grades table. */
  ghost predicate IsTable(t: Table)
    reads t
  {
    t.Valid() && t.columns == Columns && t.unique == {} && t.stamped == Stamped
  }

  /** The values create's INSERT supplies: the grade's own fields, with `grade.weight || 1.0`. */
  function InsertValues(grade: Record): Record {
    map c | c in InsertColumns :: if c == "weight" then OrElse(Col(grade, c), Real(1.0)) else Col(grade, c)
  }

  /** The row create stores under id. */
  function Stored(grade: Record, id: int, now: int): Record {
    Inserted(Columns, Stamped, InsertValues(grade), id, now)
  }

  /** The stored grade carries the fresh id and the six fields create passes through unchanged. */
  lemma StoredGrade(grade: Record, id: int, now: int)
    ensures var row := Stored(grade, id, now);
      && row["id"] == Int(id)
      && forall c :: c in InsertColumns && c != "weight" ==> row[c] == Col(grade, c)
  {
    assert InsertValues(grade).Keys == InsertColumns;
    InsertedRow(Columns, Stamped, InsertValues(grade), id, now);
  }

  /** `grade.weight || 1.0`: the weight given, or 1.0 when it is missing or falsy (null, 0, ""). */
  lemma StoredWeight(grade: Record, id: int, now: int)
    ensures Stored(grade, id, now)["weight"] ==
      if "weight" in grade && Truthy(grade["weight"]) then grade["weight"] else Real(1.0)
  {
    assert InsertValues(grade).Keys == InsertColumns;
    InsertedRow(Columns, Stamped, InsertValues(grade), id, now);
  }

  /** A new grade is graded, created and updated at the moment of the insert. */
  lemma StoredStamps(grade: Record, id: int, now: int)
    ensures var row := Stored(grade, id, now);
      row["graded_at"] == Moment(now) && row["created_at"] == Moment(now) && row["updated_at"] == Moment(now)
  {
    var values := InsertValues(grade);
    assert "graded_at" !in values && "created_at" !in values && "updated_at" !in values;
    InsertedDefault(Columns, Stamped, values, id, now, "graded_at");
    InsertedDefault(Columns, Stamped, values, id, now, "created_at");
    InsertedDefault(Columns, Stamped, values, id, now, "updated_at");
  }

  /** `GradeModel.create`: the grades table has no UNIQUE column, so the insert always succeeds. */
  method Create(t: Table, grade: Record, now: int) returns (r: Record)
    requires IsTable(t)
    modifies t`rows, t`nextId
    ensures IsTable(t)
    ensures r == Stored(grade, old(t.nextId), now)
    ensures old(t.nextId) !in old(t.rows) && t.rows == old(t.rows)[old(t.nextId) := r]
    ensures t.nextId == old(t.nextId) + 1
  {
    var res := t.Insert(InsertValues(grade), now);
    r := res.value;
  }

  /** `GradeModel.findById`. */
  function FindById(t: Table, id: int): (r: Option<Record>)
    reads t
    requires IsTable(t)
    ensures r.None? <==> id !in t.rows
    ensures r.Some? ==> r.value == t.rows[id] && r.value["id"] == Int(id)
  {
    t.FindById(id)
  }

  /** The whitelist's names are lower case, so Postgres reads each as written. */
  lemma AllowedFolded()
    ensures Folded(Allowed)
  {
    assert NoUpper("grade_value");
    assert NoUpper("grade_letter");
    assert NoUpper("weight");
  }

  /** A patch with distinct keys writes whitelisted columns of the table, each once, and never the timestamp. */
  lemma ChangesFit(patch: seq<Entry>)
    requires DistinctKeys(patch)
    ensures Changes(patch, Some(Allowed)).Keys <= Columns && "updated_at" !in Changes(patch, Some(Allowed))
    ensures SingleAssignments(patch, Some(Allowed))
  {
    AllowedFolded();
    WhitelistedChanges(patch, Allowed);
  }

  /**
   * `GradeModel.update`: null, and no write, when no whitelisted key with a defined value
   * remains or the id is unknown; otherwise the row with the kept fields written and
   * updated_at refreshed. The whitelist names existing columns only, so no statement error
   * can occur, and the table has no UNIQUE column.
   */
  method Update(t: Table, id: int, patch: seq<Entry>, now: int) returns (r: Option<Record>)
    requires IsTable(t) && DistinctKeys(patch)
    modifies t`rows
    ensures IsTable(t)
    ensures r.None? <==> Changes(patch, Some(Allowed)) == map[] || id !in old(t.rows)
    ensures r.None? ==> t.rows == old(t.rows)
    ensures r.Some? ==> (r.value == Patched(old(t.rows)[id], patch, Some(Allowed), now) &&
                         t.rows == old(t.rows)[id := r.value])
  {
    ChangesFit(patch);
    var res := PartialUpdate.Update(t, id, patch, Some(Allowed), now);
    r := res.value;
  }

  /** The columns a grade update can never change: who and what was graded, by whom, and when. */
  const Fixed: set<string> := {"id", "student_id", "course_id", "assignment_id", "graded_by", "graded_at", "created_at"}

  /** A grade update writes only grade_value, grade_letter and weight, and refreshes updated_at. */
  lemma UpdateKeepsOwnership(row: Record, patch: seq<Entry>, now: int)
    requires row.Keys == Columns
    ensures var after := Patched(row, patch, Some(Allowed), now);
      && after.Keys == Columns
      && (forall c :: c in Fixed ==> after[c] == row[c])
      && after["updated_at"] == Moment(now)
  {
    AllowedFolded();
    ChangesWhitelisted(patch, Some(Allowed));
    forall c | c in Fixed ensures Patched(row, patch, Some(Allowed), now)[c] == row[c] {
      PatchedKeeps(row, patch, Some(Allowed), now, c);
    }
  }

  /** `GradeModel.delete`: true exactly when a row with that id existed. */
  method Delete(t: Table, id: int) returns (removed: bool)
    requires IsTable(t)
    modifies t`rows
    ensures IsTable(t)
    ensures removed <==> id in old(t.rows)
    ensures t.rows == old(t.rows) - {id}
  {
    removed := t.Delete(id);
  }

  /** Deleting the same grade twice answers true, then false. */
  method DeleteTwice(t: Table, id: int) returns (first: bool, second: bool)
    requires IsTable(t) && id in t.rows
    modifies t`rows
    ensures first && !second
  {
    first := Delete(t, id);
    second := Delete(t, id);
  }

  predicate OfStudent(g: Record, studentId: int) {
    Has(g, "student_id", Int(studentId))
  }

  predicate OfStudentAndCourse(g: Record, studentId: int, courseId: int) {
    Has(g, "student_id", Int(studentId)) && Has(g, "course_id", Int(courseId))
  }

  predicate OfCourse(g: Record, courseId: int) {
    Has(g, "course_id", Int(courseId))
  }

  /**
   * `GradeModel.findByStudent`: the student's grades whose course exists, each with the
   * course's name and code, latest graded first.
   */
  function FindByStudent(grades: Table, courses: Table, studentId: int): (r: seq<Record>)
    reads grades, courses
    requires grades.Valid()
    ensures Sorted(r, "graded_at", true)
    ensures forall k :: (k in grades.rows && OfStudent(grades.rows[k], studentId) &&
                         WithCourse(grades.rows[k], courses.rows).Some?) ==>
                        WithCourse(grades.rows[k], courses.rows).value in r
    ensures forall x :: x in r ==>
      exists k :: k in grades.rows && OfStudent(grades.rows[k], studentId) && WithCourse(grades.rows[k], courses.rows) == Some(x)
    ensures Distinct(r)
  {
    var cs := courses.rows;
    var mine := grades.Select(g => OfStudent(g, studentId), g => WithCourse(g, cs));
    assert Distinct(SortBy(mine, "graded_at", true)) by {
      AscendingDistinct(mine);
      SortByDistinct(mine, "graded_at", true);
    }
    SortBy(mine, "graded_at", true)
  }

  /**
   * `GradeModel.findByStudentAndCourse`: every grade of the pair, each with the title of its
   * assignment (NULL when it has none, by the LEFT JOIN), latest graded first.
   */
  function FindByStudentAndCourse(grades: Table, assignments: Table, studentId: int, courseId: int): (r: seq<Record>)
    reads grades, assignments
    requires grades.Valid()
    ensures Sorted(r, "graded_at", true)
    ensures forall k :: k in grades.rows && OfStudentAndCourse(grades.rows[k], studentId, courseId) ==>
                        WithAssignmentTitle(grades.rows[k], assignments.rows) in r
    ensures forall x :: x in r ==>
      exists k :: (k in grades.rows && OfStudentAndCourse(grades.rows[k], studentId, courseId) &&
                   x == WithAssignmentTitle(grades.rows[k], assignments.rows))
    ensures Distinct(r)
  {
    var asg := assignments.rows;
    var mine := grades.Select(g => OfStudentAndCourse(g, studentId, courseId), g => Some(WithAssignmentTitle(g, asg)));
    assert Distinct(SortBy(mine, "graded_at", true)) by {
      AscendingDistinct(mine);
      SortByDistinct(mine, "graded_at", true);
    }
    SortBy(mine, "graded_at", true)
  }

  /**
   * `GradeModel.findByCourse`: the course's grades whose student and user rows exist, each
   * with the student's name and number, latest graded first.
   */
  function FindByCourse(grades: Table, students: Table, users: Table, courseId: int): (r: seq<Record>)
    reads grades, students, users
    requires grades.Valid()
    ensures Sorted(r, "graded_at", true)
    ensures forall k :: (k in grades.rows && OfCourse(grades.rows[k], courseId) &&
                         WithStudent(grades.rows[k], students.rows, users.rows).Some?) ==>
                        WithStudent(grades.rows[k], students.rows, users.rows).value in r
    ensures forall x :: x in r ==>
      exists k :: (k in grades.rows && OfCourse(grades.rows[k], courseId) &&
                   WithStudent(grades.rows[k], students.rows, users.rows) == Some(x))
    ensures Distinct(r)
  {
    var ss := students.rows;
    var us := users.rows;
    var mine := grades.Select(g => OfCourse(g, courseId), g => WithStudent(g, ss, us));
    assert Distinct(SortBy(mine, "graded_at", true)) by {
      AscendingDistinct(mine);
      SortByDistinct(mine, "graded_at", true);
    }
    SortBy(mine, "graded_at", true)
  }

  /** One row's `grade_value * weight`: NULL (None) unless both are numbers. */
  function Term(g: Record): Option<real> {
    var v, w := Numeric(Col(g, "grade_value")), Numeric(Col(g, "weight"));
    if v.Some? && w.Some? then Some(v.value * w.value) else None
  }

  /** One row's weight as a number, NULL (None) otherwise. */
  function WeightOf(g: Record): Option<real> {
    Numeric(Col(g, "weight"))
  }

  /** SQL `SUM(f)` over s: NULL when f is NULL on every row, else the sum of its non-NULL values. */
  function SqlSum(s: seq<Record>, f: Record -> Option<real>): (r: Option<real>)
    ensures r.None? <==> forall x :: x in s ==> f(x).None?
  {
    if s == [] then None
    else
      assert forall x :: x in s <==> x == s[0] || x in s[1..];
      var rest := SqlSum(s[1..], f);
      match f(s[0])
      case None => rest
      case Some(v) => Some(v + if rest.Some? then rest.value else 0.0)
  }

  /**
   * `SUM(grade_value * weight) / SUM(weight)` over the rows s: NULL when either sum is NULL,
   * a division-by-zero error when the weights sum to zero, the quotient otherwise.
   */
  function WeightedAverage(s: seq<Record>): Result<Option<real>> {
    var num := SqlSum(s, Term);
    var den := SqlSum(s, WeightOf);
    if num.None? || den.None? then Ok(None)
    else if den.value == 0.0 then Err(DivisionByZero)
    else Ok(Some(num.value / den.value))
  }

  /**
   * `GradeModel.calculateCourseAverage`: the weighted average of the pair's grades. The
   * driver hands NUMERIC back as a string, so `|| null` turns only SQL NULL into null.
   */
  function CourseAverage(grades: Table, studentId: int, courseId: int): (r: Result<Option<real>>)
    reads grades
    requires grades.Valid()
    ensures (forall k :: k in grades.rows ==> !OfStudentAndCourse(grades.rows[k], studentId, courseId)) ==> r == Ok(None)
  {
    var mine := grades.Filter(g => OfStudentAndCourse(g, studentId, courseId));
    assert mine != [] ==> mine[0] in mine;
    WeightedAverage(mine)
  }

  /** A grade and its weight, as plain numbers. */
  type Pair = (real, real)

  /** Σ weight over plain (value, weight) pairs. */
  function TotalWeight(ps: seq<Pair>): real {
    if ps == [] then 0.0 else ps[0].1 + TotalWeight(ps[1..])
  }

  /** Σ value·weight over plain (value, weight) pairs. */
  function WeightedSum(ps: seq<Pair>): real {
    if ps == [] then 0.0 else ps[0].0 * ps[0].1 + WeightedSum(ps[1..])
  }

  /** Row g holds exactly the numbers p as its grade_value and weight. */
  predicate Holds(g: Record, p: Pair) {
    Numeric(Col(g, "grade_value")) == Some(p.0) && Numeric(Col(g, "weight")) == Some(p.1)
  }

  lemma {:induction false} SumsOfNumbers(s: seq<Record>, ps: seq<Pair>)
    requires |s| == |ps| && s != []
    requires forall i :: 0 <= i < |s| ==> Holds(s[i], ps[i])
    ensures SqlSum(s, Term).Some? && SqlSum(s, Term).value == WeightedSum(ps)
    ensures SqlSum(s, WeightOf).Some? && SqlSum(s, WeightOf).value == TotalWeight(ps)
  {
    var g, p := s[0], ps[0];
    assert Holds(g, p);
    assert WeightOf(g).Some? && WeightOf(g).value == p.1;
    assert Term(g).Some? && Term(g).value == p.0 * p.1;
    if |s| > 1 {
      SumsOfNumbers(s[1..], ps[1..]);
    } else {
      assert s[1..] == [] && ps[1..] == [];
    }
  }

  /**
   * Over rows whose grade_value and weight are numbers, the average is Σ(v·w)/Σw, an error
   * when the weights sum to zero, and null when there are no rows.
   */
  lemma AverageOfNumbers(s: seq<Record>, ps: seq<Pair>)
    requires |s| == |ps|
    requires forall i :: 0 <= i < |s| ==> Holds(s[i], ps[i])
    ensures s == [] ==> WeightedAverage(s) == Ok(None)
    ensures s != [] && TotalWeight(ps) == 0.0 ==> WeightedAverage(s) == Err(DivisionByZero)
    ensures s != [] && TotalWeight(ps) != 0.0 ==> WeightedAverage(s) == Ok(Some(WeightedSum(ps) / TotalWeight(ps)))
  {
    if s != [] {
      SumsOfNumbers(s, ps);
    }
  }

  lemma {:induction false} SumsBounded(ps: seq<Pair>, lo: real, hi: real)
    requires forall i :: 0 <= i < |ps| ==> ps[i].1 > 0.0 && lo <= ps[i].0 <= hi
    ensures lo * TotalWeight(ps) <= WeightedSum(ps) <= hi * TotalWeight(ps)
    ensures ps != [] ==> TotalWeight(ps) > 0.0
  {
    if ps != [] {
      SumsBounded(ps[1..], lo, hi);
      var v, w := ps[0].0, ps[0].1;
      assert lo <= v <= hi && w > 0.0;
      StepBounded(v, w, TotalWeight(ps[1..]), WeightedSum(ps[1..]), lo, hi);
    }
  }

  /** One more positively weighted grade within [lo, hi] keeps the sums within the bounds. */
  lemma StepBounded(v: real, w: real, t: real, m: real, lo: real, hi: real)
    requires w > 0.0 && lo <= v <= hi && lo * t <= m <= hi * t
    ensures lo * (w + t) <= v * w + m <= hi * (w + t)
  {
    assert (v - lo) * w >= 0.0;
    assert (hi - v) * w >= 0.0;
    assert lo * (w + t) == lo * w + lo * t;
    assert hi * (w + t) == hi * w + hi * t;
  }

  /** With positive weights the average lies between the lowest and the highest grade. */
  lemma AverageWithinGrades(s: seq<Record>, ps: seq<Pair>, lo: real, hi: real)
    requires |s| == |ps| && s != []
    requires forall i :: 0 <= i < |s| ==> Holds(s[i], ps[i])
    requires forall i :: 0 <= i < |ps| ==> ps[i].1 > 0.0 && lo <= ps[i].0 <= hi
    ensures WeightedAverage(s).Ok? && WeightedAverage(s).value.Some?
    ensures lo <= WeightedAverage(s).value.value <= hi
  {
    MeanBounded(ps, lo, hi);
    AverageOfNumbers(s, ps);
  }

  lemma MeanBounded(ps: seq<Pair>, lo: real, hi: real)
    requires ps != []
    requires forall i :: 0 <= i < |ps| ==> ps[i].1 > 0.0 && lo <= ps[i].0 <= hi
    ensures TotalWeight(ps) > 0.0
    ensures lo <= WeightedSum(ps) / TotalWeight(ps) <= hi
  {
    var n, d := WeightedSum(ps), TotalWeight(ps);
    SumsBounded(ps, lo, hi);
    assert d > 0.0 && lo * d <= n <= hi * d;
    QuotientBounded(n, d, lo, hi);
  }

  lemma QuotientBounded(n: real, d: real, lo: real, hi: real)
    requires d > 0.0 && lo * d <= n <= hi * d
    ensures lo <= n / d <= hi
  {
    var q := n / d;
    assert q * d == n;
    assert (q - lo) * d == n - lo * d;
    assert (hi - q) * d == hi * d - n;
  }

  /** Equal weights make the average the plain mean of the grades. */
  lemma {:induction false} EqualWeights(ps: seq<Pair>, w: real)
    requires forall i :: 0 <= i < |ps| ==> ps[i].1 == w
    ensures TotalWeight(ps) == w * (|ps| as real)
    ensures WeightedSum(ps) == w * ValueSum(ps)
  {
    if ps != [] {
      EqualWeights(ps[1..], w);
    }
  }

  /** Σ value over plain (value, weight) pairs. */
  function ValueSum(ps: seq<Pair>): real {
    if ps == [] then 0.0 else ps[0].0 + ValueSum(ps[1..])
  }

  /** A row with that grade_value and weight and nothing else. */
  function GradeRow(v: Value, w: Value): Record {
    map["grade_value" := v, "weight" := w]
  }

  /** Grades 85, 90 and 80 with weights 1, 1.5 and 1 average 300/3.5, about 85.71. */
  lemma AverageExample()
    ensures var s := [GradeRow(Int(85), Real(1.0)), GradeRow(Int(90), Real(1.5)), GradeRow(Int(80), Real(1.0))];
      && WeightedAverage(s) == Ok(Some(300.0 / 3.5))
      && 85.71 < 300.0 / 3.5 < 85.72
  {
    var s := [GradeRow(Int(85), Real(1.0)), GradeRow(Int(90), Real(1.5)), GradeRow(Int(80), Real(1.0))];
    var ps: seq<Pair> := [(85.0, 1.0), (90.0, 1.5), (80.0, 1.0)];
    AverageOfNumbers(s, ps);
  }
}
