/** Column values, records and the errors the relational store can raise. */
module Values {

  datatype Option<+T> = None | Some(value: T)

  /** Errors raised by the store; the repositories pass every one of them on unchanged. */
  datatype DbError =
    | UndefinedColumn      // SET names a column the table does not have
    | MultipleAssignment   // SET assigns one column twice (e.g. updated_at)
    | UniqueViolation      // a UNIQUE column would hold a duplicate
    | InvalidInteger       // an integer key parameter is not an integer (NaN from parseInt)
    | DivisionByZero       // SUM(weight) is zero in the weighted average
    | NegativeWindow       // LIMIT or OFFSET is negative
    | MissingParameter     // a placeholder $n has no bound value

  datatype Result<+T> = Ok(value: T) | Err(error: DbError)

  /** A column value as the store holds it; timestamps are an abstract integer clock. */
  datatype Value = Null | Int(i: int) | Real(r: real) | Text(s: string) | Moment(t: int)

  /** A row: column name to value. */
  type Record = map<string, Value>

  /** The value of a column, NULL when the record has no such column. */
  function Col(r: Record, c: string): Value {
    if c in r then r[c] else Null
  }

  /** One character of an unquoted SQL identifier as Postgres reads it: ASCII letters fold to lower case. */
  function Lower(ch: char): char {
    if 'A' <= ch <= 'Z' then (ch as int + 32) as char else ch
  }

  /** The column an unquoted identifier names: the identifier folded to lower case. */
  function Fold(s: string): string {
    if s == [] then [] else [Lower(s[0])] + Fold(s[1..])
  }

  /** s has no upper-case ASCII letter. */
  predicate NoUpper(s: string) {
    forall i :: 0 <= i < |s| ==> !('A' <= s[i] <= 'Z')
  }

  /** Folding leaves an identifier unchanged exactly when it has no upper-case letter. */
  lemma {:induction false} FoldFixed(s: string)
    ensures Fold(s) == s <==> NoUpper(s)
  {
    if s != [] {
      var t := s[1..];
      FoldFixed(t);
      assert s == [s[0]] + t;
      assert NoUpper(s) <==> !('A' <= s[0] <= 'Z') && NoUpper(t) by {
        if !('A' <= s[0] <= 'Z') && NoUpper(t) {
          forall i | 0 <= i < |s| ensures !('A' <= s[i] <= 'Z') {
            if i > 0 {
              assert s[i] == t[i - 1];
            }
          }
        }
        if NoUpper(s) {
          forall i | 0 <= i < |t| ensures !('A' <= t[i] <= 'Z') {
            assert t[i] == s[i + 1];
          }
        }
      }
      var f := Fold(s);
      assert f == [Lower(s[0])] + Fold(t);
      if f == s {
        assert f[0] == s[0] && f[1..] == Fold(t);
      }
    }
  }

  /** `r.c = v` in a WHERE clause. */
  predicate Has(r: Record, c: string, v: Value) {
    c in r && r[c] == v
  }

  /** JavaScript truthiness: undefined/null, 0 and "" are falsy; dates are objects and truthy. */
  predicate Truthy(v: Value) {
    match v
    case Null => false
    case Int(i) => i != 0
    case Real(x) => x != 0.0
    case Text(s) => s != ""
    case Moment(_) => true
  }

  /** JavaScript `v || d`. */
  function OrElse(v: Value, d: Value): Value {
    if Truthy(v) then v else d
  }

  /** The numeric reading of a value in SQL arithmetic; anything else behaves as NULL. */
  function Numeric(v: Value): Option<real> {
    match v
    case Int(i) => Some(i as real)
    case Real(x) => Some(x)
    case _ => None
  }
}
