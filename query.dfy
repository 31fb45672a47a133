/**
 * The relational operations the repositories' SELECT statements are built from:
 * a sequential scan, WHERE, JOIN, ORDER BY and LIMIT/OFFSET, over the in-memory tables.
 */
module Query {
  import opened Values

  /** The integer id a row carries, 0 when it has none. */
  function IdOf(r: Record): int {
    match Col(r, "id")
    case Int(k) => k
    case _ => 0
  }

  /** Every row is stored under its own id. */
  predicate IdKeyed(rows: map<int, Record>) {
    forall k :: k in rows ==> IdOf(rows[k]) == k
  }

  /** The rows come in strictly ascending id order. */
  predicate Ascending(s: seq<Record>) {
    forall j, k :: 0 <= j < k < |s| ==> IdOf(s[j]) < IdOf(s[k])
  }

  /** No row appears twice. */
  predicate Distinct(s: seq<Record>) {
    forall j, k :: 0 <= j < k < |s| ==> s[j] != s[k]
  }

  /** A listing in ascending id order lists each row once. */
  lemma AscendingDistinct(s: seq<Record>)
    requires Ascending(s)
    ensures Distinct(s)
  {
    forall j, k | 0 <= j < k < |s| ensures s[j] != s[k] {
      assert IdOf(s[j]) < IdOf(s[k]);
    }
  }

  /** The tail of an ascending listing is ascending, and every row of it comes after the head. */
  lemma AscendingTail(s: seq<Record>)
    requires Ascending(s) && s != []
    ensures Ascending(s[1..])
    ensures forall y :: y in s[1..] ==> IdOf(s[0]) < IdOf(y)
  {
    var t := s[1..];
    forall j, k | 0 <= j < k < |t| ensures IdOf(t[j]) < IdOf(t[k]) {
      assert t[j] == s[j + 1] && t[k] == s[k + 1];
    }
    forall y | y in t ensures IdOf(s[0]) < IdOf(y) {
      var i :| 0 <= i < |t| && t[i] == y;
      assert s[i + 1] == y;
    }
  }

  /** A row whose id comes before every id of an ascending listing can be put in front of it. */
  lemma AscendingCons(x: Record, t: seq<Record>)
    requires Ascending(t)
    requires forall y :: y in t ==> IdOf(x) < IdOf(y)
    ensures Ascending([x] + t)
  {
    var u := [x] + t;
    forall j, k | 0 <= j < k < |u| ensures IdOf(u[j]) < IdOf(u[k]) {
      assert u[k] == t[k - 1] && u[k] in t;
      if j > 0 {
        assert u[j] == t[j - 1];
      }
    }
  }

  /**
   * A sequential scan of the ids lo..hi-1: every stored row once, in ascending id order.
   * SQL leaves the order of a query without ORDER BY open; this model fixes it to id order.
   */
  function Scan(rows: map<int, Record>, lo: int, hi: int): (r: seq<Record>)
    requires IdKeyed(rows)
    ensures forall k :: lo <= k < hi && k in rows ==> rows[k] in r
    ensures forall x :: x in r ==> exists k :: lo <= k < hi && k in rows && rows[k] == x
    ensures forall x :: x in r ==> lo <= IdOf(x) < hi
    ensures Ascending(r)
    decreases hi - lo
  {
    if lo >= hi then []
    else
      var rest := Scan(rows, lo + 1, hi);
      if lo in rows then
        AscendingCons(rows[lo], rest);
        [rows[lo]] + rest
      else rest
  }

  /** WHERE p: the rows of s satisfying p, in their order, each as often as in s. */
  function Where(s: seq<Record>, p: Record -> bool): (r: seq<Record>)
    ensures |r| <= |s|
    ensures forall x :: x in r <==> x in s && p(x)
    ensures forall x :: multiset(r)[x] == if p(x) then multiset(s)[x] else 0
  {
    if s == [] then []
    else
      var rest := Where(s[1..], p);
      assert s == [s[0]] + s[1..];
      if p(s[0]) then [s[0]] + rest else rest
  }

  /** WHERE on a row put in front of t: that row, when it satisfies p, then WHERE on t. */
  lemma WhereCons(x: Record, t: seq<Record>, p: Record -> bool)
    ensures Where([x] + t, p) == (if p(x) then [x] else []) + Where(t, p)
  {
    assert ([x] + t)[0] == x && ([x] + t)[1..] == t;
  }

  /** Concatenation is associative. */
  lemma AppendAssoc(a: seq<Record>, b: seq<Record>, c: seq<Record>)
    ensures a + (b + c) == (a + b) + c
  {
  }

  /**
   * WHERE keeps the input order: filtering a concatenation is the concatenation of the
   * filtered parts. With WhereSingle this fixes the result as the sub-sequence of the rows
   * satisfying p.
   */
  lemma {:induction false} WhereAppend(s: seq<Record>, t: seq<Record>, p: Record -> bool)
    ensures Where(s + t, p) == Where(s, p) + Where(t, p)
  {
    if s == [] {
      assert s + t == t;
    } else {
      var x, s' := s[0], s[1..];
      assert s == [x] + s';
      WhereAppend(s', t, p);
      WhereCons(x, s' + t, p);
      WhereCons(x, s', p);
      AppendAssoc([x], s', t);
      AppendAssoc(if p(x) then [x] else [], Where(s', p), Where(t, p));
    }
  }

  /** WHERE keeps a single row exactly when it satisfies p. */
  lemma WhereSingle(x: Record, p: Record -> bool)
    ensures Where([x], p) == if p(x) then [x] else []
  {
    assert [x][1..] == [];
  }

  /** WHERE keeps an ascending id order. */
  lemma {:induction false} WhereAscending(s: seq<Record>, p: Record -> bool)
    requires Ascending(s)
    ensures Ascending(Where(s, p))
  {
    if s != [] {
      AscendingTail(s);
      WhereAscending(s[1..], p);
      if p(s[0]) {
        AscendingCons(s[0], Where(s[1..], p));
      }
    }
  }

  /**
   * An inner join seen from the left table: f(y) is y widened with the columns of its
   * partner row, or None when y has no partner.
   */
  function Joined(s: seq<Record>, f: Record -> Option<Record>): (r: seq<Record>)
    ensures |r| <= |s|
    ensures |r| == |Where(s, y => f(y).Some?)|
    ensures forall y :: y in s && f(y).Some? ==> f(y).value in r
    ensures forall x :: x in r ==> exists y :: y in s && f(y) == Some(x)
  {
    if s == [] then []
    else
      var rest := Joined(s[1..], f);
      assert forall y :: y in s ==> y == s[0] || y in s[1..];
      match f(s[0])
      case Some(x) => [x] + rest
      case None => rest
  }

  /**
   * A join that keeps every row's id turns a listing in ascending id order into one in
   * ascending id order, so each partnered row gives exactly one widened row.
   */
  lemma {:induction false} JoinedAscending(s: seq<Record>, f: Record -> Option<Record>)
    requires Ascending(s)
    requires forall y :: y in s && f(y).Some? ==> IdOf(f(y).value) == IdOf(y)
    ensures Ascending(Joined(s, f))
  {
    if s != [] {
      var t := s[1..];
      AscendingTail(s);
      JoinedAscending(t, f);
      var rest := Joined(t, f);
      if f(s[0]).Some? {
        forall z | z in rest ensures IdOf(s[0]) < IdOf(z) {
          var y :| y in t && f(y) == Some(z);
        }
        AscendingCons(f(s[0]).value, rest);
      }
    }
  }

  /** `rows[0] || null`: the first row of a result. */
  function First(s: seq<Record>): Option<Record> {
    if s == [] then None else Some(s[0])
  }

  /**
   * ORDER BY on one column, for two column values: timestamps compare by time; any other
   * value sorts as NULL does in Postgres, after every timestamp.
   */
  predicate ValueLe(a: Value, b: Value) {
    match a
    case Moment(x) => (match b case Moment(y) => x <= y case _ => true)
    case _ => !b.Moment?
  }

  /** a may precede b under ORDER BY col ASC (desc false) or DESC (desc true). */
  predicate InOrder(a: Record, b: Record, col: string, desc: bool) {
    if desc then ValueLe(Col(b, col), Col(a, col)) else ValueLe(Col(a, col), Col(b, col))
  }

  predicate Sorted(s: seq<Record>, col: string, desc: bool) {
    forall j, k :: 0 <= j < k < |s| ==> InOrder(s[j], s[k], col, desc)
  }

  lemma InOrderTotal(a: Record, b: Record, col: string, desc: bool)
    ensures InOrder(a, b, col, desc) || InOrder(b, a, col, desc)
  {
  }

  lemma InOrderTransitive(a: Record, b: Record, c: Record, col: string, desc: bool)
    requires InOrder(a, b, col, desc) && InOrder(b, c, col, desc)
    ensures InOrder(a, c, col, desc)
  {
  }

  /** A row that may precede every row of a sorted sequence can be put in front of it. */
  lemma SortedCons(a: Record, t: seq<Record>, col: string, desc: bool)
    requires Sorted(t, col, desc)
    requires forall y :: y in t ==> InOrder(a, y, col, desc)
    ensures Sorted([a] + t, col, desc)
  {
    var u := [a] + t;
    forall j, k | 0 <= j < k < |u| ensures InOrder(u[j], u[k], col, desc) {
      if j > 0 {
        assert u[j] == t[j - 1] && u[k] == t[k - 1];
      } else {
        assert u[k] == t[k - 1];
        assert u[k] in t;
      }
    }
  }

  /** The head of a sorted sequence may precede every row of its tail, and the tail is sorted. */
  lemma SortedTail(s: seq<Record>, col: string, desc: bool)
    requires Sorted(s, col, desc) && s != []
    ensures Sorted(s[1..], col, desc)
    ensures forall y :: y in s[1..] ==> InOrder(s[0], y, col, desc)
  {
    var t := s[1..];
    forall j, k | 0 <= j < k < |t| ensures InOrder(t[j], t[k], col, desc) {
      assert t[j] == s[j + 1] && t[k] == s[k + 1];
    }
    forall y | y in t ensures InOrder(s[0], y, col, desc) {
      var k :| 0 <= k < |t| && t[k] == y;
      assert s[k + 1] == y;
    }
  }

  /** A row that may precede the head of a sorted sequence may precede all of it. */
  lemma PrecedesAll(x: Record, s: seq<Record>, col: string, desc: bool)
    requires Sorted(s, col, desc) && s != [] && InOrder(x, s[0], col, desc)
    ensures forall y :: y in s ==> InOrder(x, y, col, desc)
  {
    forall y | y in s ensures InOrder(x, y, col, desc) {
      var k :| 0 <= k < |s| && s[k] == y;
      if k > 0 { InOrderTransitive(x, s[0], s[k], col, desc); }
    }
  }

  function InsertSorted(x: Record, s: seq<Record>, col: string, desc: bool): (r: seq<Record>)
    requires Sorted(s, col, desc)
    ensures Sorted(r, col, desc)
    ensures multiset(r) == multiset(s) + multiset{x}
    ensures forall y :: y in r <==> y == x || y in s
  {
    if s == [] then [x]
    else if InOrder(x, s[0], col, desc) then
      PrecedesAll(x, s, col, desc);
      SortedCons(x, s, col, desc);
      [x] + s
    else
      InOrderTotal(x, s[0], col, desc);
      SortedTail(s, col, desc);
      var rest := InsertSorted(x, s[1..], col, desc);
      assert s == [s[0]] + s[1..];
      SortedCons(s[0], rest, col, desc);
      [s[0]] + rest
  }

  /** The tail of a listing without repeats has none, and does not hold the head. */
  lemma DistinctTail(s: seq<Record>)
    requires Distinct(s) && s != []
    ensures Distinct(s[1..]) && s[0] !in s[1..]
  {
    var t := s[1..];
    forall j, k | 0 <= j < k < |t| ensures t[j] != t[k] {
      assert t[j] == s[j + 1] && t[k] == s[k + 1];
    }
  }

  /** A row missing from a listing without repeats can be put in front of it. */
  lemma DistinctCons(x: Record, t: seq<Record>)
    requires Distinct(t) && x !in t
    ensures Distinct([x] + t)
  {
    var u := [x] + t;
    forall j, k | 0 <= j < k < |u| ensures u[j] != u[k] {
      assert u[k] == t[k - 1] && u[k] in t;
      if j > 0 {
        assert u[j] == t[j - 1];
      }
    }
  }

  /** Inserting a new row into a sorted listing without repeats makes none. */
  lemma {:induction false} InsertSortedDistinct(x: Record, s: seq<Record>, col: string, desc: bool)
    requires Sorted(s, col, desc) && Distinct(s) && x !in s
    ensures Distinct(InsertSorted(x, s, col, desc))
  {
    if s == [] || InOrder(x, s[0], col, desc) {
      DistinctCons(x, s);
    } else {
      SortedTail(s, col, desc);
      DistinctTail(s);
      InsertSortedDistinct(x, s[1..], col, desc);
      DistinctCons(s[0], InsertSorted(x, s[1..], col, desc));
    }
  }

  /** ORDER BY col (DESC when desc): a sorted permutation of s. */
  function SortBy(s: seq<Record>, col: string, desc: bool): (r: seq<Record>)
    ensures Sorted(r, col, desc)
    ensures multiset(r) == multiset(s)
    ensures forall x :: x in r <==> x in s
  {
    if s == [] then []
    else
      assert s == [s[0]] + s[1..];
      InsertSorted(s[0], SortBy(s[1..], col, desc), col, desc)
  }

  /** ORDER BY lists no row twice when its input does not. */
  lemma {:induction false} SortByDistinct(s: seq<Record>, col: string, desc: bool)
    requires Distinct(s)
    ensures Distinct(SortBy(s, col, desc))
  {
    if s != [] {
      DistinctTail(s);
      SortByDistinct(s[1..], col, desc);
      InsertSortedDistinct(s[0], SortBy(s[1..], col, desc), col, desc);
    }
  }

  /** LIMIT limit OFFSET offset; Postgres rejects a negative LIMIT or OFFSET. */
  function Window(s: seq<Record>, limit: int, offset: int): (r: Result<seq<Record>>)
    ensures r.Err? <==> limit < 0 || offset < 0
    ensures r.Ok? ==> |r.value| <= limit
    ensures r.Ok? ==> |r.value| == if offset + limit <= |s| then limit
                                   else if offset <= |s| then |s| - offset else 0
    ensures r.Ok? ==> forall k :: 0 <= k < |r.value| ==> r.value[k] == s[offset + k]
    ensures r.Ok? ==> forall x :: x in r.value ==> x in s
    ensures r.Ok? && Ascending(s) ==> Ascending(r.value)
  {
    if limit < 0 || offset < 0 then Err(NegativeWindow)
    else
      var lo := if offset <= |s| then offset else |s|;
      var hi := if lo + limit <= |s| then lo + limit else |s|;
      Ok(s[lo..hi])
  }
}
