/**
 * The partial update every repository performs: walk the entries of the patch in order,
 * keep an entry when its value is defined, its key is not `id` and its key is whitelisted,
 * number the kept columns $1..$n, bind the row id to $n+1, and send one UPDATE; answer
 * null without writing when nothing was kept.
 */
module PartialUpdate {
  import opened Values
  import opened Tables

  /** One `[key, value]` pair of `Object.entries(patch)`; None is `undefined`. */
  datatype Entry = Entry(key: string, value: Option<Value>)

  /** A JavaScript object has each key once. */
  predicate DistinctKeys(p: seq<Entry>) {
    forall j, k :: 0 <= j < k < |p| ==> p[j].key != p[k].key
  }

  /**
   * The loop's filter. allowed is the entity's whitelist, or None for an entity without one
   * (Course), where every defined key other than id is kept. The key is compared with id
   * as Postgres reads it in the SET list, folded to lower case, so that `ID` is dropped too.
   */
  predicate Keeps(e: Entry, allowed: Option<set<string>>) {
    e.value.Some? && Fold(e.key) != "id" && (allowed.None? || e.key in allowed.value)
  }

  /** The filter as the repositories write it: the raw key is compared with id. */
  predicate KeepsAsWritten(e: Entry, allowed: Option<set<string>>) {
    e.value.Some? && e.key != "id" && (allowed.None? || e.key in allowed.value)
  }

  /**
   * Without a whitelist, the filter as written lets through every defined entry whose key is a
   * case variant of `id` other than `id` itself, and Postgres reads its assignment as one to
   * the primary key: whatever row it is applied to, the stored id becomes the entry's value.
   * Keeps drops every such entry.
   */
  lemma UpperCaseIdRewritesId(e: Entry, row: Record, rest: seq<Value>)
    requires e.value.Some? && Fold(e.key) == "id" && e.key != "id"
    ensures KeepsAsWritten(e, None) && !Keeps(e, None)
    ensures Assign(row, [(e.key, 1)], [e.value.value] + rest)["id"] == e.value.value
  {
    var sets := [(e.key, 1)];
    assert sets[..0] == [];
  }

  /** The keys that fold to `id` are exactly its four case variants. */
  lemma IdSpellings(k: string)
    ensures Fold(k) == "id" <==> k in {"id", "ID", "Id", "iD"}
  {
    if |k| == 2 {
      var t := k[1..];
      assert t == [k[1]] && t[1..] == [];
      assert Fold(t) == [Lower(k[1])] + Fold(t[1..]);
      assert Fold(k) == [Lower(k[0]), Lower(k[1])];
      assert Lower(k[0]) == 'i' <==> k[0] in {'i', 'I'};
      assert Lower(k[1]) == 'd' <==> k[1] in {'d', 'D'};
      assert k == [k[0], k[1]];
    } else if k != [] {
      FoldLength(k);
    }
  }

  /** Folding keeps the length. */
  lemma {:induction false} FoldLength(s: string)
    ensures |Fold(s)| == |s|
  {
    if s != [] { FoldLength(s[1..]); }
  }

  /** No name of a whitelist has an upper-case letter, so each names the column it spells. */
  predicate Folded(names: set<string>) {
    forall a :: a in names ==> NoUpper(a)
  }

  /** The (column, value) pairs that survive the filter, in entry order, keys as written. */
  function Kept(p: seq<Entry>, allowed: Option<set<string>>): seq<(string, Value)> {
    if p == [] then []
    else
      var e := p[|p| - 1];
      Kept(p[..|p| - 1], allowed) + (if Keeps(e, allowed) then [(e.key, e.value.value)] else [])
  }

  /** The columns a list of assignments writes, with their values; a later pair wins. */
  function Written(kept: seq<(string, Value)>): map<string, Value> {
    if kept == [] then map[]
    else Written(kept[..|kept| - 1])[Fold(kept[|kept| - 1].0) := kept[|kept| - 1].1]
  }

  /** No two surviving pairs name the same column, which Postgres would reject. */
  predicate SingleAssignments(p: seq<Entry>, allowed: Option<set<string>>) {
    var kept := Kept(p, allowed);
    forall j, k :: 0 <= j < k < |kept| ==> Fold(kept[j].0) != Fold(kept[k].0)
  }

  /** The columns an update with patch p writes. */
  function Changes(p: seq<Entry>, allowed: Option<set<string>>): map<string, Value> {
    Written(Kept(p, allowed))
  }

  /** The row after a successful update: the changes, and updated_at refreshed. */
  function Patched(row: Record, p: seq<Entry>, allowed: Option<set<string>>, now: int): Record {
    row + Changes(p, allowed) + map["updated_at" := Moment(now)]
  }

  lemma {:induction false} WrittenKeys(kept: seq<(string, Value)>, c: string)
    ensures c in Written(kept) <==> exists k :: 0 <= k < |kept| && Fold(kept[k].0) == c
  {
    if kept != [] {
      var init := kept[..|kept| - 1];
      WrittenKeys(init, c);
      if c in Written(init) {
        var k :| 0 <= k < |init| && Fold(init[k].0) == c;
        assert kept[k].0 == init[k].0;
      }
      if exists k :: 0 <= k < |kept| && Fold(kept[k].0) == c {
        var k :| 0 <= k < |kept| && Fold(kept[k].0) == c;
        if k < |init| {
          assert init[k].0 == kept[k].0;
        }
      }
    }
  }

  /** When no two pairs name the same column, each column holds the value of its pair. */
  lemma {:induction false} WrittenValue(kept: seq<(string, Value)>, k: int)
    requires forall a, b :: 0 <= a < b < |kept| ==> Fold(kept[a].0) != Fold(kept[b].0)
    requires 0 <= k < |kept|
    ensures Fold(kept[k].0) in Written(kept) && Written(kept)[Fold(kept[k].0)] == kept[k].1
  {
    var n := |kept| - 1;
    if k < n {
      var init := kept[..n];
      forall a, b | 0 <= a < b < |init| ensures Fold(init[a].0) != Fold(init[b].0) {
        assert init[a] == kept[a] && init[b] == kept[b];
      }
      assert init[k] == kept[k];
      WrittenValue(init, k);
    }
  }

  /** Every pair that survives comes from an entry the filter keeps, and in entry order. */
  lemma {:induction false} KeptFromEntries(p: seq<Entry>, allowed: Option<set<string>>, k: int)
    requires 0 <= k < |Kept(p, allowed)|
    ensures exists j :: 0 <= j < |p| && Keeps(p[j], allowed) && Kept(p, allowed)[k] == (p[j].key, p[j].value.value)
  {
    var init := p[..|p| - 1];
    if k < |Kept(init, allowed)| {
      KeptFromEntries(init, allowed, k);
      var j :| 0 <= j < |init| && Keeps(init[j], allowed) && Kept(init, allowed)[k] == (init[j].key, init[j].value.value);
      assert p[j] == init[j];
    } else {
      assert Kept(p, allowed)[k] == (p[|p| - 1].key, p[|p| - 1].value.value);
    }
  }

  /** An entry the filter keeps survives. */
  lemma {:induction false} KeptEntry(p: seq<Entry>, allowed: Option<set<string>>, j: int)
    requires 0 <= j < |p| && Keeps(p[j], allowed)
    ensures (p[j].key, p[j].value.value) in Kept(p, allowed)
  {
    var init := p[..|p| - 1];
    if j < |init| {
      assert init[j] == p[j];
      KeptEntry(init, allowed, j);
    }
  }

  /** The keys of an object are distinct, so the surviving pairs have distinct keys. */
  lemma {:induction false} KeptKeysDistinct(p: seq<Entry>, allowed: Option<set<string>>)
    requires DistinctKeys(p)
    ensures var kept := Kept(p, allowed);
      forall j, k :: 0 <= j < k < |kept| ==> kept[j].0 != kept[k].0
  {
    if p != [] {
      var init, last := p[..|p| - 1], p[|p| - 1];
      assert DistinctKeys(init) by {
        forall a, b | 0 <= a < b < |init| ensures init[a].key != init[b].key {
          assert init[a] == p[a] && init[b] == p[b];
        }
      }
      KeptKeysDistinct(init, allowed);
      var ki, kept := Kept(init, allowed), Kept(p, allowed);
      forall j | 0 <= j < |ki| ensures ki[j].0 != last.key {
        KeptFromEntries(init, allowed, j);
        var i :| 0 <= i < |init| && Keeps(init[i], allowed) && ki[j] == (init[i].key, init[i].value.value);
        assert init[i] == p[i];
      }
      forall j, k | 0 <= j < k < |kept| ensures kept[j].0 != kept[k].0 {
        assert kept[j] == ki[j];
        if k < |ki| {
          assert kept[k] == ki[k];
        }
      }
    }
  }

  /** A whitelisted patch, its whitelist folded, assigns each column at most once. */
  lemma WhitelistSingle(p: seq<Entry>, allowed: Option<set<string>>)
    requires DistinctKeys(p) && allowed.Some? && Folded(allowed.value)
    ensures SingleAssignments(p, allowed)
  {
    var kept := Kept(p, allowed);
    KeptKeysDistinct(p, allowed);
    forall k | 0 <= k < |kept| ensures Fold(kept[k].0) == kept[k].0 {
      KeptFromEntries(p, allowed, k);
      FoldFixed(kept[k].0);
    }
  }

  /**
   * The filter, key by key: the update writes column c exactly when some entry whose key
   * folds to c has a defined value, c is not id and the key is whitelisted; when no column
   * is assigned twice, it writes that entry's value.
   */
  lemma {:induction false} ChangesKeyByKey(p: seq<Entry>, allowed: Option<set<string>>, c: string)
    ensures c in Changes(p, allowed) <==> exists j :: 0 <= j < |p| && Fold(p[j].key) == c && Keeps(p[j], allowed)
    ensures SingleAssignments(p, allowed) ==> forall j :: 0 <= j < |p| && Fold(p[j].key) == c && Keeps(p[j], allowed) ==>
      Changes(p, allowed)[c] == p[j].value.value
  {
    var kept := Kept(p, allowed);
    WrittenKeys(kept, c);
    if c in Changes(p, allowed) {
      var k :| 0 <= k < |kept| && Fold(kept[k].0) == c;
      KeptFromEntries(p, allowed, k);
    }
    forall j | 0 <= j < |p| && Fold(p[j].key) == c && Keeps(p[j], allowed)
      ensures c in Changes(p, allowed)
      ensures SingleAssignments(p, allowed) ==> Changes(p, allowed)[c] == p[j].value.value
    {
      KeptEntry(p, allowed, j);
      var k :| 0 <= k < |kept| && kept[k] == (p[j].key, p[j].value.value);
      if SingleAssignments(p, allowed) {
        WrittenValue(kept, k);
      }
    }
  }

  /**
   * No update writes id, and an update with a folded whitelist writes only whitelisted
   * columns.
   */
  lemma {:induction false} ChangesWhitelisted(p: seq<Entry>, allowed: Option<set<string>>)
    ensures "id" !in Changes(p, allowed)
    ensures allowed.Some? && Folded(allowed.value) ==> Changes(p, allowed).Keys <= allowed.value
  {
    var kept := Kept(p, allowed);
    forall c | c in Changes(p, allowed)
      ensures c != "id" && (allowed.Some? && Folded(allowed.value) ==> c in allowed.value)
    {
      WrittenKeys(kept, c);
      var k :| 0 <= k < |kept| && Fold(kept[k].0) == c;
      KeptFromEntries(p, allowed, k);
      FoldFixed(kept[k].0);
    }
  }

  /** The update writes nothing exactly when the filter keeps no entry. */
  lemma {:induction false} NothingKept(p: seq<Entry>, allowed: Option<set<string>>)
    ensures Kept(p, allowed) == [] <==> Changes(p, allowed) == map[]
    ensures Kept(p, allowed) == [] <==> forall j :: 0 <= j < |p| ==> !Keeps(p[j], allowed)
  {
    var kept := Kept(p, allowed);
    if kept != [] {
      WrittenKeys(kept, Fold(kept[0].0));
      assert Fold(kept[0].0) in Changes(p, allowed);
      KeptFromEntries(p, allowed, 0);
    }
    forall j | 0 <= j < |p| && Keeps(p[j], allowed) ensures kept != [] {
      KeptEntry(p, allowed, j);
    }
  }

  /**
   * The columns an update leaves alone: every column outside the whitelist except
   * updated_at, which it sets to the clock; for an entity without a whitelist, at least id.
   */
  lemma PatchedKeeps(row: Record, p: seq<Entry>, allowed: Option<set<string>>, now: int, c: string)
    requires c in row && c != "updated_at"
    requires c == "id" || (allowed.Some? && Folded(allowed.value) && c !in allowed.value)
    ensures c in Patched(row, p, allowed, now) && Patched(row, p, allowed, now)[c] == row[c]
    ensures Patched(row, p, allowed, now)["updated_at"] == Moment(now)
  {
    ChangesWhitelisted(p, allowed);
  }

  /**
   * Under the UNIQUE invariant, the patched row clashes with another row exactly when the
   * changes themselves give another row's UNIQUE value: the columns the row keeps, and
   * updated_at, clash with nothing.
   */
  lemma PatchedClash(rows: map<int, Record>, id: int, unique: set<string>, p: seq<Entry>,
                     allowed: Option<set<string>>, now: int)
    requires Distinguished(rows, unique) && id in rows && "updated_at" !in unique
    ensures Clash(rows, id, Patched(rows[id], p, allowed, now), unique) <==> Clash(rows, id, Changes(p, allowed), unique)
  {
    ClashMerged(rows, id, unique, Changes(p, allowed), map["updated_at" := Moment(now)]);
  }

  /**
   * A patch (its keys distinct, as an object's are) against a folded whitelist: the update
   * writes only whitelisted columns, never id, and each at most once.
   */
  lemma WhitelistedChanges(p: seq<Entry>, allowed: set<string>)
    requires DistinctKeys(p) && Folded(allowed)
    ensures Changes(p, Some(allowed)).Keys <= allowed && "id" !in Changes(p, Some(allowed))
    ensures SingleAssignments(p, Some(allowed))
  {
    ChangesWhitelisted(p, Some(allowed));
    WhitelistSingle(p, Some(allowed));
  }

  /**
   * The loop of update: the SET list pairs the k-th kept column with placeholder $k+1, the
   * value list holds the kept values in the same order, and i ends one past the last
   * placeholder, ready for the id.
   */
  method BuildSetClause(p: seq<Entry>, allowed: Option<set<string>>)
    returns (fields: seq<(string, int)>, values: seq<Value>, i: int)
    ensures |fields| == |values| == |Kept(p, allowed)|
    ensures forall k :: 0 <= k < |fields| ==>
      fields[k] == (Kept(p, allowed)[k].0, k + 1) && values[k] == Kept(p, allowed)[k].1
    ensures i == |fields| + 1
  {
    fields, values, i := [], [], 1;
    for n := 0 to |p|
      invariant |fields| == |values| == |Kept(p[..n], allowed)|
      invariant forall k :: 0 <= k < |fields| ==>
        fields[k] == (Kept(p[..n], allowed)[k].0, k + 1) && values[k] == Kept(p[..n], allowed)[k].1
      invariant i == |fields| + 1
    {
      assert p[..n + 1][..n] == p[..n];
      var e := p[n];
      if e.value.Some? && Fold(e.key) != "id" && (allowed.None? || e.key in allowed.value) {
        fields := fields + [(e.key, i)];
        values := values + [e.value.value];
        i := i + 1;
      }
    }
    assert p[..|p|] == p;
  }

  /** Executing the SET list that BuildSetClause produced writes exactly the kept pairs. */
  lemma {:induction false} AssignBuilt(row: Record, kept: seq<(string, Value)>, fields: seq<(string, int)>, params: seq<Value>)
    requires |fields| == |kept| <= |params|
    requires forall k :: 0 <= k < |fields| ==> fields[k] == (kept[k].0, k + 1) && params[k] == kept[k].1
    ensures Bound(fields, params)
    ensures Assign(row, fields, params) == row + Written(kept)
  {
    if fields != [] {
      var n := |fields| - 1;
      var fs, ks := fields[..n], kept[..n];
      AssignBuilt(row, ks, fs, params);
      assert fields[n].1 - 1 == n;
      var c, v := Fold(fields[n].0), params[n];
      assert Assign(row, fields, params) == Assign(row, fs, params)[c := v];
      assert Written(kept) == Written(ks)[c := v];
      UpdateAfterMerge(row, Written(ks), c, v);
    }
  }

  /** Overwriting one key after merging two maps is merging with the overwritten map. */
  lemma UpdateAfterMerge(row: Record, w: map<string, Value>, c: string, v: Value)
    ensures (row + w)[c := v] == row + w[c := v]
  {
  }

  /**
   * What Postgres makes of the statement update sends: the SET list is rejected exactly
   * when the changes name a column the table lacks, name updated_at, which the statement
   * assigns itself, or name one column twice; otherwise $i is the id.
   */
  lemma {:induction false} BuiltStatement(columns: set<string>, patch: seq<Entry>, allowed: Option<set<string>>,
                                          fields: seq<(string, int)>, params: seq<Value>, i: int, id: int)
    requires |fields| == |Kept(patch, allowed)| && |params| == |fields| + 1 && i == |fields| + 1
    requires forall k :: 0 <= k < |fields| ==>
      fields[k] == (Kept(patch, allowed)[k].0, k + 1) && params[k] == Kept(patch, allowed)[k].1
    requires params[|fields|] == Int(id)
    ensures Bound(fields, params)
    ensures forall k :: 0 <= k < |fields| ==> Fold(fields[k].0) != "id"
    ensures StatementError(columns, fields, i, params) ==
      if !(Changes(patch, allowed).Keys <= columns) then Some(UndefinedColumn)
      else if "updated_at" in Changes(patch, allowed) || !SingleAssignments(patch, allowed) then Some(MultipleAssignment)
      else None
  {
    var kept := Kept(patch, allowed);
    var w := Changes(patch, allowed);
    forall k | 0 <= k < |fields| ensures Fold(fields[k].0) != "id" {
      KeptFromEntries(patch, allowed, k);
    }
    SetListNamesChanges(patch, allowed, fields);
    assert (exists k :: 0 <= k < |fields| && Fold(fields[k].0) !in columns) <==> !(w.Keys <= columns);
    assert (exists k :: 0 <= k < |fields| && Fold(fields[k].0) == "updated_at") <==> "updated_at" in w;
    SetListRepeats(patch, allowed, fields);
  }

  /** A SET list built from the surviving pairs assigns a column twice exactly when two pairs name it. */
  lemma SetListRepeats(patch: seq<Entry>, allowed: Option<set<string>>, fields: seq<(string, int)>)
    requires |fields| == |Kept(patch, allowed)|
    requires forall k :: 0 <= k < |fields| ==> fields[k].0 == Kept(patch, allowed)[k].0
    ensures Repeated(fields) <==> !SingleAssignments(patch, allowed)
  {
    var kept := Kept(patch, allowed);
    if Repeated(fields) {
      var j, k :| 0 <= j < k < |fields| && Fold(fields[j].0) == Fold(fields[k].0);
      assert Fold(kept[j].0) == Fold(kept[k].0);
    }
    if !SingleAssignments(patch, allowed) {
      var j, k :| 0 <= j < k < |kept| && Fold(kept[j].0) == Fold(kept[k].0);
      assert Fold(fields[j].0) == Fold(fields[k].0);
    }
  }

  /** The columns a SET list built from the surviving pairs names are the columns the update writes. */
  lemma SetListNamesChanges(patch: seq<Entry>, allowed: Option<set<string>>, fields: seq<(string, int)>)
    requires |fields| == |Kept(patch, allowed)|
    requires forall k :: 0 <= k < |fields| ==> fields[k].0 == Kept(patch, allowed)[k].0
    ensures forall c :: c in Changes(patch, allowed) <==> exists k :: 0 <= k < |fields| && Fold(fields[k].0) == c
  {
    var kept := Kept(patch, allowed);
    forall c ensures c in Changes(patch, allowed) <==> exists k :: 0 <= k < |fields| && Fold(fields[k].0) == c {
      WrittenKeys(kept, c);
      if exists k :: 0 <= k < |fields| && Fold(fields[k].0) == c {
        var k :| 0 <= k < |fields| && Fold(fields[k].0) == c;
        assert Fold(kept[k].0) == c;
      }
    }
  }

  /** The row the built statement leaves behind is the patched row. */
  lemma PatchedByStatement(row: Record, patch: seq<Entry>, allowed: Option<set<string>>,
                           fields: seq<(string, int)>, params: seq<Value>, now: int)
    requires |fields| == |Kept(patch, allowed)| <= |params|
    requires forall k :: 0 <= k < |fields| ==>
      fields[k] == (Kept(patch, allowed)[k].0, k + 1) && params[k] == Kept(patch, allowed)[k].1
    ensures Bound(fields, params)
    ensures Assign(row, fields, params)["updated_at" := Moment(now)] == Patched(row, patch, allowed, now)
  {
    AssignBuilt(row, Kept(patch, allowed), fields, params);
  }

  /**
   * `update(id, patch)` against table t with whitelist allowed: null and no write when the
   * filter keeps nothing; otherwise the statement's error, null for an unknown id, a unique
   * violation, or the patched row.
   */
  method Update(t: Table, id: int, patch: seq<Entry>, allowed: Option<set<string>>, now: int)
    returns (r: Result<Option<Record>>)
    requires t.Valid()
    modifies t`rows
    ensures t.Valid()
    ensures var w := Changes(patch, allowed);
      if w == map[] then r == Ok(None) && t.rows == old(t.rows)
      else if !(w.Keys <= t.columns) then r == Err(UndefinedColumn) && t.rows == old(t.rows)
      else if "updated_at" in w || !SingleAssignments(patch, allowed) then r == Err(MultipleAssignment) && t.rows == old(t.rows)
      else if id !in old(t.rows) then r == Ok(None) && t.rows == old(t.rows)
      else if Clash(old(t.rows), id, w, t.unique) then r == Err(UniqueViolation) && t.rows == old(t.rows)
      else r == Ok(Some(Patched(old(t.rows)[id], patch, allowed, now))) && t.rows == old(t.rows)[id := r.value.value]
  {
    var fields, values, i := BuildSetClause(patch, allowed);
    NothingKept(patch, allowed);
    if |fields| == 0 {
      return Ok(None);
    }
    values := values + [Int(id)];
    BuiltStatement(t.columns, patch, allowed, fields, values, i, id);
    assert values[i - 1] == Int(id);
    if id in t.rows {
      PatchedByStatement(t.rows[id], patch, allowed, fields, values, now);
      PatchedClash(t.rows, id, t.unique, patch, allowed, now);
    }
    r := t.ExecuteUpdate(fields, i, values, now);
  }
}
