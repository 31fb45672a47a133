/** UserModel: the users table, with UNIQUE username and email. */
module Users {
  import opened Values
  import opened Query
  import opened Tables
  import opened PartialUpdate

  const Columns: set<string> := {"id", "username", "email", "password_hash", "role", "first_name", "last_name",
                                 "phone", "created_at", "updated_at"}
  const Stamped: set<string> := {"created_at", "updated_at"}
  const Unique: set<string> := {"username", "email"}
  /** The columns create names in its INSERT. */
  const InsertColumns: set<string> := {"username", "email", "password_hash", "role", "first_name", "last_name", "phone"}
  /** The update whitelist. */
  const Allowed: set<string> := {"email", "first_name", "last_name", "phone"}

  /** t is the users table. */
  ghost predicate IsTable(t: Table)
    reads t
  {
    t.Valid() && t.columns == Columns && t.unique == Unique && t.stamped == Stamped
  }

  /** The values create's INSERT supplies; a field the caller left undefined is bound as NULL. */
  function InsertValues(user: Record): Record {
    map c | c in InsertColumns :: Col(user, c)
  }

  /** The row create stores under id. */
  function Stored(user: Record, id: int, now: int): Record {
    Inserted(Columns, Stamped, InsertValues(user), id, now)
  }

  /** The stored user carries the fresh id and all seven supplied columns as given. */
  lemma StoredUser(user: Record, id: int, now: int)
    ensures var row := Stored(user, id, now);
      && row["id"] == Int(id)
      && forall c :: c in InsertColumns ==> row[c] == Col(user, c)
  {
    assert InsertValues(user).Keys == InsertColumns;
    InsertedRow(Columns, Stamped, InsertValues(user), id, now);
  }

  /** Another stored user already has the new user's (non-NULL) username or email. */
  predicate Taken(rows: map<int, Record>, id: int, user: Record) {
    exists k :: k in rows && k != id &&
      ((Col(user, "username") != Null && Has(rows[k], "username", Col(user, "username"))) ||
       (Col(user, "email") != Null && Has(rows[k], "email", Col(user, "email"))))
  }

  /** Inserting a user violates a UNIQUE constraint exactly when its username or email is taken. */
  lemma ClashIffTaken(rows: map<int, Record>, user: Record, id: int, now: int)
    ensures Clash(rows, id, Stored(user, id, now), Unique) <==> Taken(rows, id, user)
  {
    var row := Stored(user, id, now);
    var values := InsertValues(user);
    assert "username" in values && "email" in values;
    InsertedSupplied(Columns, Stamped, values, id, now, "username");
    InsertedSupplied(Columns, Stamped, values, id, now, "email");
    if Taken(rows, id, user) {
      var k :| k in rows && k != id &&
        ((Col(user, "username") != Null && Has(rows[k], "username", Col(user, "username"))) ||
         (Col(user, "email") != Null && Has(rows[k], "email", Col(user, "email"))));
      if Col(user, "username") != Null && Has(rows[k], "username", Col(user, "username")) {
        assert "username" in Unique && "username" in row;
      } else {
        assert "email" in Unique && "email" in row;
      }
    }
    if Clash(rows, id, row, Unique) {
      var k, c :| k in rows.Keys && c in Unique && k != id && c in row && row[c] != Null && Has(rows[k], c, row[c]);
      assert c == "username" || c == "email";
    }
  }

  /**
   * `UserModel.create`: the new user, or a unique violation (and no row) when the username
   * or email is taken; the id sequence advances either way.
   */
  method Create(t: Table, user: Record, now: int) returns (r: Result<Record>)
    requires IsTable(t)
    modifies t`rows, t`nextId
    ensures IsTable(t)
    ensures t.nextId == old(t.nextId) + 1 && old(t.nextId) !in old(t.rows)
    ensures Taken(old(t.rows), old(t.nextId), user) ==> r == Err(UniqueViolation) && t.rows == old(t.rows)
    ensures !Taken(old(t.rows), old(t.nextId), user) ==>
      r == Ok(Stored(user, old(t.nextId), now)) && t.rows == old(t.rows)[old(t.nextId) := r.value]
  {
    assert InsertValues(user).Keys == InsertColumns;
    ClashIffTaken(t.rows, user, t.nextId, now);
    r := t.Insert(InsertValues(user), now);
  }

  /** `UserModel.findById`. */
  function FindById(t: Table, id: int): (r: Option<Record>)
    reads t
    requires IsTable(t)
    ensures r.None? <==> id !in t.rows
    ensures r.Some? ==> r.value == t.rows[id] && r.value["id"] == Int(id)
  {
    t.FindById(id)
  }

  /**
   * `UserModel.findByUsername`: the stored user with that username, or None when there is none;
   * the UNIQUE constraint makes it the only one.
   */
  function FindByUsername(t: Table, username: string): (r: Option<Record>)
    reads t
    requires IsTable(t)
    ensures r.None? <==> forall k :: k in t.rows ==> !Has(t.rows[k], "username", Text(username))
    ensures r.Some? ==> Has(r.value, "username", Text(username)) && exists k :: k in t.rows && t.rows[k] == r.value
    ensures r.Some? ==> forall k :: k in t.rows && Has(t.rows[k], "username", Text(username)) ==> t.rows[k] == r.value
  {
    var r := t.FindFirst(u => Has(u, "username", Text(username)));
    assert r.Some? ==> forall k :: k in t.rows && Has(t.rows[k], "username", Text(username)) ==> t.rows[k] == r.value by {
      if r.Some? {
        var j :| j in t.rows && t.rows[j] == r.value;
        forall k | k in t.rows && Has(t.rows[k], "username", Text(username)) ensures t.rows[k] == r.value {
          UniqueRow(t.rows, Unique, "username", Text(username), j, k);
        }
      }
    }
    r
  }

  /**
   * `UserModel.findByEmail`: the stored user with that email, or None when there is none;
   * the UNIQUE constraint makes it the only one.
   */
  function FindByEmail(t: Table, email: string): (r: Option<Record>)
    reads t
    requires IsTable(t)
    ensures r.None? <==> forall k :: k in t.rows ==> !Has(t.rows[k], "email", Text(email))
    ensures r.Some? ==> Has(r.value, "email", Text(email)) && exists k :: k in t.rows && t.rows[k] == r.value
    ensures r.Some? ==> forall k :: k in t.rows && Has(t.rows[k], "email", Text(email)) ==> t.rows[k] == r.value
  {
    var r := t.FindFirst(u => Has(u, "email", Text(email)));
    assert r.Some? ==> forall k :: k in t.rows && Has(t.rows[k], "email", Text(email)) ==> t.rows[k] == r.value by {
      if r.Some? {
        var j :| j in t.rows && t.rows[j] == r.value;
        forall k | k in t.rows && Has(t.rows[k], "email", Text(email)) ensures t.rows[k] == r.value {
          UniqueRow(t.rows, Unique, "email", Text(email), j, k);
        }
      }
    }
    r
  }

  /**
   * `UserModel.findAll(limit, offset)`: at most limit users, the id-ordered listing from
   * position offset on; a negative limit or offset is an error.
   */
  function FindAll(t: Table, limit: int, offset: int): (r: Result<seq<Record>>)
    reads t
    requires IsTable(t)
    ensures r.Err? <==> limit < 0 || offset < 0
    ensures r.Ok? ==>
      var all := t.All();
      && |r.value| <= limit
      && |r.value| == (if offset + limit <= |all| then limit else if offset <= |all| then |all| - offset else 0)
      && (forall j :: 0 <= j < |r.value| ==> r.value[j] == all[offset + j])
      && Ascending(r.value)
    ensures r.Ok? ==> forall x :: x in r.value ==> exists k :: k in t.rows && t.rows[k] == x
  {
    Window(t.All(), limit, offset)
  }

  /** The whitelist's names are lower case, so Postgres reads each as written. */
  lemma AllowedFolded()
    ensures Folded(Allowed)
  {
    assert NoUpper("email");
    assert NoUpper("first_name");
    assert NoUpper("last_name");
    assert NoUpper("phone");

  }

  /** Another user than id already has the (non-NULL) email. */
  predicate EmailTaken(rows: map<int, Record>, id: int, email: Value) {
    email != Null && exists k :: k in rows && k != id && Has(rows[k], "email", email)
  }

  /** Changes that leave the username alone clash exactly when their email is another user's. */
  lemma ChangesClash(rows: map<int, Record>, id: int, w: Record)
    requires "username" !in w
    ensures Clash(rows, id, w, Unique) <==> "email" in w && EmailTaken(rows, id, w["email"])
  {
    if Clash(rows, id, w, Unique) {
      var k, c :| k in rows.Keys && c in Unique && k != id && c in w && w[c] != Null && Has(rows[k], c, w[c]);
      assert c == "email";
    }
    if "email" in w && EmailTaken(rows, id, w["email"]) {
      var k :| k in rows && k != id && Has(rows[k], "email", w["email"]);
      assert k in rows.Keys && "email" in Unique;
    }
  }

  /**
   * `UserModel.update`: null, and no write, when no whitelisted key with a defined value
   * remains or the id is unknown; a unique violation, and no write, exactly when the new
   * email is another user's; otherwise the patched row.
   */
  method Update(t: Table, id: int, patch: seq<Entry>, now: int) returns (r: Result<Option<Record>>)
    requires IsTable(t) && DistinctKeys(patch)
    modifies t`rows
    ensures IsTable(t)
    ensures r == Ok(None) <==> Changes(patch, Some(Allowed)) == map[] || id !in old(t.rows)
    ensures var w := Changes(patch, Some(Allowed));
      r.Err? <==> w != map[] && id in old(t.rows) && "email" in w && EmailTaken(old(t.rows), id, w["email"])
    ensures r.Err? ==> r.error == UniqueViolation && t.rows == old(t.rows)
    ensures !r.Ok? || r.value.None? ==> t.rows == old(t.rows)
    ensures r.Ok? && r.value.Some? ==>
      && r.value.value == Patched(old(t.rows)[id], patch, Some(Allowed), now)
      && t.rows == old(t.rows)[id := r.value.value]
  {
    AllowedFolded();
    WhitelistedChanges(patch, Allowed);
    ChangesClash(t.rows, id, Changes(patch, Some(Allowed)));
    r := PartialUpdate.Update(t, id, patch, Some(Allowed), now);
  }

  /** A user update never changes the id, username, password hash, role or creation time. */
  lemma UpdateKeepsCredentials(row: Record, patch: seq<Entry>, now: int)
    requires row.Keys == Columns
    ensures var after := Patched(row, patch, Some(Allowed), now);
      && after.Keys == Columns
      && after["id"] == row["id"] && after["username"] == row["username"]
      && after["password_hash"] == row["password_hash"] && after["role"] == row["role"]
      && after["created_at"] == row["created_at"]
  {
    AllowedFolded();
    ChangesWhitelisted(patch, Some(Allowed));
    PatchedKeeps(row, patch, Some(Allowed), now, "id");
    PatchedKeeps(row, patch, Some(Allowed), now, "username");
    PatchedKeeps(row, patch, Some(Allowed), now, "password_hash");
    PatchedKeeps(row, patch, Some(Allowed), now, "role");
    PatchedKeeps(row, patch, Some(Allowed), now, "created_at");
  }

  /** `UserModel.delete`: true exactly when a row with that id existed. */
  method Delete(t: Table, id: int) returns (removed: bool)
    requires IsTable(t)
    modifies t`rows
    ensures IsTable(t)
    ensures removed <==> id in old(t.rows)
    ensures t.rows == old(t.rows) - {id}
  {
    removed := t.Delete(id);
  }
}
