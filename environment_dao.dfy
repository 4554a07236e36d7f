/** db/EnvironmentDao.java: importing a Postman environment into the environments tables, as a
    delete-then-insert in one transaction, and listing the stored environments. */
module EnvironmentDao {
  import opened Wrappers
  import opened JavaText
  import opened Objects
  import opened Store
  import opened StoreProperties
  import opened StoreRows

  // ---------------------------------------------------------------- saveEnvironment

  /** The stored name: the environment's own, else the file name. */
  function EnvironmentName(env: PostmanEnvironment, fileName: Option<string>): Option<string> {
    if env.name.Some? then env.name else fileName
  }

  /** A lookup key the code uses: non-null and not blank. */
  predicate UsableKey(k: Option<string>) {
    k.Some? && !IsBlank(k.value)
  }

  function WithPostmanId(postmanId: Option<string>): EnvironmentRow -> bool {
    (e: EnvironmentRow) => e.postmanId == postmanId
  }

  function WithName(name: Option<string>): EnvironmentRow -> bool {
    (e: EnvironmentRow) => e.name == name
  }

  /** `findExistingEnvironmentId`: the first row with the `postman_id`, else the first row with
      the name, each key used only when it is usable; -1 when neither finds a row. */
  function FindExistingEnvironmentId(db: Db, postmanId: Option<string>, name: Option<string>): (r: int)
    ensures r == -1 || r in db.environments.rows
  {
    var byId := if UsableKey(postmanId) then First(db.environments, WithPostmanId(postmanId)) else None;
    if byId.Some? then byId.value
    else
      var byName := if UsableKey(name) then First(db.environments, WithName(name)) else None;
      if byName.Some? then byName.value else -1
  }

  /** `enabled` as stored: true as 1, false as 0, null as NULL. */
  function EnabledColumn(enabled: Option<bool>): (r: Option<int>)
    ensures r.Some? <==> enabled.Some?
    ensures r.Some? ==> (r.value == 1 <==> enabled.value) && (r.value == 1 || r.value == 0)
  {
    match enabled
    case Some(b) => Some(if b then 1 else 0)
    case None => None
  }

  /** The row written for a value at position `sortOrder` of the list. */
  function ValueRow(environmentId: int, v: EnvironmentValue, sortOrder: int): EnvironmentValueRow {
    EnvironmentValueRow(environmentId, v.key, v.value, v.valueType, EnabledColumn(v.enabled), sortOrder)
  }

  /** The batch of `saveEnvironmentValues`: one row per value, in list order, numbered from 0. */
  function ValuesSaved(db: Db, environmentId: int, vs: seq<EnvironmentValue>): (r: Db)
    ensures r == db.(environmentValues := r.environmentValues)
    decreases |vs|
  {
    if vs == [] then db
    else
      var d := ValuesSaved(db, environmentId, vs[..|vs| - 1]);
      Kept(d, InsertEnvironmentValue(d, ValueRow(environmentId, vs[|vs| - 1], |vs| - 1)))
  }

  /** The row `saveEnvironment` inserts. */
  function EnvironmentRowOf(env: PostmanEnvironment, fileName: Option<string>): EnvironmentRow {
    EnvironmentRow(env.id, EnvironmentName(env, fileName), env.variableScope, env.exportedAt, env.exportedUsing, Encoded(env))
  }

  /** The database after the delete of the row `findExistingEnvironmentId` finds, if any. */
  function Cleared(db: Db, env: PostmanEnvironment, fileName: Option<string>): Db {
    var existing := FindExistingEnvironmentId(db, env.id, EnvironmentName(env, fileName));
    if existing > 0 then DeleteEnvironment(db, existing) else db
  }

  /** `saveEnvironment` in one transaction: the row found by `findExistingEnvironmentId` is
      deleted, the new row inserted, then its values written when the list is non-null. A
      failing statement (a missing table) rolls everything back and yields -1. */
  function EnvironmentSaved(db: Db, env: PostmanEnvironment, fileName: Option<string>): (r: (Db, int))
  {
    var cleared := Cleared(db, env, fileName);
    var ins := InsertEnvironment(cleared, EnvironmentRowOf(env, fileName));
    if ins.Rejected? then (db, -1)
    else if ins.id > 0 && env.values.Some? then
      if EnvironmentValues !in db.present then (db, -1)
      else (ValuesSaved(ins.db, ins.id, env.values.value), ins.id)
    else (ins.db, ins.id)
  }

  /** `saveEnvironmentValues`: the `sortOrder++` loop adding one row per value to the batch. */
  method SaveEnvironmentValues(conn: Connection, environmentId: int, vs: seq<EnvironmentValue>)
    modifies conn`db
    ensures conn.db == ValuesSaved(old(conn.db), environmentId, vs)
  {
    var start := conn.db;
    var sortOrder := 0;
    while sortOrder < |vs|
      invariant 0 <= sortOrder <= |vs|
      invariant conn.db == ValuesSaved(start, environmentId, vs[..sortOrder])
    {
      assert vs[..sortOrder + 1][..sortOrder] == vs[..sortOrder];
      conn.db := Kept(conn.db, InsertEnvironmentValue(conn.db, ValueRow(environmentId, vs[sortOrder], sortOrder)));
      sortOrder := sortOrder + 1;
    }
    assert vs[..sortOrder] == vs;
  }

  /** `saveEnvironment`. */
  method SaveEnvironment(conn: Connection, env: PostmanEnvironment, fileName: Option<string>) returns (id: int)
    modifies conn
    ensures (conn.db, id) == EnvironmentSaved(old(conn.db), env, fileName)
  {
    conn.Begin();
    var name := EnvironmentName(env, fileName);
    var existing := FindExistingEnvironmentId(conn.db, env.id, name);
    if existing > 0 {
      conn.db := DeleteEnvironment(conn.db, existing);
    }
    var ins := InsertEnvironment(conn.db, EnvironmentRow(env.id, name, env.variableScope, env.exportedAt,
                                                         env.exportedUsing, Encoded(env)));
    if ins.Rejected? {
      conn.Rollback();
      return -1;
    }
    conn.db := ins.db;
    id := ins.id;
    if id > 0 && env.values.Some? {
      if EnvironmentValues !in conn.db.present {
        conn.Rollback();
        return -1;
      }
      SaveEnvironmentValues(conn, id, env.values.value);
    }
  }

  // ---------------------------------------------------------------- properties of the save

  /** The lookup: a usable `postman_id` held by some row finds the first such row; otherwise a
      usable name held by some row finds the first such row; otherwise -1. A found id is
      positive. */
  lemma FindExistingExact(db: Db, postmanId: Option<string>, name: Option<string>)
    requires Valid(db)
    ensures var r := FindExistingEnvironmentId(db, postmanId, name);
            var rows := db.environments.rows;
            (r == -1 <==> forall id :: id in rows ==>
                            !(UsableKey(postmanId) && rows[id].postmanId == postmanId) && !(UsableKey(name) && rows[id].name == name))
            && (r != -1 ==> r > 0)
            && ((UsableKey(postmanId) && exists id :: id in rows && rows[id].postmanId == postmanId) ==>
                  rows[r].postmanId == postmanId && forall id :: id in rows && id < r ==> rows[id].postmanId != postmanId)
            && ((!UsableKey(postmanId) || forall id :: id in rows ==> rows[id].postmanId != postmanId) && r != -1 ==>
                  rows[r].name == name && forall id :: id in rows && id < r ==> rows[id].name != name)
  {
    var rows := db.environments.rows;
    assert Issued(db.environments);
    if UsableKey(postmanId) && exists id :: id in rows && rows[id].postmanId == postmanId {
      var id :| id in rows && rows[id].postmanId == postmanId;
      assert WithPostmanId(postmanId)(rows[id]);
    }
    if UsableKey(name) && exists id :: id in rows && rows[id].name == name {
      var id :| id in rows && rows[id].name == name;
      assert WithName(name)(rows[id]);
    }
  }

  /** One more value appends its row to the values table and touches nothing else. */
  lemma ValuesSavedSnoc(db: Db, environmentId: int, vs: seq<EnvironmentValue>)
    requires EnvironmentValues in db.present && vs != []
    ensures ValuesSaved(db, environmentId, vs).environmentValues
            == Add(ValuesSaved(db, environmentId, vs[..|vs| - 1]).environmentValues, ValueRow(environmentId, vs[|vs| - 1], |vs| - 1))
  {
  }

  /** The values batch numbers its rows after the existing ones and changes no earlier row. */
  lemma {:induction false} ValuesSavedRows(db: Db, environmentId: int, vs: seq<EnvironmentValue>)
    requires EnvironmentValues in db.present && Issued(db.environmentValues)
    ensures ValuesSaved(db, environmentId, vs).environmentValues.last == db.environmentValues.last + |vs|
    ensures Issued(ValuesSaved(db, environmentId, vs).environmentValues)
    ensures var t := ValuesSaved(db, environmentId, vs).environmentValues;
            forall id :: id in db.environmentValues.rows ==> id in t.rows && t.rows[id] == db.environmentValues.rows[id]
    ensures var t := ValuesSaved(db, environmentId, vs).environmentValues;
            forall id :: id in t.rows ==> id in db.environmentValues.rows || db.environmentValues.last < id <= t.last
    decreases |vs|
  {
    if vs != [] {
      ValuesSavedRows(db, environmentId, vs[..|vs| - 1]);
      ValuesSavedSnoc(db, environmentId, vs);
    }
  }

  /** The value at position `k` of the list is row `last + 1 + k`, with sort order `k`. */
  lemma {:induction false} ValuesSavedRowAt(db: Db, environmentId: int, vs: seq<EnvironmentValue>, k: int)
    requires EnvironmentValues in db.present && Issued(db.environmentValues) && 0 <= k < |vs|
    ensures var t := ValuesSaved(db, environmentId, vs).environmentValues;
            db.environmentValues.last + 1 + k in t.rows && t.rows[db.environmentValues.last + 1 + k] == ValueRow(environmentId, vs[k], k)
    decreases |vs|
  {
    var init := vs[..|vs| - 1];
    ValuesSavedRows(db, environmentId, init);
    ValuesSavedSnoc(db, environmentId, vs);
    if k < |init| {
      ValuesSavedRowAt(db, environmentId, init, k);
      assert init[k] == vs[k];
    }
  }

  lemma {:induction false} ValuesSavedValid(db: Db, environmentId: int, vs: seq<EnvironmentValue>)
    requires Valid(db) && EnvironmentValues in db.present
    ensures Valid(ValuesSaved(db, environmentId, vs))
    decreases |vs|
  {
    if vs != [] {
      var init := vs[..|vs| - 1];
      ValuesSavedValid(db, environmentId, init);
      var d := ValuesSaved(db, environmentId, init);
      InsertEnvironmentValueValid(d, ValueRow(environmentId, vs[|vs| - 1], |vs| - 1));
    }
  }

  /** `saveEnvironment` keeps the constraints. */
  lemma EnvironmentSavedValid(db: Db, env: PostmanEnvironment, fileName: Option<string>)
    requires Valid(db)
    ensures Valid(EnvironmentSaved(db, env, fileName).0)
  {
    var existing := FindExistingEnvironmentId(db, env.id, EnvironmentName(env, fileName));
    var cleared := Cleared(db, env, fileName);
    if existing > 0 {
      DeleteEnvironmentValid(db, existing);
    }
    var ins := InsertEnvironment(cleared, EnvironmentRowOf(env, fileName));
    if ins.Inserted? {
      InsertEnvironmentValid(cleared, EnvironmentRowOf(env, fileName));
      if env.values.Some? && EnvironmentValues in db.present {
        ValuesSavedValid(ins.db, ins.id, env.values.value);
      }
    }
  }

  /** `saveEnvironment` returns -1 exactly when a table it writes is missing, and then changes
      nothing. */
  lemma EnvironmentSavedFails(db: Db, env: PostmanEnvironment, fileName: Option<string>)
    ensures var r := EnvironmentSaved(db, env, fileName);
            r.1 == -1 <==> Environments !in db.present || (env.values.Some? && EnvironmentValues !in db.present)
    ensures var r := EnvironmentSaved(db, env, fileName);
            r.1 == -1 ==> r.0 == db
  {
    var cleared := Cleared(db, env, fileName);
    assert cleared.present == db.present;
    var ins := InsertEnvironment(cleared, EnvironmentRowOf(env, fileName));
    if ins.Inserted? {
      assert ins.id == ins.db.environments.last > 0;
    }
  }

  /** A saved environment gets a new positive id holding the row built from the environment;
      the row found by the lookup is gone (a replace, not an update); every other environment
      row is kept, and there are no others. */
  lemma EnvironmentSavedRows(db: Db, env: PostmanEnvironment, fileName: Option<string>)
    requires Valid(db) && EnvironmentSaved(db, env, fileName).1 != -1
    ensures var r := EnvironmentSaved(db, env, fileName);
            var existing := FindExistingEnvironmentId(db, env.id, EnvironmentName(env, fileName));
            var rows := r.0.environments.rows;
            r.1 > 0 && r.1 == r.0.environments.last && r.1 !in db.environments.rows
            && r.1 in rows && rows[r.1] == EnvironmentRowOf(env, fileName)
            && existing !in rows
            && (forall id :: id in db.environments.rows && id != existing ==> id in rows && rows[id] == db.environments.rows[id])
            && (forall id :: id in rows ==> id == r.1 || id in db.environments.rows)
  {
    var existing := FindExistingEnvironmentId(db, env.id, EnvironmentName(env, fileName));
    var cleared := Cleared(db, env, fileName);
    assert cleared.environments.last == db.environments.last;
    assert forall id :: id in cleared.environments.rows <==> id in db.environments.rows && (existing > 0 ==> id != existing);
    assert existing == -1 || existing in db.environments.rows;
    assert Issued(db.environments);
    var ins := InsertEnvironment(cleared, EnvironmentRowOf(env, fileName));
    assert ins.db.environments == Add(cleared.environments, EnvironmentRowOf(env, fileName));
    assert EnvironmentSaved(db, env, fileName).0.environments == ins.db.environments;
  }

  /** The values of a successful save: the rows added to `environment_values` are one per value
      of the list (none when it is null), numbered after the existing rows, which stay as they
      were. */
  lemma EnvironmentValuesSaved(db: Db, env: PostmanEnvironment, fileName: Option<string>)
    requires Valid(db) && EnvironmentSaved(db, env, fileName).1 != -1
    ensures var t := EnvironmentSaved(db, env, fileName).0.environmentValues;
            t.last == db.environmentValues.last + (if env.values.Some? then |env.values.value| else 0)
            && (forall id :: id in db.environmentValues.rows ==> id in t.rows && t.rows[id] == db.environmentValues.rows[id])
            && (forall id :: id in t.rows ==> id in db.environmentValues.rows || db.environmentValues.last < id <= t.last)
  {
    var cleared := Cleared(db, env, fileName);
    var ins := InsertEnvironment(cleared, EnvironmentRowOf(env, fileName));
    assert ins.db.environmentValues == db.environmentValues;
    if env.values.Some? {
      assert Issued(db.environmentValues);
      ValuesSavedRows(ins.db, ins.id, env.values.value);
    }
  }

  /** The `k`-th value of a successful save is stored under the new environment id with sort
      order `k`, in row `last + 1 + k`. */
  lemma EnvironmentValueSavedAt(db: Db, env: PostmanEnvironment, fileName: Option<string>, k: int)
    requires Valid(db) && EnvironmentSaved(db, env, fileName).1 != -1
    requires env.values.Some? && 0 <= k < |env.values.value|
    ensures var r := EnvironmentSaved(db, env, fileName);
            var id := db.environmentValues.last + 1 + k;
            id in r.0.environmentValues.rows && r.0.environmentValues.rows[id] == ValueRow(r.1, env.values.value[k], k)
  {
    var cleared := Cleared(db, env, fileName);
    var ins := InsertEnvironment(cleared, EnvironmentRowOf(env, fileName));
    assert ins.db.environmentValues == db.environmentValues;
    assert Issued(db.environmentValues);
    ValuesSavedRowAt(ins.db, ins.id, env.values.value, k);
  }

  // ---------------------------------------------------------------- getAllEnvironments

  datatype EnvironmentInfo = EnvironmentInfo(id: int, name: Option<string>)

  function AnyEnvironment(): EnvironmentRow -> bool {
    (e: EnvironmentRow) => true
  }

  /** The rows of `SELECT id, name FROM environments ORDER BY created_at DESC`, newest first, as
      the cursor returns them; none when the table is missing. */
  function EnvironmentQueryRows(db: Db): (q: seq<(int, EnvironmentRow)>)
  {
    if Environments !in db.present then []
    else
      var rows := Rows(db.environments, AnyEnvironment());
      seq(|rows|, i requires 0 <= i < |rows| => rows[|rows| - 1 - i])
  }

  /** The infos `getAllEnvironments` returns: id and name of each row, in the query's order. */
  function EnvironmentsListed(db: Db): (infos: seq<EnvironmentInfo>)
    ensures |infos| == |EnvironmentQueryRows(db)|
  {
    var q := EnvironmentQueryRows(db);
    seq(|q|, i requires 0 <= i < |q| => EnvironmentInfo(q[i].0, q[i].1.name))
  }

  /** `getAllEnvironments`: the loop reading the cursor into a list. */
  method GetAllEnvironments(db: Db) returns (environments: seq<EnvironmentInfo>)
    ensures environments == EnvironmentsListed(db)
  {
    var q := EnvironmentQueryRows(db);
    environments := [];
    var i := 0;
    while i < |q|
      invariant 0 <= i <= |q| && |environments| == i
      invariant forall j :: 0 <= j < i ==> environments[j] == EnvironmentInfo(q[j].0, q[j].1.name)
    {
      environments := environments + [EnvironmentInfo(q[i].0, q[i].1.name)];
      i := i + 1;
    }
  }

  /** The listing names every stored environment once, newest first, with its stored name. */
  lemma EnvironmentsListedExact(db: Db)
    requires Valid(db)
    ensures var infos := EnvironmentsListed(db);
            (forall a, b :: 0 <= a < b < |infos| ==> infos[a].id > infos[b].id)
            && (forall i :: 0 <= i < |infos| ==>
                  infos[i].id in db.environments.rows && infos[i].name == db.environments.rows[infos[i].id].name)
            && (forall id :: id in db.environments.rows ==> exists i :: 0 <= i < |infos| && infos[i].id == id)
  {
    var q := EnvironmentQueryRows(db);
    var infos := EnvironmentsListed(db);
    EnvironmentQueryRowsDescending(db);
    EnvironmentQueryRowsExact(db);
    forall id | id in db.environments.rows ensures exists i :: 0 <= i < |infos| && infos[i].id == id {
      var i :| 0 <= i < |q| && q[i].0 == id;
      assert infos[i].id == id;
    }
  }

  /** The listing is newest (highest id) first. */
  lemma EnvironmentQueryRowsDescending(db: Db)
    ensures var q := EnvironmentQueryRows(db);
            forall a, b :: 0 <= a < b < |q| ==> q[a].0 > q[b].0
  {
    if Environments in db.present {
      var rows := Rows(db.environments, AnyEnvironment());
      var q := EnvironmentQueryRows(db);
      RowsFromAscending(db.environments, AnyEnvironment(), 1);
      forall a, b | 0 <= a < b < |q| ensures q[a].0 > q[b].0 {
        assert q[a] == rows[|rows| - 1 - a] && q[b] == rows[|rows| - 1 - b];
      }
    }
  }

  /** The listing holds exactly the stored environments, each with its row, and nothing when
      the table is missing. */
  lemma EnvironmentQueryRowsExact(db: Db)
    requires Valid(db)
    ensures var q := EnvironmentQueryRows(db);
            forall i :: 0 <= i < |q| ==> q[i].0 in db.environments.rows && q[i].1 == db.environments.rows[q[i].0]
    ensures var q := EnvironmentQueryRows(db);
            forall id :: id in db.environments.rows ==> exists i :: 0 <= i < |q| && q[i].0 == id
  {
    var q := EnvironmentQueryRows(db);
    if Environments in db.present {
      var rows := Rows(db.environments, AnyEnvironment());
      forall i | 0 <= i < |q| ensures q[i].0 in db.environments.rows && q[i].1 == db.environments.rows[q[i].0] {
        assert q[i] == rows[|rows| - 1 - i];
      }
      forall id | id in db.environments.rows ensures exists i :: 0 <= i < |q| && q[i].0 == id {
        assert Issued(db.environments);
        RowsFromComplete(db.environments, AnyEnvironment(), 1, id);
        var k :| 0 <= k < |rows| && rows[k].0 == id;
        assert q[|rows| - 1 - k] == rows[k];
      }
    } else {
      assert Empty(db, Environments);
    }
  }

  /** After a successful save the new environment comes first in the listing, with the stored
      name. */
  lemma SavedEnvironmentListedFirst(db: Db, env: PostmanEnvironment, fileName: Option<string>)
    requires Valid(db) && EnvironmentSaved(db, env, fileName).1 != -1
    ensures var r := EnvironmentSaved(db, env, fileName);
            var infos := EnvironmentsListed(r.0);
            infos != [] && infos[0] == EnvironmentInfo(r.1, EnvironmentName(env, fileName))
  {
    EnvironmentSavedValid(db, env, fileName);
    EnvironmentSavedRows(db, env, fileName);
    var r := EnvironmentSaved(db, env, fileName);
    EnvironmentQueryRowsExact(r.0);
    EnvironmentQueryRowsDescending(r.0);
    var q := EnvironmentQueryRows(r.0);
    var k :| 0 <= k < |q| && q[k].0 == r.1;
    assert Issued(r.0.environments);
    assert q[0].0 in r.0.environments.rows;
    assert k == 0;
  }
}
