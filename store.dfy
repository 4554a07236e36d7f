/** The SQLite database behind the DAOs (db/DatabaseSchema.java): one table of rows per
    CREATE TABLE, keyed by an AUTOINCREMENT id, with the NOT NULL, UNIQUE and CHECK
    constraints and the ON DELETE CASCADE foreign keys of the schema as an invariant.
    Foreign keys are enforced (`PRAGMA foreign_keys = ON` on every connection). */
module Store {
  import opened Wrappers
  import opened Objects
  import Responses

  // ---------------------------------------------------------------- columns

  /** A JSON snapshot column: NULL, the empty text, the text Jackson writes for a value, or
      text that does not parse back. A value written and read back is the value itself. */
  datatype Snapshot<T> = SqlNull | EmptyText | Encoded(value: T) | Undecodable

  /** `writeValueAsString` of a possibly-null object; a null object leaves the column NULL. */
  function Snap<T>(v: Option<T>): (r: Snapshot<T>)
    ensures r.Encoded? <==> v.Some?
    ensures r.Encoded? ==> r.value == v.value
  {
    if v.Some? then Encoded(v.value) else SqlNull
  }

  /** A snapshot the read path tries to decode: non-null and non-empty. */
  predicate Filled<T>(s: Snapshot<T>) {
    s.Encoded? || s.Undecodable?
  }

  /** `objectMapper.readValue` of a filled snapshot: the value, or None when it does not decode. */
  function Decoded<T>(s: Snapshot<T>): (r: Option<T>)
    ensures r.Some? <==> s.Encoded?
  {
    if s.Encoded? then Some(s.value) else None
  }

  /** What `saveResponse` serialises as `full_response_json`. */
  datatype ResponseSnapshot = ResponseSnapshot(statusCode: int, body: Option<string>,
                                               headers: Option<Responses.HeaderLists>, duration: int)

  /** The four auth columns of a request row. */
  datatype AuthColumns = AuthColumns(authType: Option<string>, basicUsername: Option<string>,
                                     basicPassword: Option<string>, bearerToken: Option<string>)

  // ---------------------------------------------------------------- rows

  datatype CollectionRow = CollectionRow(postmanId: Option<string>, name: string, schemaVersion: Option<string>,
                                         exporterId: Option<string>, description: Option<string>)

  datatype ItemRow = ItemRow(collectionId: int, parentId: Option<int>, name: string, itemType: string)

  datatype RequestRow = RequestRow(itemId: int, httpMethod: string, urlRaw: string, urlProtocol: Option<string>,
                                   urlPort: Option<string>, bodyMode: Option<string>, bodyRaw: Option<string>,
                                   bodyLanguage: Option<string>, auth: AuthColumns, fullUrlJson: Snapshot<Url>,
                                   fullBodyJson: Snapshot<Body>, fullAuthJson: Snapshot<Auth>)

  datatype HeaderRow = HeaderRow(requestId: int, key: string, value: Option<string>, disabled: int, sortOrder: int)

  datatype QueryParamRow = QueryParamRow(requestId: int, key: string, value: Option<string>, sortOrder: int)

  datatype VariableRow = VariableRow(collectionId: Option<int>, itemId: Option<int>, key: string,
                                     value: Option<string>, varType: Option<string>)

  datatype EventRow = EventRow(collectionId: Option<int>, itemId: Option<int>, eventType: string,
                               scriptType: Option<string>, scriptExec: Option<string>, fullEventJson: Snapshot<Event>)

  datatype ResponseRow = ResponseRow(requestId: int, statusCode: int, body: Option<string>, duration: int,
                                     fullResponseJson: Snapshot<ResponseSnapshot>)

  datatype ResponseHeaderRow = ResponseHeaderRow(responseId: int, key: string, value: Option<string>, sortOrder: int)

  /** The columns `EnvironmentDao` writes; the environments tables are created outside the schema
      above, so no column constraint of theirs is known. */
  datatype EnvironmentRow = EnvironmentRow(postmanId: Option<string>, name: Option<string>, variableScope: Option<string>,
                                           exportedAt: Option<string>, exportedUsing: Option<string>,
                                           fullEnvironmentJson: Snapshot<PostmanEnvironment>)

  datatype EnvironmentValueRow = EnvironmentValueRow(environmentId: int, key: Option<string>, value: Option<string>,
                                                     valueType: Option<string>, enabled: Option<int>, sortOrder: int)

  // ---------------------------------------------------------------- tables

  /** The rows of a table by id, and the AUTOINCREMENT counter: the largest id ever issued. */
  datatype Table<R> = Table(rows: map<int, R>, last: nat)

  /** Every id in the table was issued by its counter. */
  predicate Issued<R>(t: Table<R>) {
    forall id :: id in t.rows ==> 1 <= id <= t.last
  }

  /** The table after one insert: the row gets the next id. */
  function Add<R>(t: Table<R>, r: R): (u: Table<R>)
    ensures u.last == t.last + 1 && u.last in u.rows && u.rows[u.last] == r
    ensures forall id :: id != u.last ==> (id in u.rows <==> id in t.rows)
    ensures forall id :: id in t.rows && id != u.last ==> id in u.rows && u.rows[id] == t.rows[id]
    ensures Issued(t) ==> Issued(u) && u.last !in t.rows
  {
    Table(t.rows[t.last + 1 := r], t.last + 1)
  }

  /** The table without the rows `gone` selects; the counter is kept. */
  function Remove<R>(t: Table<R>, gone: R -> bool): (u: Table<R>)
    ensures u.last == t.last
    ensures forall id :: id in u.rows <==> id in t.rows && !gone(t.rows[id])
    ensures forall id :: id in u.rows ==> u.rows[id] == t.rows[id]
    ensures Issued(t) ==> Issued(u)
  {
    Table(map id | id in t.rows && !gone(t.rows[id]) :: t.rows[id], t.last)
  }

  datatype TableName = Collections | Items | Requests | Headers | QueryParams | Variables | Events
                     | Responses | ResponseHeaders | Environments | EnvironmentValues

  /** The whole database: which tables exist, and the rows of each. */
  datatype Db = Db(present: set<TableName>,
                   collections: Table<CollectionRow>, items: Table<ItemRow>, requests: Table<RequestRow>,
                   headers: Table<HeaderRow>, queryParams: Table<QueryParamRow>, variables: Table<VariableRow>,
                   events: Table<EventRow>, responses: Table<ResponseRow>, responseHeaders: Table<ResponseHeaderRow>,
                   environments: Table<EnvironmentRow>, environmentValues: Table<EnvironmentValueRow>)

  /** A database file with no tables. */
  const EmptyDb := Db({}, Table(map[], 0), Table(map[], 0), Table(map[], 0), Table(map[], 0), Table(map[], 0),
                      Table(map[], 0), Table(map[], 0), Table(map[], 0), Table(map[], 0), Table(map[], 0), Table(map[], 0))

  /** The table has no rows. */
  predicate Empty(db: Db, t: TableName) {
    match t
    case Collections => db.collections.rows == map[]
    case Items => db.items.rows == map[]
    case Requests => db.requests.rows == map[]
    case Headers => db.headers.rows == map[]
    case QueryParams => db.queryParams.rows == map[]
    case Variables => db.variables.rows == map[]
    case Events => db.events.rows == map[]
    case Responses => db.responses.rows == map[]
    case ResponseHeaders => db.responseHeaders.rows == map[]
    case Environments => db.environments.rows == map[]
    case EnvironmentValues => db.environmentValues.rows == map[]
  }

  // ---------------------------------------------------------------- the schema's constraints

  predicate AllIssued(db: Db) {
    Issued(db.collections) && Issued(db.items) && Issued(db.requests) && Issued(db.headers)
    && Issued(db.queryParams) && Issued(db.variables) && Issued(db.events) && Issued(db.responses)
    && Issued(db.responseHeaders) && Issued(db.environments) && Issued(db.environmentValues)
  }

  /** A table that does not exist holds no rows. */
  predicate AbsentEmpty(db: Db) {
    forall t :: t !in db.present ==> Empty(db, t)
  }

  /** `postman_id TEXT UNIQUE`: no two collections share a non-null id (NULLs are distinct). */
  predicate PostmanIdsUnique(db: Db) {
    forall a, b :: (a in db.collections.rows && b in db.collections.rows && db.collections.rows[a].postmanId.Some?
                    && db.collections.rows[a].postmanId == db.collections.rows[b].postmanId) ==> a == b
  }

  predicate IsItemType(s: string) {
    s == "folder" || s == "request"
  }

  /** One item row: its collection exists, `item_type` passes the CHECK, and its parent exists. A
      parent's row is always inserted first, so its id is smaller. */
  predicate ItemRowValid(db: Db, id: int, r: ItemRow) {
    r.collectionId in db.collections.rows && IsItemType(r.itemType)
    && (r.parentId.Some? ==> r.parentId.value in db.items.rows && r.parentId.value < id)
  }

  predicate ItemsValid(db: Db) {
    forall id :: id in db.items.rows ==> ItemRowValid(db, id, db.items.rows[id])
  }

  /** `item_id INTEGER NOT NULL UNIQUE REFERENCES items`: at most one request per item. */
  predicate RequestsValid(db: Db) {
    (forall id :: id in db.requests.rows ==> db.requests.rows[id].itemId in db.items.rows)
    && forall a, b :: (a in db.requests.rows && b in db.requests.rows
                        && db.requests.rows[a].itemId == db.requests.rows[b].itemId) ==> a == b
  }

  /** Headers, query parameters and responses point at an existing request, response headers at
      an existing response. */
  predicate RequestChildrenValid(db: Db) {
    (forall id :: id in db.headers.rows ==> db.headers.rows[id].requestId in db.requests.rows)
    && (forall id :: id in db.queryParams.rows ==> db.queryParams.rows[id].requestId in db.requests.rows)
    && (forall id :: id in db.responses.rows ==> db.responses.rows[id].requestId in db.requests.rows)
    && (forall id :: id in db.responseHeaders.rows ==> db.responseHeaders.rows[id].responseId in db.responses.rows)
  }

  /** The CHECK on variables and events: exactly one of the two owner columns is set, and it
      points at an existing row. */
  predicate ScopeValid(db: Db, collectionId: Option<int>, itemId: Option<int>) {
    collectionId.Some? != itemId.Some?
    && (collectionId.Some? ==> collectionId.value in db.collections.rows)
    && (itemId.Some? ==> itemId.value in db.items.rows)
  }

  predicate IsEventType(s: string) {
    s == "prerequest" || s == "test"
  }

  predicate ScopedValid(db: Db) {
    (forall id :: id in db.variables.rows ==> ScopeValid(db, db.variables.rows[id].collectionId, db.variables.rows[id].itemId))
    && forall id :: id in db.events.rows ==>
         ScopeValid(db, db.events.rows[id].collectionId, db.events.rows[id].itemId) && IsEventType(db.events.rows[id].eventType)
  }

  /** Every constraint of the schema holds. */
  predicate Valid(db: Db) {
    AllIssued(db) && AbsentEmpty(db) && PostmanIdsUnique(db) && ItemsValid(db) && RequestsValid(db)
    && RequestChildrenValid(db) && ScopedValid(db)
  }

  // ---------------------------------------------------------------- lookups

  /** The first id from `i` on (in id order, up to the counter) whose row satisfies `p`. */
  function FirstFrom<R>(t: Table<R>, p: R -> bool, i: nat): (r: Option<int>)
    ensures r.Some? ==> i <= r.value <= t.last && r.value in t.rows && p(t.rows[r.value])
    ensures r.Some? ==> forall id :: i <= id < r.value && id in t.rows ==> !p(t.rows[id])
    ensures r.None? ==> forall id :: i <= id <= t.last && id in t.rows ==> !p(t.rows[id])
    decreases t.last + 1 - i
  {
    if i > t.last then None
    else if i in t.rows && p(t.rows[i]) then Some(i)
    else FirstFrom(t, p, i + 1)
  }

  /** A `SELECT id ... WHERE ...` taking the first row: the lowest matching id. */
  function First<R>(t: Table<R>, p: R -> bool): (r: Option<int>)
    ensures r.Some? ==> r.value in t.rows && p(t.rows[r.value])
    ensures Issued(t) && r.None? ==> forall id :: id in t.rows ==> !p(t.rows[id])
  {
    FirstFrom(t, p, 1)
  }

  /** The rows satisfying `p` with ids from `i` up to the counter, in ascending id order. */
  function RowsFrom<R>(t: Table<R>, p: R -> bool, i: nat): (r: seq<(int, R)>)
    ensures forall k :: 0 <= k < |r| ==> i <= r[k].0 <= t.last && r[k].0 in t.rows && r[k].1 == t.rows[r[k].0] && p(r[k].1)
    decreases t.last + 1 - i
  {
    if i > t.last then []
    else if i in t.rows && p(t.rows[i]) then [(i, t.rows[i])] + RowsFrom(t, p, i + 1)
    else RowsFrom(t, p, i + 1)
  }

  /** The matching rows of the whole table, in ascending id order. */
  function Rows<R>(t: Table<R>, p: R -> bool): seq<(int, R)> {
    RowsFrom(t, p, 1)
  }

  /** The request row of an item, by the UNIQUE `item_id`. */
  function RequestOfItem(db: Db, itemId: int): Option<int> {
    First(db.requests, (r: RequestRow) => r.itemId == itemId)
  }

  /** The collection holding a non-null `postman_id`; a NULL matches no row. */
  function CollectionWithPostmanId(db: Db, postmanId: Option<string>): Option<int> {
    if postmanId.None? then None else First(db.collections, (r: CollectionRow) => r.postmanId == postmanId)
  }

  // ---------------------------------------------------------------- inserts

  /** The outcome of one INSERT: the database with the row and its generated id, or the row
      rejected by a constraint (an SQLException). */
  datatype Inserted = Inserted(db: Db, id: int) | Rejected

  /** `INSERT INTO collections`: rejected for a NULL name or a `postman_id` already in use. */
  function InsertCollection(db: Db, postmanId: Option<string>, name: Option<string>, schemaVersion: Option<string>,
                            exporterId: Option<string>, description: Option<string>): (r: Inserted)
    ensures r.Inserted? <==> Collections in db.present && name.Some? && CollectionWithPostmanId(db, postmanId).None?
  {
    if Collections in db.present && name.Some? && CollectionWithPostmanId(db, postmanId).None? then
      var t := Add(db.collections, CollectionRow(postmanId, name.value, schemaVersion, exporterId, description));
      Inserted(db.(collections := t), t.last)
    else Rejected
  }

  /** `INSERT INTO items`: rejected for a NULL name, an unknown collection or an unknown parent. */
  function InsertItem(db: Db, collectionId: int, parentId: Option<int>, name: Option<string>, itemType: string): (r: Inserted)
    ensures r.Inserted? <==> Items in db.present && name.Some? && IsItemType(itemType) && collectionId in db.collections.rows
                             && (parentId.Some? ==> parentId.value in db.items.rows)
  {
    if Items in db.present && name.Some? && IsItemType(itemType) && collectionId in db.collections.rows
       && (parentId.Some? ==> parentId.value in db.items.rows) then
      var t := Add(db.items, ItemRow(collectionId, parentId, name.value, itemType));
      Inserted(db.(items := t), t.last)
    else Rejected
  }

  /** `INSERT INTO requests`: rejected for an unknown item or an item that already has a request. */
  function InsertRequest(db: Db, row: RequestRow): (r: Inserted)
    ensures r.Inserted? <==> Requests in db.present && row.itemId in db.items.rows && RequestOfItem(db, row.itemId).None?
  {
    if Requests in db.present && row.itemId in db.items.rows && RequestOfItem(db, row.itemId).None? then
      var t := Add(db.requests, row);
      Inserted(db.(requests := t), t.last)
    else Rejected
  }

  /** `INSERT INTO headers`: rejected for a NULL key or an unknown request. */
  function InsertHeader(db: Db, requestId: int, key: Option<string>, value: Option<string>, disabled: int, sortOrder: int): (r: Inserted)
    ensures r.Inserted? <==> Headers in db.present && key.Some? && requestId in db.requests.rows
  {
    if Headers in db.present && key.Some? && requestId in db.requests.rows then
      var t := Add(db.headers, HeaderRow(requestId, key.value, value, disabled, sortOrder));
      Inserted(db.(headers := t), t.last)
    else Rejected
  }

  /** `INSERT INTO query_params`: rejected for a NULL key or an unknown request. */
  function InsertQueryParam(db: Db, requestId: int, key: Option<string>, value: Option<string>, sortOrder: int): (r: Inserted)
    ensures r.Inserted? <==> QueryParams in db.present && key.Some? && requestId in db.requests.rows
  {
    if QueryParams in db.present && key.Some? && requestId in db.requests.rows then
      var t := Add(db.queryParams, QueryParamRow(requestId, key.value, value, sortOrder));
      Inserted(db.(queryParams := t), t.last)
    else Rejected
  }

  /** `INSERT INTO variables`: rejected for a NULL key or owners that break the CHECK or a foreign key. */
  function InsertVariable(db: Db, collectionId: Option<int>, itemId: Option<int>, key: Option<string>,
                          value: Option<string>, varType: Option<string>): (r: Inserted)
    ensures r.Inserted? <==> Variables in db.present && key.Some? && ScopeValid(db, collectionId, itemId)
  {
    if Variables in db.present && key.Some? && ScopeValid(db, collectionId, itemId) then
      var t := Add(db.variables, VariableRow(collectionId, itemId, key.value, value, varType));
      Inserted(db.(variables := t), t.last)
    else Rejected
  }

  /** `INSERT INTO events`: rejected for a NULL or unknown `event_type` or owners that break the
      CHECK or a foreign key. */
  function InsertEvent(db: Db, collectionId: Option<int>, itemId: Option<int>, eventType: Option<string>,
                       scriptType: Option<string>, scriptExec: Option<string>, json: Snapshot<Event>): (r: Inserted)
    ensures r.Inserted? <==> Events in db.present && eventType.Some? && IsEventType(eventType.value)
                             && ScopeValid(db, collectionId, itemId)
  {
    if Events in db.present && eventType.Some? && IsEventType(eventType.value) && ScopeValid(db, collectionId, itemId) then
      var t := Add(db.events, EventRow(collectionId, itemId, eventType.value, scriptType, scriptExec, json));
      Inserted(db.(events := t), t.last)
    else Rejected
  }

  /** `INSERT INTO responses`: rejected for an unknown request. */
  function InsertResponse(db: Db, row: ResponseRow): (r: Inserted)
    ensures r.Inserted? <==> Responses in db.present && row.requestId in db.requests.rows
  {
    if Responses in db.present && row.requestId in db.requests.rows then
      var t := Add(db.responses, row);
      Inserted(db.(responses := t), t.last)
    else Rejected
  }

  /** `INSERT INTO response_headers`: rejected for an unknown response. */
  function InsertResponseHeader(db: Db, responseId: int, key: string, value: Option<string>, sortOrder: int): (r: Inserted)
    ensures r.Inserted? <==> ResponseHeaders in db.present && responseId in db.responses.rows
  {
    if ResponseHeaders in db.present && responseId in db.responses.rows then
      var t := Add(db.responseHeaders, ResponseHeaderRow(responseId, key, value, sortOrder));
      Inserted(db.(responseHeaders := t), t.last)
    else Rejected
  }

  /** `INSERT INTO environments`: only a missing table rejects it. */
  function InsertEnvironment(db: Db, row: EnvironmentRow): (r: Inserted)
    ensures r.Inserted? <==> Environments in db.present
  {
    if Environments in db.present then
      var t := Add(db.environments, row);
      Inserted(db.(environments := t), t.last)
    else Rejected
  }

  /** `INSERT INTO environment_values`: only a missing table rejects it. */
  function InsertEnvironmentValue(db: Db, row: EnvironmentValueRow): (r: Inserted)
    ensures r.Inserted? <==> EnvironmentValues in db.present
  {
    if EnvironmentValues in db.present then
      var t := Add(db.environmentValues, row);
      Inserted(db.(environmentValues := t), t.last)
    else Rejected
  }

  /** The database after a statement whose failure is caught and ignored: unchanged when rejected. */
  function Kept(db: Db, r: Inserted): Db {
    if r.Inserted? then r.db else db
  }

  // ---------------------------------------------------------------- cascading deletes

  /** The item is deleted with collection `c`: it belongs to `c`, or its parent is deleted. */
  predicate ItemDead(items: map<int, ItemRow>, c: int, id: int)
    decreases id
  {
    id in items
    && (items[id].collectionId == c
        || (items[id].parentId.Some? && 0 <= items[id].parentId.value < id && ItemDead(items, c, items[id].parentId.value)))
  }

  /** `DELETE FROM collections WHERE id = c` with every ON DELETE CASCADE followed: the items of
      the collection and their descendants; the requests of those items; the headers, query
      parameters and responses of those requests; the headers of those responses; and every
      variable and event owned by the collection or a deleted item. */
  function DeleteCollection(db: Db, c: int): (r: Db)
    ensures r.present == db.present
  {
    var items := db.items.rows;
    var requests := Remove(db.requests, (q: RequestRow) => ItemDead(items, c, q.itemId));
    var responses := Remove(db.responses, (s: ResponseRow) => s.requestId !in requests.rows);
    db.(collections := Table(db.collections.rows - {c}, db.collections.last),
        items := Table(map id | id in items && !ItemDead(items, c, id) :: items[id], db.items.last),
        requests := requests,
        headers := Remove(db.headers, (h: HeaderRow) => h.requestId !in requests.rows),
        queryParams := Remove(db.queryParams, (q: QueryParamRow) => q.requestId !in requests.rows),
        responses := responses,
        responseHeaders := Remove(db.responseHeaders, (h: ResponseHeaderRow) => h.responseId !in responses.rows),
        variables := Remove(db.variables, (v: VariableRow) =>
          v.collectionId == Some(c) || (v.itemId.Some? && ItemDead(items, c, v.itemId.value))),
        events := Remove(db.events, (e: EventRow) =>
          e.collectionId == Some(c) || (e.itemId.Some? && ItemDead(items, c, e.itemId.value))))
  }

  /** `DELETE FROM headers WHERE request_id = ?` and the same on `query_params`. */
  function DeleteRequestLists(db: Db, requestId: int): (r: Db)
    ensures r == db.(headers := r.headers, queryParams := r.queryParams)
    ensures forall id :: id in r.headers.rows <==> id in db.headers.rows && db.headers.rows[id].requestId != requestId
    ensures forall id :: id in r.queryParams.rows <==> id in db.queryParams.rows && db.queryParams.rows[id].requestId != requestId
  {
    db.(headers := Remove(db.headers, (h: HeaderRow) => h.requestId == requestId),
        queryParams := Remove(db.queryParams, (q: QueryParamRow) => q.requestId == requestId))
  }

  /** `DELETE FROM environments WHERE id = ?`. */
  function DeleteEnvironment(db: Db, id: int): (r: Db)
    ensures r == db.(environments := Table(db.environments.rows - {id}, db.environments.last))
  {
    db.(environments := Table(db.environments.rows - {id}, db.environments.last))
  }

  // ---------------------------------------------------------------- schema management

  /** The tables `initializeSchema` creates; the environments tables are not among them. */
  const SchemaTables: set<TableName> := {Collections, Items, Requests, Headers, QueryParams, Variables, Events,
                                         Responses, ResponseHeaders}

  /** `initializeSchema`: every CREATE is IF NOT EXISTS, so an existing table keeps its rows. */
  function InitializeSchema(db: Db): (r: Db)
    ensures r.present == db.present + SchemaTables
    ensures r == db.(present := r.present)
  {
    db.(present := db.present + SchemaTables)
  }

  /** `schemaExists`: the four probes on collections, items, requests and responses all succeed. */
  predicate SchemaExists(db: Db) {
    Collections in db.present && Items in db.present && Requests in db.present && Responses in db.present
  }

  /** The order of `dropSchema`. */
  const DropOrder: seq<TableName> := [ResponseHeaders, Responses, Events, Variables, QueryParams, Headers,
                                      Requests, Items, Collections]

  /** The foreign keys of the schema: `child` has a column referencing `parent`. */
  predicate References(child: TableName, parent: TableName) {
    match child
    case Items => parent == Collections || parent == Items
    case Requests => parent == Items
    case Headers => parent == Requests
    case QueryParams => parent == Requests
    case Variables => parent == Collections || parent == Items
    case Events => parent == Collections || parent == Items
    case Responses => parent == Requests
    case ResponseHeaders => parent == Responses
    case _ => false
  }

  /** `DROP TABLE IF EXISTS t`: the table, its rows and its AUTOINCREMENT counter are gone. */
  function DropTable(db: Db, t: TableName): (r: Db)
    ensures r.present == db.present - {t}
    ensures Empty(r, t)
  {
    var d := db.(present := db.present - {t});
    match t
    case Collections => d.(collections := Table(map[], 0))
    case Items => d.(items := Table(map[], 0))
    case Requests => d.(requests := Table(map[], 0))
    case Headers => d.(headers := Table(map[], 0))
    case QueryParams => d.(queryParams := Table(map[], 0))
    case Variables => d.(variables := Table(map[], 0))
    case Events => d.(events := Table(map[], 0))
    case Responses => d.(responses := Table(map[], 0))
    case ResponseHeaders => d.(responseHeaders := Table(map[], 0))
    case Environments => d.(environments := Table(map[], 0))
    case EnvironmentValues => d.(environmentValues := Table(map[], 0))
  }

  /** The tables of `ts` dropped one after the other. */
  function DropAll(db: Db, ts: seq<TableName>): Db
    decreases |ts|
  {
    if ts == [] then db else DropTable(DropAll(db, ts[..|ts| - 1]), ts[|ts| - 1])
  }

  // ---------------------------------------------------------------- the connection

  /** The shared connection's database. `saved` is the state at the start of the open
      transaction: a rollback returns to it, a commit keeps the current state. */
  class Connection {
    var db: Db
    var saved: Db

    constructor (initial: Db)
      ensures db == initial && saved == initial
    {
      db := initial;
      saved := initial;
    }

    /** `setAutoCommit(false)`: a transaction starts from the current state. */
    method Begin()
      modifies this`saved
      ensures saved == db
    {
      saved := db;
    }

    /** `rollback()`: every change since `Begin` is undone. */
    method Rollback()
      modifies this`db
      ensures db == saved
    {
      db := saved;
    }

    /** `dropSchema`: the schema's tables dropped in the order of `DropOrder`. */
    method DropSchema()
      modifies this`db
      ensures db == DropAll(old(db), DropOrder)
    {
      var i := 0;
      var start := db;
      while i < |DropOrder|
        invariant 0 <= i <= |DropOrder|
        invariant db == DropAll(start, DropOrder[..i])
      {
        assert DropOrder[..i + 1][..i] == DropOrder[..i];
        db := DropTable(db, DropOrder[i]);
        i := i + 1;
      }
      assert DropOrder[..i] == DropOrder;
    }
  }
}
