/** What the schema's constraints guarantee of the store: every accepted insert and every
    cascading delete keeps them, and `dropSchema` drops a table only after the tables that
    reference it (db/DatabaseSchema.java). */
module StoreProperties {
  import opened Wrappers
  import opened Store

  /** A database with no tables satisfies the schema trivially. */
  lemma EmptyDbValid()
    ensures Valid(EmptyDb)
  {
  }

  /** `initializeSchema` keeps every row and creates only tables with no rows, so the
      constraints still hold; running it again changes nothing. */
  lemma InitializeSchemaValid(db: Db)
    requires Valid(db)
    ensures Valid(InitializeSchema(db))
    ensures SchemaExists(InitializeSchema(db))
    ensures InitializeSchema(InitializeSchema(db)) == InitializeSchema(db)
  {
    var r := InitializeSchema(db);
    forall t | t !in r.present ensures Empty(r, t) {
      assert t !in db.present;
    }
  }

  // ---------------------------------------------------------------- inserts

  lemma InsertCollectionValid(db: Db, postmanId: Option<string>, name: Option<string>, schemaVersion: Option<string>,
                              exporterId: Option<string>, description: Option<string>)
    requires Valid(db)
    requires InsertCollection(db, postmanId, name, schemaVersion, exporterId, description).Inserted?
    ensures Valid(InsertCollection(db, postmanId, name, schemaVersion, exporterId, description).db)
  {
    var r := InsertCollection(db, postmanId, name, schemaVersion, exporterId, description).db;
    var id := r.collections.last;
    if postmanId.Some? {
      forall a | a in db.collections.rows ensures db.collections.rows[a].postmanId != postmanId {
        assert CollectionWithPostmanId(db, postmanId).None?;
      }
    }
    forall t | t !in r.present ensures Empty(r, t) {
      assert Empty(db, t);
    }
    assert PostmanIdsUnique(r);
  }

  lemma InsertItemValid(db: Db, collectionId: int, parentId: Option<int>, name: Option<string>, itemType: string)
    requires Valid(db)
    requires InsertItem(db, collectionId, parentId, name, itemType).Inserted?
    ensures Valid(InsertItem(db, collectionId, parentId, name, itemType).db)
  {
    var r := InsertItem(db, collectionId, parentId, name, itemType).db;
    forall id | id in r.items.rows ensures ItemRowValid(r, id, r.items.rows[id]) {
      if id != r.items.last {
        assert ItemRowValid(db, id, db.items.rows[id]);
      }
    }
    forall t | t !in r.present ensures Empty(r, t) {
      assert Empty(db, t);
    }
  }

  lemma InsertRequestValid(db: Db, row: RequestRow)
    requires Valid(db)
    requires InsertRequest(db, row).Inserted?
    ensures Valid(InsertRequest(db, row).db)
  {
    var r := InsertRequest(db, row).db;
    forall a | a in db.requests.rows ensures db.requests.rows[a].itemId != row.itemId {
      assert RequestOfItem(db, row.itemId).None?;
    }
    forall t | t !in r.present ensures Empty(r, t) {
      assert Empty(db, t);
    }
    assert RequestsValid(r);
  }

  lemma InsertHeaderValid(db: Db, requestId: int, key: Option<string>, value: Option<string>, disabled: int, sortOrder: int)
    requires Valid(db)
    requires InsertHeader(db, requestId, key, value, disabled, sortOrder).Inserted?
    ensures Valid(InsertHeader(db, requestId, key, value, disabled, sortOrder).db)
  {
    var r := InsertHeader(db, requestId, key, value, disabled, sortOrder).db;
    forall t | t !in r.present ensures Empty(r, t) {
      assert Empty(db, t);
    }
    assert RequestChildrenValid(r);
  }

  lemma InsertQueryParamValid(db: Db, requestId: int, key: Option<string>, value: Option<string>, sortOrder: int)
    requires Valid(db)
    requires InsertQueryParam(db, requestId, key, value, sortOrder).Inserted?
    ensures Valid(InsertQueryParam(db, requestId, key, value, sortOrder).db)
  {
    var r := InsertQueryParam(db, requestId, key, value, sortOrder).db;
    forall t | t !in r.present ensures Empty(r, t) {
      assert Empty(db, t);
    }
    assert RequestChildrenValid(r);
  }

  lemma InsertVariableValid(db: Db, collectionId: Option<int>, itemId: Option<int>, key: Option<string>,
                            value: Option<string>, varType: Option<string>)
    requires Valid(db)
    requires InsertVariable(db, collectionId, itemId, key, value, varType).Inserted?
    ensures Valid(InsertVariable(db, collectionId, itemId, key, value, varType).db)
  {
    var r := InsertVariable(db, collectionId, itemId, key, value, varType).db;
    forall t | t !in r.present ensures Empty(r, t) {
      assert Empty(db, t);
    }
    assert ScopedValid(r);
  }

  lemma InsertEventValid(db: Db, collectionId: Option<int>, itemId: Option<int>, eventType: Option<string>,
                         scriptType: Option<string>, scriptExec: Option<string>, json: Snapshot<Objects.Event>)
    requires Valid(db)
    requires InsertEvent(db, collectionId, itemId, eventType, scriptType, scriptExec, json).Inserted?
    ensures Valid(InsertEvent(db, collectionId, itemId, eventType, scriptType, scriptExec, json).db)
  {
    var r := InsertEvent(db, collectionId, itemId, eventType, scriptType, scriptExec, json).db;
    forall t | t !in r.present ensures Empty(r, t) {
      assert Empty(db, t);
    }
    assert ScopedValid(r);
  }

  lemma InsertResponseValid(db: Db, row: ResponseRow)
    requires Valid(db)
    requires InsertResponse(db, row).Inserted?
    ensures Valid(InsertResponse(db, row).db)
  {
    var r := InsertResponse(db, row).db;
    forall t | t !in r.present ensures Empty(r, t) {
      assert Empty(db, t);
    }
    assert RequestChildrenValid(r);
  }

  lemma InsertResponseHeaderValid(db: Db, responseId: int, key: string, value: Option<string>, sortOrder: int)
    requires Valid(db)
    requires InsertResponseHeader(db, responseId, key, value, sortOrder).Inserted?
    ensures Valid(InsertResponseHeader(db, responseId, key, value, sortOrder).db)
  {
    var r := InsertResponseHeader(db, responseId, key, value, sortOrder).db;
    forall t | t !in r.present ensures Empty(r, t) {
      assert Empty(db, t);
    }
    assert RequestChildrenValid(r);
  }

  lemma InsertEnvironmentValid(db: Db, row: EnvironmentRow)
    requires Valid(db)
    requires InsertEnvironment(db, row).Inserted?
    ensures Valid(InsertEnvironment(db, row).db)
  {
    var r := InsertEnvironment(db, row).db;
    forall t | t !in r.present ensures Empty(r, t) {
      assert Empty(db, t);
    }
  }

  lemma InsertEnvironmentValueValid(db: Db, row: EnvironmentValueRow)
    requires Valid(db)
    requires InsertEnvironmentValue(db, row).Inserted?
    ensures Valid(InsertEnvironmentValue(db, row).db)
  {
    var r := InsertEnvironmentValue(db, row).db;
    forall t | t !in r.present ensures Empty(r, t) {
      assert Empty(db, t);
    }
  }

  lemma DeleteEnvironmentValid(db: Db, id: int)
    requires Valid(db)
    ensures Valid(DeleteEnvironment(db, id))
  {
    var r := DeleteEnvironment(db, id);
    forall t | t !in r.present ensures Empty(r, t) {
      assert Empty(db, t);
    }
  }

  // ---------------------------------------------------------------- cascades

  /** An item is deleted with its collection exactly when it or one of its ancestors belongs to
      the collection; so a surviving item's parent survives too. */
  lemma ParentSurvives(db: Db, c: int, id: int)
    requires Valid(db)
    requires id in db.items.rows && !ItemDead(db.items.rows, c, id)
    ensures db.items.rows[id].collectionId != c
    ensures db.items.rows[id].parentId.Some? ==> !ItemDead(db.items.rows, c, db.items.rows[id].parentId.value)
  {
    assert ItemRowValid(db, id, db.items.rows[id]);
    if db.items.rows[id].parentId.Some? {
      var p := db.items.rows[id].parentId.value;
      assert Issued(db.items);
      assert 1 <= p < id;
    }
  }

  /** Deleting a collection with its cascades keeps every constraint: nothing left behind
      points at a deleted row. */
  lemma DeleteCollectionValid(db: Db, c: int)
    requires Valid(db)
    ensures Valid(DeleteCollection(db, c))
    ensures c !in DeleteCollection(db, c).collections.rows
    ensures forall id :: id in DeleteCollection(db, c).items.rows <==> id in db.items.rows && !ItemDead(db.items.rows, c, id)
    ensures forall id :: id in DeleteCollection(db, c).items.rows ==> DeleteCollection(db, c).items.rows[id].collectionId != c
  {
    var r := DeleteCollection(db, c);
    var items := db.items.rows;
    assert AllIssued(r);
    forall t | t !in r.present ensures Empty(r, t) {
      assert Empty(db, t);
    }
    assert PostmanIdsUnique(r);
    forall id | id in r.items.rows ensures ItemRowValid(r, id, r.items.rows[id]) {
      ParentSurvives(db, c, id);
      assert ItemRowValid(db, id, items[id]);
    }
    forall id | id in r.requests.rows ensures r.requests.rows[id].itemId in r.items.rows {
      assert db.requests.rows[id].itemId in items;
    }
    assert RequestsValid(r);
    assert RequestChildrenValid(r);
    forall id | id in r.variables.rows
      ensures ScopeValid(r, r.variables.rows[id].collectionId, r.variables.rows[id].itemId)
    {
      assert ScopeValid(db, db.variables.rows[id].collectionId, db.variables.rows[id].itemId);
    }
    forall id | id in r.events.rows
      ensures ScopeValid(r, r.events.rows[id].collectionId, r.events.rows[id].itemId) && IsEventType(r.events.rows[id].eventType)
    {
      assert ScopeValid(db, db.events.rows[id].collectionId, db.events.rows[id].itemId);
    }
    assert ScopedValid(r);
    forall id | id in r.items.rows ensures r.items.rows[id].collectionId != c {
      ParentSurvives(db, c, id);
    }
  }

  /** Removing a request's headers and query parameters keeps every constraint. */
  lemma DeleteRequestListsValid(db: Db, requestId: int)
    requires Valid(db)
    ensures Valid(DeleteRequestLists(db, requestId))
  {
    var r := DeleteRequestLists(db, requestId);
    forall t | t !in r.present ensures Empty(r, t) {
      assert Empty(db, t);
    }
    assert RequestChildrenValid(r);
  }

  // ---------------------------------------------------------------- dropping the schema

  /** The position of a schema table in `DropOrder`. */
  function DropRank(t: TableName): int {
    match t
    case ResponseHeaders => 0
    case Responses => 1
    case Events => 2
    case Variables => 3
    case QueryParams => 4
    case Headers => 5
    case Requests => 6
    case Items => 7
    case Collections => 8
    case _ => -1
  }

  /** `dropSchema` drops every table of the schema and nothing else, each exactly once. */
  lemma DropOrderIsSchema()
    ensures forall t :: t in SchemaTables <==> t in DropOrder
    ensures forall t :: t in SchemaTables ==> 0 <= DropRank(t) < |DropOrder| && DropOrder[DropRank(t)] == t
    ensures forall i, j :: 0 <= i < j < |DropOrder| ==> DropOrder[i] != DropOrder[j]
  {
  }

  /** Every table is dropped only after every other table whose foreign keys reference it. */
  lemma DropOrderChildrenFirst()
    ensures forall u, t :: u != t && References(u, t) ==> 0 <= DropRank(u) < DropRank(t)
  {
    forall u, t | u != t && References(u, t) ensures 0 <= DropRank(u) < DropRank(t) {
      match u {
        case Items =>
        case Requests =>
        case Headers =>
        case QueryParams =>
        case Variables =>
        case Events =>
        case Responses =>
        case ResponseHeaders =>
      }
    }
  }

  /** Dropping tables one after the other removes exactly those tables. */
  lemma {:induction false} DropAllPresent(db: Db, ts: seq<TableName>)
    ensures forall t :: t in DropAll(db, ts).present <==> t in db.present && t !in ts
  {
    if ts != [] {
      DropAllPresent(db, ts[..|ts| - 1]);
      forall t ensures t in ts <==> t in ts[..|ts| - 1] || t == ts[|ts| - 1] {
        assert ts == ts[..|ts| - 1] + [ts[|ts| - 1]];
      }
    }
  }

  /** After `dropSchema` no table of the schema exists, the probes of `schemaExists` fail, and
      the environments tables, which the schema does not own, are left as they were. */
  lemma DropSchemaRemovesSchema(db: Db)
    ensures DropAll(db, DropOrder).present == db.present - SchemaTables
    ensures !SchemaExists(DropAll(db, DropOrder))
  {
    DropAllPresent(db, DropOrder);
    var r := DropAll(db, DropOrder);
    DropOrderIsSchema();
  }
}
