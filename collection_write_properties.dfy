/** What the writes of db/CollectionDao.java guarantee: each keeps the schema's constraints, an
    import never removes or rewrites a row it did not create (apart from the collection it
    replaces), item variables end up collection-scoped and item events are never written. */
module CollectionWriteProperties {
  import opened Wrappers
  import opened Objects
  import opened Store
  import opened StoreProperties
  import opened CollectionWrites
  import opened StoreRows
  import opened StringMaps
  import opened CollectionReads
  import Responses
  import JavaText

  /** Every row of `a` is still in `b`, unchanged. */
  predicate Grows<R(==)>(a: Table<R>, b: Table<R>) {
    forall id :: id in a.rows ==> id in b.rows && b.rows[id] == a.rows[id]
  }

  /** Every item-scoped variable row of `b` was already in `a`. */
  predicate NoNewItemVariables(a: Table<VariableRow>, b: Table<VariableRow>) {
    forall id :: id in b.rows && b.rows[id].itemId.Some? ==> id in a.rows && a.rows[id] == b.rows[id]
  }

  /** The id counters of the tables an item save inserts into are ahead of their rows. */
  predicate ItemTablesIssued(db: Db) {
    Issued(db.items) && Issued(db.requests) && Issued(db.variables)
  }

  /** What saving an item leaves alone: the tables, the collections and the events as they
      were, item and request rows only added, no item-scoped variable added. */
  predicate ItemFrame(db: Db, r: Db) {
    ItemTablesIssued(r) && r.present == db.present && r.collections == db.collections && r.events == db.events
    && Grows(db.items, r.items) && Grows(db.requests, r.requests) && NoNewItemVariables(db.variables, r.variables)
  }

  lemma ItemFrameTrans(a: Db, b: Db, c: Db)
    requires ItemFrame(a, b) && ItemFrame(b, c)
    ensures ItemFrame(a, c)
  {
  }

  lemma NoNewItemVariablesTrans(a: Table<VariableRow>, b: Table<VariableRow>, c: Table<VariableRow>)
    requires NoNewItemVariables(a, b) && NoNewItemVariables(b, c)
    ensures NoNewItemVariables(a, c)
  {
  }

  // ---------------------------------------------------------------- the statement loops

  lemma {:induction false} HeadersSavedValid(db: Db, requestId: int, hs: seq<Option<Header>>)
    requires Valid(db) && NoNulls(hs)
    ensures Valid(HeadersSaved(db, requestId, hs))
    decreases |hs|
  {
    if hs != [] {
      var init := hs[..|hs| - 1];
      assert NoNulls(init) by {
        forall i | 0 <= i < |init| ensures init[i].Some? {
          assert init[i] == hs[i];
        }
      }
      HeadersSavedValid(db, requestId, init);
      var d := HeadersSaved(db, requestId, init);
      var h := hs[|hs| - 1].value;
      if InsertHeader(d, requestId, h.key, h.value, DisabledFlag(h), |hs| - 1).Inserted? {
        InsertHeaderValid(d, requestId, h.key, h.value, DisabledFlag(h), |hs| - 1);
      }
    }
  }

  lemma {:induction false} QueryParamsSavedValid(db: Db, requestId: int, qs: seq<Option<Query>>)
    requires Valid(db) && NoNulls(qs)
    ensures Valid(QueryParamsSaved(db, requestId, qs))
    decreases |qs|
  {
    if qs != [] {
      var init := qs[..|qs| - 1];
      assert NoNulls(init) by {
        forall i | 0 <= i < |init| ensures init[i].Some? {
          assert init[i] == qs[i];
        }
      }
      QueryParamsSavedValid(db, requestId, init);
      var d := QueryParamsSaved(db, requestId, init);
      var q := qs[|qs| - 1].value;
      if InsertQueryParam(d, requestId, q.key, q.value, |qs| - 1).Inserted? {
        InsertQueryParamValid(d, requestId, q.key, q.value, |qs| - 1);
      }
    }
  }

  lemma {:induction false} VariablesSavedValid(db: Db, collectionId: Option<int>, itemId: Option<int>, vs: seq<Variable>)
    requires Valid(db)
    ensures Valid(VariablesSaved(db, collectionId, itemId, vs))
    decreases |vs|
  {
    if vs != [] {
      var init := vs[..|vs| - 1];
      VariablesSavedValid(db, collectionId, itemId, init);
      var d := VariablesSaved(db, collectionId, itemId, init);
      var v := vs[|vs| - 1];
      var owner := Owner(collectionId, itemId);
      var ins := InsertVariable(d, owner.0, owner.1, v.key, v.value, v.varType);
      if ins.Inserted? {
        InsertVariableValid(d, owner.0, owner.1, v.key, v.value, v.varType);
      }
    }
  }

  /** With a collection given, every variable is stored collection-scoped (the item id is
      dropped), so no item-scoped row appears. */
  lemma {:induction false} VariablesSavedCollectionScoped(db: Db, collectionId: Option<int>, itemId: Option<int>, vs: seq<Variable>)
    requires Issued(db.variables) && collectionId.Some?
    ensures Issued(VariablesSaved(db, collectionId, itemId, vs).variables)
    ensures NoNewItemVariables(db.variables, VariablesSaved(db, collectionId, itemId, vs).variables)
    decreases |vs|
  {
    if vs != [] {
      var init := vs[..|vs| - 1];
      VariablesSavedCollectionScoped(db, collectionId, itemId, init);
    }
  }

  lemma {:induction false} EventsSavedValid(db: Db, collectionId: Option<int>, itemId: Option<int>, es: seq<Event>)
    requires Valid(db)
    ensures Valid(EventsSaved(db, collectionId, itemId, es))
    decreases |es|
  {
    if es != [] {
      var init := es[..|es| - 1];
      EventsSavedValid(db, collectionId, itemId, init);
      var d := EventsSaved(db, collectionId, itemId, init);
      var e := es[|es| - 1];
      var owner := Owner(collectionId, itemId);
      var st := if e.script.Some? then e.script.value.scriptType else None;
      if InsertEvent(d, owner.0, owner.1, e.listen, st, ScriptExec(e), Encoded(e)).Inserted? {
        InsertEventValid(d, owner.0, owner.1, e.listen, st, ScriptExec(e), Encoded(e));
      }
    }
  }

  lemma {:induction false} ResponseHeadersSavedValid(db: Db, responseId: int, h: Responses.HeaderLists, order: seq<string>)
    requires Valid(db) && forall i :: 0 <= i < |order| ==> order[i] in h
    ensures Valid(ResponseHeadersSaved(db, responseId, h, order))
    decreases |order|
  {
    if order != [] {
      var init := order[..|order| - 1];
      ResponseHeadersSavedValid(db, responseId, h, init);
      var d := ResponseHeadersSaved(db, responseId, h, init);
      var k := order[|order| - 1];
      if InsertResponseHeader(d, responseId, k, Some(JavaText.Join(h[k], ", ")), |order| - 1).Inserted? {
        InsertResponseHeaderValid(d, responseId, k, Some(JavaText.Join(h[k], ", ")), |order| - 1);
      }
    }
  }

  // ---------------------------------------------------------------- requests and items

  /** `saveRequest` keeps the constraints. */
  lemma RequestSavedValid(db: Db, itemId: int, request: Request)
    requires Valid(db) && RequestNoNulls(request)
    ensures Valid(RequestSaved(db, itemId, request))
  {
    var ins := InsertRequest(db, RequestColumns(itemId, request, KeyedAuthColumns(request.auth)));
    if ins.Inserted? {
      InsertRequestValid(db, RequestColumns(itemId, request, KeyedAuthColumns(request.auth)));
      var d := if request.header.Some? then HeadersSaved(ins.db, ins.id, request.header.value) else ins.db;
      if request.header.Some? {
        HeadersSavedValid(ins.db, ins.id, request.header.value);
      }
      if request.url.Some? && request.url.value.query.Some? {
        QueryParamsSavedValid(d, ins.id, request.url.value.query.value);
      }
    }
  }

  /** `saveRequest` only adds a request row, for `itemId`, and only when the item has none. */
  lemma RequestSavedFrame(db: Db, itemId: int, request: Request)
    requires ItemTablesIssued(db) && RequestNoNulls(request)
    ensures ItemFrame(db, RequestSaved(db, itemId, request))
    ensures var r := RequestSaved(db, itemId, request);
            (Requests in db.present && itemId in db.items.rows && RequestOfItem(db, itemId).None? ==>
                  db.requests.last + 1 in r.requests.rows && r.requests.rows[db.requests.last + 1].itemId == itemId)
  {
  }

  /** Saving an item, and the first `n` children of an item, keeps the constraints. */
  lemma {:induction false} ItemSavedValid(db: Db, collectionId: int, parentId: Option<int>, item: Item)
    requires Valid(db) && ItemNoNulls(item)
    ensures Valid(ItemSaved(db, collectionId, parentId, item).0)
    decreases item, 1
  {
    var ins := InsertItem(db, collectionId, parentId, item.name, ItemType(item));
    if ins.Inserted? {
      InsertItemValid(db, collectionId, parentId, item.name, ItemType(item));
      var d1 := if item.variable.Some? then VariablesSaved(ins.db, Some(collectionId), Some(ins.id), item.variable.value) else ins.db;
      if item.variable.Some? {
        VariablesSavedValid(ins.db, Some(collectionId), Some(ins.id), item.variable.value);
      }
      var d2 := if item.request.Some? then RequestSaved(d1, ins.id, item.request.value) else d1;
      if item.request.Some? {
        RequestSavedValid(d1, ins.id, item.request.value);
      }
      ChildrenSavedValid(d2, collectionId, ins.id, item, |Children(item)|);
    }
  }

  lemma {:induction false} ChildrenSavedValid(db: Db, collectionId: int, parentId: int, item: Item, n: nat)
    requires Valid(db) && ItemNoNulls(item) && n <= |Children(item)|
    ensures Valid(ChildrenSaved(db, collectionId, parentId, item, n))
    decreases item, 0, n
  {
    if n > 0 {
      ChildrenSavedValid(db, collectionId, parentId, item, n - 1);
      ItemSavedValid(ChildrenSaved(db, collectionId, parentId, item, n - 1), collectionId, Some(parentId), item.item.list[n - 1]);
    }
  }

  lemma {:induction false} ItemsSavedValid(db: Db, collectionId: int, items: seq<Item>, n: nat)
    requires Valid(db) && n <= |items| && forall i :: 0 <= i < |items| ==> ItemNoNulls(items[i])
    ensures Valid(ItemsSaved(db, collectionId, items, n))
  {
    if n > 0 {
      ItemsSavedValid(db, collectionId, items, n - 1);
      ItemSavedValid(ItemsSaved(db, collectionId, items, n - 1), collectionId, None, items[n - 1]);
    }
  }

  /** Saving an item leaves its frame alone: item events are never written, item variables go
      under the collection, and item and request rows are only added. */
  lemma {:induction false} ItemSavedFrame(db: Db, collectionId: int, parentId: Option<int>, item: Item)
    requires ItemTablesIssued(db) && ItemNoNulls(item)
    ensures ItemFrame(db, ItemSaved(db, collectionId, parentId, item).0)
    decreases item, 1
  {
    var ins := InsertItem(db, collectionId, parentId, item.name, ItemType(item));
    if ins.Inserted? {
      assert ItemFrame(db, ins.db);
      var d1 := if item.variable.Some? then VariablesSaved(ins.db, Some(collectionId), Some(ins.id), item.variable.value) else ins.db;
      if item.variable.Some? {
        VariablesSavedCollectionScoped(ins.db, Some(collectionId), Some(ins.id), item.variable.value);
      }
      ItemFrameTrans(db, ins.db, d1);
      var d2 := if item.request.Some? then RequestSaved(d1, ins.id, item.request.value) else d1;
      if item.request.Some? {
        RequestSavedFrame(d1, ins.id, item.request.value);
      }
      ItemFrameTrans(db, d1, d2);
      ChildrenSavedFrame(d2, collectionId, ins.id, item, |Children(item)|);
      ItemFrameTrans(db, d2, ChildrenSaved(d2, collectionId, ins.id, item, |Children(item)|));
    }
  }

  lemma {:induction false} ChildrenSavedFrame(db: Db, collectionId: int, parentId: int, item: Item, n: nat)
    requires ItemTablesIssued(db) && ItemNoNulls(item) && n <= |Children(item)|
    ensures ItemFrame(db, ChildrenSaved(db, collectionId, parentId, item, n))
    decreases item, 0, n
  {
    if n > 0 {
      ChildrenSavedFrame(db, collectionId, parentId, item, n - 1);
      var d := ChildrenSaved(db, collectionId, parentId, item, n - 1);
      ItemSavedFrame(d, collectionId, Some(parentId), item.item.list[n - 1]);
      ItemFrameTrans(db, d, ItemSaved(d, collectionId, Some(parentId), item.item.list[n - 1]).0);
    }
  }

  lemma {:induction false} ItemsSavedFrame(db: Db, collectionId: int, items: seq<Item>, n: nat)
    requires ItemTablesIssued(db) && n <= |items| && forall i :: 0 <= i < |items| ==> ItemNoNulls(items[i])
    ensures ItemFrame(db, ItemsSaved(db, collectionId, items, n))
  {
    if n > 0 {
      ItemsSavedFrame(db, collectionId, items, n - 1);
      var d := ItemsSaved(db, collectionId, items, n - 1);
      ItemSavedFrame(d, collectionId, None, items[n - 1]);
      ItemFrameTrans(db, d, ItemSaved(d, collectionId, None, items[n - 1]).0);
    }
  }

  /** `saveItem` returns -1 exactly when its row is rejected (no items table, a null name, an
      unknown collection or parent); otherwise the new row carries `item_type` "request" exactly
      when the item has a request. */
  lemma ItemSavedResult(db: Db, collectionId: int, parentId: Option<int>, item: Item)
    requires Valid(db) && ItemNoNulls(item)
    ensures var r := ItemSaved(db, collectionId, parentId, item);
            r.1 == -1 <==> Items !in db.present || item.name.None? || collectionId !in db.collections.rows
                           || (parentId.Some? && parentId.value !in db.items.rows)
    ensures var r := ItemSaved(db, collectionId, parentId, item);
            r.1 != -1 ==> r.1 !in db.items.rows && r.1 in r.0.items.rows
                          && r.0.items.rows[r.1] == ItemRow(collectionId, parentId, item.name.value, ItemType(item))
                          && (r.0.items.rows[r.1].itemType == "request" <==> item.request.Some?)
  {
    var ins := InsertItem(db, collectionId, parentId, item.name, ItemType(item));
    if ins.Inserted? {
      var d1 := if item.variable.Some? then VariablesSaved(ins.db, Some(collectionId), Some(ins.id), item.variable.value) else ins.db;
      var d2 := if item.request.Some? then RequestSaved(d1, ins.id, item.request.value) else d1;
      if item.variable.Some? {
        VariablesSavedCollectionScoped(ins.db, Some(collectionId), Some(ins.id), item.variable.value);
      }
      if item.request.Some? {
        RequestSavedFrame(d1, ins.id, item.request.value);
      }
      assert ItemTablesIssued(d2) && d2.items == ins.db.items;
      ChildrenSavedFrame(d2, collectionId, ins.id, item, |Children(item)|);
    }
  }

  /** An item saved with a request, into a database with a requests table, has its request. */
  lemma ItemSavedRequest(db: Db, collectionId: int, parentId: Option<int>, item: Item)
    requires Valid(db) && ItemNoNulls(item) && item.request.Some? && Requests in db.present
    ensures var r := ItemSaved(db, collectionId, parentId, item);
            r.1 != -1 ==> RequestOfItem(r.0, r.1).Some?
  {
    var ins := InsertItem(db, collectionId, parentId, item.name, ItemType(item));
    if ins.Inserted? {
      var d1 := if item.variable.Some? then VariablesSaved(ins.db, Some(collectionId), Some(ins.id), item.variable.value) else ins.db;
      if item.variable.Some? {
        VariablesSavedCollectionScoped(ins.db, Some(collectionId), Some(ins.id), item.variable.value);
      }
      assert d1.requests == db.requests && d1.items == ins.db.items;
      assert RequestOfItem(d1, ins.id).None? by {
        assert forall id :: id in d1.requests.rows ==> d1.requests.rows[id].itemId in db.items.rows;
        assert ins.id !in db.items.rows;
      }
      var d2 := RequestSaved(d1, ins.id, item.request.value);
      RequestSavedFrame(d1, ins.id, item.request.value);
      var rid := d1.requests.last + 1;
      ChildrenSavedFrame(d2, collectionId, ins.id, item, |Children(item)|);
      var r := ChildrenSaved(d2, collectionId, ins.id, item, |Children(item)|);
      assert rid in r.requests.rows && r.requests.rows[rid].itemId == ins.id;
    }
  }

  // ---------------------------------------------------------------- saveCollection

  /** What `saveCollection` writes after the collection row keeps the constraints. */
  lemma ContentsSavedValid(db: Db, id: int, c: PostmanCollection)
    requires Valid(db) && CollectionNoNulls(c)
    ensures Valid(ContentsSaved(db, id, c))
  {
    var d1 := if c.variable.Some? then VariablesSaved(db, Some(id), None, c.variable.value) else db;
    if c.variable.Some? {
      VariablesSavedValid(db, Some(id), None, c.variable.value);
    }
    var d2 := if c.event.Some? then EventsSaved(d1, Some(id), None, c.event.value) else d1;
    if c.event.Some? {
      EventsSavedValid(d1, Some(id), None, c.event.value);
    }
    if c.item.Some? {
      ItemsSavedValid(d2, id, c.item.value, |c.item.value|);
    }
  }

  /** ... leaves the collections alone and stores no item-scoped variable. */
  lemma ContentsSavedFrame(db: Db, id: int, c: PostmanCollection)
    requires ItemTablesIssued(db) && CollectionNoNulls(c)
    ensures ContentsSaved(db, id, c).present == db.present && ContentsSaved(db, id, c).collections == db.collections
    ensures NoNewItemVariables(db.variables, ContentsSaved(db, id, c).variables)
  {
    var d1 := if c.variable.Some? then VariablesSaved(db, Some(id), None, c.variable.value) else db;
    if c.variable.Some? {
      VariablesSavedCollectionScoped(db, Some(id), None, c.variable.value);
    }
    var d2 := if c.event.Some? then EventsSaved(d1, Some(id), None, c.event.value) else d1;
    assert ItemTablesIssued(d2) && NoNewItemVariables(db.variables, d2.variables);
    if c.item.Some? {
      ItemsSavedFrame(d2, id, c.item.value, |c.item.value|);
      NoNewItemVariablesTrans(db.variables, d2.variables, ItemsSaved(d2, id, c.item.value, |c.item.value|).variables);
    }
  }

  /** The opening delete keeps the constraints, keeps every other collection and every row it
      does not cascade to, and leaves no collection holding the `postman_id`. */
  lemma ClearedFacts(db: Db, postmanId: Option<string>)
    requires Valid(db)
    ensures var d := Cleared(db, postmanId);
            Valid(d) && d.present == db.present && d.collections.last == db.collections.last
            && CollectionWithPostmanId(d, postmanId).None?
            && (forall id :: id in db.collections.rows && Some(id) != CollectionWithPostmanId(db, postmanId) ==>
                  id in d.collections.rows && d.collections.rows[id] == db.collections.rows[id])
            && (CollectionWithPostmanId(db, postmanId).Some? ==> CollectionWithPostmanId(db, postmanId).value !in d.collections.rows)
            && (forall id :: id in d.collections.rows ==> id in db.collections.rows)
            && (forall id :: id in d.variables.rows ==> id in db.variables.rows && d.variables.rows[id] == db.variables.rows[id])
  {
    var existing := CollectionWithPostmanId(db, postmanId);
    if existing.Some? {
      var d := DeleteCollection(db, existing.value);
      DeleteCollectionValid(db, existing.value);
      assert CollectionWithPostmanId(d, postmanId).None?;
    }
  }

  /** `saveCollection` keeps the constraints and returns -1 exactly when the collections table
      is missing or there is no name to store, and then changes nothing; the failures of nested
      inserts do not affect the result. A saved collection is stored under a new id with the
      imported `postman_id` and the name taken from `info.name` or the file name. */
  lemma CollectionSavedResult(db: Db, c: PostmanCollection, fileName: Option<string>)
    requires Valid(db) && CollectionNoNulls(c)
    ensures Valid(CollectionSaved(db, c, fileName).0)
    ensures CollectionSaved(db, c, fileName).1 == -1 <==> Collections !in db.present || CollectionName(c, fileName).None?
    ensures CollectionSaved(db, c, fileName).1 == -1 ==> CollectionSaved(db, c, fileName).0 == db
    ensures CollectionSaved(db, c, fileName).1 != -1 ==>
              var r := CollectionSaved(db, c, fileName);
              r.1 in r.0.collections.rows && r.1 !in db.collections.rows
              && r.0.collections.rows[r.1].postmanId == PostmanIdOf(c)
              && Some(r.0.collections.rows[r.1].name) == CollectionName(c, fileName)
  {
    var d0 := Cleared(db, PostmanIdOf(c));
    ClearedFacts(db, PostmanIdOf(c));
    var ins := CollectionRowInserted(d0, c, fileName);
    if ins.Inserted? {
      var info := c.info;
      InsertCollectionValid(d0, PostmanIdOf(c), CollectionName(c, fileName),
                            if info.Some? then info.value.schema else None,
                            if info.Some? then info.value.exporterId else None,
                            if info.Some? then info.value.description else None);
      ContentsSavedValid(ins.db, ins.id, c);
      ContentsSavedFrame(ins.db, ins.id, c);
    }
  }

  /** The replace: every collection but the one holding the imported `postman_id` is kept
      unchanged, and that one is gone once the save succeeds. */
  lemma CollectionSavedReplaces(db: Db, c: PostmanCollection, fileName: Option<string>)
    requires Valid(db) && CollectionNoNulls(c)
    ensures var r := CollectionSaved(db, c, fileName).0;
            forall id :: id in db.collections.rows && Some(id) != CollectionWithPostmanId(db, PostmanIdOf(c)) ==>
              id in r.collections.rows && r.collections.rows[id] == db.collections.rows[id]
    ensures var r := CollectionSaved(db, c, fileName);
            CollectionWithPostmanId(db, PostmanIdOf(c)).Some? && r.1 != -1 ==>
              CollectionWithPostmanId(db, PostmanIdOf(c)).value !in r.0.collections.rows
  {
    var d0 := Cleared(db, PostmanIdOf(c));
    ClearedFacts(db, PostmanIdOf(c));
    var ins := CollectionRowInserted(d0, c, fileName);
    if ins.Inserted? {
      ContentsSavedFrame(ins.db, ins.id, c);
    }
  }

  /** A null `postman_id` matches no row: a successful save keeps every collection and adds one. */
  lemma NullPostmanIdAdds(db: Db, c: PostmanCollection, fileName: Option<string>)
    requires Valid(db) && CollectionNoNulls(c) && PostmanIdOf(c).None?
    requires Collections in db.present && CollectionName(c, fileName).Some?
    ensures var r := CollectionSaved(db, c, fileName);
            r.1 != -1 && r.1 !in db.collections.rows && r.1 in r.0.collections.rows
            && forall id :: id in db.collections.rows ==> id in r.0.collections.rows && r.0.collections.rows[id] == db.collections.rows[id]
  {
    CollectionSavedResult(db, c, fileName);
    CollectionSavedReplaces(db, c, fileName);
  }

  /** Item variables are stored under the collection, so `getItemVariables` finds nothing for
      any item the save created. */
  lemma ImportedItemsHaveNoVariables(db: Db, c: PostmanCollection, fileName: Option<string>, itemId: int)
    requires Valid(db) && CollectionNoNulls(c) && itemId !in db.items.rows
    ensures ItemVariables(CollectionSaved(db, c, fileName).0, itemId) == map[]
  {
    var r := CollectionSaved(db, c, fileName).0;
    SavedAddsNoItemVariables(db, c, fileName);
    NoItemVariablesFor(db, r, itemId);
  }

  /** The save adds no variable row that belongs to an item. */
  lemma SavedAddsNoItemVariables(db: Db, c: PostmanCollection, fileName: Option<string>)
    requires Valid(db) && CollectionNoNulls(c)
    ensures NoNewItemVariables(db.variables, CollectionSaved(db, c, fileName).0.variables)
  {
    var d0 := Cleared(db, PostmanIdOf(c));
    ClearedFacts(db, PostmanIdOf(c));
    var ins := CollectionRowInserted(d0, c, fileName);
    if ins.Inserted? {
      assert ItemTablesIssued(ins.db);
      ContentsSavedFrame(ins.db, ins.id, c);
    }
  }

  /** With no item variable beyond those of `db`, an item absent from `db` has none. */
  lemma NoItemVariablesFor(db: Db, r: Db, itemId: int)
    requires Valid(db) && itemId !in db.items.rows && NoNewItemVariables(db.variables, r.variables)
    ensures ItemVariables(r, itemId) == map[]
  {
    var p := VariablesOfItem(itemId);
    forall id | id in r.variables.rows ensures !p(r.variables.rows[id]) {
      var v := r.variables.rows[id];
      if v.itemId.Some? {
        assert ScopeValid(db, db.variables.rows[id].collectionId, db.variables.rows[id].itemId);
      }
    }
    RowsFromNone(r.variables, p, 1);
  }

  // ---------------------------------------------------------------- updateRequest, createNewRequest, saveResponse

  /** Rewriting a request row in place under the same item keeps the constraints. */
  lemma RequestRowReplaced(db: Db, requestId: int, row: RequestRow)
    requires Valid(db) && requestId in db.requests.rows && db.requests.rows[requestId].itemId == row.itemId
    ensures Valid(db.(requests := Table(db.requests.rows[requestId := row], db.requests.last)))
  {
    var r := db.(requests := Table(db.requests.rows[requestId := row], db.requests.last));
    forall t | t !in r.present ensures Empty(r, t) {
      assert Empty(db, t);
    }
    assert RequestsValid(r);
  }

  /** `updateRequest` (CollectionDao.java:765-935) keeps the constraints; it returns
      false, with nothing changed, exactly when the item has no request (or a table it touches is
      missing). */
  lemma RequestUpdatedResult(db: Db, itemId: int, request: Request)
    requires Valid(db) && RequestNoNulls(request)
    ensures Valid(RequestUpdated(db, itemId, request).0)
    ensures !RequestUpdated(db, itemId, request).1 <==>
              Requests !in db.present || Headers !in db.present || QueryParams !in db.present || RequestOfItem(db, itemId).None?
    ensures !RequestUpdated(db, itemId, request).1 ==> RequestUpdated(db, itemId, request).0 == db
  {
    if Requests in db.present && Headers in db.present && QueryParams in db.present && RequestOfItem(db, itemId).Some? {
      var rid := RequestOfItem(db, itemId).value;
      var row := RequestColumns(itemId, request, PositionalAuthColumns(request.auth));
      var d0 := db.(requests := Table(db.requests.rows[rid := row], db.requests.last));
      RequestRowReplaced(db, rid, row);
      DeleteRequestListsValid(d0, rid);
      var d1 := DeleteRequestLists(d0, rid);
      var d2 := if request.header.Some? then HeadersSaved(d1, rid, request.header.value) else d1;
      if request.header.Some? {
        HeadersSavedValid(d1, rid, request.header.value);
      }
      if request.url.Some? && request.url.value.query.Some? {
        QueryParamsSavedValid(d2, rid, request.url.value.query.value);
      }
    }
  }

  /** `createNewRequest` keeps the constraints and returns -1 exactly when the item row is
      rejected; a new item is a "request" item and, with a requests table, has its request. */
  lemma NewRequestCreatedResult(db: Db, collectionId: int, parentId: Option<int>, name: Option<string>)
    requires Valid(db)
    ensures Valid(NewRequestCreated(db, collectionId, parentId, name).0)
    ensures var r := NewRequestCreated(db, collectionId, parentId, name);
            r.1 == -1 <==> Items !in db.present || name.None? || collectionId !in db.collections.rows
                           || (parentId.Some? && parentId.value !in db.items.rows)
    ensures var r := NewRequestCreated(db, collectionId, parentId, name);
            r.1 != -1 ==> r.1 in r.0.items.rows && r.0.items.rows[r.1].itemType == "request"
                          && (Requests in db.present ==> RequestOfItem(r.0, r.1).Some?)
  {
    var ins := InsertItem(db, collectionId, parentId, name, "request");
    if ins.Inserted? {
      InsertItemValid(db, collectionId, parentId, name, "request");
      RequestSavedValid(ins.db, ins.id, DefaultRequest);
      if Requests in db.present {
        var row := RequestColumns(ins.id, DefaultRequest, KeyedAuthColumns(DefaultRequest.auth));
        assert RequestOfItem(ins.db, ins.id).None? by {
          assert forall id :: id in ins.db.requests.rows ==> ins.db.requests.rows[id].itemId in db.items.rows;
          assert ins.id !in db.items.rows;
        }
        var rq := InsertRequest(ins.db, row);
        assert rq.Inserted?;
        var r := RequestSaved(ins.db, ins.id, DefaultRequest);
        assert rq.id in r.requests.rows && r.requests.rows[rq.id].itemId == ins.id;
      }
    }
  }

  /** `saveResponse` keeps the constraints and returns -1 exactly when the response row is
      rejected: no responses table, or an unknown request. */
  lemma ResponseSavedResult(db: Db, statusCode: int, body: Option<string>, headers: Option<Responses.HeaderLists>,
                            duration: int, requestId: int, order: seq<string>)
    requires Valid(db) && (headers.Some? ==> Enumerates(order, headers.value.Keys))
    ensures Valid(ResponseSaved(db, statusCode, body, headers, duration, requestId, order).0)
    ensures ResponseSaved(db, statusCode, body, headers, duration, requestId, order).1 == -1 <==>
              Store.Responses !in db.present || requestId !in db.requests.rows
  {
    var row := ResponseRow(requestId, statusCode, body, duration,
                           Encoded(ResponseSnapshot(statusCode, body, headers, duration)));
    var ins := InsertResponse(db, row);
    if ins.Inserted? {
      InsertResponseValid(db, row);
      if headers.Some? && headers.value != map[] {
        ResponseHeadersSavedValid(ins.db, ins.id, headers.value, order);
      }
    }
  }
}
