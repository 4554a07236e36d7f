/** The writes of db/CollectionDao.java: importing a collection (`saveCollection`, which calls
    `saveItem`, `saveRequest`, `saveVariables` and `saveEvents`), `updateRequest`,
    `createNewRequest` and `saveResponse`. Each write is a function on the database stating the
    statements it issues and what becomes of a failing one, and a method on the shared
    connection that issues them one at a time and is proved to produce that function's result.
    A failing insert inside a loop is caught and skipped, so a save can commit partial data. */
module CollectionWrites {
  import opened Wrappers
  import opened JavaText
  import opened Objects
  import opened Store
  import opened StringMaps
  import Responses

  // ---------------------------------------------------------------- auth columns

  /** The value of the last credential keyed `key`: the loop of `saveRequest` overwrites its
      variable on every match. None when no credential has that key. */
  function CredentialValue(creds: seq<Credential>, key: string): (r: Option<string>)
    ensures (forall k :: 0 <= k < |creds| ==> creds[k].key != Some(key)) ==> r.None?
    ensures forall k :: 0 <= k < |creds| && creds[k].key == Some(key) && IsLastKeyed(creds, key, k) ==> r == creds[k].value
    decreases |creds|
  {
    if creds == [] then None
    else if creds[|creds| - 1].key == Some(key) then creds[|creds| - 1].value
    else
      var init := creds[..|creds| - 1];
      assert forall k :: 0 <= k < |init| && IsLastKeyed(creds, key, k) ==> IsLastKeyed(init, key, k);
      CredentialValue(init, key)
  }

  /** No credential after position `k` has the key. */
  predicate IsLastKeyed(creds: seq<Credential>, key: string, k: int) {
    forall j :: 0 <= j < |creds| && k < j ==> creds[j].key != Some(key)
  }

  /** `"basic".equalsIgnoreCase(t)`: false for a null `t`. */
  predicate IsAuthType(t: Option<string>, name: string) {
    t.Some? && EqualsIgnoreCase(name, t.value)
  }

  /** The auth columns `saveRequest` writes: the auth's own type, and the credentials picked by
      key name from the list that type selects. */
  function KeyedAuthColumns(auth: Option<Auth>): AuthColumns {
    if auth.None? then AuthColumns(None, None, None, None)
    else
      var a := auth.value;
      if IsAuthType(a.authType, "basic") && a.basic.Some? then
        AuthColumns(a.authType, CredentialValue(a.basic.value, "username"), CredentialValue(a.basic.value, "password"), None)
      else if IsAuthType(a.authType, "bearer") && a.bearer.Some? then
        AuthColumns(a.authType, None, None, CredentialValue(a.bearer.value, "token"))
      else AuthColumns(a.authType, None, None, None)
  }

  /** The credential loops of `saveRequest`. */
  method ExtractKeyedAuth(auth: Option<Auth>) returns (cols: AuthColumns)
    ensures cols == KeyedAuthColumns(auth)
  {
    var authType := if auth.Some? then auth.value.authType else None;
    var username: Option<string> := None;
    var password: Option<string> := None;
    var token: Option<string> := None;
    if auth.Some? {
      if IsAuthType(authType, "basic") && auth.value.basic.Some? {
        var creds := auth.value.basic.value;
        var i := 0;
        while i < |creds|
          invariant 0 <= i <= |creds|
          invariant username == CredentialValue(creds[..i], "username")
          invariant password == CredentialValue(creds[..i], "password")
        {
          assert creds[..i + 1][..i] == creds[..i];
          if creds[i].key == Some("username") {
            username := creds[i].value;
          } else if creds[i].key == Some("password") {
            password := creds[i].value;
          }
          i := i + 1;
        }
        assert creds[..i] == creds;
      } else if IsAuthType(authType, "bearer") && auth.value.bearer.Some? {
        var creds := auth.value.bearer.value;
        var i := 0;
        while i < |creds|
          invariant 0 <= i <= |creds|
          invariant token == CredentialValue(creds[..i], "token")
        {
          assert creds[..i + 1][..i] == creds[..i];
          if creds[i].key == Some("token") {
            token := creds[i].value;
          }
          i := i + 1;
        }
        assert creds[..i] == creds;
      }
    }
    cols := AuthColumns(authType, username, password, token);
  }

  /** The auth columns `updateRequest` writes: the type is chosen by which list is non-empty and
      the credentials by position, whatever their keys. */
  function PositionalAuthColumns(auth: Option<Auth>): AuthColumns {
    if auth.Some? && auth.value.basic.Some? && |auth.value.basic.value| > 0 then
      var b := auth.value.basic.value;
      AuthColumns(Some("basic"), b[0].value, if |b| > 1 then b[1].value else None, None)
    else if auth.Some? && auth.value.bearer.Some? && |auth.value.bearer.value| > 0 then
      AuthColumns(Some("bearer"), None, None, auth.value.bearer.value[0].value)
    else AuthColumns(None, None, None, None)
  }

  // ---------------------------------------------------------------- request rows

  /** The request row written for `request`: a null method or raw URL is stored as "", the other
      scalars as they are, and the URL, body and auth as JSON snapshots. */
  function RequestColumns(itemId: int, request: Request, auth: AuthColumns): RequestRow {
    var url := request.url;
    var body := request.body;
    RequestRow(itemId,
               if request.httpMethod.Some? then request.httpMethod.value else "",
               if url.Some? && url.value.raw.Some? then url.value.raw.value else "",
               if url.Some? then url.value.protocol else None,
               if url.Some? then url.value.port else None,
               if body.Some? then body.value.mode else None,
               if body.Some? then body.value.raw else None,
               if body.Some? then body.value.language else None,
               auth, Snap(url), Snap(body), Snap(request.auth))
  }

  /** The header and query lists hold no null element (the loops dereference each one). */
  predicate RequestNoNulls(r: Request) {
    (r.header.Some? ==> NoNulls(r.header.value))
    && (r.url.Some? && r.url.value.query.Some? ==> NoNulls(r.url.value.query.value))
  }

  /** The `disabled` column: 1 only for a header whose flag is true. */
  function DisabledFlag(h: Header): int {
    if h.disabled == Some(true) then 1 else 0
  }

  /** The header loop: one insert per header with its position as `sort_order`; the counter
      advances even when the insert is rejected. */
  function HeadersSaved(db: Db, requestId: int, hs: seq<Option<Header>>): (r: Db)
    requires NoNulls(hs)
    ensures r == db.(headers := r.headers)
    decreases |hs|
  {
    if hs == [] then db
    else
      var d := HeadersSaved(db, requestId, hs[..|hs| - 1]);
      var h := hs[|hs| - 1].value;
      Kept(d, InsertHeader(d, requestId, h.key, h.value, DisabledFlag(h), |hs| - 1))
  }

  /** The query parameter loop, numbered the same way. */
  function QueryParamsSaved(db: Db, requestId: int, qs: seq<Option<Query>>): (r: Db)
    requires NoNulls(qs)
    ensures r == db.(queryParams := r.queryParams)
    decreases |qs|
  {
    if qs == [] then db
    else
      var d := QueryParamsSaved(db, requestId, qs[..|qs| - 1]);
      var q := qs[|qs| - 1].value;
      Kept(d, InsertQueryParam(d, requestId, q.key, q.value, |qs| - 1))
  }

  /** `saveRequest`: the request row, then its headers and query parameters. A rejected request
      row ends the save with nothing written. */
  function RequestSaved(db: Db, itemId: int, request: Request): (r: Db)
    requires RequestNoNulls(request)
    ensures r == db.(requests := r.requests, headers := r.headers, queryParams := r.queryParams)
  {
    var ins := InsertRequest(db, RequestColumns(itemId, request, KeyedAuthColumns(request.auth)));
    if ins.Rejected? then db else ListsSaved(ins.db, ins.id, request)
  }

  /** The header loop, then the query parameter loop, of one request. */
  function ListsSaved(db: Db, requestId: int, request: Request): (r: Db)
    requires RequestNoNulls(request)
    ensures r == db.(headers := r.headers, queryParams := r.queryParams)
  {
    var d := if request.header.Some? then HeadersSaved(db, requestId, request.header.value) else db;
    if request.url.Some? && request.url.value.query.Some? then QueryParamsSaved(d, requestId, request.url.value.query.value)
    else d
  }

  // ---------------------------------------------------------------- variables and events

  /** The owner columns of `saveVariables` and `saveEvents`: the collection whenever it is
      given; the item only otherwise. */
  function Owner(collectionId: Option<int>, itemId: Option<int>): (Option<int>, Option<int>) {
    if collectionId.Some? then (collectionId, None) else (None, itemId)
  }

  /** `saveVariables`: one insert per variable, a rejected one skipped. */
  function VariablesSaved(db: Db, collectionId: Option<int>, itemId: Option<int>, vs: seq<Variable>): (r: Db)
    ensures r == db.(variables := r.variables)
    decreases |vs|
  {
    if vs == [] then db
    else
      var d := VariablesSaved(db, collectionId, itemId, vs[..|vs| - 1]);
      var v := vs[|vs| - 1];
      var owner := Owner(collectionId, itemId);
      Kept(d, InsertVariable(d, owner.0, owner.1, v.key, v.value, v.varType))
  }

  /** `script_exec`: the script's lines joined by newlines, NULL without a script or lines. */
  function ScriptExec(e: Event): Option<string> {
    if e.script.Some? && e.script.value.exec.Some? then Some(Join(e.script.value.exec.value, "\n")) else None
  }

  /** `saveEvents`: one insert per event with `listen` as `event_type`, a rejected one skipped. */
  function EventsSaved(db: Db, collectionId: Option<int>, itemId: Option<int>, es: seq<Event>): (r: Db)
    ensures r == db.(events := r.events)
    decreases |es|
  {
    if es == [] then db
    else
      var d := EventsSaved(db, collectionId, itemId, es[..|es| - 1]);
      var e := es[|es| - 1];
      var owner := Owner(collectionId, itemId);
      Kept(d, InsertEvent(d, owner.0, owner.1, e.listen, if e.script.Some? then e.script.value.scriptType else None,
                          ScriptExec(e), Encoded(e)))
  }

  // ---------------------------------------------------------------- items and collections

  /** `item_type`: "request" when the item carries a request, else "folder". */
  function ItemType(item: Item): string {
    if item.request.Some? then "request" else "folder"
  }

  /** Every request in the item's subtree has lists without null elements. */
  predicate ItemNoNulls(item: Item)
    decreases item
  {
    (item.request.Some? ==> RequestNoNulls(item.request.value))
    && (item.item.ItemList? ==> forall i :: 0 <= i < |item.item.list| ==> ItemNoNulls(item.item.list[i]))
  }

  /** `saveItem`: the item row, its variables (stored under the collection, which is always
      given), its request, then its children under it. A rejected item row skips its whole
      subtree and yields -1. Item events are not written. */
  function ItemSaved(db: Db, collectionId: int, parentId: Option<int>, item: Item): (r: (Db, int))
    requires ItemNoNulls(item)
    decreases item, 1
  {
    var ins := InsertItem(db, collectionId, parentId, item.name, ItemType(item));
    if ins.Rejected? then (db, -1)
    else
      var d1 := if item.variable.Some? then VariablesSaved(ins.db, Some(collectionId), Some(ins.id), item.variable.value) else ins.db;
      var d2 := if item.request.Some? then RequestSaved(d1, ins.id, item.request.value) else d1;
      (ChildrenSaved(d2, collectionId, ins.id, item, |Children(item)|), ins.id)
  }

  /** The first `n` children of `item` saved in order under `parentId`. */
  function ChildrenSaved(db: Db, collectionId: int, parentId: int, item: Item, n: nat): Db
    requires ItemNoNulls(item) && n <= |Children(item)|
    decreases item, 0, n
  {
    if n == 0 then db
    else ItemSaved(ChildrenSaved(db, collectionId, parentId, item, n - 1), collectionId, Some(parentId), item.item.list[n - 1]).0
  }

  /** The first `n` top-level items saved in order with no parent. */
  function ItemsSaved(db: Db, collectionId: int, items: seq<Item>, n: nat): Db
    requires n <= |items| && forall i :: 0 <= i < |items| ==> ItemNoNulls(items[i])
  {
    if n == 0 then db
    else ItemSaved(ItemsSaved(db, collectionId, items, n - 1), collectionId, None, items[n - 1]).0
  }

  predicate CollectionNoNulls(c: PostmanCollection) {
    c.item.Some? ==> forall i :: 0 <= i < |c.item.value| ==> ItemNoNulls(c.item.value[i])
  }

  /** The stored name: `info.name`, or the file name when there is no info or no name. */
  function CollectionName(c: PostmanCollection, fileName: Option<string>): Option<string> {
    if c.info.Some? && c.info.value.name.Some? then c.info.value.name else fileName
  }

  function PostmanIdOf(c: PostmanCollection): Option<string> {
    if c.info.Some? then c.info.value.postmanId else None
  }

  /** `saveCollection` in one transaction: the collection holding the same `postman_id` is
      deleted with everything that cascades from it, the new row inserted, then the collection's
      variables, events and items written. A rejected collection row rolls everything back and
      yields -1; otherwise the result is the new id and the transaction commits. */
  function CollectionSaved(db: Db, c: PostmanCollection, fileName: Option<string>): (r: (Db, int))
    requires CollectionNoNulls(c)
  {
    var ins := CollectionRowInserted(Cleared(db, PostmanIdOf(c)), c, fileName);
    if ins.Rejected? then (db, -1) else (ContentsSaved(ins.db, ins.id, c), ins.id)
  }

  /** The delete that opens `saveCollection`: the collection holding `postmanId`, if any. */
  function Cleared(db: Db, postmanId: Option<string>): Db {
    var existing := CollectionWithPostmanId(db, postmanId);
    if existing.Some? then DeleteCollection(db, existing.value) else db
  }

  /** The collection row's insert, its columns taken from `info` (the name with the file name
      as fallback). */
  function CollectionRowInserted(db: Db, c: PostmanCollection, fileName: Option<string>): Inserted {
    var info := c.info;
    InsertCollection(db, PostmanIdOf(c), CollectionName(c, fileName),
                     if info.Some? then info.value.schema else None,
                     if info.Some? then info.value.exporterId else None,
                     if info.Some? then info.value.description else None)
  }

  /** What `saveCollection` writes after the collection row: its variables, events and items. */
  function ContentsSaved(db: Db, id: int, c: PostmanCollection): Db
    requires CollectionNoNulls(c)
  {
    var d1 := if c.variable.Some? then VariablesSaved(db, Some(id), None, c.variable.value) else db;
    var d2 := if c.event.Some? then EventsSaved(d1, Some(id), None, c.event.value) else d1;
    if c.item.Some? then ItemsSaved(d2, id, c.item.value, |c.item.value|) else d2
  }

  // ---------------------------------------------------------------- updateRequest and createNewRequest

  /** `updateRequest` in one transaction: find the item's request (false when there is none),
      rewrite its row with positional auth columns, delete its headers and query parameters and
      write the new ones. A failing lookup or delete rolls back and yields false. */
  function RequestUpdated(db: Db, itemId: int, request: Request): (r: (Db, bool))
    requires RequestNoNulls(request)
  {
    if Requests !in db.present then (db, false)
    else
      var found := RequestOfItem(db, itemId);
      if found.None? || Headers !in db.present || QueryParams !in db.present then (db, false)
      else
        var rid := found.value;
        var row := RequestColumns(itemId, request, PositionalAuthColumns(request.auth));
        var d1 := DeleteRequestLists(db.(requests := Table(db.requests.rows[rid := row], db.requests.last)), rid);
        (ListsSaved(d1, rid, request), true)
  }

  /** The request `createNewRequest` saves: GET with an empty raw URL. */
  const DefaultRequest := Request(Some("GET"), None, None, None, Some(EmptyUrl.(raw := Some(""))))

  /** `createNewRequest` in one transaction: a "request" item, then its default request. A
      rejected item rolls back and yields -1. */
  function NewRequestCreated(db: Db, collectionId: int, parentId: Option<int>, name: Option<string>): (r: (Db, int))
  {
    var ins := InsertItem(db, collectionId, parentId, name, "request");
    if ins.Rejected? then (db, -1) else (RequestSaved(ins.db, ins.id, DefaultRequest), ins.id)
  }

  // ---------------------------------------------------------------- saveResponse

  /** The response header loop over `order`, the iteration order of the header map: each entry's
      values joined by ", ", numbered from 0, a rejected insert skipped. */
  function ResponseHeadersSaved(db: Db, responseId: int, h: Responses.HeaderLists, order: seq<string>): (r: Db)
    requires forall i :: 0 <= i < |order| ==> order[i] in h
    ensures r == db.(responseHeaders := r.responseHeaders)
    decreases |order|
  {
    if order == [] then db
    else
      var d := ResponseHeadersSaved(db, responseId, h, order[..|order| - 1]);
      var k := order[|order| - 1];
      Kept(d, InsertResponseHeader(d, responseId, k, Some(Join(h[k], ", ")), |order| - 1))
  }

  /** `saveResponse`, outside any transaction: the response row (-1 when it is rejected), then
      the headers of a non-null, non-empty map. */
  function ResponseSaved(db: Db, statusCode: int, body: Option<string>, headers: Option<Responses.HeaderLists>,
                         duration: int, requestId: int, order: seq<string>): (r: (Db, int))
    requires headers.Some? ==> Enumerates(order, headers.value.Keys)
  {
    var row := ResponseRow(requestId, statusCode, body, duration,
                           Encoded(ResponseSnapshot(statusCode, body, headers, duration)));
    var ins := InsertResponse(db, row);
    if ins.Rejected? then (db, -1)
    else if headers.Some? && headers.value != map[] then (ResponseHeadersSaved(ins.db, ins.id, headers.value, order), ins.id)
    else (ins.db, ins.id)
  }

  // ---------------------------------------------------------------- the statements, one at a time

  method SaveHeaders(conn: Connection, requestId: int, hs: seq<Option<Header>>)
    requires NoNulls(hs)
    modifies conn`db
    ensures conn.db == HeadersSaved(old(conn.db), requestId, hs)
  {
    ghost var start := conn.db;
    var sortOrder := 0;
    while sortOrder < |hs|
      invariant 0 <= sortOrder <= |hs|
      invariant conn.db == HeadersSaved(start, requestId, hs[..sortOrder])
    {
      assert hs[..sortOrder + 1][..sortOrder] == hs[..sortOrder];
      var h := hs[sortOrder].value;
      var ins := InsertHeader(conn.db, requestId, h.key, h.value, DisabledFlag(h), sortOrder);
      if ins.Inserted? {
        conn.db := ins.db;
      }
      sortOrder := sortOrder + 1;
    }
    assert hs[..sortOrder] == hs;
  }

  method SaveQueryParams(conn: Connection, requestId: int, qs: seq<Option<Query>>)
    requires NoNulls(qs)
    modifies conn`db
    ensures conn.db == QueryParamsSaved(old(conn.db), requestId, qs)
  {
    ghost var start := conn.db;
    var sortOrder := 0;
    while sortOrder < |qs|
      invariant 0 <= sortOrder <= |qs|
      invariant conn.db == QueryParamsSaved(start, requestId, qs[..sortOrder])
    {
      assert qs[..sortOrder + 1][..sortOrder] == qs[..sortOrder];
      var q := qs[sortOrder].value;
      var ins := InsertQueryParam(conn.db, requestId, q.key, q.value, sortOrder);
      if ins.Inserted? {
        conn.db := ins.db;
      }
      sortOrder := sortOrder + 1;
    }
    assert qs[..sortOrder] == qs;
  }

  method SaveRequest(conn: Connection, itemId: int, request: Request)
    requires RequestNoNulls(request)
    modifies conn`db
    ensures conn.db == RequestSaved(old(conn.db), itemId, request)
  {
    var auth := ExtractKeyedAuth(request.auth);
    var ins := InsertRequest(conn.db, RequestColumns(itemId, request, auth));
    if ins.Rejected? {
      return;
    }
    conn.db := ins.db;
    if request.header.Some? {
      SaveHeaders(conn, ins.id, request.header.value);
    }
    if request.url.Some? && request.url.value.query.Some? {
      SaveQueryParams(conn, ins.id, request.url.value.query.value);
    }
  }

  method SaveVariables(conn: Connection, collectionId: Option<int>, itemId: Option<int>, vs: seq<Variable>)
    modifies conn`db
    ensures conn.db == VariablesSaved(old(conn.db), collectionId, itemId, vs)
  {
    ghost var start := conn.db;
    var owner := Owner(collectionId, itemId);
    var i := 0;
    while i < |vs|
      invariant 0 <= i <= |vs|
      invariant conn.db == VariablesSaved(start, collectionId, itemId, vs[..i])
    {
      assert vs[..i + 1][..i] == vs[..i];
      var ins := InsertVariable(conn.db, owner.0, owner.1, vs[i].key, vs[i].value, vs[i].varType);
      if ins.Inserted? {
        conn.db := ins.db;
      }
      i := i + 1;
    }
    assert vs[..i] == vs;
  }

  method SaveEvents(conn: Connection, collectionId: Option<int>, itemId: Option<int>, es: seq<Event>)
    modifies conn`db
    ensures conn.db == EventsSaved(old(conn.db), collectionId, itemId, es)
  {
    ghost var start := conn.db;
    var owner := Owner(collectionId, itemId);
    var i := 0;
    while i < |es|
      invariant 0 <= i <= |es|
      invariant conn.db == EventsSaved(start, collectionId, itemId, es[..i])
    {
      assert es[..i + 1][..i] == es[..i];
      var e := es[i];
      var scriptType := if e.script.Some? then e.script.value.scriptType else None;
      var ins := InsertEvent(conn.db, owner.0, owner.1, e.listen, scriptType, ScriptExec(e), Encoded(e));
      if ins.Inserted? {
        conn.db := ins.db;
      }
      i := i + 1;
    }
    assert es[..i] == es;
  }

  method SaveItem(conn: Connection, collectionId: int, parentId: Option<int>, item: Item) returns (id: int)
    requires ItemNoNulls(item)
    modifies conn`db
    ensures (conn.db, id) == ItemSaved(old(conn.db), collectionId, parentId, item)
    decreases item
  {
    var ins := InsertItem(conn.db, collectionId, parentId, item.name, ItemType(item));
    if ins.Rejected? {
      return -1;
    }
    conn.db := ins.db;
    id := ins.id;
    if item.variable.Some? {
      SaveVariables(conn, Some(collectionId), Some(id), item.variable.value);
    }
    if item.request.Some? {
      SaveRequest(conn, id, item.request.value);
    }
    ghost var start := conn.db;
    if item.item.ItemList? {
      var children := item.item.list;
      var i := 0;
      while i < |children|
        invariant 0 <= i <= |children|
        invariant conn.db == ChildrenSaved(start, collectionId, id, item, i)
      {
        var _ := SaveItem(conn, collectionId, Some(id), children[i]);
        i := i + 1;
      }
    }
  }

  method SaveCollection(conn: Connection, c: PostmanCollection, fileName: Option<string>) returns (id: int)
    requires CollectionNoNulls(c)
    modifies conn
    ensures (conn.db, id) == CollectionSaved(old(conn.db), c, fileName)
  {
    conn.Begin();
    var info := c.info;
    var postmanId := PostmanIdOf(c);
    var existing := CollectionWithPostmanId(conn.db, postmanId);
    if existing.Some? {
      conn.db := DeleteCollection(conn.db, existing.value);
    }
    var ins := InsertCollection(conn.db, postmanId, CollectionName(c, fileName),
                                if info.Some? then info.value.schema else None,
                                if info.Some? then info.value.exporterId else None,
                                if info.Some? then info.value.description else None);
    if ins.Rejected? {
      conn.Rollback();
      return -1;
    }
    conn.db := ins.db;
    id := ins.id;
    SaveContents(conn, id, c);
  }

  method SaveContents(conn: Connection, id: int, c: PostmanCollection)
    requires CollectionNoNulls(c)
    modifies conn`db
    ensures conn.db == ContentsSaved(old(conn.db), id, c)
  {
    if c.variable.Some? {
      SaveVariables(conn, Some(id), None, c.variable.value);
    }
    if c.event.Some? {
      SaveEvents(conn, Some(id), None, c.event.value);
    }
    if c.item.Some? {
      ghost var start := conn.db;
      var items := c.item.value;
      var i := 0;
      while i < |items|
        invariant 0 <= i <= |items|
        invariant conn.db == ItemsSaved(start, id, items, i)
      {
        var _ := SaveItem(conn, id, None, items[i]);
        i := i + 1;
      }
    }
  }

  method UpdateRequest(conn: Connection, itemId: int, request: Request) returns (ok: bool)
    requires RequestNoNulls(request)
    modifies conn
    ensures (conn.db, ok) == RequestUpdated(old(conn.db), itemId, request)
  {
    conn.Begin();
    if Requests !in conn.db.present {
      conn.Rollback();
      return false;
    }
    var found := RequestOfItem(conn.db, itemId);
    if found.None? {
      conn.Rollback();
      return false;
    }
    var rid := found.value;
    var row := RequestColumns(itemId, request, PositionalAuthColumns(request.auth));
    conn.db := conn.db.(requests := Table(conn.db.requests.rows[rid := row], conn.db.requests.last));
    if Headers !in conn.db.present || QueryParams !in conn.db.present {
      conn.Rollback();
      return false;
    }
    conn.db := DeleteRequestLists(conn.db, rid);
    if request.header.Some? {
      SaveHeaders(conn, rid, request.header.value);
    }
    if request.url.Some? && request.url.value.query.Some? {
      SaveQueryParams(conn, rid, request.url.value.query.value);
    }
    ok := true;
  }

  method CreateNewRequest(conn: Connection, collectionId: int, parentId: Option<int>, name: Option<string>) returns (id: int)
    modifies conn
    ensures (conn.db, id) == NewRequestCreated(old(conn.db), collectionId, parentId, name)
  {
    conn.Begin();
    var ins := InsertItem(conn.db, collectionId, parentId, name, "request");
    if ins.Rejected? {
      conn.Rollback();
      return -1;
    }
    conn.db := ins.db;
    id := ins.id;
    SaveRequest(conn, id, DefaultRequest);
  }

  method SaveResponse(conn: Connection, response: Responses.ApiResponse, requestId: int, order: seq<string>) returns (id: int)
    requires response.headers.Some? ==> Enumerates(order, response.headers.value.Keys)
    modifies conn`db
    ensures (conn.db, id) == ResponseSaved(old(conn.db), response.statusCode, response.body, response.headers,
                                          response.duration, requestId, order)
  {
    var snapshot := ResponseSnapshot(response.statusCode, response.body, response.headers, response.duration);
    var ins := InsertResponse(conn.db, ResponseRow(requestId, response.statusCode, response.body, response.duration,
                                                   Encoded(snapshot)));
    if ins.Rejected? {
      return -1;
    }
    conn.db := ins.db;
    id := ins.id;
    if response.headers.Some? && response.headers.value != map[] {
      var h := response.headers.value;
      ghost var start := conn.db;
      var sortOrder := 0;
      while sortOrder < |order|
        invariant 0 <= sortOrder <= |order|
        invariant conn.db == ResponseHeadersSaved(start, id, h, order[..sortOrder])
      {
        assert order[..sortOrder + 1][..sortOrder] == order[..sortOrder];
        var k := order[sortOrder];
        var hi := InsertResponseHeader(conn.db, id, k, Some(Join(h[k], ", ")), sortOrder);
        if hi.Inserted? {
          conn.db := hi.db;
        }
        sortOrder := sortOrder + 1;
      }
      assert order[..sortOrder] == order;
    }
  }
}
