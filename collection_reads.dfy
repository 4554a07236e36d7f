/** The reads of db/CollectionDao.java: a request with its headers and query parameters
    (`getRequestByItemId`, `reconstructAuth`, `getHeaders`, `getQueryParams`), the headers of a
    stored response (`getResponseHeaders`), and the variables a request sees
    (`getCollectionVariables`, `getItemVariables`, `getAllVariablesForRequest`). Each read takes
    the database it queries; a query on a missing table fails, and its SQLException is caught
    and the partial (empty) result returned. */
module CollectionReads {
  import opened Wrappers
  import opened JavaText
  import opened Objects
  import opened Store
  import opened StoreRows
  import opened Sorting
  import opened StringMaps
  import opened CollectionWrites
  import Responses

  // ---------------------------------------------------------------- auth

  /** A one-credential list for a non-null column, an empty list for a NULL one. */
  function CredentialIfSet(key: string, v: Option<string>): seq<Credential> {
    if v.Some? then [Credential(Some(key), v, None)] else []
  }

  /** `reconstructAuth`: no auth for a NULL type; otherwise the type, and for "basic" or "bearer"
      (in any case) the list of the credentials whose columns are set, keyed by their names. Read
      back with the keyed extraction of `saveRequest`, the lists give the columns again. */
  function ReconstructAuth(cols: AuthColumns): (r: Option<Auth>)
    ensures r.None? <==> cols.authType.None?
    ensures r.Some? ==> r.value.authType == cols.authType
    ensures r.Some? ==> (r.value.basic.Some? <==> IsAuthType(cols.authType, "basic"))
    ensures r.Some? ==> (r.value.bearer.Some? <==> !IsAuthType(cols.authType, "basic") && IsAuthType(cols.authType, "bearer"))
    ensures r.Some? && r.value.basic.Some? ==>
              CredentialValue(r.value.basic.value, "username") == cols.basicUsername
              && CredentialValue(r.value.basic.value, "password") == cols.basicPassword
    ensures r.Some? && r.value.bearer.Some? ==> CredentialValue(r.value.bearer.value, "token") == cols.bearerToken
  {
    if cols.authType.None? then None
    else if IsAuthType(cols.authType, "basic") then
      var basic := CredentialIfSet("username", cols.basicUsername) + CredentialIfSet("password", cols.basicPassword);
      assert cols.basicUsername.Some? ==> basic[0] == Credential(Some("username"), cols.basicUsername, None);
      Some(Auth(cols.authType, Some(basic), None))
    else if IsAuthType(cols.authType, "bearer") then
      Some(Auth(cols.authType, None, Some(CredentialIfSet("token", cols.bearerToken))))
    else Some(Auth(cols.authType, None, None))
  }

  // ---------------------------------------------------------------- headers and query parameters

  /** `WHERE request_id = ?` on headers. */
  function HeadersOf(requestId: int): HeaderRow -> bool {
    (h: HeaderRow) => h.requestId == requestId
  }

  function HeaderSortOrder(h: HeaderRow): int {
    h.sortOrder
  }

  /** `SELECT ... FROM headers WHERE request_id = ? ORDER BY sort_order`: the request's rows by
      sort order, rows with equal sort order in id order; none when the table is missing. */
  function HeaderResult(db: Db, requestId: int): (r: seq<HeaderRow>)
    ensures SortedBy(r, HeaderSortOrder)
  {
    if Headers in db.present then
      var rs := Values(Rows(db.headers, HeadersOf(requestId)));
      SortBySorted(rs, HeaderSortOrder);
      SortBy(rs, HeaderSortOrder)
    else []
  }

  /** The header object of a row: its key and value, no type, and `disabled` read as `== 1`. */
  function HeaderOfRow(h: HeaderRow): Header {
    Header(Some(h.key), h.value, None, Some(h.disabled == 1))
  }

  /** The header list `getHeaders` returns. */
  function HeadersRead(db: Db, requestId: int): seq<Option<Header>> {
    var rs := HeaderResult(db, requestId);
    seq(|rs|, k requires 0 <= k < |rs| => Some(HeaderOfRow(rs[k])))
  }

  /** `getHeaders`: one header per row of the result, in order. */
  method GetHeaders(db: Db, requestId: int) returns (headers: seq<Option<Header>>)
    ensures headers == HeadersRead(db, requestId)
  {
    var rs := HeaderResult(db, requestId);
    headers := [];
    var i := 0;
    while i < |rs|
      invariant 0 <= i <= |rs|
      invariant |headers| == i && forall k :: 0 <= k < i ==> headers[k] == Some(HeaderOfRow(rs[k]))
    {
      headers := headers + [Some(HeaderOfRow(rs[i]))];
      i := i + 1;
    }
  }

  /** `WHERE request_id = ?` on query parameters. */
  function QueryParamsOf(requestId: int): QueryParamRow -> bool {
    (q: QueryParamRow) => q.requestId == requestId
  }

  function QueryParamSortOrder(q: QueryParamRow): int {
    q.sortOrder
  }

  /** `SELECT ... FROM query_params WHERE request_id = ? ORDER BY sort_order`. */
  function QueryParamResult(db: Db, requestId: int): (r: seq<QueryParamRow>)
    ensures SortedBy(r, QueryParamSortOrder)
  {
    if QueryParams in db.present then
      var rs := Values(Rows(db.queryParams, QueryParamsOf(requestId)));
      SortBySorted(rs, QueryParamSortOrder);
      SortBy(rs, QueryParamSortOrder)
    else []
  }

  function QueryOfRow(q: QueryParamRow): Query {
    Query(Some(q.key), q.value)
  }

  /** The query list `getQueryParams` returns. */
  function QueryParamsRead(db: Db, requestId: int): seq<Option<Query>> {
    var rs := QueryParamResult(db, requestId);
    seq(|rs|, k requires 0 <= k < |rs| => Some(QueryOfRow(rs[k])))
  }

  /** `getQueryParams`: one query per row of the result, in order. */
  method GetQueryParams(db: Db, requestId: int) returns (queries: seq<Option<Query>>)
    ensures queries == QueryParamsRead(db, requestId)
  {
    var rs := QueryParamResult(db, requestId);
    queries := [];
    var i := 0;
    while i < |rs|
      invariant 0 <= i <= |rs|
      invariant |queries| == i && forall k :: 0 <= k < i ==> queries[k] == Some(QueryOfRow(rs[k]))
    {
      queries := queries + [Some(QueryOfRow(rs[i]))];
      i := i + 1;
    }
  }

  // ---------------------------------------------------------------- getRequestByItemId

  /** The URL: its snapshot when that is filled and decodes, else a URL built from the raw,
      protocol and port columns. */
  function UrlRead(row: RequestRow): Url {
    if Decoded(row.fullUrlJson).Some? then Decoded(row.fullUrlJson).value
    else EmptyUrl.(raw := Some(row.urlRaw), protocol := row.urlProtocol, port := row.urlPort)
  }

  /** The body: its snapshot, else the mode and raw columns. */
  function BodyRead(row: RequestRow): Body {
    if Decoded(row.fullBodyJson).Some? then Decoded(row.fullBodyJson).value
    else Body(row.bodyMode, row.bodyRaw, None)
  }

  /** The auth: its snapshot, else `reconstructAuth` of the auth columns. */
  function AuthRead(row: RequestRow): Option<Auth> {
    if Decoded(row.fullAuthJson).Some? then Decoded(row.fullAuthJson) else ReconstructAuth(row.auth)
  }

  /** `getRequestByItemId`: no request when the table is missing or the item has none; otherwise
      the method, URL, body and auth of its row, its headers, and its query parameters in place
      of the URL's own query when there are any. */
  function RequestRead(db: Db, itemId: int): Option<Request> {
    if Requests !in db.present || RequestOfItem(db, itemId).None? then None
    else
      var rid := RequestOfItem(db, itemId).value;
      var row := db.requests.rows[rid];
      var url := UrlRead(row);
      var queries := QueryParamsRead(db, rid);
      Some(Request(Some(row.httpMethod), AuthRead(row), Some(HeadersRead(db, rid)), Some(BodyRead(row)),
                   Some(if queries != [] then url.(query := Some(queries)) else url)))
  }

  method GetRequestByItemId(db: Db, itemId: int) returns (r: Option<Request>)
    ensures r == RequestRead(db, itemId)
  {
    if Requests !in db.present {
      return None;
    }
    var found := RequestOfItem(db, itemId);
    if found.None? {
      return None;
    }
    var row := db.requests.rows[found.value];
    var url := UrlRead(row);
    var body := BodyRead(row);
    var auth := AuthRead(row);
    var headers := GetHeaders(db, found.value);
    var queries := GetQueryParams(db, found.value);
    if queries != [] {
      url := url.(query := Some(queries));
    }
    r := Some(Request(Some(row.httpMethod), auth, Some(headers), Some(body), Some(url)));
  }

  // ---------------------------------------------------------------- getResponseHeaders

  /** `WHERE response_id = ?` on response headers. */
  function ResponseHeadersOf(responseId: int): ResponseHeaderRow -> bool {
    (h: ResponseHeaderRow) => h.responseId == responseId
  }

  function ResponseHeaderSortOrder(h: ResponseHeaderRow): int {
    h.sortOrder
  }

  /** `SELECT ... FROM response_headers WHERE response_id = ? ORDER BY sort_order`. */
  function ResponseHeaderResult(db: Db, responseId: int): (r: seq<ResponseHeaderRow>)
    ensures SortedBy(r, ResponseHeaderSortOrder)
  {
    if ResponseHeaders in db.present then
      var rs := Values(Rows(db.responseHeaders, ResponseHeadersOf(responseId)));
      SortBySorted(rs, ResponseHeaderSortOrder);
      SortBy(rs, ResponseHeaderSortOrder)
    else []
  }

  /** Every piece trimmed. */
  function TrimAll(ps: seq<string>): (r: seq<string>)
    ensures |r| == |ps| && forall k :: 0 <= k < |ps| ==> r[k] == Trim(ps[k])
  {
    seq(|ps|, k requires 0 <= k < |ps| => Trim(ps[k]))
  }

  /** The value list of one stored header: a NULL or empty text is the empty list, any other
      text is split at ", " and every piece trimmed. */
  function ReadValues(value: Option<string>): seq<string> {
    if value.Some? && value.value != "" then TrimAll(Split(value.value, ", ")) else []
  }

  /** The splitting loop for one stored value. */
  method SplitValues(value: Option<string>) returns (values: seq<string>)
    ensures values == ReadValues(value)
  {
    values := [];
    if value.Some? && value.value != "" {
      var parts := Split(value.value, ", ");
      var i := 0;
      while i < |parts|
        invariant 0 <= i <= |parts|
        invariant |values| == i && forall k :: 0 <= k < i ==> values[k] == Trim(parts[k])
      {
        values := values + [Trim(parts[i])];
        i := i + 1;
      }
    }
  }

  /** The header map after a `put` for every row of `rows`, first to last. */
  function HeaderListsRead(rows: seq<ResponseHeaderRow>): Responses.HeaderLists
    decreases |rows|
  {
    if rows == [] then map[]
    else
      var last := rows[|rows| - 1];
      HeaderListsRead(rows[..|rows| - 1])[last.key := ReadValues(last.value)]
  }

  lemma HeaderListsReadSnoc(rows: seq<ResponseHeaderRow>, r: ResponseHeaderRow)
    ensures HeaderListsRead(rows + [r]) == HeaderListsRead(rows)[r.key := ReadValues(r.value)]
  {
    assert (rows + [r])[..|rows|] == rows;
  }

  /** `getResponseHeaders`: a `put` per row in sort order, so a later row for a key wins. */
  method GetResponseHeaders(db: Db, responseId: int) returns (headers: Responses.HeaderLists)
    ensures headers == HeaderListsRead(ResponseHeaderResult(db, responseId))
  {
    var rs := ResponseHeaderResult(db, responseId);
    headers := map[];
    var i := 0;
    while i < |rs|
      invariant 0 <= i <= |rs|
      invariant headers == HeaderListsRead(rs[..i])
    {
      assert rs[..i + 1] == rs[..i] + [rs[i]];
      HeaderListsReadSnoc(rs[..i], rs[i]);
      var values := SplitValues(rs[i].value);
      headers := headers[rs[i].key := values];
      i := i + 1;
    }
    assert rs[..i] == rs;
  }

  /** A key is read iff some row has it. */
  lemma {:induction false} HeaderListsReadKeys(rows: seq<ResponseHeaderRow>, k: string)
    ensures k in HeaderListsRead(rows) <==> exists i :: 0 <= i < |rows| && rows[i].key == k
    decreases |rows|
  {
    if rows != [] {
      var init := rows[..|rows| - 1];
      HeaderListsReadKeys(init, k);
      if exists i :: 0 <= i < |init| && init[i].key == k {
        var i :| 0 <= i < |init| && init[i].key == k;
        assert rows[i] == init[i];
      }
      if exists i :: 0 <= i < |rows| && rows[i].key == k {
        var i :| 0 <= i < |rows| && rows[i].key == k;
        if i < |init| {
          assert init[i] == rows[i];
        }
      }
    }
  }

  /** The last row holding a key gives its values. */
  lemma {:induction false} HeaderListsReadLast(rows: seq<ResponseHeaderRow>, i: nat)
    requires i < |rows|
    requires forall j :: i < j < |rows| ==> rows[j].key != rows[i].key
    ensures rows[i].key in HeaderListsRead(rows) && HeaderListsRead(rows)[rows[i].key] == ReadValues(rows[i].value)
    decreases |rows|
  {
    var init := rows[..|rows| - 1];
    if i < |init| {
      forall j | i < j < |init| ensures init[j].key != init[i].key {
        assert init[j] == rows[j];
      }
      HeaderListsReadLast(init, i);
    }
  }

  // ---------------------------------------------------------------- variables

  /** `WHERE collection_id = ?` on variables. */
  function VariablesOfCollection(collectionId: int): VariableRow -> bool {
    (v: VariableRow) => v.collectionId == Some(collectionId)
  }

  /** `WHERE item_id = ?` on variables. */
  function VariablesOfItem(itemId: int): VariableRow -> bool {
    (v: VariableRow) => v.itemId == Some(itemId)
  }

  /** The selected variable rows, in id order (the query has no ORDER BY; SQLite scans by rowid). */
  function VariableResult(db: Db, p: VariableRow -> bool): seq<VariableRow> {
    if Variables in db.present then Values(Rows(db.variables, p)) else []
  }

  /** The `put` of one row: its key, and its value with NULL read as "". */
  function VariablePair(v: VariableRow): (string, string) {
    (v.key, v.value.GetOr(""))
  }

  function VariablePairs(rows: seq<VariableRow>): (r: seq<(string, string)>)
    ensures |r| == |rows| && forall k :: 0 <= k < |rows| ==> r[k] == VariablePair(rows[k])
  {
    seq(|rows|, k requires 0 <= k < |rows| => VariablePair(rows[k]))
  }

  /** The loop shared by both getters: a `put` per row, so the last row with a key wins. The key
      column is NOT NULL, so the null-key test never skips a row. */
  method ReadVariables(rows: seq<VariableRow>) returns (vars: map<string, string>)
    ensures vars == PutAll(map[], VariablePairs(rows))
    ensures forall k :: k in vars <==> exists i :: 0 <= i < |rows| && rows[i].key == k
  {
    vars := map[];
    var i := 0;
    while i < |rows|
      invariant 0 <= i <= |rows|
      invariant vars == PutAll(map[], VariablePairs(rows[..i]))
    {
      assert VariablePairs(rows[..i + 1]) == VariablePairs(rows[..i]) + [VariablePair(rows[i])];
      PutAllSnoc(map[], VariablePairs(rows[..i]), VariablePair(rows[i]));
      vars := vars[rows[i].key := rows[i].value.GetOr("")];
      i := i + 1;
    }
    assert rows[..i] == rows;
    forall k ensures k in vars <==> exists i :: 0 <= i < |rows| && rows[i].key == k {
      PutAllKeys(map[], VariablePairs(rows), k);
      if exists i :: 0 <= i < |rows| && rows[i].key == k {
        var i :| 0 <= i < |rows| && rows[i].key == k;
        assert VariablePairs(rows)[i].0 == k;
      }
    }
  }

  /** `getCollectionVariables`. */
  function CollectionVariables(db: Db, collectionId: int): map<string, string> {
    PutAll(map[], VariablePairs(VariableResult(db, VariablesOfCollection(collectionId))))
  }

  /** `getItemVariables`. */
  function ItemVariables(db: Db, itemId: int): map<string, string> {
    PutAll(map[], VariablePairs(VariableResult(db, VariablesOfItem(itemId))))
  }

  method GetCollectionVariables(db: Db, collectionId: int) returns (vars: map<string, string>)
    ensures vars == CollectionVariables(db, collectionId)
  {
    vars := ReadVariables(VariableResult(db, VariablesOfCollection(collectionId)));
  }

  method GetItemVariables(db: Db, itemId: int) returns (vars: map<string, string>)
    ensures vars == ItemVariables(db, itemId)
  {
    vars := ReadVariables(VariableResult(db, VariablesOfItem(itemId)));
  }

  /** A variable's value is that of the last row (by id) holding its key. */
  lemma VariableValueIsLast(rows: seq<VariableRow>, i: nat)
    requires i < |rows|
    requires forall j :: i < j < |rows| ==> rows[j].key != rows[i].key
    ensures rows[i].key in PutAll(map[], VariablePairs(rows))
    ensures PutAll(map[], VariablePairs(rows))[rows[i].key] == rows[i].value.GetOr("")
  {
    PutAllLast(map[], VariablePairs(rows), i);
  }

  /** What a request sees: the collection's variables when the collection id is positive, then the
      item's variables when the item id is positive, the item's winning on a shared key. */
  function AllVariables(db: Db, collectionId: int, itemId: int): map<string, string> {
    var fromCollection := if collectionId > 0 then CollectionVariables(db, collectionId) else map[];
    var fromItem := if itemId > 0 then ItemVariables(db, itemId) else map[];
    Overlay(Overlay(map[], fromCollection), fromItem)
  }

  /** `getAllVariablesForRequest`. */
  method GetAllVariablesForRequest(db: Db, collectionId: int, itemId: int) returns (vars: map<string, string>)
    ensures vars == AllVariables(db, collectionId, itemId)
    ensures forall k :: k in vars <==>
              (collectionId > 0 && k in CollectionVariables(db, collectionId)) || (itemId > 0 && k in ItemVariables(db, itemId))
    ensures forall k :: k in vars && itemId > 0 && k in ItemVariables(db, itemId) ==> vars[k] == ItemVariables(db, itemId)[k]
    ensures forall k :: k in vars && !(itemId > 0 && k in ItemVariables(db, itemId)) ==>
              collectionId > 0 && k in CollectionVariables(db, collectionId) && vars[k] == CollectionVariables(db, collectionId)[k]
  {
    var fromCollection: map<string, string> := map[];
    if collectionId > 0 {
      fromCollection := GetCollectionVariables(db, collectionId);
    }
    vars := Overlay(map[], fromCollection);
    var fromItem: map<string, string> := map[];
    if itemId > 0 {
      fromItem := GetItemVariables(db, itemId);
    }
    vars := Overlay(vars, fromItem);
  }

  /** `getCollectionIdByItemId`: the item's collection, or -1 when the item or the table is missing. */
  function CollectionIdOfItem(db: Db, itemId: int): (r: int)
    ensures r != -1 ==> Items in db.present && itemId in db.items.rows && db.items.rows[itemId].collectionId == r
    ensures r == -1 ==> Items !in db.present || itemId !in db.items.rows || db.items.rows[itemId].collectionId == -1
  {
    if Items in db.present && itemId in db.items.rows then db.items.rows[itemId].collectionId else -1
  }
}
