/** What the reads of db/CollectionDao.java give back after its writes: the header and query
    lists of a saved or updated request (exactly the keyed entries, in order, with nothing left
    from before), the whole request of `getRequestByItemId`, and the header map of a saved
    response. */
module CollectionRoundTrips {
  import opened Wrappers
  import opened Objects
  import opened Store
  import opened StoreRows
  import opened Sorting
  import opened CollectionWrites
  import opened CollectionReads
  import CollectionWriteProperties

  lemma NoNullsInit<T>(xs: seq<Option<T>>)
    requires NoNulls(xs) && xs != []
    ensures NoNulls(xs[..|xs| - 1])
  {
    var init := xs[..|xs| - 1];
    forall i | 0 <= i < |init| ensures init[i].Some? {
      assert init[i] == xs[i];
    }
  }

  // ---------------------------------------------------------------- headers

  /** The rows the header loop writes for `hs`: one per header with a key, numbered by its
      position in the list (the counter advances past a rejected header too). */
  function HeaderRowsWritten(requestId: int, hs: seq<Option<Header>>): seq<HeaderRow>
    requires NoNulls(hs)
    decreases |hs|
  {
    if hs == [] then []
    else
      NoNullsInit(hs);
      var h := hs[|hs| - 1].value;
      HeaderRowsWritten(requestId, hs[..|hs| - 1])
      + (if h.key.Some? then [HeaderRow(requestId, h.key.value, h.value, DisabledFlag(h), |hs| - 1)] else [])
  }

  /** Starting from no rows for the request, the rows selected afterwards are those written. */
  lemma {:induction false} HeadersSavedRows(db: Db, requestId: int, hs: seq<Option<Header>>)
    requires NoNulls(hs) && Headers in db.present && requestId in db.requests.rows
    requires Rows(db.headers, HeadersOf(requestId)) == []
    ensures Values(Rows(HeadersSaved(db, requestId, hs).headers, HeadersOf(requestId))) == HeaderRowsWritten(requestId, hs)
    decreases |hs|
  {
    if hs != [] {
      var init := hs[..|hs| - 1];
      NoNullsInit(hs);
      HeadersSavedRows(db, requestId, init);
      var d := HeadersSaved(db, requestId, init);
      var h := hs[|hs| - 1].value;
      if h.key.Some? {
        var row := HeaderRow(requestId, h.key.value, h.value, DisabledFlag(h), |hs| - 1);
        RowsAdd(d.headers, row, HeadersOf(requestId));
        ValuesAppend(Rows(d.headers, HeadersOf(requestId)), [(d.headers.last + 1, row)]);
      }
    }
  }

  /** The written rows are numbered in increasing order below the list's length; with every key
      present they are numbered 0 to n-1. */
  lemma {:induction false} HeaderRowsWrittenOrder(requestId: int, hs: seq<Option<Header>>)
    requires NoNulls(hs)
    ensures var r := HeaderRowsWritten(requestId, hs);
            (forall k :: 0 <= k < |r| ==> 0 <= r[k].sortOrder < |hs|) && StrictlySortedBy(r, HeaderSortOrder)
    ensures (forall i :: 0 <= i < |hs| ==> hs[i].value.key.Some?) ==>
              var r := HeaderRowsWritten(requestId, hs);
              |r| == |hs| && forall k :: 0 <= k < |r| ==> r[k].sortOrder == k
    decreases |hs|
  {
    if hs != [] {
      var init := hs[..|hs| - 1];
      NoNullsInit(hs);
      HeaderRowsWrittenOrder(requestId, init);
      if forall i :: 0 <= i < |hs| ==> hs[i].value.key.Some? {
        assert forall i :: 0 <= i < |init| ==> init[i].value.key.Some? by {
          forall i | 0 <= i < |init| ensures init[i].value.key.Some? {
            assert init[i] == hs[i];
          }
        }
      }
    }
  }

  /** A header as `getHeaders` reads it back: key and value kept, the type dropped, `disabled`
      definite (true only for a header disabled explicitly). */
  function HeaderAsRead(h: Header): Header {
    Header(h.key, h.value, None, Some(h.disabled == Some(true)))
  }

  /** The headers read back after saving `hs`: the ones with a key, in list order. */
  function HeadersKept(hs: seq<Option<Header>>): seq<Option<Header>>
    requires NoNulls(hs)
    decreases |hs|
  {
    if hs == [] then []
    else
      NoNullsInit(hs);
      var h := hs[|hs| - 1].value;
      HeadersKept(hs[..|hs| - 1]) + (if h.key.Some? then [Some(HeaderAsRead(h))] else [])
  }

  lemma {:induction false} HeaderRowsRead(requestId: int, hs: seq<Option<Header>>)
    requires NoNulls(hs)
    ensures var r := HeaderRowsWritten(requestId, hs);
            seq(|r|, k requires 0 <= k < |r| => Some(HeaderOfRow(r[k]))) == HeadersKept(hs)
    decreases |hs|
  {
    if hs != [] {
      NoNullsInit(hs);
      HeaderRowsRead(requestId, hs[..|hs| - 1]);
    }
  }

  /** Saving `hs` for a request with no headers and reading them back gives the keyed headers
      of `hs`, in order (CollectionDao.java:268-288 with 641-662). */
  lemma HeadersRoundTrip(db: Db, requestId: int, hs: seq<Option<Header>>)
    requires NoNulls(hs) && Headers in db.present && requestId in db.requests.rows
    requires Rows(db.headers, HeadersOf(requestId)) == []
    ensures HeadersRead(HeadersSaved(db, requestId, hs), requestId) == HeadersKept(hs)
  {
    var rows := HeaderRowsWritten(requestId, hs);
    HeadersSavedRows(db, requestId, hs);
    HeaderRowsWrittenOrder(requestId, hs);
    assert SortedBy(rows, HeaderSortOrder);
    SortBySortedInput(rows, HeaderSortOrder);
    HeaderRowsRead(requestId, hs);
  }

  /** A header list whose every header has a key keeps all of them, each as read back. */
  lemma {:induction false} HeadersKeptAllKeyed(hs: seq<Option<Header>>)
    requires NoNulls(hs) && forall i :: 0 <= i < |hs| ==> hs[i].value.key.Some?
    ensures |HeadersKept(hs)| == |hs| && forall k :: 0 <= k < |hs| ==> HeadersKept(hs)[k] == Some(HeaderAsRead(hs[k].value))
    decreases |hs|
  {
    if hs != [] {
      var init := hs[..|hs| - 1];
      NoNullsInit(hs);
      assert forall i :: 0 <= i < |init| ==> init[i] == hs[i];
      HeadersKeptAllKeyed(init);
    }
  }

  /** Fewer headers come back than were saved unless every one has a key. */
  lemma {:induction false} HeadersKeptLength(hs: seq<Option<Header>>)
    requires NoNulls(hs)
    ensures |HeadersKept(hs)| <= |hs|
    ensures |HeadersKept(hs)| == |hs| ==> forall i :: 0 <= i < |hs| ==> hs[i].value.key.Some?
    decreases |hs|
  {
    if hs != [] {
      var init := hs[..|hs| - 1];
      NoNullsInit(hs);
      HeadersKeptLength(init);
      if |HeadersKept(hs)| == |hs| {
        forall i | 0 <= i < |hs| ensures hs[i].value.key.Some? {
          if i < |init| {
            assert hs[i] == init[i];
          }
        }
      }
    }
  }

  /** A header that survives the trip unchanged. */
  predicate StoredHeader(h: Header) {
    h.key.Some? && h.headerType.None? && h.disabled.Some?
  }

  /** A header list reads back as itself exactly when every header has a key, no type and a
      definite `disabled`. */
  lemma HeadersKeptExact(hs: seq<Option<Header>>)
    requires NoNulls(hs)
    ensures HeadersKept(hs) == hs <==> forall i :: 0 <= i < |hs| ==> StoredHeader(hs[i].value)
  {
    if HeadersKept(hs) == hs {
      HeadersKeptNecessary(hs);
    }
    if forall i :: 0 <= i < |hs| ==> StoredHeader(hs[i].value) {
      HeadersKeptSufficient(hs);
    }
  }

  lemma HeadersKeptNecessary(hs: seq<Option<Header>>)
    requires NoNulls(hs) && HeadersKept(hs) == hs
    ensures forall i :: 0 <= i < |hs| ==> StoredHeader(hs[i].value)
  {
    HeadersKeptLength(hs);
    HeadersKeptAllKeyed(hs);
    forall i | 0 <= i < |hs| ensures StoredHeader(hs[i].value) {
      var h := hs[i].value;
      assert HeadersKept(hs)[i] == Some(HeaderAsRead(h));
    }
  }

  lemma {:induction false} HeadersKeptSufficient(hs: seq<Option<Header>>)
    requires NoNulls(hs) && forall i :: 0 <= i < |hs| ==> StoredHeader(hs[i].value)
    ensures HeadersKept(hs) == hs
    decreases |hs|
  {
    if hs != [] {
      var init := hs[..|hs| - 1];
      NoNullsInit(hs);
      assert forall i :: 0 <= i < |init| ==> init[i] == hs[i];
      HeadersKeptSufficient(init);
      var h := hs[|hs| - 1].value;
      assert StoredHeader(h);
      assert (h.disabled == Some(true)) == h.disabled.value;
      assert hs == init + [hs[|hs| - 1]];
    }
  }

  // ---------------------------------------------------------------- query parameters

  /** The rows the query parameter loop writes for `qs`, numbered the same way. */
  function QueryRowsWritten(requestId: int, qs: seq<Option<Query>>): seq<QueryParamRow>
    requires NoNulls(qs)
    decreases |qs|
  {
    if qs == [] then []
    else
      NoNullsInit(qs);
      var q := qs[|qs| - 1].value;
      QueryRowsWritten(requestId, qs[..|qs| - 1])
      + (if q.key.Some? then [QueryParamRow(requestId, q.key.value, q.value, |qs| - 1)] else [])
  }

  lemma {:induction false} QueryParamsSavedRows(db: Db, requestId: int, qs: seq<Option<Query>>)
    requires NoNulls(qs) && QueryParams in db.present && requestId in db.requests.rows
    requires Rows(db.queryParams, QueryParamsOf(requestId)) == []
    ensures Values(Rows(QueryParamsSaved(db, requestId, qs).queryParams, QueryParamsOf(requestId))) == QueryRowsWritten(requestId, qs)
    decreases |qs|
  {
    if qs != [] {
      var init := qs[..|qs| - 1];
      NoNullsInit(qs);
      QueryParamsSavedRows(db, requestId, init);
      var d := QueryParamsSaved(db, requestId, init);
      var q := qs[|qs| - 1].value;
      if q.key.Some? {
        var row := QueryParamRow(requestId, q.key.value, q.value, |qs| - 1);
        RowsAdd(d.queryParams, row, QueryParamsOf(requestId));
        ValuesAppend(Rows(d.queryParams, QueryParamsOf(requestId)), [(d.queryParams.last + 1, row)]);
      }
    }
  }

  lemma {:induction false} QueryRowsWrittenOrder(requestId: int, qs: seq<Option<Query>>)
    requires NoNulls(qs)
    ensures var r := QueryRowsWritten(requestId, qs);
            (forall k :: 0 <= k < |r| ==> 0 <= r[k].sortOrder < |qs|) && StrictlySortedBy(r, QueryParamSortOrder)
    ensures (forall i :: 0 <= i < |qs| ==> qs[i].value.key.Some?) ==>
              var r := QueryRowsWritten(requestId, qs);
              |r| == |qs| && forall k :: 0 <= k < |r| ==> r[k].sortOrder == k
    decreases |qs|
  {
    if qs != [] {
      var init := qs[..|qs| - 1];
      NoNullsInit(qs);
      QueryRowsWrittenOrder(requestId, init);
      if forall i :: 0 <= i < |qs| ==> qs[i].value.key.Some? {
        assert forall i :: 0 <= i < |init| ==> init[i].value.key.Some? by {
          forall i | 0 <= i < |init| ensures init[i].value.key.Some? {
            assert init[i] == qs[i];
          }
        }
      }
    }
  }

  /** The query parameters read back after saving `qs`: the ones with a key, unchanged. */
  function QueriesKept(qs: seq<Option<Query>>): seq<Option<Query>>
    requires NoNulls(qs)
    decreases |qs|
  {
    if qs == [] then []
    else
      NoNullsInit(qs);
      var q := qs[|qs| - 1];
      QueriesKept(qs[..|qs| - 1]) + (if q.value.key.Some? then [q] else [])
  }

  lemma {:induction false} QueryRowsRead(requestId: int, qs: seq<Option<Query>>)
    requires NoNulls(qs)
    ensures var r := QueryRowsWritten(requestId, qs);
            seq(|r|, k requires 0 <= k < |r| => Some(QueryOfRow(r[k]))) == QueriesKept(qs)
    decreases |qs|
  {
    if qs != [] {
      NoNullsInit(qs);
      QueryRowsRead(requestId, qs[..|qs| - 1]);
    }
  }

  /** Saving `qs` for a request with no query parameters and reading them back gives the keyed
      ones of `qs`, in order (CollectionDao.java:290-308 with 667-686). */
  lemma QueriesRoundTrip(db: Db, requestId: int, qs: seq<Option<Query>>)
    requires NoNulls(qs) && QueryParams in db.present && requestId in db.requests.rows
    requires Rows(db.queryParams, QueryParamsOf(requestId)) == []
    ensures QueryParamsRead(QueryParamsSaved(db, requestId, qs), requestId) == QueriesKept(qs)
  {
    var rows := QueryRowsWritten(requestId, qs);
    QueryParamsSavedRows(db, requestId, qs);
    QueryRowsWrittenOrder(requestId, qs);
    assert SortedBy(rows, QueryParamSortOrder);
    SortBySortedInput(rows, QueryParamSortOrder);
    QueryRowsRead(requestId, qs);
  }

  lemma {:induction false} QueriesKeptLength(qs: seq<Option<Query>>)
    requires NoNulls(qs)
    ensures |QueriesKept(qs)| <= |qs|
    ensures |QueriesKept(qs)| == |qs| ==> forall i :: 0 <= i < |qs| ==> qs[i].value.key.Some?
    decreases |qs|
  {
    if qs != [] {
      var init := qs[..|qs| - 1];
      NoNullsInit(qs);
      QueriesKeptLength(init);
      if |QueriesKept(qs)| == |qs| {
        forall i | 0 <= i < |qs| ensures qs[i].value.key.Some? {
          if i < |init| {
            assert qs[i] == init[i];
          }
        }
      }
    }
  }

  lemma {:induction false} QueriesKeptAllKeyed(qs: seq<Option<Query>>)
    requires NoNulls(qs) && forall i :: 0 <= i < |qs| ==> qs[i].value.key.Some?
    ensures QueriesKept(qs) == qs
    decreases |qs|
  {
    if qs != [] {
      var init := qs[..|qs| - 1];
      NoNullsInit(qs);
      assert forall i :: 0 <= i < |init| ==> init[i] == qs[i];
      QueriesKeptAllKeyed(init);
      assert qs == init + [qs[|qs| - 1]];
    }
  }

  /** A query list reads back as itself exactly when every parameter has a key. */
  lemma QueriesKeptExact(qs: seq<Option<Query>>)
    requires NoNulls(qs)
    ensures QueriesKept(qs) == qs <==> forall i :: 0 <= i < |qs| ==> qs[i].value.key.Some?
  {
    QueriesKeptLength(qs);
    if forall i :: 0 <= i < |qs| ==> qs[i].value.key.Some? {
      QueriesKeptAllKeyed(qs);
    }
  }

  // ---------------------------------------------------------------- getRequestByItemId after a write

  /** The URL `getRequestByItemId` gives back for a saved one: the URL itself, its query replaced
      by the keyed parameters when there are any; for no URL, one with only an empty raw text. */
  function UrlAsRead(url: Option<Url>): Url
    requires url.Some? && url.value.query.Some? ==> NoNulls(url.value.query.value)
  {
    if url.None? then EmptyUrl.(raw := Some(""))
    else
      var qs := if url.value.query.Some? then QueriesKept(url.value.query.value) else [];
      if qs != [] then url.value.(query := Some(qs)) else url.value
  }

  /** The request `getRequestByItemId` gives back for a saved one: the method ("" for none), the
      auth as it was, the keyed headers, the body (an empty one for none) and the URL above. */
  function RequestAsRead(request: Request): Request
    requires RequestNoNulls(request)
  {
    Request(Some(request.httpMethod.GetOr("")), request.auth,
            Some(if request.header.Some? then HeadersKept(request.header.value) else []),
            Some(if request.body.Some? then request.body.value else Body(None, None, None)),
            Some(UrlAsRead(request.url)))
  }

  /** The request row of an item, when it is the only one for that item. */
  lemma OnlyRequestOfItem(db: Db, itemId: int, requestId: int)
    requires Issued(db.requests) && requestId in db.requests.rows && db.requests.rows[requestId].itemId == itemId
    requires forall id :: id in db.requests.rows && db.requests.rows[id].itemId == itemId ==> id == requestId
    ensures RequestOfItem(db, itemId) == Some(requestId)
  {
  }

  /** Writing the lists of a request that has none yet and reading them back gives the keyed
      headers and the keyed query parameters. */
  lemma ListsRoundTrip(d: Db, requestId: int, request: Request)
    requires RequestNoNulls(request) && requestId in d.requests.rows
    requires Headers in d.present && QueryParams in d.present
    requires Rows(d.headers, HeadersOf(requestId)) == [] && Rows(d.queryParams, QueryParamsOf(requestId)) == []
    ensures HeadersRead(ListsSaved(d, requestId, request), requestId)
              == if request.header.Some? then HeadersKept(request.header.value) else []
    ensures QueryParamsRead(ListsSaved(d, requestId, request), requestId)
              == if request.url.Some? && request.url.value.query.Some? then QueriesKept(request.url.value.query.value) else []
  {
    var dh := if request.header.Some? then HeadersSaved(d, requestId, request.header.value) else d;
    if request.header.Some? {
      HeadersRoundTrip(d, requestId, request.header.value);
    }
    var r := ListsSaved(d, requestId, request);
    assert HeadersRead(r, requestId) == HeadersRead(dh, requestId) by {
      assert r.headers == dh.headers && r.present == dh.present;
    }
    if request.url.Some? && request.url.value.query.Some? {
      QueriesRoundTrip(dh, requestId, request.url.value.query.value);
    }
  }

  /** The scalar and snapshot part of a written request row, read back. */
  lemma RowRead(itemId: int, request: Request, cols: AuthColumns)
    requires request.auth.None? ==> cols.authType.None?
    ensures var row := RequestColumns(itemId, request, cols);
            row.httpMethod == request.httpMethod.GetOr("")
            && AuthRead(row) == request.auth
            && BodyRead(row) == (if request.body.Some? then request.body.value else Body(None, None, None))
            && UrlRead(row) == (if request.url.None? then EmptyUrl.(raw := Some("")) else request.url.value)
  {
  }

  /** `getRequestByItemId` of an item whose request row is found. */
  lemma RequestReadFound(db: Db, itemId: int, requestId: int)
    requires Requests in db.present && RequestOfItem(db, itemId) == Some(requestId)
    ensures var row := db.requests.rows[requestId];
            var queries := QueryParamsRead(db, requestId);
            RequestRead(db, itemId)
              == Some(Request(Some(row.httpMethod), AuthRead(row), Some(HeadersRead(db, requestId)), Some(BodyRead(row)),
                              Some(if queries != [] then UrlRead(row).(query := Some(queries)) else UrlRead(row))))
  {
  }

  /** Writing the lists of a request whose row is in place and which has none yet, then reading
      the request, gives `RequestAsRead`; the auth columns matter only through their type. */
  lemma ListsSavedRead(d: Db, itemId: int, requestId: int, request: Request, cols: AuthColumns)
    requires RequestNoNulls(request)
    requires Requests in d.present && Headers in d.present && QueryParams in d.present
    requires RequestOfItem(d, itemId) == Some(requestId)
    requires d.requests.rows[requestId] == RequestColumns(itemId, request, cols)
    requires request.auth.None? ==> cols.authType.None?
    requires Rows(d.headers, HeadersOf(requestId)) == [] && Rows(d.queryParams, QueryParamsOf(requestId)) == []
    ensures RequestRead(ListsSaved(d, requestId, request), itemId) == Some(RequestAsRead(request))
  {
    var r := ListsSaved(d, requestId, request);
    ListsRoundTrip(d, requestId, request);
    assert r.requests == d.requests && r.present == d.present;
    assert RequestOfItem(r, itemId) == Some(requestId);
    RequestReadFound(r, itemId, requestId);
    RowRead(itemId, request, cols);
  }

  /** `saveRequest` then `getRequestByItemId` gives `RequestAsRead` of the saved request, for an
      item that had no request yet (CollectionDao.java:179-309 with 495-582). */
  lemma SavedRequestRead(db: Db, itemId: int, request: Request)
    requires Valid(db) && RequestNoNulls(request)
    requires Requests in db.present && Headers in db.present && QueryParams in db.present
    requires itemId in db.items.rows && RequestOfItem(db, itemId).None?
    ensures RequestRead(RequestSaved(db, itemId, request), itemId) == Some(RequestAsRead(request))
  {
    var cols := KeyedAuthColumns(request.auth);
    var ins := InsertRequest(db, RequestColumns(itemId, request, cols));
    var rid := db.requests.last + 1;
    assert ins.Inserted? && ins.id == rid && rid !in db.requests.rows;
    OnlyRequestOfItem(ins.db, itemId, rid);
    forall id | id in ins.db.headers.rows ensures !HeadersOf(rid)(ins.db.headers.rows[id]) {
      assert ins.db.headers.rows[id].requestId in db.requests.rows;
    }
    RowsFromNone(ins.db.headers, HeadersOf(rid), 1);
    forall id | id in ins.db.queryParams.rows ensures !QueryParamsOf(rid)(ins.db.queryParams.rows[id]) {
      assert ins.db.queryParams.rows[id].requestId in db.requests.rows;
    }
    RowsFromNone(ins.db.queryParams, QueryParamsOf(rid), 1);
    ListsSavedRead(ins.db, itemId, rid, request, cols);
  }

  /** A successful `updateRequest` then `getRequestByItemId` gives `RequestAsRead` of the new
      request: nothing of the old headers or query parameters is left (CollectionDao.java:765-935). */
  lemma UpdatedRequestRead(db: Db, itemId: int, request: Request)
    requires Valid(db) && RequestNoNulls(request) && RequestUpdated(db, itemId, request).1
    ensures RequestRead(RequestUpdated(db, itemId, request).0, itemId) == Some(RequestAsRead(request))
  {
    var rid := RequestOfItem(db, itemId).value;
    var cols := PositionalAuthColumns(request.auth);
    var row := RequestColumns(itemId, request, cols);
    var d0 := db.(requests := Table(db.requests.rows[rid := row], db.requests.last));
    CollectionWriteProperties.RequestRowReplaced(db, rid, row);
    var d1 := DeleteRequestLists(d0, rid);
    OnlyRequestOfItem(d1, itemId, rid);
    RowsFromNone(d1.headers, HeadersOf(rid), 1);
    RowsFromNone(d1.queryParams, QueryParamsOf(rid), 1);
    ListsSavedRead(d1, itemId, rid, request, cols);
  }

  /** A request that a save and a read give back unchanged: a method, keyed headers with no type
      and a definite `disabled`, a body, and a URL whose query, if any, is fully keyed. */
  predicate StoredRequest(request: Request) {
    request.httpMethod.Some? && request.body.Some? && request.url.Some?
    && request.header.Some? && NoNulls(request.header.value)
    && (forall i :: 0 <= i < |request.header.value| ==> StoredHeader(request.header.value[i].value))
    && (request.url.value.query.Some? ==>
          NoNulls(request.url.value.query.value)
          && forall i :: 0 <= i < |request.url.value.query.value| ==> request.url.value.query.value[i].value.key.Some?)
  }

  lemma StoredRequestReadsBack(request: Request)
    requires RequestNoNulls(request) && StoredRequest(request)
    ensures RequestAsRead(request) == request
  {
    HeadersKeptSufficient(request.header.value);
    if request.url.value.query.Some? {
      QueriesKeptAllKeyed(request.url.value.query.value);
    }
  }
}
