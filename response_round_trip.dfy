/** The header map of a response saved by `saveResponse` and read back by `getResponseHeaders`
    (db/CollectionDao.java): each key comes back, with its values joined by ", " and split again. */
module ResponseRoundTrip {
  import opened Wrappers
  import opened JavaText
  import opened Store
  import opened StoreRows
  import opened Sorting
  import opened StringMaps
  import opened CollectionWrites
  import opened CollectionReads
  import opened ResponseHeaderValues
  import Responses

  /** The rows the response header loop writes: one per key of `order`, its values joined with
      ", ", numbered by position. */
  function ResponseRowsWritten(responseId: int, h: Responses.HeaderLists, order: seq<string>): (r: seq<ResponseHeaderRow>)
    requires forall i :: 0 <= i < |order| ==> order[i] in h
    ensures |r| == |order|
    ensures forall k :: 0 <= k < |order| ==> r[k] == ResponseHeaderRow(responseId, order[k], Some(Join(h[order[k]], ", ")), k)
  {
    seq(|order|, k requires 0 <= k < |order| => ResponseHeaderRow(responseId, order[k], Some(Join(h[order[k]], ", ")), k))
  }

  /** Starting from no rows for the response, the rows selected afterwards are those written. */
  lemma {:induction false} ResponseHeadersSavedRows(db: Db, responseId: int, h: Responses.HeaderLists, order: seq<string>)
    requires forall i :: 0 <= i < |order| ==> order[i] in h
    requires ResponseHeaders in db.present && responseId in db.responses.rows
    requires Rows(db.responseHeaders, ResponseHeadersOf(responseId)) == []
    ensures Values(Rows(ResponseHeadersSaved(db, responseId, h, order).responseHeaders, ResponseHeadersOf(responseId)))
              == ResponseRowsWritten(responseId, h, order)
    decreases |order|
  {
    if order != [] {
      var init := order[..|order| - 1];
      ResponseHeadersSavedRows(db, responseId, h, init);
      var d := ResponseHeadersSaved(db, responseId, h, init);
      var k := order[|order| - 1];
      var row := ResponseHeaderRow(responseId, k, Some(Join(h[k], ", ")), |order| - 1);
      RowsAdd(d.responseHeaders, row, ResponseHeadersOf(responseId));
      ValuesAppend(Rows(d.responseHeaders, ResponseHeadersOf(responseId)), [(d.responseHeaders.last + 1, row)]);
      ResponseRowsWrittenSnoc(responseId, h, order);
    }
  }

  lemma ResponseRowsWrittenSnoc(responseId: int, h: Responses.HeaderLists, order: seq<string>)
    requires order != [] && forall i :: 0 <= i < |order| ==> order[i] in h
    ensures var k := order[|order| - 1];
            ResponseRowsWritten(responseId, h, order)
              == ResponseRowsWritten(responseId, h, order[..|order| - 1]) + [ResponseHeaderRow(responseId, k, Some(Join(h[k], ", ")), |order| - 1)]
  {
    var init := order[..|order| - 1];
    assert forall i :: 0 <= i < |init| ==> init[i] == order[i];
  }

  /** The header map `getResponseHeaders` gives back for a saved one: every key, its values
      joined with ", " and read back. */
  function HeaderListsAsRead(h: Responses.HeaderLists): (r: Responses.HeaderLists)
    ensures r.Keys == h.Keys
  {
    map k | k in h :: ReadValues(Some(Join(h[k], ", ")))
  }

  /** Reading the written rows, a `put` per row, gives `HeaderListsAsRead`: the keys of `order`
      are distinct, so each row is the last one for its key. */
  lemma WrittenRowsRead(responseId: int, h: Responses.HeaderLists, order: seq<string>)
    requires Enumerates(order, h.Keys)
    ensures HeaderListsRead(ResponseRowsWritten(responseId, h, order)) == HeaderListsAsRead(h)
  {
    var m := HeaderListsRead(ResponseRowsWritten(responseId, h, order));
    forall k ensures k in m <==> k in h {
      WrittenRowKey(responseId, h, order, k);
    }
    forall k | k in h ensures m[k] == HeaderListsAsRead(h)[k] {
      WrittenRowValue(responseId, h, order, k);
    }
  }

  lemma WrittenRowKey(responseId: int, h: Responses.HeaderLists, order: seq<string>, k: string)
    requires Enumerates(order, h.Keys)
    ensures k in HeaderListsRead(ResponseRowsWritten(responseId, h, order)) <==> k in h
  {
    var rows := ResponseRowsWritten(responseId, h, order);
    HeaderListsReadKeys(rows, k);
    if k in h {
      var i :| 0 <= i < |order| && order[i] == k;
      assert rows[i].key == k;
    }
  }

  lemma WrittenRowValue(responseId: int, h: Responses.HeaderLists, order: seq<string>, k: string)
    requires Enumerates(order, h.Keys) && k in h
    ensures var m := HeaderListsRead(ResponseRowsWritten(responseId, h, order));
            k in m && m[k] == ReadValues(Some(Join(h[k], ", ")))
  {
    var rows := ResponseRowsWritten(responseId, h, order);
    var i :| 0 <= i < |order| && order[i] == k;
    assert rows[i].key == k && rows[i].value == Some(Join(h[k], ", "));
    forall j | i < j < |rows| ensures rows[j].key != rows[i].key {
      assert rows[j].key == order[j];
    }
    HeaderListsReadLast(rows, i);
  }

  /** `saveResponse` then `getResponseHeaders` of the new response gives `HeaderListsAsRead` of
      the saved map, and an empty map when none was saved (CollectionDao.java:946-1015 with
      1109-1138). */
  lemma SavedResponseHeadersRead(db: Db, statusCode: int, body: Option<string>, headers: Option<Responses.HeaderLists>,
                                 duration: int, requestId: int, order: seq<string>)
    requires Valid(db) && (headers.Some? ==> Enumerates(order, headers.value.Keys))
    requires ResponseHeaders in db.present
    requires ResponseSaved(db, statusCode, body, headers, duration, requestId, order).1 != -1
    ensures var r := ResponseSaved(db, statusCode, body, headers, duration, requestId, order);
            HeaderListsRead(ResponseHeaderResult(r.0, r.1)) == if headers.Some? then HeaderListsAsRead(headers.value) else map[]
  {
    var row := ResponseRow(requestId, statusCode, body, duration,
                           Encoded(ResponseSnapshot(statusCode, body, headers, duration)));
    var ins := InsertResponse(db, row);
    var id := db.responses.last + 1;
    assert ins.Inserted? && ins.id == id && id !in db.responses.rows;
    forall i | i in ins.db.responseHeaders.rows ensures !ResponseHeadersOf(id)(ins.db.responseHeaders.rows[i]) {
      assert ins.db.responseHeaders.rows[i].responseId in db.responses.rows;
    }
    RowsFromNone(ins.db.responseHeaders, ResponseHeadersOf(id), 1);
    if headers.Some? && headers.value != map[] {
      var rows := ResponseRowsWritten(id, headers.value, order);
      ResponseHeadersSavedRows(ins.db, id, headers.value, order);
      assert SortedBy(rows, ResponseHeaderSortOrder);
      SortBySortedInput(rows, ResponseHeaderSortOrder);
      WrittenRowsRead(id, headers.value, order);
    } else if headers.Some? {
      assert HeaderListsAsRead(headers.value) == map[];
    }
  }

  /** A saved header map reads back as itself exactly when every value list round-trips. */
  lemma HeaderListsAsReadExact(h: Responses.HeaderLists)
    ensures HeaderListsAsRead(h) == h <==> forall k :: k in h ==> RoundTrips(h[k])
  {
    forall k | k in h ensures HeaderListsAsRead(h)[k] == h[k] <==> RoundTrips(h[k]) {
      ValuesRoundTrip(h[k]);
    }
    if forall k :: k in h ==> RoundTrips(h[k]) {
      assert forall k :: k in h ==> HeaderListsAsRead(h)[k] == h[k];
    }
  }
}
