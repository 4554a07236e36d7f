/** The headers and params tables of the request editor (components/HeadersPanel.java and
    components/ParamsPanel.java): each is its rows, filled from a request and read back. */
module TablePanels {
  import opened Wrappers
  import opened JavaText
  import opened Objects
  import opened TableRows

  /** The headers table of the request panel (HeadersPanel.java). */
  class HeadersPanel {
    var rows: seq<Row>

    constructor ()
      ensures rows == []
    {
      rows := [];
    }

    /** Clears the table, then adds one row per non-null header with a non-null key. */
    method PopulateFromRequest(request: Option<Request>)
      modifies this
      ensures rows == HeaderRows(request)
    {
      rows := [];
      if request.None? || request.value.header.None? || request.value.header.value == [] {
        return;
      }
      var hs := request.value.header.value;
      for i := 0 to |hs|
        invariant rows == RowsOf(hs[..i], HeaderCells)
      {
        assert hs[..i + 1][..i] == hs[..i];
        var h := hs[i];
        if h.Some? && h.value.key.Some? {
          rows := rows + [(h.value.key, Some(h.value.value.GetOr("")))];
        }
      }
      assert hs[..|hs|] == hs;
    }

    /** The headers the table holds: rows with a non-blank key, trimmed, enabled. */
    method GetHeaders() returns (headers: seq<Header>)
      ensures headers == MapPairs(Cleaned(rows), HeaderOf)
    {
      headers := [];
      for i := 0 to |rows|
        invariant headers == ReadRows(rows[..i], HeaderOf)
      {
        ReadRowsSnoc(rows, i, HeaderOf);
        // the row's key is non-null and not blank: key and value trimmed, a null value read as ""
        var pair := RowPair(rows[i]);
        if pair.Some? {
          headers := headers + [HeaderOf(pair.value)];
        }
      }
      assert rows[..|rows|] == rows;
      ReadRowsMapsCleaned(rows, HeaderOf);
    }
  }

  /** The query parameter table of the request panel (ParamsPanel.java). */
  class ParamsPanel {
    var rows: seq<Row>

    constructor ()
      ensures rows == []
    {
      rows := [];
    }

    /** Clears the table, then adds one row per non-null parameter with a non-null key. */
    method PopulateFromRequest(request: Option<Request>)
      modifies this
      ensures rows == QueryRows(request)
    {
      rows := [];
      if request.None? || request.value.url.None? {
        return;
      }
      var query := request.value.url.value.query;
      if query.None? || query.value == [] {
        return;
      }
      var qs := query.value;
      for i := 0 to |qs|
        invariant rows == RowsOf(qs[..i], QueryCells)
      {
        assert qs[..i + 1][..i] == qs[..i];
        var q := qs[i];
        if q.Some? && q.value.key.Some? {
          rows := rows + [(q.value.key, Some(q.value.value.GetOr("")))];
        }
      }
      assert qs[..|qs|] == qs;
    }

    /** The parameters the table holds: rows with a non-blank key, trimmed. */
    method GetQueryParams() returns (queries: seq<Query>)
      ensures queries == MapPairs(Cleaned(rows), QueryOf)
    {
      queries := [];
      for i := 0 to |rows|
        invariant queries == ReadRows(rows[..i], QueryOf)
      {
        ReadRowsSnoc(rows, i, QueryOf);
        // the row's key is non-null and not blank: key and value trimmed, a null value read as ""
        var pair := RowPair(rows[i]);
        if pair.Some? {
          queries := queries + [QueryOf(pair.value)];
        }
      }
      assert rows[..|rows|] == rows;
      ReadRowsMapsCleaned(rows, QueryOf);
    }
  }
}
