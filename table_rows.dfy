/** The rows of the request editor's headers and params tables (the components package):
    what populating a table from a list writes into it, and what reading the table hands back. */
module TableRows {
  import opened Wrappers
  import opened JavaText
  import opened Objects

  /** A table row: the key cell and the value cell, each of which may hold null. */
  type Row = (Option<string>, Option<string>)

  function HeaderCells(h: Header): Row {
    (h.key, h.value)
  }

  function QueryCells(q: Query): Row {
    (q.key, q.value)
  }

  /** The rows `populateFromRequest` adds for a list: one per non-null entry with a non-null
      key, in list order, a null value shown as "". */
  function RowsOf<T>(xs: seq<Option<T>>, cells: T -> Row): (r: seq<Row>)
    ensures |r| <= |xs|
    ensures forall i :: 0 <= i < |r| ==> r[i].0.Some? && r[i].1.Some?
  {
    if xs == [] then []
    else
      var x := xs[|xs| - 1];
      RowsOf(xs[..|xs| - 1], cells)
      + (if x.Some? && cells(x.value).0.Some? then [(cells(x.value).0, Some(cells(x.value).1.GetOr("")))] else [])
  }

  /** A pair as the tables hand it out: a non-empty trimmed key and a trimmed value. */
  predicate IsCleanPair(p: (string, string)) {
    p.0 != [] && Trim(p.0) == p.0 && Trim(p.1) == p.1
  }

  predicate AllClean(ps: seq<(string, string)>) {
    forall i :: 0 <= i < |ps| ==> IsCleanPair(ps[i])
  }

  lemma AllCleanSnoc(ps: seq<(string, string)>, p: (string, string))
    requires AllClean(ps) && IsCleanPair(p)
    ensures AllClean(ps + [p])
  {
    forall i | 0 <= i < |ps| + 1
      ensures IsCleanPair((ps + [p])[i])
    {
      if i < |ps| {
        assert (ps + [p])[i] == ps[i];
      }
    }
  }

  lemma CleanPair(k: string, v: string)
    requires Trim(k) != []
    ensures IsCleanPair((Trim(k), Trim(v)))
  {
    TrimIdempotent(k);
    TrimIdempotent(v);
  }

  /** The pair a row yields, if any. */
  function RowPair(row: Row): (r: Option<(string, string)>)
    ensures r.Some? ==> IsCleanPair(r.value)
  {
    if row.0.Some? && Trim(row.0.value) != [] then
      CleanPair(row.0.value, row.1.GetOr(""));
      Some((Trim(row.0.value), Trim(row.1.GetOr(""))))
    else None
  }

  /** The (key, value) pairs `getHeaders`/`getQueryParams` read off the rows: rows whose key is
      non-null and not blank after trimming, key and value trimmed, a null value read as "". */
  function Cleaned(rows: seq<Row>): (r: seq<(string, string)>)
    ensures |r| <= |rows| && AllClean(r)
  {
    if rows == [] then []
    else
      var init := Cleaned(rows[..|rows| - 1]);
      var p := RowPair(rows[|rows| - 1]);
      if p.Some? then
        AllCleanSnoc(init, p.value);
        init + [p.value]
      else init
  }

  lemma CleanedWhole(rows: seq<Row>)
    ensures Cleaned(rows[..|rows|]) == Cleaned(rows)
  {
    assert rows[..|rows|] == rows;
  }

  lemma CleanedSnoc(rows: seq<Row>, i: nat)
    requires i < |rows|
    ensures var p := RowPair(rows[i]);
            Cleaned(rows[..i + 1]) == Cleaned(rows[..i]) + (if p.Some? then [p.value] else [])
  {
    assert rows[..i + 1][..i] == rows[..i];
  }

  /** The list's entries that survive a populate-then-read: non-null, with a key that is not
      blank after trimming; key and value trimmed, a null value read as "". */
  function Kept<T>(xs: seq<Option<T>>, cells: T -> Row): seq<(string, string)> {
    if xs == [] then []
    else
      var x := xs[|xs| - 1];
      Kept(xs[..|xs| - 1], cells)
      + (if x.Some? && cells(x.value).0.Some? && Trim(cells(x.value).0.value) != []
         then [(Trim(cells(x.value).0.value), Trim(cells(x.value).1.GetOr("")))] else [])
  }

  /** Populating a table from a list and reading it back gives exactly the entries with a
      non-blank key, trimmed, in list order. */
  lemma {:induction false} PopulateThenRead<T>(xs: seq<Option<T>>, cells: T -> Row)
    ensures Cleaned(RowsOf(xs, cells)) == Kept(xs, cells)
  {
    if xs != [] {
      var init := xs[..|xs| - 1];
      PopulateThenRead(init, cells);
      var x := xs[|xs| - 1];
      var rs := RowsOf(xs, cells);
      if x.Some? && cells(x.value).0.Some? {
        assert rs[..|rs| - 1] == RowsOf(init, cells);
      } else {
        assert rs == RowsOf(init, cells);
      }
    }
  }

  /** A list whose entries all show exactly the given trimmed pairs populates a table that
      reads back as those pairs: reading is a fixed point of populate-then-read. */
  lemma {:induction false} ReadIsStable<T>(xs: seq<Option<T>>, cells: T -> Row, ps: seq<(string, string)>)
    requires |xs| == |ps|
    requires forall i :: 0 <= i < |xs| ==> xs[i].Some? && cells(xs[i].value) == (Some(ps[i].0), Some(ps[i].1))
    requires AllClean(ps)
    ensures Cleaned(RowsOf(xs, cells)) == ps
  {
    if xs != [] {
      var n := |xs| - 1;
      forall i | 0 <= i < n
        ensures IsCleanPair(ps[..n][i])
      {
        assert ps[..n][i] == ps[i];
      }
      ReadIsStable(xs[..n], cells, ps[..n]);
      var row := (Some(ps[n].0), Some(ps[n].1));
      assert cells(xs[n].value) == row;
      assert RowPair(row) == Some(ps[n]) by {
        assert IsCleanPair(ps[n]);
      }
      var rs := RowsOf(xs, cells);
      assert rs == RowsOf(xs[..n], cells) + [row];
      assert rs[..|rs| - 1] == RowsOf(xs[..n], cells);
      LastSplit(ps);
    }
  }

  lemma LastSplit<X>(s: seq<X>)
    requires s != []
    ensures s == s[..|s| - 1] + [s[|s| - 1]]
  {
  }

  /** `us` is `ps` mapped through `f`, element by element. */
  ghost predicate Mapped<U>(us: seq<U>, ps: seq<(string, string)>, f: ((string, string)) -> U) {
    |us| == |ps| && forall i :: 0 <= i < |ps| ==> us[i] == f(ps[i])
  }

  /** `ps` mapped through `f`, in order. */
  function MapPairs<U>(ps: seq<(string, string)>, f: ((string, string)) -> U): seq<U>
    decreases |ps|
  {
    if ps == [] then [] else MapPairs(ps[..|ps| - 1], f) + [f(ps[|ps| - 1])]
  }

  lemma {:induction false} MapPairsMapped<U>(ps: seq<(string, string)>, f: ((string, string)) -> U)
    ensures Mapped(MapPairs(ps, f), ps, f)
    decreases |ps|
  {
    if ps != [] {
      var init := ps[..|ps| - 1];
      MapPairsMapped(init, f);
      forall i | 0 <= i < |init| ensures init[i] == ps[i] { }
    }
  }

  /** One more row extends the mapped list exactly by the row's pair, if it has one. */
  lemma MapPairsStep<U>(ps: seq<(string, string)>, qs: seq<(string, string)>, o: Option<(string, string)>, f: ((string, string)) -> U)
    requires qs == ps + (if o.Some? then [o.value] else [])
    ensures MapPairs(qs, f) == MapPairs(ps, f) + (if o.Some? then [f(o.value)] else [])
  {
    if o.Some? {
      MapPairsSnoc(ps, o.value, f);
    } else {
      assert qs == ps;
    }
  }

  lemma MapPairsSnoc<U>(ps: seq<(string, string)>, p: (string, string), f: ((string, string)) -> U)
    ensures MapPairs(ps + [p], f) == MapPairs(ps, f) + [f(p)]
  {
    var qs := ps + [p];
    assert qs[..|qs| - 1] == ps;
  }

  /** The list a table reader builds row by row: `f` of the pair of each row that yields one. */
  function ReadRows<U>(rows: seq<Row>, f: ((string, string)) -> U): seq<U>
  {
    if rows == [] then []
    else
      var p := RowPair(rows[|rows| - 1]);
      ReadRows(rows[..|rows| - 1], f) + (if p.Some? then [f(p.value)] else [])
  }

  lemma ReadRowsSnoc<U>(rows: seq<Row>, i: nat, f: ((string, string)) -> U)
    requires i < |rows|
    ensures var p := RowPair(rows[i]);
            ReadRows(rows[..i + 1], f) == ReadRows(rows[..i], f) + (if p.Some? then [f(p.value)] else [])
  {
    assert rows[..i + 1][..i] == rows[..i];
  }

  /** Reading row by row maps the cleaned pairs, in order. */
  lemma {:induction false} ReadRowsMapsCleaned<U>(rows: seq<Row>, f: ((string, string)) -> U)
    ensures ReadRows(rows, f) == MapPairs(Cleaned(rows), f)
  {
    if rows != [] {
      var n := |rows| - 1;
      ReadRowsMapsCleaned(rows[..n], f);
      CleanedSnoc(rows, n);
      CleanedWhole(rows);
      MapPairsStep(Cleaned(rows[..n]), Cleaned(rows), RowPair(rows[n]), f);
    }
  }

  /** The header object `getHeaders` makes for one pair: enabled, no type. */
  function HeaderOf(p: (string, string)): Header {
    Header(Some(p.0), Some(p.1), None, Some(false))
  }

  function QueryOf(p: (string, string)): Query {
    Query(Some(p.0), Some(p.1))
  }

  function HeaderList(r: Option<Request>): Option<seq<Option<Header>>> {
    if r.Some? then r.value.header else None
  }

  function QueryList(r: Option<Request>): Option<seq<Option<Query>>> {
    if r.Some? && r.value.url.Some? then r.value.url.value.query else None
  }

  /** The headers table after `populateFromRequest`. */
  function HeaderRows(r: Option<Request>): seq<Row> {
    var hs := HeaderList(r);
    if hs.None? then [] else RowsOf(hs.value, HeaderCells)
  }

  /** The params table after `populateFromRequest`. */
  function QueryRows(r: Option<Request>): seq<Row> {
    var qs := QueryList(r);
    if qs.None? then [] else RowsOf(qs.value, QueryCells)
  }
}
