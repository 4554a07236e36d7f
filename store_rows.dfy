/** What an insert or a delete does to the rows a `SELECT ... WHERE` returns. */
module StoreRows {
  import opened Store

  /** The rows of a query result without their ids. */
  function Values<R>(rs: seq<(int, R)>): (r: seq<R>)
    ensures |r| == |rs| && forall k :: 0 <= k < |rs| ==> r[k] == rs[k].1
  {
    seq(|rs|, k requires 0 <= k < |rs| => rs[k].1)
  }

  lemma ValuesAppend<R>(a: seq<(int, R)>, b: seq<(int, R)>)
    ensures Values(a + b) == Values(a) + Values(b)
  {
  }

  /** An inserted row comes last among the rows selected by `p`, and only if it satisfies `p`. */
  lemma {:induction false} RowsFromAdd<R>(t: Table<R>, r: R, p: R -> bool, i: nat)
    requires i <= t.last + 1
    ensures RowsFrom(Add(t, r), p, i) == RowsFrom(t, p, i) + (if p(r) then [(t.last + 1, r)] else [])
    decreases t.last + 1 - i
  {
    var u := Add(t, r);
    if i == t.last + 1 {
      assert RowsFrom(u, p, i + 1) == [];
    } else {
      RowsFromAdd(t, r, p, i + 1);
      assert i in u.rows <==> i in t.rows;
    }
  }

  lemma RowsAdd<R>(t: Table<R>, r: R, p: R -> bool)
    ensures Rows(Add(t, r), p) == Rows(t, p) + (if p(r) then [(t.last + 1, r)] else [])
  {
    RowsFromAdd(t, r, p, 1);
  }

  /** A table with no row satisfying `p` selects nothing. */
  lemma {:induction false} RowsFromNone<R>(t: Table<R>, p: R -> bool, i: nat)
    requires forall id :: id in t.rows ==> !p(t.rows[id])
    ensures RowsFrom(t, p, i) == []
    decreases t.last + 1 - i
  {
    if i <= t.last {
      RowsFromNone(t, p, i + 1);
    }
  }

  /** Two tables that agree on the rows satisfying `p` select the same rows. */
  lemma {:induction false} RowsFromSame<R>(t: Table<R>, u: Table<R>, p: R -> bool, i: nat)
    requires t.last == u.last
    requires forall id :: (id in t.rows && p(t.rows[id])) <==> (id in u.rows && p(u.rows[id]))
    requires forall id :: id in t.rows && p(t.rows[id]) ==> u.rows[id] == t.rows[id]
    ensures RowsFrom(t, p, i) == RowsFrom(u, p, i)
    decreases t.last + 1 - i
  {
    if i <= t.last {
      RowsFromSame(t, u, p, i + 1);
    }
  }

  /** Every matching row with an id from `i` up to the counter is selected. */
  lemma {:induction false} RowsFromComplete<R>(t: Table<R>, p: R -> bool, i: nat, id: int)
    requires i <= id <= t.last && id in t.rows && p(t.rows[id])
    ensures exists k :: 0 <= k < |RowsFrom(t, p, i)| && RowsFrom(t, p, i)[k].0 == id
    decreases t.last + 1 - i
  {
    var r := RowsFrom(t, p, i);
    if i == id {
      assert r[0].0 == id;
    } else {
      RowsFromComplete(t, p, i + 1, id);
      var rest := RowsFrom(t, p, i + 1);
      var k :| 0 <= k < |rest| && rest[k].0 == id;
      if i in t.rows && p(t.rows[i]) {
        assert r[k + 1] == rest[k];
      }
    }
  }

  /** The selected rows come in strictly ascending id order. */
  lemma {:induction false} RowsFromAscending<R>(t: Table<R>, p: R -> bool, i: nat)
    ensures forall a, b :: 0 <= a < b < |RowsFrom(t, p, i)| ==> RowsFrom(t, p, i)[a].0 < RowsFrom(t, p, i)[b].0
    decreases t.last + 1 - i
  {
    if i <= t.last {
      RowsFromAscending(t, p, i + 1);
      var r := RowsFrom(t, p, i);
      var rest := RowsFrom(t, p, i + 1);
      if i in t.rows && p(t.rows[i]) {
        forall a, b | 0 <= a < b < |r| ensures r[a].0 < r[b].0 {
          assert r[b] == rest[b - 1];
          if a > 0 {
            assert r[a] == rest[a - 1];
          }
        }
      }
    }
  }
}
