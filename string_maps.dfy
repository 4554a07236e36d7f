/** String-to-string maps as the client fills them: `put` after `put` in a loop, a later
    key overwriting an earlier one. */
module StringMaps {

  /** The map after `put(k, v)` for every pair of `ps`, first to last. */
  function PutAll(m: map<string, string>, ps: seq<(string, string)>): map<string, string>
    decreases |ps|
  {
    if ps == [] then m
    else
      var last := ps[|ps| - 1];
      PutAll(m, ps[..|ps| - 1])[last.0 := last.1]
  }

  /** One more `put` after the others. */
  lemma PutAllSnoc(m: map<string, string>, ps: seq<(string, string)>, p: (string, string))
    ensures PutAll(m, ps + [p]) == PutAll(m, ps)[p.0 := p.1]
  {
    var qs := ps + [p];
    assert qs[..|qs| - 1] == ps;
  }

  /** A key is present afterwards iff it was present before or some pair puts it. */
  lemma {:induction false} PutAllKeys(m: map<string, string>, ps: seq<(string, string)>, k: string)
    ensures k in PutAll(m, ps) <==> k in m || exists i :: 0 <= i < |ps| && ps[i].0 == k
  {
    if ps != [] {
      var init := ps[..|ps| - 1];
      PutAllKeys(m, init, k);
      if exists i :: 0 <= i < |init| && init[i].0 == k {
        var i :| 0 <= i < |init| && init[i].0 == k;
        assert ps[i].0 == k;
      }
      if exists i :: 0 <= i < |ps| && ps[i].0 == k {
        var i :| 0 <= i < |ps| && ps[i].0 == k;
        if i < |init| {
          assert init[i].0 == k;
        }
      }
    }
  }

  /** The last pair that puts a key decides its value. */
  lemma {:induction false} PutAllLast(m: map<string, string>, ps: seq<(string, string)>, i: nat)
    requires i < |ps|
    requires forall j :: i < j < |ps| ==> ps[j].0 != ps[i].0
    ensures ps[i].0 in PutAll(m, ps) && PutAll(m, ps)[ps[i].0] == ps[i].1
  {
    var init := ps[..|ps| - 1];
    if i < |init| {
      forall j | i < j < |init| ensures init[j].0 != init[i].0 {
        assert init[j] == ps[j];
      }
      PutAllLast(m, init, i);
    }
  }

  /** A key no pair puts keeps its presence and value. */
  lemma {:induction false} PutAllUntouched(m: map<string, string>, ps: seq<(string, string)>, k: string)
    requires forall j :: 0 <= j < |ps| ==> ps[j].0 != k
    ensures k in PutAll(m, ps) <==> k in m
    ensures k in m ==> PutAll(m, ps)[k] == m[k]
  {
    if ps != [] {
      var init := ps[..|ps| - 1];
      forall j | 0 <= j < |init| ensures init[j].0 != k {
        assert init[j] == ps[j];
      }
      PutAllUntouched(m, init, k);
    }
  }

  /** `putAll(other)`: every key of `other` with its value, otherwise the key's old value. */
  function Overlay(m: map<string, string>, other: map<string, string>): (r: map<string, string>)
    ensures r.Keys == m.Keys + other.Keys
    ensures forall k :: k in r ==> r[k] == if k in other then other[k] else m[k]
  {
    m + other
  }

  /** A later overlay wins over an earlier one, whichever way they are grouped. */
  lemma OverlayAssoc(a: map<string, string>, b: map<string, string>, c: map<string, string>)
    ensures Overlay(Overlay(a, b), c) == Overlay(a, Overlay(b, c))
  {
  }

  /** `order` is an iteration order of a map with key set `keys`: every key exactly once. */
  ghost predicate Enumerates(order: seq<string>, keys: set<string>) {
    |order| == |keys|
    && (forall k :: k in keys <==> k in order)
    && forall i, j :: 0 <= i < j < |order| ==> order[i] != order[j]
  }
}
