/** A stable insertion sort by an integer key. It stands for `ORDER BY <column>` over rows read in
    id order and for `List.sort` with an integer comparator (a stable merge sort in the JDK). */
module Sorting {

  predicate SortedBy<T>(xs: seq<T>, key: T -> int) {
    forall i, j :: 0 <= i < j < |xs| ==> key(xs[i]) <= key(xs[j])
  }

  predicate StrictlySortedBy<T>(xs: seq<T>, key: T -> int) {
    forall i, j :: 0 <= i < j < |xs| ==> key(xs[i]) < key(xs[j])
  }

  /** No two elements share a key. */
  predicate DistinctKeys<T>(xs: seq<T>, key: T -> int) {
    forall i, j :: 0 <= i < j < |xs| ==> key(xs[i]) != key(xs[j])
  }

  function Keys<T>(xs: seq<T>, key: T -> int): set<int> {
    set k | 0 <= k < |xs| :: key(xs[k])
  }

  /** `x` placed after every element whose key is not larger. */
  function InsertBy<T>(x: T, ys: seq<T>, key: T -> int): (r: seq<T>)
    ensures multiset(r) == multiset(ys) + multiset{x}
  {
    if ys == [] then [x]
    else if key(x) < key(ys[0]) then [x] + ys
    else
      assert ys == [ys[0]] + ys[1..];
      [ys[0]] + InsertBy(x, ys[1..], key)
  }

  /** An element whose key is at least every key goes at the end. */
  lemma {:induction false} InsertByLast<T>(x: T, ys: seq<T>, key: T -> int)
    requires forall k :: 0 <= k < |ys| ==> key(ys[k]) <= key(x)
    ensures InsertBy(x, ys, key) == ys + [x]
  {
    if ys != [] {
      assert key(ys[0]) <= key(x);
      InsertByLast(x, ys[1..], key);
      assert [ys[0]] + (ys[1..] + [x]) == ys + [x];
    }
  }

  lemma KeysCons<T>(y: T, ys: seq<T>, key: T -> int)
    ensures Keys([y] + ys, key) == {key(y)} + Keys(ys, key)
  {
    var r := [y] + ys;
    forall v | v in Keys(r, key) ensures v in {key(y)} + Keys(ys, key) {
      var k :| 0 <= k < |r| && key(r[k]) == v;
      if k > 0 { assert r[k] == ys[k - 1]; }
    }
    forall v | v in Keys(ys, key) ensures v in Keys(r, key) {
      var k :| 0 <= k < |ys| && key(ys[k]) == v;
      assert r[k + 1] == ys[k];
    }
    assert r[0] == y;
  }

  lemma KeysSnoc<T>(ys: seq<T>, y: T, key: T -> int)
    ensures Keys(ys + [y], key) == Keys(ys, key) + {key(y)}
  {
    var r := ys + [y];
    forall v | v in Keys(r, key) ensures v in Keys(ys, key) + {key(y)} {
      var k :| 0 <= k < |r| && key(r[k]) == v;
      if k < |ys| { assert r[k] == ys[k]; }
    }
    forall v | v in Keys(ys, key) ensures v in Keys(r, key) {
      var k :| 0 <= k < |ys| && key(ys[k]) == v;
      assert r[k] == ys[k];
    }
    assert r[|ys|] == y;
  }

  /** Inserting adds exactly the key of the new element. */
  lemma {:induction false} InsertByKeys<T>(x: T, ys: seq<T>, key: T -> int)
    ensures Keys(InsertBy(x, ys, key), key) == Keys(ys, key) + {key(x)}
  {
    if ys == [] {
      assert [x] == [x] + [];
      KeysCons(x, [], key);
    } else if key(x) < key(ys[0]) {
      KeysCons(x, ys, key);
    } else {
      InsertByKeys(x, ys[1..], key);
      KeysCons(ys[0], InsertBy(x, ys[1..], key), key);
      KeysCons(ys[0], ys[1..], key);
      assert ys == [ys[0]] + ys[1..];
    }
  }

  /** Inserting into a sorted sequence keeps it sorted. */
  lemma {:induction false} InsertBySorted<T>(x: T, ys: seq<T>, key: T -> int)
    requires SortedBy(ys, key)
    ensures SortedBy(InsertBy(x, ys, key), key)
  {
    if ys != [] && key(x) >= key(ys[0]) {
      var rest := InsertBy(x, ys[1..], key);
      InsertBySorted(x, ys[1..], key);
      forall k | 0 <= k < |rest| ensures key(ys[0]) <= key(rest[k]) {
        assert rest[k] in multiset(rest);
        if rest[k] != x {
          assert rest[k] in multiset(ys[1..]);
          var m :| 0 <= m < |ys[1..]| && ys[1..][m] == rest[k];
          assert ys[m + 1] == rest[k];
        }
      }
    }
  }

  /** Inserting a new key into a strictly sorted sequence keeps it strictly sorted. */
  lemma {:induction false} InsertByStrict<T>(x: T, ys: seq<T>, key: T -> int)
    requires StrictlySortedBy(ys, key) && key(x) !in Keys(ys, key)
    ensures StrictlySortedBy(InsertBy(x, ys, key), key)
  {
    if ys != [] && key(x) >= key(ys[0]) {
      assert key(ys[0]) in Keys(ys, key);
      var rest := InsertBy(x, ys[1..], key);
      InsertByKeys(x, ys[1..], key);
      assert Keys(ys[1..], key) <= Keys(ys, key) by {
        forall v | v in Keys(ys[1..], key) ensures v in Keys(ys, key) {
          var k :| 0 <= k < |ys[1..]| && key(ys[1..][k]) == v;
          assert ys[k + 1] == ys[1..][k];
        }
      }
      InsertByStrict(x, ys[1..], key);
      forall k | 0 <= k < |rest| ensures key(ys[0]) < key(rest[k]) {
        assert key(rest[k]) in Keys(rest, key);
        if key(rest[k]) != key(x) {
          assert key(rest[k]) in Keys(ys[1..], key);
          var m :| 0 <= m < |ys[1..]| && key(ys[1..][m]) == key(rest[k]);
          assert ys[m + 1] == ys[1..][m];
        }
      }
    }
  }

  /** The elements of `xs` in ascending key order; elements with equal keys keep their order. */
  function SortBy<T>(xs: seq<T>, key: T -> int): (r: seq<T>)
    ensures multiset(r) == multiset(xs)
    decreases |xs|
  {
    if xs == [] then []
    else
      assert xs == xs[..|xs| - 1] + [xs[|xs| - 1]];
      InsertBy(xs[|xs| - 1], SortBy(xs[..|xs| - 1], key), key)
  }

  /** Sorting keeps the set of keys. */
  lemma {:induction false} SortByKeys<T>(xs: seq<T>, key: T -> int)
    ensures Keys(SortBy(xs, key), key) == Keys(xs, key)
    decreases |xs|
  {
    if xs != [] {
      var init := xs[..|xs| - 1];
      SortByKeys(init, key);
      InsertByKeys(xs[|xs| - 1], SortBy(init, key), key);
      KeysLast(xs, key);
    }
  }

  lemma KeysLast<T>(xs: seq<T>, key: T -> int)
    requires xs != []
    ensures Keys(xs, key) == Keys(xs[..|xs| - 1], key) + {key(xs[|xs| - 1])}
  {
    KeysSnoc(xs[..|xs| - 1], xs[|xs| - 1], key);
    assert xs == xs[..|xs| - 1] + [xs[|xs| - 1]];
  }

  /** A sequence already in key order is left as it is. */
  lemma {:induction false} SortBySortedInput<T>(xs: seq<T>, key: T -> int)
    requires SortedBy(xs, key)
    ensures SortBy(xs, key) == xs
    decreases |xs|
  {
    if xs != [] {
      var init := xs[..|xs| - 1];
      var last := xs[|xs| - 1];
      assert SortedBy(init, key) by {
        forall i, j | 0 <= i < j < |init| ensures key(init[i]) <= key(init[j]) {
          assert init[i] == xs[i] && init[j] == xs[j];
        }
      }
      SortBySortedInput(init, key);
      forall k | 0 <= k < |init| ensures key(init[k]) <= key(last) {
        assert init[k] == xs[k];
      }
      InsertByLast(last, init, key);
      assert xs == init + [last];
    }
  }

  /** The sort's result is sorted. */
  lemma {:induction false} SortBySorted<T>(xs: seq<T>, key: T -> int)
    ensures SortedBy(SortBy(xs, key), key)
    decreases |xs|
  {
    if xs != [] {
      SortBySorted(xs[..|xs| - 1], key);
      InsertBySorted(xs[|xs| - 1], SortBy(xs[..|xs| - 1], key), key);
    }
  }

  /** With pairwise distinct keys the result is strictly ascending. */
  lemma {:induction false} SortByStrict<T>(xs: seq<T>, key: T -> int)
    requires DistinctKeys(xs, key)
    ensures StrictlySortedBy(SortBy(xs, key), key)
    decreases |xs|
  {
    if xs != [] {
      var init := xs[..|xs| - 1];
      var last := xs[|xs| - 1];
      assert DistinctKeys(init, key) by {
        forall i, j | 0 <= i < j < |init| ensures key(init[i]) != key(init[j]) {
          assert init[i] == xs[i] && init[j] == xs[j];
        }
      }
      SortByStrict(init, key);
      forall k | 0 <= k < |init| ensures key(init[k]) != key(last) {
        assert init[k] == xs[k];
      }
      SortByKeys(init, key);
      InsertByStrict(last, SortBy(init, key), key);
    }
  }

  /** The sort keeps exactly the elements of its input. */
  lemma SortByMembers<T>(xs: seq<T>, key: T -> int)
    ensures forall e :: e in SortBy(xs, key) <==> e in xs
  {
    var r := SortBy(xs, key);
    forall e ensures e in r <==> e in xs {
      assert e in r <==> e in multiset(r);
      assert e in xs <==> e in multiset(xs);
    }
  }

  /** Two strictly ascending sequences with the same elements are the same sequence: the result
      of sorting distinct keys does not depend on the order they came in. */
  lemma {:induction false} StrictlySortedUnique<T>(xs: seq<T>, ys: seq<T>, key: T -> int)
    requires StrictlySortedBy(xs, key) && StrictlySortedBy(ys, key)
    requires forall e :: e in xs <==> e in ys
    ensures xs == ys
    decreases |xs|
  {
    assert xs != [] ==> xs[0] in ys;
    assert ys != [] ==> ys[0] in xs;
    if xs != [] && ys != [] {
      assert ys[0] in ys && xs[0] in xs;
      var i :| 0 <= i < |xs| && xs[i] == ys[0];
      var j :| 0 <= j < |ys| && ys[j] == xs[0];
      assert key(xs[0]) <= key(ys[0]) && key(ys[0]) <= key(xs[0]);
      assert i == 0 && j == 0;
      var xt, yt := xs[1..], ys[1..];
      assert StrictlySortedBy(xt, key) && StrictlySortedBy(yt, key) by {
        forall a, b | 0 <= a < b < |xt| ensures key(xt[a]) < key(xt[b]) { assert xt[a] == xs[a + 1] && xt[b] == xs[b + 1]; }
        forall a, b | 0 <= a < b < |yt| ensures key(yt[a]) < key(yt[b]) { assert yt[a] == ys[a + 1] && yt[b] == ys[b + 1]; }
      }
      forall e ensures e in xt <==> e in yt {
        if e in xt {
          var a :| 0 <= a < |xt| && xt[a] == e;
          assert xs[a + 1] == e && key(xs[0]) < key(e) && e in xs;
          var b :| 0 <= b < |ys| && ys[b] == e;
          assert b != 0;
          assert yt[b - 1] == e;
        }
        if e in yt {
          var b :| 0 <= b < |yt| && yt[b] == e;
          assert ys[b + 1] == e && key(ys[0]) < key(e) && e in ys;
          var a :| 0 <= a < |xs| && xs[a] == e;
          assert a != 0;
          assert xt[a - 1] == e;
        }
      }
      StrictlySortedUnique(xt, yt, key);
      assert xs == [xs[0]] + xt && ys == [ys[0]] + yt;
    }
  }
}
