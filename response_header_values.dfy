/** The text form of a response header's value list: `saveResponse` joins the values with ", ",
    `getResponseHeaders` splits the text at ", " and trims every piece. This module states
    exactly which lists survive the trip. */
module ResponseHeaderValues {
  import opened JavaText
  import opened Wrappers
  import opened CollectionReads

  /** A value that comes back as itself: already trimmed and without the separator. */
  predicate CleanValue(v: string) {
    Trim(v) == v && !Contains(v, ", ")
  }

  /** The lists that survive joining and splitting: the empty list, or clean values whose last
      one is not empty (an empty last piece is dropped by `split`). Empty values elsewhere in the
      list do survive. */
  predicate RoundTrips(vs: seq<string>) {
    vs == [] || ((forall k :: 0 <= k < |vs| ==> CleanValue(vs[k])) && vs[|vs| - 1] != "")
  }

  /** The piece before the first separator contains none. */
  lemma FirstPieceFree(s: string, i: nat)
    requires i <= |s|
    requires forall j :: 0 <= j < i ==> !OccursAt(s, ", ", j)
    ensures !Contains(s[..i], ", ")
  {
    var t := s[..i];
    forall j | 0 <= j && j + 2 <= |t| ensures !OccursAt(t, ", ", j) {
      assert t[j..j + 2] == s[j..j + 2];
      assert !OccursAt(s, ", ", j);
    }
    assert forall j :: !OccursAt(t, ", ", j);
  }

  /** No piece of a split contains the separator. */
  lemma {:induction false} SplitAllPiecesFree(s: string)
    ensures forall k :: 0 <= k < |SplitAll(s, ", ")| ==> !Contains(SplitAll(s, ", ")[k], ", ")
    decreases |s|
  {
    var f := Find(s, ", ");
    if f.Some? {
      var i := f.value;
      var rest := s[i + 2..];
      SplitAllPiecesFree(rest);
      FirstPieceFree(s, i);
      var r := SplitAll(s, ", ");
      assert r == [s[..i]] + SplitAll(rest, ", ");
      forall k | 0 <= k < |r| ensures !Contains(r[k], ", ") {
        if k > 0 {
          assert r[k] == SplitAll(rest, ", ")[k - 1];
        }
      }
    }
  }

  /** Nor does any piece `split` keeps. */
  lemma SplitPiecesFree(s: string)
    ensures forall k :: 0 <= k < |Split(s, ", ")| ==> !Contains(Split(s, ", ")[k], ", ")
  {
    if Contains(s, ", ") {
      SplitAllPiecesFree(s);
      var pieces := SplitAll(s, ", ");
      var parts := DropTrailingEmpty(pieces);
      assert parts == Split(s, ", ");
      forall k | 0 <= k < |parts| ensures !Contains(parts[k], ", ") {
        assert parts[k] == pieces[k];
      }
    }
  }

  /** Trimming cannot create an occurrence of the separator. */
  lemma TrimKeepsFree(v: string)
    ensures Contains(Trim(v), ", ") ==> Contains(v, ", ")
  {
    var a, b := TrimDecompose(v);
    if Contains(Trim(v), ", ") {
      var p := Find(Trim(v), ", ").value;
      OccursShift(a, Trim(v), b, ", ", p);
      assert OccursAt(v, ", ", |a| + p);
    }
  }

  /** Every value read back is clean. */
  lemma ReadValuesClean(value: Option<string>)
    ensures forall k :: 0 <= k < |ReadValues(value)| ==> CleanValue(ReadValues(value)[k])
  {
    if value.Some? && value.value != "" {
      var parts := Split(value.value, ", ");
      SplitPiecesFree(value.value);
      var r := ReadValues(value);
      assert r == TrimAll(parts);
      forall k | 0 <= k < |r| ensures CleanValue(r[k]) {
        TrimIdempotent(parts[k]);
        TrimKeepsFree(parts[k]);
      }
    }
  }

  /** A list whose last value is not empty joins to a non-empty text. */
  lemma JoinLastNonEmpty(vs: seq<string>, sep: string)
    requires vs != [] && vs[|vs| - 1] != ""
    ensures Join(vs, sep) != ""
  {
    if |vs| > 1 {
      var init := vs[..|vs| - 1];
      JoinSnoc(init, vs[|vs| - 1], sep);
      assert vs == init + [vs[|vs| - 1]];
    }
  }

  /** Splitting a join of separator-free parts, the last one non-empty, gives the parts. */
  lemma SplitOfJoin(vs: seq<string>)
    requires vs != [] && vs[|vs| - 1] != ""
    requires forall k :: 0 <= k < |vs| ==> !Contains(vs[k], ", ")
    ensures Split(Join(vs, ", "), ", ") == vs
  {
    var s := Join(vs, ", ");
    SplitAllJoin(vs);
    if Contains(s, ", ") {
      assert DropTrailingEmpty(vs) == vs;
    } else {
      assert SplitAll(s, ", ") == [s];
    }
  }

  /** A list that round-trips is read back as itself. */
  lemma RoundTripsSuffices(vs: seq<string>)
    requires vs != [] && RoundTrips(vs)
    ensures ReadValues(Some(Join(vs, ", "))) == vs
  {
    var s := Join(vs, ", ");
    assert forall k :: 0 <= k < |vs| ==> !Contains(vs[k], ", ") by {
      forall k | 0 <= k < |vs| ensures !Contains(vs[k], ", ") {
        assert CleanValue(vs[k]);
      }
    }
    SplitOfJoin(vs);
    JoinLastNonEmpty(vs, ", ");
    TrimAllClean(vs);
  }

  /** Trimming clean values changes nothing. */
  lemma TrimAllClean(vs: seq<string>)
    requires forall k :: 0 <= k < |vs| ==> CleanValue(vs[k])
    ensures TrimAll(vs) == vs
  {
    var r := TrimAll(vs);
    forall k | 0 <= k < |vs| ensures r[k] == vs[k] {
      assert CleanValue(vs[k]);
    }
  }

  /** A list read back as itself round-trips. */
  lemma RoundTripsNecessary(vs: seq<string>)
    requires vs != [] && ReadValues(Some(Join(vs, ", "))) == vs
    ensures RoundTrips(vs)
  {
    var s := Join(vs, ", ");
    ReadValuesClean(Some(s));
    assert forall k :: 0 <= k < |vs| ==> CleanValue(vs[k]);
    assert s != "";
    SplitAllJoin(vs);
    var parts := Split(s, ", ");
    assert vs == TrimAll(parts);
    if Contains(s, ", ") {
      assert parts == DropTrailingEmpty(vs);
      assert parts == vs;
    } else {
      assert SplitAll(s, ", ") == [s];
    }
  }

  /** Joining with ", " and reading back gives the list itself exactly when the list round-trips. */
  lemma ValuesRoundTrip(vs: seq<string>)
    ensures ReadValues(Some(Join(vs, ", "))) == vs <==> RoundTrips(vs)
  {
    if vs != [] {
      if RoundTrips(vs) {
        RoundTripsSuffices(vs);
      }
      if ReadValues(Some(Join(vs, ", "))) == vs {
        RoundTripsNecessary(vs);
      }
    }
  }
}
