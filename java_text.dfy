/** The java.lang.String operations the client relies on, stated over Dafny strings
    (sequences of Unicode scalar values).  Each one follows the JDK's documented
    behaviour for the cases the client uses. */
module JavaText {
  import opened Wrappers

  // ---------------------------------------------------------------- trim

  /** `String.trim` removes every leading and trailing character whose code is at most U+0020. */
  predicate IsTrimSpace(c: char) {
    c <= ' '
  }

  function TrimStart(s: string): (r: string)
    ensures |r| <= |s| && r == s[|s| - |r|..]
    ensures r == [] || !IsTrimSpace(r[0])
  {
    if s != [] && IsTrimSpace(s[0]) then TrimStart(s[1..]) else s
  }

  /** TrimStart drops only trimmable characters. */
  lemma {:induction false} TrimStartDropped(s: string, k: int)
    requires 0 <= k < |s| - |TrimStart(s)|
    ensures IsTrimSpace(s[k])
  {
    if k > 0 {
      TrimStartDropped(s[1..], k - 1);
    }
  }

  function TrimEnd(s: string): (r: string)
    ensures |r| <= |s| && r == s[..|r|]
    ensures r == [] || !IsTrimSpace(r[|r| - 1])
  {
    if s != [] && IsTrimSpace(s[|s| - 1]) then TrimEnd(s[..|s| - 1]) else s
  }

  /** TrimEnd drops only trimmable characters. */
  lemma {:induction false} TrimEndDropped(s: string, k: int)
    requires |TrimEnd(s)| <= k < |s|
    ensures IsTrimSpace(s[k])
  {
    if k < |s| - 1 {
      TrimEndDropped(s[..|s| - 1], k);
    }
  }

  /** `String.trim`: the longest infix of `s` that neither starts nor ends with a trimmable character. */
  function Trim(s: string): (r: string)
    ensures |r| <= |s|
    ensures r == [] || (!IsTrimSpace(r[0]) && !IsTrimSpace(r[|r| - 1]))
  {
    var t := TrimStart(s);
    var r := TrimEnd(t);
    assert r != [] ==> t[0] == r[0];
    r
  }

  /** Trim yields the empty string exactly when every character is trimmable. */
  lemma TrimEmpty(s: string)
    ensures Trim(s) == [] <==> forall k :: 0 <= k < |s| ==> IsTrimSpace(s[k])
  {
    var t := TrimStart(s);
    if Trim(s) == [] {
      if t != [] {
        TrimEndDropped(t, 0);
      }
      forall k | 0 <= k < |s| ensures IsTrimSpace(s[k]) {
        TrimStartDropped(s, k);
      }
    }
  }

  /** `s.trim().isEmpty()`: every character is trimmable (true for the empty string). */
  predicate IsBlankTrim(s: string) {
    Trim(s) == []
  }

  /** Trimming an already trimmed string changes nothing. */
  lemma TrimIdempotent(s: string)
    ensures Trim(Trim(s)) == Trim(s)
  {
    TrimOfTrimmed(Trim(s));
  }

  /** A string that neither starts nor ends with a trimmable character is its own trim. */
  lemma TrimOfTrimmed(s: string)
    requires s == [] || (!IsTrimSpace(s[0]) && !IsTrimSpace(s[|s| - 1]))
    ensures Trim(s) == s
  {
  }

  /** Trimming ignores trimmable padding on either side. */
  lemma {:induction false} TrimPadded(a: string, s: string, b: string)
    requires forall k :: 0 <= k < |a| ==> IsTrimSpace(a[k])
    requires forall k :: 0 <= k < |b| ==> IsTrimSpace(b[k])
    requires s == [] || (!IsTrimSpace(s[0]) && !IsTrimSpace(s[|s| - 1]))
    ensures Trim(a + s + b) == s
  {
    if s == [] {
      var t := a + s + b;
      forall k | 0 <= k < |t| ensures IsTrimSpace(t[k]) {
        if k < |a| { assert t[k] == a[k]; } else { assert t[k] == b[k - |a|]; }
      }
    } else {
      assert a + s + b == a + (s + b);
      TrimStartPadded(a, s + b);
      TrimEndPadded(s, b);
      assert Trim(a + s + b) == TrimEnd(TrimStart(a + s + b));
    }
  }

  lemma {:induction false} TrimStartPadded(a: string, s: string)
    requires forall k :: 0 <= k < |a| ==> IsTrimSpace(a[k])
    requires s != [] && !IsTrimSpace(s[0])
    ensures TrimStart(a + s) == s
  {
    if a != [] {
      assert (a + s)[1..] == a[1..] + s;
      TrimStartPadded(a[1..], s);
    }
  }

  lemma {:induction false} TrimEndPadded(s: string, b: string)
    requires forall k :: 0 <= k < |b| ==> IsTrimSpace(b[k])
    requires s != [] && !IsTrimSpace(s[|s| - 1])
    ensures TrimEnd(s + b) == s
  {
    if b != [] {
      assert (s + b)[..|s + b| - 1] == s + b[..|b| - 1];
      TrimEndPadded(s, b[..|b| - 1]);
    }
  }

  /** Every string is its trim between two runs of trimmable characters. */
  lemma TrimDecompose(s: string) returns (a: string, b: string)
    ensures s == a + Trim(s) + b
    ensures forall k :: 0 <= k < |a| ==> IsTrimSpace(a[k])
    ensures forall k :: 0 <= k < |b| ==> IsTrimSpace(b[k])
  {
    a := TrimStartSplit(s);
    b := TrimEndSplit(TrimStart(s));
    assert a + (Trim(s) + b) == a + Trim(s) + b;
  }

  /** Trimming adds no character. */
  lemma TrimChars(s: string, c: char)
    ensures c in Trim(s) ==> c in s
  {
    var a, b := TrimDecompose(s);
    if c in Trim(s) {
      var k :| 0 <= k < |Trim(s)| && Trim(s)[k] == c;
      assert s[|a| + k] == c;
    }
  }

  lemma TrimStartSplit(s: string) returns (a: string)
    ensures s == a + TrimStart(s)
    ensures forall k :: 0 <= k < |a| ==> IsTrimSpace(a[k])
  {
    var t := TrimStart(s);
    var m := |s| - |t|;
    a := s[..m];
    CutAt(s, m);
    forall k | 0 <= k < m ensures IsTrimSpace(a[k]) {
      TrimStartDropped(s, k);
    }
  }

  /** A non-empty sequence is its head followed by its tail. */
  lemma ConsSplit<T>(s: seq<T>)
    requires s != []
    ensures s == [s[0]] + s[1..]
  {
  }

  /** The head and the tail of a concatenation whose first part is not empty. */
  lemma TailAppend<T>(a: seq<T>, b: seq<T>)
    requires a != []
    ensures (a + b)[0] == a[0] && (a + b)[1..] == a[1..] + b
  {
  }

  /** The three parts of a concatenation, cut out again. */
  lemma ThreeParts(a: string, b: string, c: string)
    ensures var s := a + b + c;
            s[..|a|] == a && s[|a|..|a| + |b|] == b && s[|a| + |b|..] == c
  {
  }

  /** A string is its prefix followed by the rest. */
  lemma CutAt(s: string, m: nat)
    requires m <= |s|
    ensures s == s[..m] + s[m..]
  {
  }

  lemma TrimEndSplit(t: string) returns (b: string)
    ensures t == TrimEnd(t) + b
    ensures forall k :: 0 <= k < |b| ==> IsTrimSpace(b[k])
  {
    var r := TrimEnd(t);
    b := t[|r|..];
    forall k | 0 <= k < |b| ensures IsTrimSpace(b[k]) {
      TrimEndDropped(t, k + |r|);
    }
  }

  // ---------------------------------------------------------------- isBlank

  /** `Character.isWhitespace`: the space separators other than the no-break spaces,
      the line and paragraph separators, and the ASCII controls TAB..CR and FS..US. */
  predicate IsJavaWhitespace(c: char) {
    c == ' ' || ('\t' <= c <= '\r') || ('\U{1C}' <= c <= '\U{1F}')
    || c == '\U{1680}' || ('\U{2000}' <= c <= '\U{2006}') || ('\U{2008}' <= c <= '\U{200A}')
    || c == '\U{2028}' || c == '\U{2029}' || c == '\U{205F}' || c == '\U{3000}'
  }

  /** `String.isBlank`: empty or only `Character.isWhitespace` code points. */
  predicate IsBlank(s: string) {
    forall k :: 0 <= k < |s| ==> IsJavaWhitespace(s[k])
  }

  // ---------------------------------------------------------------- searching

  /** The text `t` occurs in `s` starting at index `i`. */
  predicate OccursAt(s: string, t: string, i: int) {
    0 <= i && i + |t| <= |s| && s[i..i + |t|] == t
  }

  function FindFrom(s: string, t: string, i: nat): (r: Option<nat>)
    requires i <= |s|
    ensures r.Some? ==> i <= r.value && OccursAt(s, t, r.value)
    ensures forall j :: i <= j && (r.None? || j < r.value) ==> !OccursAt(s, t, j)
    decreases |s| - i
  {
    if i + |t| > |s| then None
    else if s[i..i + |t|] == t then Some(i)
    else FindFrom(s, t, i + 1)
  }

  /** `s.indexOf(t)`, as an Option: the first index at which `t` occurs. */
  function Find(s: string, t: string): (r: Option<nat>)
    ensures r.Some? ==> OccursAt(s, t, r.value) && forall j :: 0 <= j < r.value ==> !OccursAt(s, t, j)
    ensures r.None? <==> forall j :: !OccursAt(s, t, j)
  {
    FindFrom(s, t, 0)
  }

  /** `s.contains(t)`. */
  predicate Contains(s: string, t: string) {
    Find(s, t).Some?
  }

  /** `s.indexOf(c)`: the first index of `c`, or -1 when `c` does not occur. */
  function IndexOf(s: string, c: char): (r: int)
    ensures r == -1 <==> c !in s
    ensures r != -1 ==> 0 <= r < |s| && s[r] == c && c !in s[..r]
  {
    if c !in s then -1
    else if s[0] == c then 0
    else
      var k := IndexOf(s[1..], c);
      assert s[..k + 1] == [s[0]] + s[1..][..k];
      k + 1
  }

  /** The index of a character that has no earlier occurrence. */
  lemma IndexOfAt(s: string, c: char, j: int)
    requires 0 <= j < |s| && s[j] == c && c !in s[..j]
    ensures IndexOf(s, c) == j
  {
    assert c in s;
  }

  /** A one-character `contains` is membership. */
  lemma ContainsChar(s: string, c: char)
    ensures Contains(s, [c]) <==> c in s
  {
    if c in s {
      var i :| 0 <= i < |s| && s[i] == c;
      assert OccursAt(s, [c], i);
    } else {
      forall j | 0 <= j < |s| ensures !OccursAt(s, [c], j) {
        assert s[j] != c;
      }
    }
  }

  /** An occurrence inside `b` is an occurrence inside `a + b + c`, shifted by `|a|`. */
  lemma OccursShift(a: string, b: string, c: string, t: string, p: int)
    requires OccursAt(b, t, p)
    ensures OccursAt(a + b + c, t, |a| + p)
  {
    assert (a + b + c)[|a| + p..|a| + p + |t|] == b[p..p + |t|];
  }

  predicate StartsWith(s: string, p: string) {
    |p| <= |s| && s[..|p|] == p
  }

  predicate EndsWith(s: string, p: string) {
    |p| <= |s| && s[|s| - |p|..] == p
  }

  /** Concatenation regrouped. */
  lemma AppendAssoc(a: string, b: string, c: string)
    ensures a + (b + c) == a + b + c
  {
  }

  // ---------------------------------------------------------------- split and join

  /** The pieces between the non-overlapping, left-to-right occurrences of `sep`, empty pieces included. */
  function SplitAll(s: string, sep: string): (r: seq<string>)
    requires sep != []
    ensures |r| >= 1
    decreases |s|
  {
    match Find(s, sep)
    case None => [s]
    case Some(i) => [s[..i]] + SplitAll(s[i + |sep|..], sep)
  }

  /** Removes the empty strings at the end of a piece list. */
  function DropTrailingEmpty(p: seq<string>): (r: seq<string>)
    ensures r <= p
    ensures r == [] || r[|r| - 1] != ""
    ensures forall k :: |r| <= k < |p| ==> p[k] == ""
  {
    if p != [] && p[|p| - 1] == "" then DropTrailingEmpty(p[..|p| - 1]) else p
  }

  /** `s.split(sep)` for a separator that is a literal: a string without `sep` gives `[s]`;
      otherwise the pieces, with trailing empty pieces removed. */
  function Split(s: string, sep: string): seq<string>
    requires sep != []
  {
    if !Contains(s, sep) then [s] else DropTrailingEmpty(SplitAll(s, sep))
  }

  /** `String.join(sep, parts)`. */
  function Join(parts: seq<string>, sep: string): string {
    if |parts| == 0 then ""
    else if |parts| == 1 then parts[0]
    else parts[0] + sep + Join(parts[1..], sep)
  }

  /** The only occurrence of ", " in `v + ", " + rest` that can come first is the separator
      itself, when `v` has none. */
  lemma FindCommaAfter(v: string, rest: string)
    requires !Contains(v, ", ")
    ensures Find(v + ", " + rest, ", ") == Some(|v|)
  {
    var s := v + ", " + rest;
    assert OccursAt(s, ", ", |v|) by { assert s[|v|..|v| + 2] == ", "; }
    forall j | 0 <= j < |v| ensures !OccursAt(s, ", ", j) {
      if j + 2 <= |v| {
        assert s[j..j + 2] == v[j..j + 2];
        assert !OccursAt(v, ", ", j);
      } else {
        assert s[j + 1] == ',';
      }
    }
  }

  /** Joining with ", " and splitting every occurrence of ", " gives the parts back. */
  lemma {:induction false} SplitAllJoin(vs: seq<string>)
    requires |vs| >= 1
    requires forall k :: 0 <= k < |vs| ==> !Contains(vs[k], ", ")
    ensures SplitAll(Join(vs, ", "), ", ") == vs
  {
    if |vs| > 1 {
      var s := Join(vs, ", ");
      var rest := Join(vs[1..], ", ");
      FindCommaAfter(vs[0], rest);
      assert s == vs[0] + ", " + rest;
      ThreeParts(vs[0], ", ", rest);
      SplitAllJoin(vs[1..]);
      ConsSplit(vs);
    } else {
      assert Join(vs, ", ") == vs[0];
    }
  }

  /** With a one-character separator that `v` does not contain, the first separator is the one after `v`. */
  lemma FindSepAfter(v: string, c: char, rest: string)
    requires c !in v
    ensures Find(v + [c] + rest, [c]) == Some(|v|)
  {
    var s := v + [c] + rest;
    assert OccursAt(s, [c], |v|) by { assert s[|v|..|v| + 1] == [c]; }
    forall j | 0 <= j < |v| ensures !OccursAt(s, [c], j) {
      assert s[j] == v[j];
    }
  }

  /** Joining with a one-character separator that no part contains, then splitting at every
      occurrence of it, gives the parts back. */
  lemma {:induction false} SplitAllJoinChar(vs: seq<string>, c: char)
    requires |vs| >= 1
    requires forall k :: 0 <= k < |vs| ==> c !in vs[k]
    ensures SplitAll(Join(vs, [c]), [c]) == vs
  {
    if |vs| > 1 {
      var s := Join(vs, [c]);
      var rest := Join(vs[1..], [c]);
      FindSepAfter(vs[0], c, rest);
      assert s == vs[0] + [c] + rest;
      ThreeParts(vs[0], [c], rest);
      SplitAllJoinChar(vs[1..], c);
      ConsSplit(vs);
    } else {
      assert Join(vs, [c]) == vs[0];
      ContainsChar(vs[0], c);
      assert vs == [vs[0]];
    }
  }

  /** One more part at the end of a join. */
  lemma {:induction false} JoinSnoc(vs: seq<string>, v: string, sep: string)
    requires |vs| >= 1
    ensures Join(vs + [v], sep) == Join(vs, sep) + sep + v
  {
    var ws := vs + [v];
    assert ws[1..] == vs[1..] + [v];
    if |vs| > 1 {
      JoinSnoc(vs[1..], v, sep);
    } else {
      assert ws[1..] == [v];
    }
  }

  // ---------------------------------------------------------------- case mapping

  function ToUpperChar(c: char): char {
    if 'a' <= c <= 'z' then (c as int - 32) as char else c
  }

  function ToLowerChar(c: char): char {
    if 'A' <= c <= 'Z' then (c as int + 32) as char else c
  }

  /** `toUpperCase` restricted to the ASCII letters. */
  function ToUpper(s: string): (r: string)
    ensures |r| == |s| && forall k :: 0 <= k < |s| ==> r[k] == ToUpperChar(s[k])
  {
    seq(|s|, k requires 0 <= k < |s| => ToUpperChar(s[k]))
  }

  /** `toLowerCase` restricted to the ASCII letters. */
  function ToLower(s: string): (r: string)
    ensures |r| == |s| && forall k :: 0 <= k < |s| ==> r[k] == ToLowerChar(s[k])
  {
    seq(|s|, k requires 0 <= k < |s| => ToLowerChar(s[k]))
  }

  /** `equalsIgnoreCase` restricted to the ASCII letters. */
  predicate EqualsIgnoreCase(a: string, b: string) {
    ToLower(a) == ToLower(b)
  }

  /** `s.replace(" ", "")`: every space removed. */
  function RemoveSpaces(s: string): (r: string)
    ensures ' ' !in r
    ensures |r| <= |s|
  {
    if s == [] then []
    else if s[0] == ' ' then RemoveSpaces(s[1..])
    else [s[0]] + RemoveSpaces(s[1..])
  }

  /** Lower-casing changes only the upper-case letters. */
  lemma ToLowerNoUpper(s: string)
    requires forall k :: 0 <= k < |s| ==> !('A' <= s[k] <= 'Z')
    ensures ToLower(s) == s
  {
  }

  lemma ToLowerCons(c: char, s: string)
    ensures ToLower([c] + s) == [ToLowerChar(c)] + ToLower(s)
  {
  }

  lemma {:induction false} RemoveSpacesNone(s: string)
    requires ' ' !in s
    ensures RemoveSpaces(s) == s
  {
    if s != [] {
      RemoveSpacesNone(s[1..]);
      assert s == [s[0]] + s[1..];
    }
  }

  /** Removing the spaces of two space-free words joined by one space glues them. */
  lemma {:induction false} RemoveOneSpace(a: string, b: string)
    requires ' ' !in a && ' ' !in b
    ensures RemoveSpaces(a + " " + b) == a + b
  {
    if a == [] {
      assert a + " " + b == [' '] + b;
      RemoveSpacesNone(b);
    } else {
      assert (a + " " + b)[1..] == a[1..] + " " + b;
      RemoveOneSpace(a[1..], b);
      assert a + b == [a[0]] + (a[1..] + b);
    }
  }

  /** `s.repeat(n)`. */
  function Repeat(s: string, n: nat): (r: string)
    ensures |r| == n * |s|
  {
    if n == 0 then [] else s + Repeat(s, n - 1)
  }

  // ---------------------------------------------------------------- decimal numbers

  function DigitChar(d: nat): char
    requires d < 10
  {
    "0123456789"[d]
  }

  /** `String.valueOf(n)` for a natural number: its decimal digits, no leading zero. */
  function NatToString(n: nat): (r: string)
    ensures r != [] && forall k :: 0 <= k < |r| ==> '0' <= r[k] <= '9'
    ensures |r| > 1 ==> r[0] != '0'
  {
    if n < 10 then [DigitChar(n)] else NatToString(n / 10) + [DigitChar(n % 10)]
  }

  /** `String.valueOf(i)` for an int: a minus sign before the digits of a negative number. */
  function IntToString(i: int): (r: string)
    ensures r != []
  {
    if i < 0 then "-" + NatToString(-i) else NatToString(i)
  }

  /** The value of a string of decimal digits; the partner of NatToString. */
  function DigitsValue(s: string): nat
    requires forall k :: 0 <= k < |s| ==> '0' <= s[k] <= '9'
  {
    if s == [] then 0 else DigitsValue(s[..|s| - 1]) * 10 + (s[|s| - 1] as int - '0' as int)
  }

  /** Reading back the digits written by NatToString gives the number. */
  lemma {:induction false} NatToStringRoundTrip(n: nat)
    ensures DigitsValue(NatToString(n)) == n
  {
    if n >= 10 {
      NatToStringRoundTrip(n / 10);
      var s := NatToString(n);
      assert s[..|s| - 1] == NatToString(n / 10);
    }
  }
}
