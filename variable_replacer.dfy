/** Placeholder substitution in request text (utility/VariableReplacer.java).
    A placeholder is `{{name}}`: two opening braces, one or more characters other
    than `}`, and two closing braces.  The name looked up is the inner text trimmed. */
module VariableReplacer {
  import opened Wrappers
  import opened JavaText

  // ---------------------------------------------------------------- the pattern

  /** The pattern `\{\{([^}]+)\}\}` matches exactly the first `n` characters of `s`. */
  predicate MatchesToken(s: string, n: int) {
    5 <= n <= |s| && s[0] == '{' && s[1] == '{' && s[n - 2] == '}' && s[n - 1] == '}'
    && forall k :: 2 <= k < n - 2 ==> s[k] != '}'
  }

  /** The first index at or after `i` holding `}`, or `|s|` when there is none. */
  function CloseBrace(s: string, i: nat): (j: nat)
    requires i <= |s|
    ensures i <= j <= |s| && (j == |s| || s[j] == '}')
    decreases |s| - i
  {
    if i == |s| || s[i] == '}' then i else CloseBrace(s, i + 1)
  }

  /** No `}` lies before the one CloseBrace finds. */
  lemma {:induction false} CloseBraceFirst(s: string, i: nat, k: int)
    requires i <= |s| && i <= k < CloseBrace(s, i)
    ensures s[k] != '}'
    decreases |s| - i
  {
    if k > i {
      CloseBraceFirst(s, i + 1, k);
    }
  }

  /** The length of the match of the pattern anchored at the start of `s`, if there is one.
      The class `[^}]` cannot consume a `}`, so the greedy run ends at the first `}` and
      no backtracking can produce another match (TokenAtExact). */
  function TokenAt(s: string): (r: Option<nat>)
    ensures r.Some? ==> 5 <= r.value <= |s|
  {
    if |s| < 2 || s[0] != '{' || s[1] != '{' then None
    else
      var j := CloseBrace(s, 2);
      if j > 2 && j + 2 <= |s| && s[j + 1] == '}' then Some(j + 2) else None
  }

  /** TokenAt finds a match exactly when the pattern matches at the start, and then that match. */
  lemma TokenAtExact(s: string, n: int)
    ensures TokenAt(s) == Some(n) <==> MatchesToken(s, n)
  {
    if MatchesToken(s, n) {
      var j := CloseBrace(s, 2);
      if j > n - 2 {
        CloseBraceFirst(s, 2, n - 2);
      }
    }
    if TokenAt(s) == Some(n) {
      forall k | 2 <= k < n - 2 ensures s[k] != '}' {
        CloseBraceFirst(s, 2, k);
      }
    }
  }

  predicate HasTokenAt(s: string, i: int) {
    0 <= i < |s| && TokenAt(s[i..]).Some?
  }

  /** `matcher.end()` for a match starting at `start`. */
  function MatchEnd(s: string, start: nat): (e: nat)
    requires HasTokenAt(s, start)
    ensures start + 5 <= e <= |s|
  {
    start + TokenAt(s[start..]).value
  }

  /** `matcher.group(1)` for a match starting at `start`: the text between the braces. */
  function Group1(s: string, start: nat): string
    requires HasTokenAt(s, start)
  {
    s[start + 2..MatchEnd(s, start) - 2]
  }

  /** `Matcher.find` from position `from`: the leftmost position at or after `from` where the pattern matches. */
  function NextToken(s: string, from: nat): (r: Option<nat>)
    requires from <= |s|
    ensures r.Some? ==> from <= r.value && HasTokenAt(s, r.value)
    decreases |s| - from
  {
    if from == |s| then None
    else if TokenAt(s[from..]).Some? then Some(from)
    else NextToken(s, from + 1)
  }

  /** No match starts between `from` and the position NextToken reports (or the end). */
  lemma {:induction false} NextTokenLeftmost(s: string, from: nat, i: int)
    requires from <= i < |s| && (NextToken(s, from).None? || i < NextToken(s, from).value)
    ensures !HasTokenAt(s, i)
    decreases |s| - from
  {
    if i > from {
      NextTokenLeftmost(s, from + 1, i);
    }
  }

  /** Before the position `find` reports, no match starts, and the search from the next position reports the same. */
  lemma NextTokenSkip(s: string, pos: nat, start: nat)
    requires pos <= |s| && NextToken(s, pos) == Some(start) && pos < start
    ensures TokenAt(s[pos..]).None? && NextToken(s, pos + 1) == Some(start)
  {
  }

  // ---------------------------------------------------------------- scanning

  /** What a left-to-right scan with `Matcher.find` sees: literal characters between
      matches, and matches, each kept as its group 1. */
  datatype Segment = Literal(c: char) | Token(inner: string)

  /** The text of the match whose group 1 is `inner`. */
  function Raw(inner: string): string {
    "{{" + inner + "}}"
  }

  /** The segments of `s`: a match is taken wherever one starts; otherwise one character is skipped. */
  function Segments(s: string): seq<Segment>
    decreases |s|
  {
    if s == [] then []
    else match TokenAt(s)
      case Some(n) => [Token(s[2..n - 2])] + Segments(s[n..])
      case None => [Literal(s[0])] + Segments(s[1..])
  }

  /** Every character of `t` as a literal segment. */
  function Literals(t: string): seq<Segment> {
    if t == [] then [] else [Literal(t[0])] + Literals(t[1..])
  }

  /** Where no match starts, the first character is a literal. */
  lemma SegmentsSkip(t: string)
    requires t != [] && TokenAt(t).None?
    ensures Segments(t) == [Literal(t[0])] + Segments(t[1..])
  {
  }

  lemma LiteralsCons(t: string, tail: seq<Segment>)
    requires t != []
    ensures Literals(t) + tail == [Literal(t[0])] + (Literals(t[1..]) + tail)
  {
  }

  /** At a match, the scan takes the match as one segment and goes on after it. */
  lemma ScanAtToken(s: string, start: nat)
    requires HasTokenAt(s, start)
    ensures Segments(s[start..]) == [Token(Group1(s, start))] + Segments(s[MatchEnd(s, start)..])
  {
    var t := s[start..];
    var n := TokenAt(t).value;
    assert t[2..n - 2] == Group1(s, start);
    assert t[n..] == s[MatchEnd(s, start)..];
  }

  /** From position `pos`, the text up to the next match is literal, then the match, then the rest. */
  lemma {:induction false} ScanFound(s: string, pos: nat, start: nat)
    requires pos <= |s| && NextToken(s, pos) == Some(start)
    ensures Segments(s[pos..]) == Literals(s[pos..start]) + ([Token(Group1(s, start))] + Segments(s[MatchEnd(s, start)..]))
    decreases start - pos
  {
    if pos == start {
      ScanAtToken(s, start);
      assert Literals(s[pos..start]) == [];
    } else {
      NextTokenSkip(s, pos, start);
      SegmentsSkip(s[pos..]);
      assert s[pos..][1..] == s[pos + 1..];
      ScanFound(s, pos + 1, start);
      var lits := s[pos..start];
      assert lits[1..] == s[pos + 1..start];
      LiteralsCons(lits, [Token(Group1(s, start))] + Segments(s[MatchEnd(s, start)..]));
    }
  }

  /** From position `pos`, when no match follows, the rest of the text is literal. */
  lemma {:induction false} ScanNotFound(s: string, pos: nat)
    requires pos <= |s| && NextToken(s, pos).None?
    ensures Segments(s[pos..]) == Literals(s[pos..])
    decreases |s| - pos
  {
    if pos < |s| {
      SegmentsSkip(s[pos..]);
      assert s[pos..][1..] == s[pos + 1..];
      ScanNotFound(s, pos + 1);
    }
  }

  // ---------------------------------------------------------------- replacement

  /** A match becomes the mapped value of its trimmed group 1 verbatim, or stays as
      written when that name is unmapped. */
  function Substitute(inner: string, vars: map<string, string>): string {
    var name := Trim(inner);
    if name in vars then vars[name] else Raw(inner)
  }

  function Piece(seg: Segment, vars: map<string, string>): string {
    match seg
    case Literal(c) => [c]
    case Token(inner) => Substitute(inner, vars)
  }

  function Render(segs: seq<Segment>, vars: map<string, string>): string {
    if segs == [] then [] else Piece(segs[0], vars) + Render(segs[1..], vars)
  }

  lemma {:induction false} RenderAppend(a: seq<Segment>, b: seq<Segment>, vars: map<string, string>)
    ensures Render(a + b, vars) == Render(a, vars) + Render(b, vars)
  {
    if a == [] {
      assert a + b == b;
    } else {
      assert (a + b)[1..] == a[1..] + b;
      assert (a + b)[0] == a[0];
      RenderAppend(a[1..], b, vars);
    }
  }

  lemma {:induction false} RenderLiterals(t: string, vars: map<string, string>)
    ensures Render(Literals(t), vars) == t
  {
    if t != [] {
      RenderLiterals(t[1..], vars);
    }
  }

  /** The text with every placeholder substituted: the value `replaceVariables` computes. */
  function Replaced(s: string, vars: map<string, string>): string {
    Render(Segments(s), vars)
  }

  /** The pieces of one round, independent of where they came from. */
  lemma RoundPieces(lit: string, inner: string, rest: seq<Segment>, vars: map<string, string>)
    ensures Render(Literals(lit) + ([Token(inner)] + rest), vars) == lit + Substitute(inner, vars) + Render(rest, vars)
  {
    var tail := [Token(inner)] + rest;
    RenderAppend(Literals(lit), tail, vars);
    RenderLiterals(lit, vars);
    TokenHeadRendered(inner, rest, vars);
    AppendAssoc(lit, Substitute(inner, vars), Render(rest, vars));
  }

  lemma TokenHeadRendered(inner: string, rest: seq<Segment>, vars: map<string, string>)
    ensures Render([Token(inner)] + rest, vars) == Substitute(inner, vars) + Render(rest, vars)
  {
    TailAppend([Token(inner)], rest);
  }

  /** One round of the `find` loop: the text since the last match, the replacement, then the rest. */
  lemma FoundStep(s: string, pos: nat, start: nat, vars: map<string, string>)
    requires pos <= |s| && NextToken(s, pos) == Some(start)
    ensures Render(Segments(s[pos..]), vars)
         == s[pos..start] + Substitute(Group1(s, start), vars) + Render(Segments(s[MatchEnd(s, start)..]), vars)
  {
    ScanFound(s, pos, start);
    RoundPieces(s[pos..start], Group1(s, start), Segments(s[MatchEnd(s, start)..]), vars);
  }

  /** The last round: no further match, the tail is copied. */
  lemma NotFoundStep(s: string, pos: nat, vars: map<string, string>)
    requires pos <= |s| && NextToken(s, pos).None?
    ensures Render(Segments(s[pos..]), vars) == s[pos..]
  {
    ScanNotFound(s, pos);
    RenderLiterals(s[pos..], vars);
  }

  /** Before the loop: nothing appended yet, the whole text still to scan. */
  lemma ScanStart(s: string, vars: map<string, string>)
    ensures "" + Render(Segments(s[0..]), vars) == Replaced(s, vars)
  {
    assert s[0..] == s;
    assert "" + Replaced(s, vars) == Replaced(s, vars);
  }

  /** One round of the loop keeps what was appended plus what is still owed equal to the result. */
  lemma FoundRound(s: string, pos: nat, start: nat, vars: map<string, string>, result: string)
    requires pos <= |s| && NextToken(s, pos) == Some(start)
    requires result + Render(Segments(s[pos..]), vars) == Replaced(s, vars)
    ensures result + (s[pos..start] + Substitute(Group1(s, start), vars)) + Render(Segments(s[MatchEnd(s, start)..]), vars)
         == Replaced(s, vars)
  {
    FoundStep(s, pos, start, vars);
    AppendAssoc(result, s[pos..start] + Substitute(Group1(s, start), vars), Render(Segments(s[MatchEnd(s, start)..]), vars));
  }

  /** `replaceVariables(text, variables)`: a null text gives null; an empty text, a null
      variable map or an empty one gives the text back; otherwise every match found
      left to right is replaced and the text between matches is copied.  An unmapped
      placeholder is copied verbatim (see ReplacedAsWritten for the code as it stands). */
  method ReplaceVariables(text: Option<string>, variables: Option<map<string, string>>) returns (r: Option<string>)
    ensures text.None? ==> r.None?
    ensures text.Some? ==> r == Some(Replaced(text.value, variables.GetOr(map[])))
  {
    if text.None? || text.value == [] {
      return text;
    }
    if variables.None? || variables.value == map[] {
      ReplacedWithoutVariables(text.value, variables.GetOr(map[]));
      return text;
    }
    var s := text.value;
    var vars := variables.value;
    var result := "";
    var pos := 0;
    var found := NextToken(s, 0);
    ScanStart(s, vars);
    while found.Some?
      invariant pos <= |s| && found == NextToken(s, pos)
      invariant result + Render(Segments(s[pos..]), vars) == Replaced(s, vars)
      decreases |s| - pos
    {
      // appendReplacement: the text since the last match, then the value or the match itself
      var start := found.value;
      FoundRound(s, pos, start, vars, result);
      result := result + (s[pos..start] + Substitute(Group1(s, start), vars));
      pos := MatchEnd(s, start);
      found := NextToken(s, pos);
    }
    // appendTail
    NotFoundStep(s, pos, vars);
    r := Some(result + s[pos..]);
  }

  // ---------------------------------------------------------------- properties of Replaced

  /** Text without any placeholder comes back unchanged, whatever the variables. */
  lemma ReplacedWithoutTokens(s: string, vars: map<string, string>)
    requires NextToken(s, 0).None?
    ensures Replaced(s, vars) == s
  {
    NotFoundStep(s, 0, vars);
    assert s[0..] == s;
  }

  /** Every segment written back as it appeared: the scan loses nothing. */
  function Text(segs: seq<Segment>): string {
    if segs == [] then []
    else (match segs[0] case Literal(c) => [c] case Token(inner) => Raw(inner)) + Text(segs[1..])
  }

  /** A match is its group 1 between the braces, followed by the rest of the text. */
  lemma TokenAtRaw(s: string, n: nat)
    requires TokenAt(s) == Some(n)
    ensures s == Raw(s[2..n - 2]) + s[n..]
  {
    assert s[..2] == "{{" && s[n - 2..n] == "}}";
    assert s == s[..2] + s[2..n - 2] + s[n - 2..n] + s[n..];
  }

  lemma TextCons(seg: Segment, rest: seq<Segment>)
    ensures Text([seg] + rest) == (match seg case Literal(c) => [c] case Token(inner) => Raw(inner)) + Text(rest)
  {
    assert ([seg] + rest)[1..] == rest;
  }

  lemma {:induction false} SegmentsText(s: string)
    ensures Text(Segments(s)) == s
    decreases |s|
  {
    if s != [] {
      match TokenAt(s)
      case Some(n) =>
        SegmentsText(s[n..]);
        TextCons(Token(s[2..n - 2]), Segments(s[n..]));
        TokenAtRaw(s, n);
      case None =>
        SegmentsText(s[1..]);
        TextCons(Literal(s[0]), Segments(s[1..]));
        assert s == [s[0]] + s[1..];
    }
  }

  lemma {:induction false} RenderUnknown(segs: seq<Segment>, vars: map<string, string>)
    requires forall k :: 0 <= k < |segs| && segs[k].Token? ==> Trim(segs[k].inner) !in vars
    ensures Render(segs, vars) == Text(segs)
  {
    if segs != [] {
      RenderUnknown(segs[1..], vars);
    }
  }

  /** With no variables every placeholder is copied: the text comes back unchanged. */
  lemma ReplacedWithoutVariables(s: string, vars: map<string, string>)
    requires vars == map[]
    ensures Replaced(s, vars) == s
  {
    RenderUnknown(Segments(s), vars);
    SegmentsText(s);
  }

  /** The names of the placeholders, in scan order, before empty ones are dropped. */
  function TokenNames(segs: seq<Segment>): seq<string> {
    if segs == [] then [] else SegmentName(segs[0]) + TokenNames(segs[1..])
  }

  /** The name a segment contributes: none for a literal, the trimmed group for a match. */
  function SegmentName(seg: Segment): seq<string> {
    match seg
    case Literal(_) => []
    case Token(inner) => [Trim(inner)]
  }

  lemma ConcatAssoc(a: seq<string>, b: seq<string>, c: seq<string>)
    ensures a + (b + c) == a + b + c
  {
  }

  function NamesIn(s: string): seq<string> {
    TokenNames(Segments(s))
  }

  lemma {:induction false} LiteralNames(t: string)
    ensures TokenNames(Literals(t)) == []
  {
    if t != [] {
      LiteralNames(t[1..]);
    }
  }

  lemma {:induction false} TokenNamesAppend(a: seq<Segment>, b: seq<Segment>)
    ensures TokenNames(a + b) == TokenNames(a) + TokenNames(b)
  {
    if a == [] {
      assert a + b == b;
    } else {
      TailAppend(a, b);
      TokenNamesAppend(a[1..], b);
      ConcatAssoc(SegmentName(a[0]), TokenNames(a[1..]), TokenNames(b));
    }
  }

  lemma {:induction false} TokenNamesAt(segs: seq<Segment>, k: nat)
    requires k < |segs| && segs[k].Token?
    ensures Trim(segs[k].inner) in TokenNames(segs)
  {
    if k > 0 {
      assert segs[1..][k - 1] == segs[k];
      TokenNamesAt(segs[1..], k - 1);
    }
  }

  /** A placeholder whose name has no value is kept verbatim; when no name is mapped the whole text is unchanged. */
  lemma UnknownPlaceholdersKept(s: string, vars: map<string, string>)
    requires forall name :: name in NamesIn(s) ==> name !in vars
    ensures Replaced(s, vars) == s
  {
    var segs := Segments(s);
    forall k | 0 <= k < |segs| && segs[k].Token? ensures Trim(segs[k].inner) !in vars {
      TokenNamesAt(segs, k);
    }
    RenderUnknown(segs, vars);
    SegmentsText(s);
  }

  /** A text that starts with a placeholder scans as that placeholder, then the rest. */
  lemma SegmentsOfRaw(inner: string, rest: string)
    requires inner != [] && '}' !in inner
    ensures Segments(Raw(inner) + rest) == [Token(inner)] + Segments(rest)
  {
    var s := Raw(inner) + rest;
    var n := |inner| + 4;
    assert forall k :: 2 <= k < n - 2 ==> s[k] == inner[k - 2];
    assert MatchesToken(s, n);
    TokenAtExact(s, n);
    assert s[2..n - 2] == inner;
    assert s[n..] == rest;
  }

  /** A value is inserted verbatim and never scanned again: a text that starts with a
      placeholder is its substitution followed by the substitution of the rest. */
  lemma NoRescan(inner: string, rest: string, vars: map<string, string>)
    requires inner != [] && '}' !in inner
    ensures Replaced(Raw(inner) + rest, vars) == Substitute(inner, vars) + Replaced(rest, vars)
  {
    SegmentsOfRaw(inner, rest);
  }

  /** A character that cannot open a placeholder is copied and the scan moves on. */
  lemma LiteralHead(c: char, rest: string, vars: map<string, string>)
    requires c != '{'
    ensures Replaced([c] + rest, vars) == [c] + Replaced(rest, vars)
  {
    var s := [c] + rest;
    assert s[1..] == rest;
  }

  /** The text before the first placeholder is kept in place. */
  lemma PrefixKept(s: string, vars: map<string, string>, start: nat)
    requires NextToken(s, 0) == Some(start)
    ensures s[..start] <= Replaced(s, vars)
  {
    FoundStep(s, 0, start, vars);
    ScanStart(s, vars);
    PrefixOfConcat(s[0..start], Substitute(Group1(s, start), vars), Render(Segments(s[MatchEnd(s, start)..]), vars));
    assert s[0..start] == s[..start];
  }

  lemma PrefixOfConcat(a: string, b: string, c: string)
    ensures a <= a + b + c
  {
    assert (a + b + c)[..|a|] == a;
  }

  /** The lookup name is trimmed: `{{ host }}` is looked up as `host`. */
  lemma ExampleTrimmedName()
    ensures Replaced("{{ host }}", map["host" := "h"]) == "h"
  {
    var vars := map["host" := "h"];
    var inner := " host ";
    assert "{{ host }}" == Raw(inner) + "";
    NoRescan(inner, "", vars);
    PaddedHostSubstituted(vars);
    assert Replaced("", vars) == "";
  }

  lemma PaddedHostSubstituted(vars: map<string, string>)
    requires "host" in vars
    ensures Substitute(" host ", vars) == vars["host"]
  {
    TrimPadded(" ", "host", " ");
    assert " host " == " " + "host" + " ";
  }

  // ---------------------------------------------------------------- containsVariables

  /** `containsVariables(text)`: false for a null or empty text, else whether `find` succeeds. */
  function ContainsVariables(text: Option<string>): (r: bool)
    ensures r <==> text.Some? && exists i :: HasTokenAt(text.value, i)
  {
    if text.Some? && text.value != [] && NextToken(text.value, 0).None? then
      assert forall i :: !HasTokenAt(text.value, i) by {
        forall i | 0 <= i < |text.value| ensures !HasTokenAt(text.value, i) {
          NextTokenLeftmost(text.value, 0, i);
        }
      }
      false
    else
      text.Some? && text.value != [] && NextToken(text.value, 0).Some?
  }

  /** When `containsVariables` is false, `replaceVariables` returns its input. */
  lemma NoVariablesNoChange(s: string, vars: map<string, string>)
    requires !ContainsVariables(Some(s))
    ensures Replaced(s, vars) == s
  {
    if s != [] {
      ReplacedWithoutTokens(s, vars);
    }
  }

  // ---------------------------------------------------------------- extractVariableNames

  /** The list `extractVariableNames` builds: each name appended unless it is empty or already present. */
  function AddNames(acc: seq<string>, names: seq<string>): seq<string>
    decreases |names|
  {
    if names == [] then acc
    else AddNames(if names[0] != "" && names[0] !in acc then acc + [names[0]] else acc, names[1..])
  }

  /** Reference definition: the non-empty names at the positions where they occur for the first time. */
  function FirstOccurrences(names: seq<string>): seq<string> {
    if names == [] then []
    else
      var init := names[..|names| - 1];
      var last := names[|names| - 1];
      FirstOccurrences(init) + (if last != "" && last !in init then [last] else [])
  }

  predicate Distinct(xs: seq<string>) {
    forall i, j :: 0 <= i < j < |xs| ==> xs[i] != xs[j]
  }

  /** A name is a first occurrence iff it is a non-empty name of the input. */
  lemma {:induction false} FirstOccurrencesMembers(names: seq<string>, x: string)
    ensures x in FirstOccurrences(names) <==> x != "" && x in names
  {
    if names != [] {
      var init := names[..|names| - 1];
      FirstOccurrencesMembers(init, x);
      assert names == init + [names[|names| - 1]];
    }
  }

  /** The first occurrences contain no duplicates and no empty name. */
  lemma {:induction false} FirstOccurrencesDistinct(names: seq<string>)
    ensures Distinct(FirstOccurrences(names)) && "" !in FirstOccurrences(names)
  {
    if names != [] {
      var init := names[..|names| - 1];
      var last := names[|names| - 1];
      FirstOccurrencesDistinct(init);
      FirstOccurrencesMembers(init, last);
    }
  }

  /** Adding one more name to the input adds it to the first occurrences exactly when it is new. */
  lemma FirstOccurrencesSnoc(done: seq<string>, x: string)
    ensures FirstOccurrences(done + [x])
         == if x != "" && x !in FirstOccurrences(done) then FirstOccurrences(done) + [x] else FirstOccurrences(done)
  {
    var d := done + [x];
    assert d[..|d| - 1] == done;
    assert d[|d| - 1] == x;
    FirstOccurrencesMembers(done, x);
  }

  /** The list built by the loop is the list of first occurrences. */
  lemma {:induction false} AddNamesFirstOccurrences(done: seq<string>, rest: seq<string>)
    ensures AddNames(FirstOccurrences(done), rest) == FirstOccurrences(done + rest)
    decreases |rest|
  {
    if rest == [] {
      assert done + rest == done;
    } else {
      var x := rest[0];
      FirstOccurrencesSnoc(done, x);
      assert AddNames(FirstOccurrences(done), rest) == AddNames(FirstOccurrences(done + [x]), rest[1..]);
      AddNamesFirstOccurrences(done + [x], rest[1..]);
      assert done + [x] + rest[1..] == done + rest;
    }
  }

  /** One round of the names loop: the name of the match, then the names of the rest. */
  lemma NamesStep(s: string, pos: nat, start: nat)
    requires pos <= |s| && NextToken(s, pos) == Some(start)
    ensures TokenNames(Segments(s[pos..])) == [Trim(Group1(s, start))] + TokenNames(Segments(s[MatchEnd(s, start)..]))
  {
    var lit := Literals(s[pos..start]);
    var rest := Segments(s[MatchEnd(s, start)..]);
    ScanFound(s, pos, start);
    TokenNamesAppend(lit, [Token(Group1(s, start))] + rest);
    TokenNamesAppend([Token(Group1(s, start))], rest);
    LiteralNames(s[pos..start]);
  }

  lemma NamesRound(s: string, pos: nat, start: nat, names: seq<string>, goal: seq<string>)
    requires pos <= |s| && NextToken(s, pos) == Some(start)
    requires AddNames(names, TokenNames(Segments(s[pos..]))) == goal
    ensures var name := Trim(Group1(s, start));
            AddNames(if name != [] && name !in names then names + [name] else names,
                     TokenNames(Segments(s[MatchEnd(s, start)..]))) == goal
  {
    NamesStep(s, pos, start);
    var all := [Trim(Group1(s, start))] + TokenNames(Segments(s[MatchEnd(s, start)..]));
    assert all[0] == Trim(Group1(s, start));
    assert all[1..] == TokenNames(Segments(s[MatchEnd(s, start)..]));
  }

  lemma NamesEnd(s: string, pos: nat, names: seq<string>)
    requires pos <= |s| && NextToken(s, pos).None?
    ensures AddNames(names, TokenNames(Segments(s[pos..]))) == names
  {
    ScanNotFound(s, pos);
    LiteralNames(s[pos..]);
  }

  /** `extractVariableNames(text)`: the trimmed non-empty names of the placeholders,
      each once, in the order they first occur; an empty list for a null or empty text. */
  method ExtractVariableNames(text: Option<string>) returns (names: seq<string>)
    ensures text.None? ==> names == []
    ensures text.Some? ==> names == FirstOccurrences(NamesIn(text.value))
  {
    names := [];
    if text.None? || text.value == [] {
      return;
    }
    var s := text.value;
    var pos := 0;
    var found := NextToken(s, 0);
    assert s[0..] == s;
    AddNamesFirstOccurrences([], NamesIn(s));
    assert [] + NamesIn(s) == NamesIn(s);
    while found.Some?
      invariant pos <= |s| && found == NextToken(s, pos)
      invariant AddNames(names, TokenNames(Segments(s[pos..]))) == FirstOccurrences(NamesIn(s))
      decreases |s| - pos
    {
      var start := found.value;
      NamesRound(s, pos, start, names, FirstOccurrences(NamesIn(s)));
      var name := Trim(Group1(s, start));
      if name != [] && name !in names {
        names := names + [name];
      }
      pos := MatchEnd(s, start);
      found := NextToken(s, pos);
    }
    NamesEnd(s, pos, names);
  }

  /** The extracted names: no duplicates, no empty name, exactly the non-empty placeholder names. */
  lemma ExtractedNames(s: string, x: string)
    ensures Distinct(FirstOccurrences(NamesIn(s))) && "" !in FirstOccurrences(NamesIn(s))
    ensures x in FirstOccurrences(NamesIn(s)) <==> x != "" && x in NamesIn(s)
  {
    FirstOccurrencesDistinct(NamesIn(s));
    FirstOccurrencesMembers(NamesIn(s), x);
  }

  // ---------------------------------------------------------------- the code as written

  /** `appendReplacement` interprets its replacement string: `\c` stands for `c`, `$g` for
      group `g` (the pattern has groups 0 and 1; after the first digit further digits
      are absorbed while the number stays a group), and anything else after `$`, a trailing
      `\` or `$`, or a group above 1 throws (IllegalArgumentException /
      IndexOutOfBoundsException).  None stands for the exception. */
  function ExpandReplacement(rep: string, group0: string, group1: string): (r: Option<string>)
    ensures r.None? ==> '\\' in rep || '$' in rep
    decreases |rep|
  {
    if rep == [] then Some([])
    else if rep[0] == '\\' then
      if |rep| == 1 then None
      else Prepend([rep[1]], ExpandReplacement(rep[2..], group0, group1))
    else if rep[0] == '$' then
      if |rep| == 1 || !('0' <= rep[1] <= '9') then None
      else
        var (num, next) := GroupReference(rep, 2, rep[1] as int - '0' as int);
        if num > 1 then None
        else Prepend(if num == 0 then group0 else group1, ExpandReplacement(rep[next..], group0, group1))
    else Prepend([rep[0]], ExpandReplacement(rep[1..], group0, group1))
  }

  /** The digits after `$`: further digits are absorbed while the number is still a group (0 or 1). */
  function GroupReference(rep: string, i: nat, num: nat): (r: (nat, nat))
    requires i <= |rep|
    ensures i <= r.1 <= |rep|
    decreases |rep| - i
  {
    if i < |rep| && '0' <= rep[i] <= '9' && num * 10 + (rep[i] as int - '0' as int) <= 1
    then GroupReference(rep, i + 1, num * 10 + (rep[i] as int - '0' as int))
    else (num, i)
  }

  function Prepend(p: string, r: Option<string>): Option<string> {
    match r
    case None => None
    case Some(t) => Some(p + t)
  }

  /** A prefix without `\` and `$` is copied in front of the expansion of the rest. */
  lemma {:induction false} ExpandPlainPrefix(p: string, rest: string, group0: string, group1: string)
    requires '\\' !in p && '$' !in p
    ensures ExpandReplacement(p + rest, group0, group1) == Prepend(p, ExpandReplacement(rest, group0, group1))
  {
    if p == [] {
      assert p + rest == rest;
      match ExpandReplacement(rest, group0, group1)
      case None =>
      case Some(t) => assert p + t == t;
    } else {
      assert (p + rest)[0] == p[0];
      assert (p + rest)[1..] == p[1..] + rest;
      ExpandPlainPrefix(p[1..], rest, group0, group1);
      match ExpandReplacement(rest, group0, group1)
      case None =>
      case Some(t) => assert [p[0]] + (p[1..] + t) == p + t;
    }
  }

  /** A replacement string without `\` and `$` stands for itself. */
  lemma ExpandPlain(rep: string, group0: string, group1: string)
    requires '\\' !in rep && '$' !in rep
    ensures ExpandReplacement(rep, group0, group1) == Some(rep)
  {
    ExpandPlainPrefix(rep, [], group0, group1);
    assert rep + [] == rep;
  }

  /** An unmapped placeholder that `appendReplacement` cannot expand: the source of the exception. */
  predicate Unexpandable(seg: Segment, vars: map<string, string>) {
    seg.Token? && Trim(seg.inner) !in vars && ExpandReplacement(Raw(seg.inner), Raw(seg.inner), seg.inner).None?
  }

  lemma ShiftUnexpandable(segs: seq<Segment>, vars: map<string, string>)
    requires segs != []
    requires exists k :: 0 <= k < |segs[1..]| && Unexpandable(segs[1..][k], vars)
    ensures exists k :: 0 <= k < |segs| && Unexpandable(segs[k], vars)
  {
    var k :| 0 <= k < |segs[1..]| && Unexpandable(segs[1..][k], vars);
    assert segs[1..][k] == segs[k + 1];
  }

  /** The loop of replaceVariables as it stands: an unmapped match is passed to
      `appendReplacement` unquoted, so its text is interpreted as a replacement string.
      The loop throws only at an unmapped placeholder that does not expand. */
  function RenderAsWritten(segs: seq<Segment>, vars: map<string, string>): (r: Option<string>)
    ensures r.None? ==> exists k :: 0 <= k < |segs| && Unexpandable(segs[k], vars)
  {
    if segs == [] then Some([])
    else
      var rest := RenderAsWritten(segs[1..], vars);
      assert rest.None? ==> exists k :: 0 <= k < |segs| && Unexpandable(segs[k], vars) by {
        if rest.None? { ShiftUnexpandable(segs, vars); }
      }
      match segs[0]
      case Literal(c) => Prepend([c], RenderAsWritten(segs[1..], vars))
      case Token(inner) =>
        var name := Trim(inner);
        if name in vars then Prepend(vars[name], RenderAsWritten(segs[1..], vars))
        else
          match ExpandReplacement(Raw(inner), Raw(inner), inner)
          case None => None
          case Some(e) => Prepend(e, RenderAsWritten(segs[1..], vars))
  }

  /** replaceVariables as written; None stands for the exception that escapes it, which
      only an unmapped placeholder can raise. */
  function ReplacedAsWritten(s: string, vars: map<string, string>): (r: Option<string>)
    ensures r.None? ==> exists name :: name in NamesIn(s) && name !in vars
  {
    var r := RenderAsWritten(Segments(s), vars);
    assert r.None? ==> exists name :: name in NamesIn(s) && name !in vars by {
      if r.None? {
        var segs := Segments(s);
        var k :| 0 <= k < |segs| && Unexpandable(segs[k], vars);
        TokenNamesAt(segs, k);
      }
    }
    r
  }

  lemma {:induction false} RenderAsWrittenPlain(segs: seq<Segment>, vars: map<string, string>)
    requires forall k :: 0 <= k < |segs| && segs[k].Token? ==> '\\' !in segs[k].inner && '$' !in segs[k].inner
    ensures RenderAsWritten(segs, vars) == Some(Render(segs, vars))
  {
    if segs != [] {
      RenderAsWrittenPlain(segs[1..], vars);
      if segs[0].Token? {
        var inner := segs[0].inner;
        ExpandPlain(Raw(inner), Raw(inner), inner);
      }
    }
  }

  lemma {:induction false} SegmentsContained(s: string, k: nat, c: char)
    requires k < |Segments(s)| && Segments(s)[k].Token? && c in Segments(s)[k].inner
    ensures c in s
    decreases |s|
  {
    if s != [] {
      match TokenAt(s)
      case Some(n) =>
        if k > 0 {
          SegmentsContained(s[n..], k - 1, c);
        } else {
          var i :| 0 <= i < |s[2..n - 2]| && s[2..n - 2][i] == c;
          assert s[i + 2] == c;
        }
      case None =>
        SegmentsContained(s[1..], k - 1, c);
    }
  }

  /** Without `$` and `\` in the text, the code as written and the corrected replacement agree. */
  lemma AsWrittenAgrees(s: string, vars: map<string, string>)
    requires '\\' !in s && '$' !in s
    ensures ReplacedAsWritten(s, vars) == Some(Replaced(s, vars))
  {
    var segs := Segments(s);
    forall k | 0 <= k < |segs| && segs[k].Token? ensures '\\' !in segs[k].inner && '$' !in segs[k].inner {
      if '\\' in segs[k].inner { SegmentsContained(s, k, '\\'); }
      if '$' in segs[k].inner { SegmentsContained(s, k, '$'); }
    }
    RenderAsWrittenPlain(segs, vars);
  }

  /** A lone unmapped placeholder: kept verbatim by the corrected replacement, but
      interpreted as a replacement string by the code as written. */
  lemma SingleUnmapped(inner: string, vars: map<string, string>)
    requires inner != [] && '}' !in inner && Trim(inner) !in vars
    ensures Replaced(Raw(inner), vars) == Raw(inner)
    ensures ReplacedAsWritten(Raw(inner), vars) == ExpandReplacement(Raw(inner), Raw(inner), inner)
  {
    var s := Raw(inner);
    assert s + "" == s;
    SegmentsOfRaw(inner, "");
    var segs := Segments(s);
    assert segs == [Token(inner)];
    assert segs[1..] == [];
    assert Render(segs, vars) == Substitute(inner, vars) + Render(segs[1..], vars);
    assert Substitute(inner, vars) + [] == Raw(inner);
    match ExpandReplacement(s, s, inner)
    case None =>
    case Some(e) =>
      assert RenderAsWritten(segs, vars) == Prepend(e, RenderAsWritten(segs[1..], vars));
      assert e + [] == e;
  }

  /** The text of a match cut after its group's first part. */
  lemma RawSplit(p: string, mid: string, q: string)
    ensures Raw(p + mid + q) == ("{{" + p) + (mid + (q + "}}"))
  {
  }

  /** An unmapped placeholder holding `$` followed by anything but a digit (`{{a$b}}`, say)
      makes the code as written throw, where the placeholder should be kept. */
  lemma AsWrittenDollarThrows(p: string, c: char, q: string, vars: map<string, string>)
    requires '\\' !in p && '$' !in p && '}' !in p && '}' !in q && c != '}' && !('0' <= c <= '9')
    requires Trim(p + ['$', c] + q) !in vars
    ensures ReplacedAsWritten(Raw(p + ['$', c] + q), vars).None?
    ensures Replaced(Raw(p + ['$', c] + q), vars) == Raw(p + ['$', c] + q)
  {
    var inner := p + ['$', c] + q;
    var rest := ['$', c] + (q + "}}");
    RawSplit(p, ['$', c], q);
    NoBraceIn(p, ['$', c], q);
    SingleUnmapped(inner, vars);
    PlainOpening(p);
    ExpandPlainPrefix("{{" + p, rest, Raw(inner), inner);
    assert rest[0] == '$' && rest[1] == c;
  }

  /** An unmapped placeholder holding `\c` (`{{a\b}}`, say) loses its backslash in the
      code as written, where the placeholder should be kept. */
  lemma AsWrittenBackslashDropped(p: string, c: char, q: string, vars: map<string, string>)
    requires '\\' !in p && '$' !in p && '}' !in p && c != '}'
    requires '\\' !in q && '$' !in q && '}' !in q
    requires Trim(p + ['\\', c] + q) !in vars
    ensures ReplacedAsWritten(Raw(p + ['\\', c] + q), vars) == Some(Raw(p + [c] + q))
    ensures Replaced(Raw(p + ['\\', c] + q), vars) == Raw(p + ['\\', c] + q)
  {
    var inner := p + ['\\', c] + q;
    var head := "{{" + p;
    var tail := q + "}}";
    RawSplit(p, ['\\', c], q);
    RawSplit(p, [c], q);
    NoBraceIn(p, ['\\', c], q);
    SingleUnmapped(inner, vars);
    PlainOpening(p);
    ExpandPlainPrefix(head, ['\\', c] + tail, Raw(inner), inner);
    ExpandEscape(c, tail, Raw(inner), inner);
    assert ExpandReplacement(Raw(inner), Raw(inner), inner) == Some(head + ([c] + tail));
  }

  lemma NoBraceIn(p: string, mid: string, q: string)
    requires '}' !in p && '}' !in mid && '}' !in q
    ensures '}' !in p + mid + q
  {
  }

  /** The text before a group's first part holds no `\` and no `$`. */
  lemma PlainOpening(p: string)
    requires '\\' !in p && '$' !in p
    ensures '\\' !in "{{" + p && '$' !in "{{" + p
  {
  }

  /** `\c` followed by plain text stands for `c` and that text. */
  lemma ExpandEscape(c: char, tail: string, group0: string, group1: string)
    requires '\\' !in tail && '$' !in tail
    ensures ExpandReplacement(['\\', c] + tail, group0, group1) == Some([c] + tail)
  {
    var rest := ['\\', c] + tail;
    assert rest[2..] == tail;
    ExpandPlain(tail, group0, group1);
  }
}
