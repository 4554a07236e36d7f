/** The decisions of controller/ApiController.java that do not touch Swing or threads: the
    empty-URL guard of `executeApiCall`, the status label of `displayResponse`, and the
    character-by-character JSON indenter `formatJson`.  Its other helpers (`isJson`, `isXml`,
    `isHtml`, `formatXml`, `truncateText`, `getIndent`, `getStatusText`) have the same bodies
    as those of ResponseFormatter and are modelled there. */
module Controller {
  import opened Wrappers
  import opened JavaText
  import opened Responses
  import opened ResponseFormatter
  import opened ApiCall

  // ---------------------------------------------------------------- executeApiCall

  const EmptyUrlMessage := "Error: URL cannot be empty"

  /** What `executeApiCall` does with the URL field: show the error, or go on to build and
      submit the call. */
  datatype Dispatch = Rejected(message: string) | Submitted

  function Guard(url: string): Dispatch {
    if url == [] then Rejected(EmptyUrlMessage) else Submitted
  }

  /** Only the empty URL is stopped by the controller.  A URL of blanks goes through, and the
      builder `fromUI` makes from it answers 400 whatever the network would have done. */
  lemma GuardAndBuilder(url: string, httpMethod: Option<string>, headersText: Option<string>, bodyText: Option<string>,
                        authType: Option<string>, username: Option<string>, password: Option<string>, token: Option<string>,
                        queryParamsText: Option<string>, itemId: int, itemVariables: map<string, string>, o: Outcome)
    ensures Guard(url).Rejected? <==> url == []
    ensures Guard(url).Rejected? ==> Guard(url).message == EmptyUrlMessage
    ensures url != [] && IsBlankTrim(url) ==>
            Guard(url) == Submitted
            && Respond(UIAuth(FromUIBase(Some(url), httpMethod, headersText, bodyText, queryParamsText, itemId, itemVariables),
                              authType, username, password, token), o)
               == Reply(400, Some(UrlErrorBody), None)
  {
    var base := FromUIBase(Some(url), httpMethod, headersText, bodyText, queryParamsText, itemId, itemVariables);
    UIAuthKeepsUrl(base, authType, username, password, token);
  }

  lemma UIAuthKeepsUrl(st: BuilderState, authType: Option<string>, username: Option<string>, password: Option<string>,
                       token: Option<string>)
    ensures UIAuth(st, authType, username, password, token).url == st.url
  {
  }

  // ---------------------------------------------------------------- displayResponse

  /** The word after "STATUS: " in `displayResponse`. */
  function StatusLabel(code: int): string {
    if IsSuccessCode(code) then "SUCCESS"
    else if 400 <= code < 500 then "WARNING"
    else "ERROR"
  }

  /** The three labels split the codes: SUCCESS for 2xx, WARNING for 4xx, ERROR for everything
      else, 1xx, 3xx and 5xx included.  A WARNING is always an error response, and every code
      that is not a success is labelled WARNING or ERROR. */
  lemma StatusLabelPartition(code: int)
    ensures StatusLabel(code) == "SUCCESS" <==> 200 <= code < 300
    ensures StatusLabel(code) == "WARNING" <==> 400 <= code < 500
    ensures StatusLabel(code) == "ERROR" <==> code < 200 || 300 <= code < 400 || code >= 500
    ensures StatusLabel(code) == "WARNING" ==> IsErrorCode(code)
    ensures !IsSuccessCode(code) <==> StatusLabel(code) in {"WARNING", "ERROR"}
  {
  }

  // ---------------------------------------------------------------- formatJson

  /** The text built so far, the indentation level and whether the scan is inside quotes. */
  datatype JsonAcc = JsonAcc(out: string, level: int, inQuotes: bool)

  /** A `"` flips the quote state unless the last character written is a backslash. */
  function QuoteState(acc: JsonAcc, c: char): bool {
    if c == '"' && (acc.out == [] || acc.out[|acc.out| - 1] != '\\') then !acc.inQuotes else acc.inQuotes
  }

  /** One character of `formatJson`: inside quotes it is copied; outside, an opening bracket is
      followed by a line break and the deeper indentation, a closing bracket preceded by a line
      break and the shallower one, a comma followed by a line break and the indentation, and a
      colon by a space. */
  function JsonStep(acc: JsonAcc, c: char): JsonAcc {
    var q := QuoteState(acc, c);
    if q then JsonAcc(acc.out + [c], acc.level, q)
    else if c == '{' || c == '[' then JsonAcc(acc.out + [c] + "\n" + Indent(acc.level + 1), acc.level + 1, q)
    else if c == '}' || c == ']' then JsonAcc(acc.out + "\n" + Indent(acc.level - 1) + [c], acc.level - 1, q)
    else if c == ',' then JsonAcc(acc.out + [c] + "\n" + Indent(acc.level), acc.level, q)
    else if c == ':' then JsonAcc(acc.out + [c] + " ", acc.level, q)
    else JsonAcc(acc.out + [c], acc.level, q)
  }

  /** The characters of `s` read one after another from `acc`. */
  function JsonRun(acc: JsonAcc, s: string): JsonAcc
    decreases |s|
  {
    if s == [] then acc else JsonRun(JsonStep(acc, s[0]), s[1..])
  }

  function JsonFold(s: string): JsonAcc {
    JsonRun(JsonAcc("", 0, false), s)
  }

  /** `formatJson(json)`; nothing in its loop can throw, so its catch branch is never taken. */
  method FormatJson(json: string) returns (r: string)
    ensures r == JsonFold(json).out
  {
    var indentLevel := 0;
    var formatted := "";
    var inQuotes := false;
    for i := 0 to |json|
      invariant JsonRun(JsonAcc(formatted, indentLevel, inQuotes), json[i..]) == JsonFold(json)
    {
      assert json[i..][1..] == json[i + 1..];
      var c := json[i];
      if c == '"' && (|formatted| == 0 || formatted[|formatted| - 1] != '\\') {
        inQuotes := !inQuotes;
      }
      if !inQuotes {
        if c == '{' || c == '[' {
          formatted := formatted + [c] + "\n";
          indentLevel := indentLevel + 1;
          formatted := formatted + Indent(indentLevel);
        } else if c == '}' || c == ']' {
          formatted := formatted + "\n";
          indentLevel := indentLevel - 1;
          formatted := formatted + Indent(indentLevel);
          formatted := formatted + [c];
        } else if c == ',' {
          formatted := formatted + [c] + "\n";
          formatted := formatted + Indent(indentLevel);
        } else if c == ':' {
          formatted := formatted + [c] + " ";
        } else {
          formatted := formatted + [c];
        }
      } else {
        formatted := formatted + [c];
      }
    }
    r := formatted;
  }

  lemma {:induction false} JsonRunAppend(acc: JsonAcc, a: string, b: string)
    ensures JsonRun(acc, a + b) == JsonRun(JsonRun(acc, a), b)
    decreases |a|
  {
    if a == [] {
      assert a + b == b;
    } else {
      assert (a + b)[1..] == a[1..] + b;
      JsonRunAppend(JsonStep(acc, a[0]), a[1..], b);
    }
  }

  // ------------------------------------- what formatJson adds: line breaks and spaces only

  predicate IsLayout(c: char) {
    c == ' ' || c == '\n'
  }

  /** The text without its spaces and line breaks. */
  function DropLayout(s: string): string
    decreases |s|
  {
    if s == [] then [] else (if IsLayout(s[0]) then [] else [s[0]]) + DropLayout(s[1..])
  }

  lemma {:induction false} DropLayoutAppend(a: string, b: string)
    ensures DropLayout(a + b) == DropLayout(a) + DropLayout(b)
    decreases |a|
  {
    if a == [] {
      assert a + b == b;
    } else {
      assert (a + b)[1..] == a[1..] + b;
      DropLayoutAppend(a[1..], b);
      AppendAssoc(if IsLayout(a[0]) then [] else [a[0]], DropLayout(a[1..]), DropLayout(b));
    }
  }

  lemma {:induction false} DropLayoutOfLayout(s: string)
    requires forall k :: 0 <= k < |s| ==> IsLayout(s[k])
    ensures DropLayout(s) == []
    decreases |s|
  {
    if s != [] {
      DropLayoutOfLayout(s[1..]);
    }
  }

  /** What one step writes before and after the character it reads. */
  function Before(acc: JsonAcc, c: char): string {
    if !QuoteState(acc, c) && (c == '}' || c == ']') then "\n" + Indent(acc.level - 1) else ""
  }

  function After(acc: JsonAcc, c: char): string {
    if QuoteState(acc, c) then ""
    else if c == '{' || c == '[' then "\n" + Indent(acc.level + 1)
    else if c == ',' then "\n" + Indent(acc.level)
    else if c == ':' then " "
    else ""
  }

  /** Every step writes its character once, with only spaces and line breaks around it, and
      what comes before it is never the character itself. */
  lemma JsonStepPieces(acc: JsonAcc, c: char)
    ensures JsonStep(acc, c).out == acc.out + (Before(acc, c) + [c] + After(acc, c))
    ensures forall k :: 0 <= k < |Before(acc, c)| ==> IsLayout(Before(acc, c)[k]) && Before(acc, c)[k] != c
    ensures forall k :: 0 <= k < |After(acc, c)| ==> IsLayout(After(acc, c)[k])
  {
    var q := QuoteState(acc, c);
    var b, a := Before(acc, c), After(acc, c);
    if !q && (c == '}' || c == ']') {
      assert b == "\n" + Indent(acc.level - 1);
      assert forall k :: 1 <= k < |b| ==> b[k] == Indent(acc.level - 1)[k - 1];
    }
    if !q && (c == '{' || c == '[') {
      assert forall k :: 1 <= k < |a| ==> a[k] == Indent(acc.level + 1)[k - 1];
    }
    if !q && c == ',' {
      assert forall k :: 1 <= k < |a| ==> a[k] == Indent(acc.level)[k - 1];
    }
  }

  /** Removing spaces and line breaks from one step's output leaves what removing them from
      the character leaves. */
  lemma JsonStepLayout(acc: JsonAcc, c: char)
    ensures DropLayout(JsonStep(acc, c).out) == DropLayout(acc.out) + DropLayout([c])
  {
    JsonStepPieces(acc, c);
    var b, a := Before(acc, c), After(acc, c);
    DropLayoutOfLayout(b);
    DropLayoutOfLayout(a);
    DropLayoutAppend(b, [c]);
    DropLayoutAppend(b + [c], a);
    DropLayoutAppend(acc.out, b + [c] + a);
  }

  /** `a` occurs in `b` in order, possibly with other characters between (matched greedily). */
  predicate IsSubseq(a: string, b: string)
    decreases |b|
  {
    a == [] || (b != [] && if a[0] == b[0] then IsSubseq(a[1..], b[1..]) else IsSubseq(a, b[1..]))
  }

  /** A character in front never breaks a subsequence. */
  lemma {:induction false} SubseqCons(t: string, x: char, v: string)
    requires IsSubseq(t, v)
    ensures IsSubseq(t, [x] + v)
    decreases |v|
  {
    var w := [x] + v;
    assert w[1..] == v;
    if t != [] && t[0] == x {
      if t[0] == v[0] {
        SubseqCons(t[1..], v[0], v[1..]);
        assert [v[0]] + v[1..] == v;
      } else {
        SubseqCons(t, x, v[1..]);
        assert ([x] + v[1..])[1..] == v[1..];
        SubseqCons(t[1..], v[0], v[1..]);
        assert [v[0]] + v[1..] == v;
      }
    }
  }

  lemma {:induction false} SubseqPrepend(t: string, p: string, v: string)
    requires IsSubseq(t, v)
    ensures IsSubseq(t, p + v)
    decreases |p|
  {
    if p != [] {
      SubseqPrepend(t, p[1..], v);
      SubseqCons(t, p[0], p[1..] + v);
      assert [p[0]] + (p[1..] + v) == p + v;
    } else {
      assert p + v == v;
    }
  }

  /** Skipping a prefix that does not hold the next character, then matching it. */
  lemma {:induction false} SubseqStep(c: char, t: string, pre: string, post: string, u: string)
    requires forall k :: 0 <= k < |pre| ==> pre[k] != c
    requires IsSubseq(t, u)
    ensures IsSubseq([c] + t, pre + [c] + post + u)
    decreases |pre|
  {
    var w := pre + [c] + post + u;
    if pre == [] {
      assert w == [c] + (post + u);
      SubseqPrepend(t, post, u);
      assert ([c] + t)[1..] == t;
    } else {
      SubseqStep(c, t, pre[1..], post, u);
      assert w[1..] == pre[1..] + [c] + post + u;
    }
  }

  /** Running the indenter from `acc` keeps what was written and appends to it. */
  lemma {:induction false} JsonRunExtends(acc: JsonAcc, s: string)
    ensures acc.out <= JsonRun(acc, s).out
    decreases |s|
  {
    if s != [] {
      JsonStepPieces(acc, s[0]);
      JsonRunExtends(JsonStep(acc, s[0]), s[1..]);
    }
  }

  /** The input is a subsequence of what the indenter appends. */
  lemma {:induction false} JsonRunSubseq(acc: JsonAcc, s: string)
    ensures |acc.out| <= |JsonRun(acc, s).out|
    ensures IsSubseq(s, JsonRun(acc, s).out[|acc.out|..])
    decreases |s|
  {
    JsonRunExtends(acc, s);
    if s != [] {
      var c := s[0];
      var next := JsonStep(acc, c);
      JsonRunSubseq(next, s[1..]);
      JsonStepPieces(acc, c);
      JsonRunExtends(next, s[1..]);
      var fin := JsonRun(next, s[1..]).out;
      var u := fin[|next.out|..];
      SubseqStep(c, s[1..], Before(acc, c), After(acc, c), u);
      SubseqFromPieces(acc.out, Before(acc, c) + [c] + After(acc, c), fin, s, u);
    }
  }

  lemma SubseqFromPieces(o: string, piece: string, fin: string, s: string, u: string)
    requires s != []
    requires o + piece <= fin
    requires u == fin[|o + piece|..]
    requires IsSubseq([s[0]] + s[1..], piece + u)
    ensures IsSubseq(s, fin[|o|..])
  {
    assert [s[0]] + s[1..] == s;
    assert fin[|o|..] == piece + u;
  }

  /** With spaces and line breaks removed, the output is the input. */
  lemma {:induction false} JsonRunLayout(acc: JsonAcc, s: string)
    ensures DropLayout(JsonRun(acc, s).out) == DropLayout(acc.out) + DropLayout(s)
    decreases |s|
  {
    if s == [] {
      assert DropLayout(acc.out) + DropLayout(s) == DropLayout(acc.out);
    } else {
      var c := s[0];
      var next := JsonStep(acc, c);
      JsonRunLayout(next, s[1..]);
      JsonStepLayout(acc, c);
      DropLayoutAppend([c], s[1..]);
      assert [c] + s[1..] == s;
      AppendAssoc(DropLayout(acc.out), DropLayout([c]), DropLayout(s[1..]));
    }
  }

  /** `formatJson` keeps every character of its input, in order, and adds only spaces and line breaks. */
  lemma FormatJsonKeepsText(json: string)
    ensures IsSubseq(json, JsonFold(json).out)
    ensures DropLayout(JsonFold(json).out) == DropLayout(json)
  {
    JsonRunSubseq(JsonAcc("", 0, false), json);
    JsonRunLayout(JsonAcc("", 0, false), json);
    assert JsonFold(json).out[0..] == JsonFold(json).out;
  }

  /** Inside quotes a run without `"` is copied as it is: no line break, no indentation. */
  lemma {:induction false} QuotedVerbatim(acc: JsonAcc, s: string)
    requires acc.inQuotes
    requires '"' !in s
    ensures JsonRun(acc, s) == JsonAcc(acc.out + s, acc.level, true)
    decreases |s|
  {
    if s == [] {
      assert acc.out + s == acc.out;
    } else {
      assert s[0] in s;
      assert '"' !in s[1..] by {
        assert forall k :: 0 <= k < |s[1..]| ==> s[1..][k] == s[k + 1];
      }
      QuotedVerbatim(JsonStep(acc, s[0]), s[1..]);
      AppendAssoc(acc.out, [s[0]], s[1..]);
      assert [s[0]] + s[1..] == s;
    }
  }

  /** Opening brackets less closing brackets. */
  function Depth(s: string): int
    decreases |s|
  {
    if s == [] then 0
    else (if s[0] == '{' || s[0] == '[' then 1 else if s[0] == '}' || s[0] == ']' then -1 else 0) + Depth(s[1..])
  }

  /** Outside quotes, on a run without `"`, the level moves by one for each bracket. */
  lemma {:induction false} UnquotedLevel(acc: JsonAcc, s: string)
    requires !acc.inQuotes
    requires '"' !in s
    ensures JsonRun(acc, s).level == acc.level + Depth(s)
    ensures !JsonRun(acc, s).inQuotes
    decreases |s|
  {
    if s != [] {
      assert s[0] in s;
      assert '"' !in s[1..] by {
        assert forall k :: 0 <= k < |s[1..]| ==> s[1..][k] == s[k + 1];
      }
      UnquotedLevel(JsonStep(acc, s[0]), s[1..]);
    }
  }

  // ------------------------------------- escaped backslashes before a closing quote

  /** The body of a JSON string literal: characters other than `"` and `\`, and escapes: a
      backslash and the character after it. */
  predicate StringBody(b: string)
    decreases |b|
  {
    b == []
    || (b[0] == '\\' && |b| >= 2 && StringBody(b[2..]))
    || (b[0] != '\\' && b[0] != '"' && StringBody(b[1..]))
  }

  /** The string literal `"\\"` (an escaped backslash) leaves `formatJson` inside quotes: its
      closing quote follows a written backslash, so it does not count, and a bracket after it
      is copied with no line break. */
  lemma EscapedBackslashStaysQuoted(acc: JsonAcc)
    requires !acc.inQuotes
    requires acc.out == [] || acc.out[|acc.out| - 1] != '\\'
    ensures StringBody(['\\', '\\'])
    ensures JsonRun(acc, ['"', '\\', '\\', '"']).inQuotes
    ensures JsonRun(acc, ['"', '\\', '\\', '"', ']']).out == acc.out + ['"', '\\', '\\', '"', ']']
  {
    var a1 := JsonStep(acc, '"');
    assert a1 == JsonAcc(acc.out + ['"'], acc.level, true);
    var a2 := JsonStep(a1, '\\');
    var a3 := JsonStep(a2, '\\');
    var a4 := JsonStep(a3, '"');
    assert a4 == JsonAcc(acc.out + ['"', '\\', '\\', '"'], acc.level, true);
    var a5 := JsonStep(a4, ']');
    assert a5.out == acc.out + ['"', '\\', '\\', '"', ']'];
    assert ['"', '\\', '\\', '"'][1..][1..][1..][1..] == [];
    assert ['"', '\\', '\\', '"', ']'][1..][1..][1..][1..][1..] == [];
  }

  /** The scan as evidently intended: inside quotes a backslash escapes the next character,
      and only an unescaped `"` ends the string. */
  datatype ScanAcc = ScanAcc(out: string, level: int, inQuotes: bool, escaped: bool)

  function ScanStep(acc: ScanAcc, c: char): ScanAcc {
    if acc.inQuotes then
      if acc.escaped then acc.(out := acc.out + [c], escaped := false)
      else if c == '\\' then acc.(out := acc.out + [c], escaped := true)
      else if c == '"' then acc.(out := acc.out + [c], inQuotes := false)
      else acc.(out := acc.out + [c])
    else if c == '"' then acc.(out := acc.out + [c], inQuotes := true)
    else if c == '{' || c == '[' then acc.(out := acc.out + [c] + "\n" + Indent(acc.level + 1), level := acc.level + 1)
    else if c == '}' || c == ']' then acc.(out := acc.out + "\n" + Indent(acc.level - 1) + [c], level := acc.level - 1)
    else if c == ',' then acc.(out := acc.out + [c] + "\n" + Indent(acc.level))
    else if c == ':' then acc.(out := acc.out + [c] + " ")
    else acc.(out := acc.out + [c])
  }

  function ScanRun(acc: ScanAcc, s: string): ScanAcc
    decreases |s|
  {
    if s == [] then acc else ScanRun(ScanStep(acc, s[0]), s[1..])
  }

  /** `formatJson` with the escape rule: the formatted text. */
  function FormatJsonEscaped(json: string): string {
    ScanRun(ScanAcc("", 0, false, false), json).out
  }

  /** A string body is copied as it is, and the scan is still inside the string afterwards. */
  lemma {:induction false} ScanStringBody(acc: ScanAcc, b: string)
    requires acc.inQuotes && !acc.escaped
    requires StringBody(b)
    ensures ScanRun(acc, b) == acc.(out := acc.out + b)
    decreases |b|
  {
    if b == [] {
      assert acc.out + b == acc.out;
    } else if b[0] == '\\' && |b| >= 2 && StringBody(b[2..]) {
      var a2 := ScanStep(ScanStep(acc, b[0]), b[1]);
      assert a2 == acc.(out := acc.out + [b[0]] + [b[1]]);
      assert b[1..][1..] == b[2..];
      ScanStringBody(a2, b[2..]);
      assert acc.out + [b[0]] + [b[1]] + b[2..] == acc.out + b;
    } else {
      ScanStringBody(ScanStep(acc, b[0]), b[1..]);
      AppendAssoc(acc.out, [b[0]], b[1..]);
      assert [b[0]] + b[1..] == b;
    }
  }

  /** With the escape rule every string literal is passed through whole and the scan is back
      outside quotes after it, at the same level. */
  lemma ScanStringLiteral(acc: ScanAcc, b: string)
    requires !acc.inQuotes && !acc.escaped
    requires StringBody(b)
    ensures ScanRun(acc, ['"'] + b + ['"']) == acc.(out := acc.out + (['"'] + b + ['"']))
  {
    AppendAssoc(['"'], b, ['"']);
    ScanRunAppend(acc, ['"'], b + ['"']);
    ScanOne(acc, '"');
    var a1 := acc.(out := acc.out + ['"'], inQuotes := true);
    ScanRunAppend(a1, b, ['"']);
    ScanStringBody(a1, b);
    var a2 := a1.(out := a1.out + b);
    ScanOne(a2, '"');
    LiteralOut(acc.out, b);
  }

  lemma ScanOne(acc: ScanAcc, c: char)
    ensures ScanRun(acc, [c]) == ScanStep(acc, c)
  {
    assert [c][1..] == [];
  }

  lemma LiteralOut(o: string, b: string)
    ensures o + ['"'] + b + ['"'] == o + (['"'] + b + ['"'])
  {
  }

  lemma {:induction false} ScanRunAppend(acc: ScanAcc, a: string, b: string)
    ensures ScanRun(acc, a + b) == ScanRun(ScanRun(acc, a), b)
    decreases |a|
  {
    if a == [] {
      assert a + b == b;
    } else {
      assert (a + b)[1..] == a[1..] + b;
      ScanRunAppend(ScanStep(acc, a[0]), a[1..], b);
    }
  }

  /** The as-written scan seen with no pending escape. */
  function Lift(acc: JsonAcc): ScanAcc {
    ScanAcc(acc.out, acc.level, acc.inQuotes, false)
  }

  /** On text without backslashes the escape rule changes nothing: both scans write the same. */
  lemma {:induction false} ScanAgrees(acc: JsonAcc, s: string)
    requires acc.out == [] || acc.out[|acc.out| - 1] != '\\'
    requires '\\' !in s
    ensures ScanRun(Lift(acc), s) == Lift(JsonRun(acc, s))
    decreases |s|
  {
    if s != [] {
      assert s[0] in s;
      assert '\\' !in s[1..] by {
        assert forall k :: 0 <= k < |s[1..]| ==> s[1..][k] == s[k + 1];
      }
      var next := JsonStep(acc, s[0]);
      assert ScanStep(Lift(acc), s[0]) == Lift(next);
      JsonStepPieces(acc, s[0]);
      assert next.out[|next.out| - 1] != '\\' by {
        var a := After(acc, s[0]);
        if a != [] {
          assert next.out[|next.out| - 1] == a[|a| - 1];
        } else {
          assert next.out[|next.out| - 1] == s[0];
        }
      }
      ScanAgrees(next, s[1..]);
    }
  }
}
