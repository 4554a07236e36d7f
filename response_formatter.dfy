/** The response text shown in the response panel (utility/ResponseFormatter.java): content
    sniffing on the trimmed body, truncation, header categories, the line-based XML
    re-indenter and `formatResponse` itself.  `ApiController` carries private copies of
    `isJson`, `isXml`, `isHtml`, `formatXml`, `truncateText`, `getIndent` and
    `getStatusText` with the same bodies; they are modelled once, here. */
module ResponseFormatter {
  import opened Wrappers
  import opened JavaText
  import opened StringMaps
  import opened Responses

  const NoResponseMessage := "There is no response for this request"

  /** `"-".repeat(40)`: forty dashes. */
  const SeparatorShort := "----------------------------------------"

  // ---------------------------------------------------------------- content sniffing

  /** The trimmed text is wrapped in braces or in brackets. */
  predicate IsJson(text: Option<string>) {
    text.Some? && !IsBlankTrim(text.value)
    && var t := Trim(text.value);
       (StartsWith(t, "{") && EndsWith(t, "}")) || (StartsWith(t, "[") && EndsWith(t, "]"))
  }

  /** The trimmed text starts with `<?xml`, or starts with `<` and ends with `>`. */
  predicate IsXml(text: Option<string>) {
    text.Some? && !IsBlankTrim(text.value)
    && var t := Trim(text.value);
       StartsWith(t, "<?xml") || (StartsWith(t, "<") && EndsWith(t, ">"))
  }

  /** The lower-cased trimmed text starts with `<!doctype html` or holds `<html` or `<body`. */
  predicate IsHtml(text: Option<string>) {
    text.Some? && !IsBlankTrim(text.value)
    && var t := ToLower(Trim(text.value));
       StartsWith(t, "<!doctype html") || Contains(t, "<html") || Contains(t, "<body")
  }

  /** The three predicates look only at the trimmed text, and none holds for a null or blank text. */
  lemma SniffingOnTrimmed(text: string)
    ensures IsJson(Some(text)) == IsJson(Some(Trim(text)))
    ensures IsXml(Some(text)) == IsXml(Some(Trim(text)))
    ensures IsHtml(Some(text)) == IsHtml(Some(Trim(text)))
    ensures IsBlankTrim(text) ==> !IsJson(Some(text)) && !IsXml(Some(text)) && !IsHtml(Some(text))
    ensures !IsJson(None) && !IsXml(None) && !IsHtml(None)
  {
    TrimIdempotent(text);
  }

  /** A JSON-looking text never looks like XML: its first character is `{` or `[`, not `<`. */
  lemma JsonIsNotXml(text: Option<string>)
    ensures IsJson(text) ==> !IsXml(text)
  {
  }

  /** An HTML document that starts with `<` and ends with `>` after trimming is taken for XML:
      `formatResponse` then re-indents it instead of truncating it at 2000 characters. */
  lemma HtmlDocumentIsXml(text: string)
    requires Trim(text) != [] && Trim(text)[0] == '<' && Trim(text)[|Trim(text)| - 1] == '>'
    ensures IsXml(Some(text)) && !IsJson(Some(text))
  {
    var t := Trim(text);
    assert t[..1] == "<";
    assert t[|t| - 1..] == ">";
  }

  // ---------------------------------------------------------------- small helpers

  /** `truncateText(text, max)`: text of at most `max` characters is kept; longer text is cut
      to its first `max` characters followed by a note giving the number cut off. */
  function TruncateText(text: string, maxLength: nat): (r: string)
    ensures |text| <= maxLength ==> r == text
    ensures |text| > maxLength ==> |r| > maxLength && r[..maxLength] == text[..maxLength]
  {
    if |text| <= maxLength then text
    else text[..maxLength] + "\n\n... [Content truncated. " + IntToString(|text| - maxLength) + " more characters]"
  }

  /** The note after a cut reads back as the number of characters cut off. */
  lemma TruncatedCountReadsBack(text: string, maxLength: nat)
    requires |text| > maxLength
    ensures var r := TruncateText(text, maxLength);
            var n := |NatToString(|text| - maxLength)|;
            var start := maxLength + 26;
            |r| == start + n + 17 && r[start + n..] == " more characters]"
            && (forall k :: start <= k < start + n ==> '0' <= r[k] <= '9')
            && DigitsValue(r[start..start + n]) == |text| - maxLength
  {
    var n := |text| - maxLength;
    var note := "\n\n... [Content truncated. ";
    assert |note| == 26;
    assert TruncateText(text, maxLength) == text[..maxLength] + note + NatToString(n) + " more characters]";
    NoteReadsBack(text[..maxLength], note, n, TruncateText(text, maxLength));
  }

  lemma NoteReadsBack(head: string, note: string, n: nat, r: string)
    requires r == head + note + NatToString(n) + " more characters]"
    ensures var digits := NatToString(n);
            var start := |head| + |note|;
            |r| == start + |digits| + 17 && r[start + |digits|..] == " more characters]"
            && (forall k :: start <= k < start + |digits| ==> '0' <= r[k] <= '9')
            && DigitsValue(r[start..start + |digits|]) == n
  {
    var digits := NatToString(n);
    var start := |head| + |note|;
    FourParts(head, note, digits, " more characters]");
    forall k | start <= k < start + |digits| ensures '0' <= r[k] <= '9' {
      assert r[k] == digits[k - start];
    }
    NatToStringRoundTrip(n);
  }

  /** The third and fourth parts of a four-part concatenation, cut out again. */
  lemma FourParts(a: string, b: string, d: string, c: string)
    ensures var s := a + b + d + c;
            s[|a| + |b|..|a| + |b| + |d|] == d && s[|a| + |b| + |d|..] == c
  {
  }

  /** `getIndent(level)`: two spaces per level, nothing for a zero or negative level. */
  function Indent(level: int): (r: string)
    ensures |r| == if level > 0 then 2 * level else 0
    ensures forall k :: 0 <= k < |r| ==> r[k] == ' '
  {
    var n: nat := if level > 0 then level else 0;
    RepeatSpaces(n);
    Repeat("  ", n)
  }

  lemma {:induction false} RepeatSpaces(n: nat)
    ensures forall k :: 0 <= k < |Repeat("  ", n)| ==> Repeat("  ", n)[k] == ' '
  {
    if n > 0 {
      RepeatSpaces(n - 1);
      var r := Repeat("  ", n);
      assert r == "  " + Repeat("  ", n - 1);
      forall k | 0 <= k < |r| ensures r[k] == ' ' {
        if k >= 2 { assert r[k] == Repeat("  ", n - 1)[k - 2]; }
      }
    }
  }

  /** `getStatusText(code)`: the reason phrase of the ten codes it lists. */
  function StatusText(code: int): (r: string)
    ensures r != "" <==> code in {200, 201, 204, 400, 401, 403, 404, 500, 502, 503}
  {
    if code == 200 then "OK"
    else if code == 201 then "Created"
    else if code == 204 then "No Content"
    else if code == 400 then "Bad Request"
    else if code == 401 then "Unauthorized"
    else if code == 403 then "Forbidden"
    else if code == 404 then "Not Found"
    else if code == 500 then "Internal Server Error"
    else if code == 502 then "Bad Gateway"
    else if code == 503 then "Service Unavailable"
    else ""
  }

  /** `getHeaderCategory(key)`, on the lower-cased key: content-type first, then authorization
      or token, then cache, then cookie; none of them gives the empty label. */
  function HeaderCategory(key: string): (r: string)
    ensures r in {"CONTENT-TYPE:", "AUTHORIZATION:", "CACHE:", "COOKIE:", ""}
  {
    var k := ToLower(key);
    if Contains(k, "content-type") then "CONTENT-TYPE:"
    else if Contains(k, "authorization") || Contains(k, "token") then "AUTHORIZATION:"
    else if Contains(k, "cache") then "CACHE:"
    else if Contains(k, "cookie") then "COOKIE:"
    else ""
  }

  /** A key gets no category exactly when its lower-cased form holds none of the keywords. */
  lemma HeaderCategoryNone(key: string)
    ensures HeaderCategory(key) == "" <==>
            !(Contains(ToLower(key), "content-type") || Contains(ToLower(key), "authorization")
              || Contains(ToLower(key), "token") || Contains(ToLower(key), "cache")
              || Contains(ToLower(key), "cookie"))
  {
  }

  /** A key's category does not depend on the case of its ASCII letters. */
  lemma HeaderCategoryIgnoresCase(a: string, b: string)
    requires EqualsIgnoreCase(a, b)
    ensures HeaderCategory(a) == HeaderCategory(b)
  {
  }

  /** The earlier keyword wins: a key naming both a content type and a token is a content type. */
  lemma HeaderCategoryPrecedence(key: string)
    ensures Contains(ToLower(key), "content-type") ==> HeaderCategory(key) == "CONTENT-TYPE:"
    ensures !Contains(ToLower(key), "content-type") && Contains(ToLower(key), "token") ==> HeaderCategory(key) == "AUTHORIZATION:"
  {
  }

  /** The bytes branch of `formatSize`; the KB and MB branches format floating-point numbers. */
  function FormatSizeBytes(n: int): (r: Option<string>)
    ensures r.Some? <==> n < 1024
  {
    if n < 1024 then Some(IntToString(n) + " bytes") else None
  }

  // ---------------------------------------------------------------- XML re-indentation

  /** `replaceAll("><", ">\n<")`: a line break between every adjacent `>` and `<`, matches
      taken left to right without overlap. */
  function InsertLineBreaks(s: string): (r: string)
    ensures s != [] ==> r != [] && r[0] == s[0]
    decreases |s|
  {
    if |s| >= 2 && s[0] == '>' && s[1] == '<' then ">\n<" + InsertLineBreaks(s[2..])
    else if s == [] then []
    else [s[0]] + InsertLineBreaks(s[1..])
  }

  /** The text without its line breaks. */
  function DropNewlines(s: string): (r: string)
    ensures '\n' !in r
  {
    if s == [] then [] else (if s[0] == '\n' then [] else [s[0]]) + DropNewlines(s[1..])
  }

  lemma {:induction false} DropNewlinesAppend(a: string, b: string)
    ensures DropNewlines(a + b) == DropNewlines(a) + DropNewlines(b)
  {
    if a != [] {
      assert (a + b)[1..] == a[1..] + b;
      DropNewlinesAppend(a[1..], b);
      AppendAssoc(if a[0] == '\n' then [] else [a[0]], DropNewlines(a[1..]), DropNewlines(b));
    } else {
      assert a + b == b;
    }
  }

  /** Only line breaks are inserted: with line breaks removed, the text is unchanged. */
  lemma {:induction false} InsertLineBreaksOnlyBreaks(s: string)
    ensures DropNewlines(InsertLineBreaks(s)) == DropNewlines(s)
    decreases |s|
  {
    if |s| >= 2 && s[0] == '>' && s[1] == '<' {
      InsertLineBreaksOnlyBreaks(s[2..]);
      BreakKeepsText(s);
    } else if s != [] {
      InsertLineBreaksOnlyBreaks(s[1..]);
      CopyKeepsText(s);
    }
  }

  lemma BreakKeepsText(s: string)
    requires |s| >= 2 && s[0] == '>' && s[1] == '<'
    requires DropNewlines(InsertLineBreaks(s[2..])) == DropNewlines(s[2..])
    ensures DropNewlines(InsertLineBreaks(s)) == DropNewlines(s)
  {
    var tail := s[2..];
    var ins := InsertLineBreaks(tail);
    assert InsertLineBreaks(s) == ">\n<" + ins;
    DropNewlinesAppend(">\n<", ins);
    DropInsertedBreak();
    CutAt(s, 2);
    assert s[..2] == "><";
    DropNewlinesAppend("><", tail);
  }

  lemma DropInsertedBreak()
    ensures DropNewlines(">\n<") == "><" && DropNewlines("><") == "><"
  {
    var t := ">\n<";
    assert t[1..] == "\n<" && t[1..][1..] == "<";
    assert DropNewlines("<") == "<";
    assert "><"[1..] == "<";
  }

  lemma CopyKeepsText(s: string)
    requires s != [] && !(|s| >= 2 && s[0] == '>' && s[1] == '<')
    requires DropNewlines(InsertLineBreaks(s[1..])) == DropNewlines(s[1..])
    ensures DropNewlines(InsertLineBreaks(s)) == DropNewlines(s)
  {
    DropNewlinesAppend([s[0]], InsertLineBreaks(s[1..]));
    CutAt(s, 1);
    assert s[..1] == [s[0]];
    DropNewlinesAppend([s[0]], s[1..]);
  }

  /** No `>` is directly followed by `<`. */
  predicate NoTagBoundary(r: string) {
    forall i :: 0 <= i < |r| - 1 ==> !(r[i] == '>' && r[i + 1] == '<')
  }

  /** Afterwards no `>` is directly followed by `<`. */
  lemma {:induction false} NoAdjacentTags(s: string)
    ensures NoTagBoundary(InsertLineBreaks(s))
    decreases |s|
  {
    var r := InsertLineBreaks(s);
    if |s| >= 2 && s[0] == '>' && s[1] == '<' {
      NoAdjacentTags(s[2..]);
      var t := InsertLineBreaks(s[2..]);
      assert r == ">\n<" + t;
      forall i | 0 <= i < |r| - 1 ensures !(r[i] == '>' && r[i + 1] == '<') {
        if i >= 3 {
          assert r[i] == t[i - 3] && r[i + 1] == t[i - 3 + 1];
        } else {
          assert r[i] == ">\n<"[i];
          assert r[i + 1] == (if i == 2 then t[0] else ">\n<"[i + 1]);
        }
      }
    } else if s != [] {
      NoAdjacentTags(s[1..]);
      var t := InsertLineBreaks(s[1..]);
      assert r == [s[0]] + t;
      forall i | 0 <= i < |r| - 1 ensures !(r[i] == '>' && r[i + 1] == '<') {
        if i >= 1 {
          assert r[i] == t[i - 1] && r[i + 1] == t[i - 1 + 1];
        } else {
          assert t[0] == s[1..][0] == s[1];
          assert r[0] == s[0] && r[1] == t[0];
        }
      }
    }
  }

  /** The XML lines: the text with line breaks inserted, split at line breaks. */
  function XmlSegments(xml: string): seq<string> {
    Split(InsertLineBreaks(xml), "\n")
  }

  /** A line that opens an element: a tag that is not a closing tag, not self-closing and not
      a processing instruction. */
  predicate OpensElement(t: string) {
    StartsWith(t, "<") && !StartsWith(t, "</") && !EndsWith(t, "/>") && !Contains(t, "?>")
  }

  predicate ClosesElement(t: string) {
    StartsWith(t, "</")
  }

  /** The text built so far, the level, and the level each emitted line was indented at. */
  datatype XmlAcc = XmlAcc(text: string, level: int, levels: seq<int>)

  /** One line of the loop: a blank line is skipped; a closing tag drops the level first; the
      line goes out indented; an opening tag raises the level afterwards. */
  function XmlStep(acc: XmlAcc, line: string): XmlAcc {
    var t := Trim(line);
    if t == [] then acc
    else
      var lvl := if ClosesElement(t) then acc.level - 1 else acc.level;
      XmlAcc(acc.text + (Indent(lvl) + t + "\n"), if OpensElement(t) then lvl + 1 else lvl, acc.levels + [lvl])
  }

  function XmlFold(lines: seq<string>): XmlAcc
    decreases |lines|
  {
    if lines == [] then XmlAcc("", 0, [])
    else XmlStep(XmlFold(lines[..|lines| - 1]), lines[|lines| - 1])
  }

  lemma XmlFoldSnoc(lines: seq<string>, i: nat)
    requires i < |lines|
    ensures XmlFold(lines[..i + 1]) == XmlStep(XmlFold(lines[..i]), lines[i])
  {
    assert lines[..i + 1][..i] == lines[..i];
  }

  /** `formatXml(xml)`: the line breaks go in first, then the lines are re-indented. */
  method FormatXml(xml: string) returns (r: string)
    ensures r == XmlFold(XmlSegments(xml)).text
  {
    var lines := Split(InsertLineBreaks(xml), "\n");
    r := IndentXmlLines(lines);
  }

  /** The loop of `formatXml` over the lines. */
  method IndentXmlLines(lines: seq<string>) returns (r: string)
    ensures r == XmlFold(lines).text
  {
    var formatted := "";
    var indentLevel := 0;
    ghost var acc := XmlAcc("", 0, []);
    for i := 0 to |lines|
      invariant acc == XmlFold(lines[..i])
      invariant formatted == acc.text && indentLevel == acc.level
    {
      XmlFoldSnoc(lines, i);
      var trimmed := Trim(lines[i]);
      if trimmed == [] {
        continue;
      }
      if ClosesElement(trimmed) {
        indentLevel := indentLevel - 1;
      }
      formatted := formatted + (Indent(indentLevel) + trimmed + "\n");
      acc := XmlAcc(formatted, indentLevel, acc.levels + [indentLevel]);
      if OpensElement(trimmed) {
        indentLevel := indentLevel + 1;
      }
      acc := acc.(level := indentLevel);
    }
    assert lines[..|lines|] == lines;
    r := formatted;
  }

  /** The trimmed non-blank lines, in order. */
  function NonBlank(lines: seq<string>): seq<string>
    decreases |lines|
  {
    if lines == [] then []
    else NonBlank(lines[..|lines| - 1]) + (if Trim(lines[|lines| - 1]) == [] then [] else [Trim(lines[|lines| - 1])])
  }

  /** Each segment on a line of its own, after the indentation of its level. */
  function IndentedLines(levels: seq<int>, segs: seq<string>): string
    requires |levels| == |segs|
    decreases |segs|
  {
    if segs == [] then ""
    else IndentedLines(levels[..|levels| - 1], segs[..|segs| - 1]) + (Indent(levels[|levels| - 1]) + segs[|segs| - 1] + "\n")
  }

  /** The output consists of exactly the trimmed non-blank lines, in order, each indented and
      ended by a line break. */
  lemma {:induction false} XmlFoldLines(lines: seq<string>)
    ensures |XmlFold(lines).levels| == |NonBlank(lines)|
    ensures XmlFold(lines).text == IndentedLines(XmlFold(lines).levels, NonBlank(lines))
    decreases |lines|
  {
    if lines != [] {
      var init := lines[..|lines| - 1];
      var last := lines[|lines| - 1];
      XmlFoldLines(init);
      var acc := XmlFold(init);
      var t := Trim(last);
      assert XmlFold(lines) == XmlStep(acc, last);
      assert NonBlank(lines) == NonBlank(init) + (if t == [] then [] else [t]);
      if t != [] {
        var lvl := if ClosesElement(t) then acc.level - 1 else acc.level;
        var nb := NonBlank(lines);
        var lv := acc.levels + [lvl];
        assert XmlFold(lines).levels == lv;
        assert nb[..|nb| - 1] == NonBlank(init);
        assert lv[..|lv| - 1] == acc.levels;
        assert XmlFold(lines).text == acc.text + (Indent(lvl) + t + "\n");
        assert IndentedLines(lv, nb) == IndentedLines(acc.levels, NonBlank(init)) + (Indent(lvl) + t + "\n");
      } else {
        assert NonBlank(lines) == NonBlank(init);
      }
    }
  }

  /** The number of opening and of closing lines. */
  function Opened(lines: seq<string>): nat
    decreases |lines|
  {
    if lines == [] then 0
    else Opened(lines[..|lines| - 1]) + (if Trim(lines[|lines| - 1]) != [] && OpensElement(Trim(lines[|lines| - 1])) then 1 else 0)
  }

  function Closed(lines: seq<string>): nat
    decreases |lines|
  {
    if lines == [] then 0
    else Closed(lines[..|lines| - 1]) + (if Trim(lines[|lines| - 1]) != [] && ClosesElement(Trim(lines[|lines| - 1])) then 1 else 0)
  }

  /** The level after the loop is the number of opening lines less the number of closing lines. */
  lemma {:induction false} XmlFoldLevel(lines: seq<string>)
    ensures XmlFold(lines).level == Opened(lines) - Closed(lines)
    decreases |lines|
  {
    if lines != [] {
      XmlFoldLevel(lines[..|lines| - 1]);
    }
  }

  /** No line is both an opening and a closing tag. */
  lemma OpenCloseExclusive(t: string)
    ensures !(OpensElement(t) && ClosesElement(t))
  {
  }

  // ---------------------------------------------------------------- formatResponse

  /** The line of one header: its category and a space when it has one, then `key: values`. */
  function HeaderEntry(key: string, values: seq<string>): string {
    var category := HeaderCategory(key);
    (if category != "" then category + " " else "") + key + ": " + Join(values, ", ") + "\n"
  }

  function HeaderEntries(h: HeaderLists, order: seq<string>): string
    requires forall i :: 0 <= i < |order| ==> order[i] in h
  {
    if order == [] then ""
    else HeaderEntries(h, order[..|order| - 1]) + HeaderEntry(order[|order| - 1], h[order[|order| - 1]])
  }

  /** `formatJson`: what the JSON library's pretty printer makes of the text, or the text
      itself when the library cannot parse it (`prettyJson` gives None). */
  function PrettyOrSame(json: string, prettyJson: string -> Option<string>): string {
    prettyJson(json).GetOr(json)
  }

  /** The body as shown: sniffed in the order JSON, XML, HTML; `json` is the body through
      `formatJson` and `xml` the body through `formatXml`. */
  function BodyShown(body: string, json: string, xml: string): string {
    if IsJson(Some(body)) then json
    else if IsXml(Some(body)) then xml
    else if IsHtml(Some(body)) then "<!DOCTYPE html>\n<!-- HTML Content (truncated) -->\n" + TruncateText(body, 2000)
    else TruncateText(body, 5000)
  }

  function LargeNote(body: string): string {
    if |body| > 10000 then "\n\nNote: Response is large (" + IntToString(|body|) + " chars). Consider exporting to a file." else ""
  }

  /** The headers section: present for a non-null, non-empty map. */
  function HeadersPart(headers: Option<HeaderLists>, order: seq<string>): string
    requires headers.Some? ==> Enumerates(order, headers.value.Keys)
  {
    if headers.Some? && headers.value != map[] then
      "HEADERS (" + IntToString(|headers.value|) + "):\n" + SeparatorShort + "\n"
      + HeaderEntries(headers.value, order) + "\n"
    else ""
  }

  /** The body section: the body as shown for a non-null, non-empty body. */
  function BodyPart(body: Option<string>, prettyJson: string -> Option<string>): string {
    if body.Some? && body.value != [] then
      BodyHeading(body.value) + BodyShown(body.value, PrettyOrSame(body.value, prettyJson), XmlFold(XmlSegments(body.value)).text)
      + LargeNote(body.value)
    else "BODY: (empty)\n"
  }

  function BodyHeading(body: string): string {
    "BODY (" + IntToString(|body|) + " chars):\n" + SeparatorShort + "\n"
  }

  /** The text `formatResponse` builds from a non-null response. */
  function Formatted(headers: Option<HeaderLists>, body: Option<string>, order: seq<string>,
                     prettyJson: string -> Option<string>): string
    requires headers.Some? ==> Enumerates(order, headers.value.Keys)
  {
    HeadersPart(headers, order) + BodyPart(body, prettyJson)
  }

  lemma HeaderEntriesSnoc(h: HeaderLists, order: seq<string>, i: nat)
    requires forall j :: 0 <= j < |order| ==> order[j] in h
    requires i < |order|
    ensures HeaderEntries(h, order[..i + 1]) == HeaderEntries(h, order[..i]) + HeaderEntry(order[i], h[order[i]])
  {
    assert order[..i + 1][..i] == order[..i];
  }

  /** `formatResponse(response)`: a fixed message for a null response.  The header map is
      visited in the iteration order `order`, and `prettyJson` stands for the JSON library's
      parse and pretty-print, None when the text does not parse. */
  method FormatResponse(response: ApiResponse?, order: seq<string>, prettyJson: string -> Option<string>) returns (s: string)
    requires response != null && response.headers.Some? ==> Enumerates(order, response.headers.value.Keys)
    ensures response == null ==> s == NoResponseMessage
    ensures response != null ==> s == Formatted(response.headers, response.body, order, prettyJson)
  {
    if response == null {
      return NoResponseMessage;
    }
    var headers := FormatHeaders(response.headers, order);
    var body := FormatBody(response.body, prettyJson);
    s := headers + body;
  }

  /** The headers part of `formatResponse`: the title and the separator, one line per header
      in iteration order, and a blank line. */
  method FormatHeaders(headers: Option<HeaderLists>, order: seq<string>) returns (s: string)
    requires headers.Some? ==> Enumerates(order, headers.value.Keys)
    ensures s == HeadersPart(headers, order)
  {
    s := "";
    if headers.Some? && headers.value != map[] {
      var h := headers.value;
      var entries := "";
      for i := 0 to |order|
        invariant entries == HeaderEntries(h, order[..i])
      {
        HeaderEntriesSnoc(h, order, i);
        var category := HeaderCategory(order[i]);
        var line := (if category != "" then category + " " else "") + order[i] + ": " + Join(h[order[i]], ", ") + "\n";
        entries := entries + line;
      }
      assert order[..|order|] == order;
      s := "HEADERS (" + IntToString(|h|) + "):\n" + SeparatorShort + "\n" + entries + "\n";
    }
  }

  /** The body part of `formatResponse`. */
  method FormatBody(body: Option<string>, prettyJson: string -> Option<string>) returns (text: string)
    ensures text == BodyPart(body, prettyJson)
  {
    if body.Some? && body.value != [] {
      var b := body.value;
      var shown;
      if IsJson(body) {
        var printed := prettyJson(b);
        shown := if printed.Some? then printed.value else b;
      } else if IsXml(body) {
        shown := FormatXml(b);
      } else if IsHtml(body) {
        shown := "<!DOCTYPE html>\n<!-- HTML Content (truncated) -->\n" + TruncateText(b, 2000);
      } else {
        shown := TruncateText(b, 5000);
      }
      text := "BODY (" + IntToString(|b|) + " chars):\n" + SeparatorShort + "\n" + shown + LargeNote(b);
      assert text == BodyHeading(b) + shown + LargeNote(b);
    } else {
      text := "BODY: (empty)\n";
    }
  }

  /** A response with a null or empty body ends with the empty-body line; any other body
      section ends with the large-body note, which is there only for a body over 10000
      characters. */
  lemma BodySection(headers: Option<HeaderLists>, body: Option<string>, order: seq<string>, prettyJson: string -> Option<string>)
    requires headers.Some? ==> Enumerates(order, headers.value.Keys)
    ensures body.None? || body.value == [] ==> EndsWith(Formatted(headers, body, order, prettyJson), "BODY: (empty)\n")
    ensures body.Some? && body.value != [] ==> EndsWith(Formatted(headers, body, order, prettyJson), LargeNote(body.value))
  {
    BodyPartEnds(body, prettyJson);
    EndsWithExtend(HeadersPart(headers, order), BodyPart(body, prettyJson),
                   if body.None? || body.value == [] then "BODY: (empty)\n" else LargeNote(body.value));
  }

  lemma BodyPartEnds(body: Option<string>, prettyJson: string -> Option<string>)
    ensures body.None? || body.value == [] ==> BodyPart(body, prettyJson) == "BODY: (empty)\n"
    ensures body.Some? && body.value != [] ==> EndsWith(BodyPart(body, prettyJson), LargeNote(body.value))
  {
    if body.Some? && body.value != [] {
      var b := body.value;
      var pre := BodyHeading(b) + BodyShown(b, PrettyOrSame(b, prettyJson), XmlFold(XmlSegments(b)).text);
      assert (pre + LargeNote(b))[|pre|..] == LargeNote(b);
    }
  }

  lemma EndsWithExtend(a: string, b: string, c: string)
    requires EndsWith(b, c)
    ensures EndsWith(a + b, c)
  {
    assert (a + b)[|a + b| - |c|..] == b[|b| - |c|..];
  }

  /** The note is there only for a body over 10000 characters, and the number in it reads back
      as the body's length. */
  lemma LargeNoteReadsBack(body: string)
    ensures |body| <= 10000 ==> LargeNote(body) == ""
    ensures |body| > 10000 ==>
            var n := |NatToString(|body|)|;
            var note := LargeNote(body);
            |note| == 27 + n + 38 && note[..27] == "\n\nNote: Response is large ("
            && DigitsValue(note[27..27 + n]) == |body|
  {
    if |body| > 10000 {
      var digits := NatToString(|body|);
      var note := LargeNote(body);
      assert |"\n\nNote: Response is large ("| == 27;
      assert |" chars). Consider exporting to a file."| == 38;
      assert note == "\n\nNote: Response is large (" + digits + " chars). Consider exporting to a file.";
      assert note[27..27 + |digits|] == digits;
      NatToStringRoundTrip(|body|);
    }
  }

  /** Bodies that are neither JSON nor XML are shown cut: HTML to 2000 characters, anything
      else to 5000. */
  lemma BodyShownCut(body: string, json: string, xml: string)
    ensures !IsJson(Some(body)) && !IsXml(Some(body)) && !IsHtml(Some(body)) ==> BodyShown(body, json, xml) == TruncateText(body, 5000)
    ensures |body| <= 5000 && !IsJson(Some(body)) && !IsXml(Some(body)) && !IsHtml(Some(body)) ==> BodyShown(body, json, xml) == body
    ensures !IsJson(Some(body)) && !IsXml(Some(body)) && IsHtml(Some(body)) && |body| > 2000 ==>
            BodyShown(body, json, xml)[..50 + 2000] == "<!DOCTYPE html>\n<!-- HTML Content (truncated) -->\n" + body[..2000]
  {
    var pre := "<!DOCTYPE html>\n<!-- HTML Content (truncated) -->\n";
    assert |pre| == 50;
    if !IsJson(Some(body)) && !IsXml(Some(body)) && IsHtml(Some(body)) && |body| > 2000 {
      var r := pre + TruncateText(body, 2000);
      assert r[..50 + 2000] == pre + TruncateText(body, 2000)[..2000];
    }
  }
}
