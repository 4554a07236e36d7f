/** The result of one call (server/ApiResponse.java): status code, body, the headers the
    server sent (every name with its list of values) and the duration. */
module Responses {
  import opened Wrappers
  import opened JavaText
  import opened StringMaps

  type HeaderLists = map<string, seq<string>>

  /** A 2xx code. */
  predicate IsSuccessCode(code: int) {
    200 <= code < 300
  }

  /** A 4xx or 5xx code, or anything above. */
  predicate IsErrorCode(code: int) {
    code >= 400
  }

  /** One line of the headers section: the name, ": " and the values joined by ", ". */
  function HeaderLine(name: string, values: seq<string>): string {
    name + ": " + Join(values, ", ") + "\n"
  }

  /** The header lines in iteration order. */
  function HeaderLines(h: HeaderLists, order: seq<string>): string
    requires forall i :: 0 <= i < |order| ==> order[i] in h
  {
    if order == [] then ""
    else HeaderLines(h, order[..|order| - 1]) + HeaderLine(order[|order| - 1], h[order[|order| - 1]])
  }

  function StatusLine(code: int): string {
    "Status Code: " + IntToString(code) + "\n"
  }

  /** `toString`: the status line; then the headers section for a non-null, non-empty map;
      then the body section for a non-null body. */
  function Describe(code: int, headers: Option<HeaderLists>, body: Option<string>, order: seq<string>): string
    requires headers.Some? ==> Enumerates(order, headers.value.Keys)
  {
    StatusLine(code)
    + (if headers.Some? && headers.value != map[] then "\nHeaders:\n" + HeaderLines(headers.value, order) else "")
    + (if body.Some? then "\nBody:\n" + body.value else "")
  }

  class ApiResponse {
    var statusCode: int
    var body: Option<string>
    var headers: Option<HeaderLists>
    var duration: int

    constructor ()
      ensures statusCode == 0 && body.None? && headers.None? && duration == 0
    {
      statusCode := 0;
      body := None;
      headers := None;
      duration := 0;
    }

    method SetStatusCode(code: int)
      modifies this
      ensures statusCode == code
      ensures body == old(body) && headers == old(headers) && duration == old(duration)
    {
      statusCode := code;
    }

    method SetBody(b: Option<string>)
      modifies this
      ensures body == b
      ensures statusCode == old(statusCode) && headers == old(headers) && duration == old(duration)
    {
      body := b;
    }

    method SetHeaders(h: Option<HeaderLists>)
      modifies this
      ensures headers == h
      ensures statusCode == old(statusCode) && body == old(body) && duration == old(duration)
    {
      headers := h;
    }

    method SetDuration(d: int)
      modifies this
      ensures duration == d
      ensures statusCode == old(statusCode) && body == old(body) && headers == old(headers)
    {
      duration := d;
    }

    predicate IsSuccess()
      reads this
    {
      IsSuccessCode(statusCode)
    }

    predicate IsError()
      reads this
    {
      IsErrorCode(statusCode)
    }

    /** `toString`, with the header map visited in the iteration order `order`. */
    method ToString(order: seq<string>) returns (s: string)
      requires headers.Some? ==> Enumerates(order, headers.value.Keys)
      ensures s == Describe(statusCode, headers, body, order)
    {
      s := "Status Code: " + IntToString(statusCode) + "\n";
      var section := "";
      if headers.Some? && headers.value != map[] {
        var h := headers.value;
        section := "\nHeaders:\n";
        for i := 0 to |order|
          invariant section == "\nHeaders:\n" + HeaderLines(h, order[..i])
        {
          assert order[..i + 1][..i] == order[..i];
          section := section + (order[i] + ": " + Join(h[order[i]], ", ") + "\n");
        }
        assert order[..|order|] == order;
      }
      s := s + section;
      if body.Some? {
        s := s + ("\nBody:\n" + body.value);
      }
    }
  }

  /** A response is never both a success and an error; 1xx and 3xx codes are neither. */
  lemma SuccessAndErrorExclusive(code: int)
    ensures !(IsSuccessCode(code) && IsErrorCode(code))
    ensures code < 200 || 300 <= code < 400 ==> !IsSuccessCode(code) && !IsErrorCode(code)
  {
  }

  /** Every header is shown on a line of its own, its values joined by ", ". */
  lemma {:induction false} HeaderLinesShow(h: HeaderLists, order: seq<string>, i: nat)
    requires forall j :: 0 <= j < |order| ==> order[j] in h
    requires i < |order|
    ensures exists p :: OccursAt(HeaderLines(h, order), HeaderLine(order[i], h[order[i]]), p)
  {
    var init := order[..|order| - 1];
    var text := HeaderLines(h, order);
    var line := HeaderLine(order[i], h[order[i]]);
    var before := HeaderLines(h, init);
    if i == |order| - 1 {
      assert OccursAt(line, line, 0);
      OccursShift(before, line, "", line, 0);
      assert before + line + "" == text;
    } else {
      assert init[i] == order[i];
      HeaderLinesShow(h, init, i);
      var p :| OccursAt(before, line, p);
      var last := HeaderLine(order[|order| - 1], h[order[|order| - 1]]);
      OccursShift("", before, last, line, p);
      assert "" + before + last == text;
    }
  }

  /** The status line comes first, and the number after "Status Code: " reads back as the code. */
  lemma DescribeStartsWithStatus(code: int, headers: Option<HeaderLists>, body: Option<string>, order: seq<string>)
    requires headers.Some? ==> Enumerates(order, headers.value.Keys)
    requires code >= 0
    ensures var s := Describe(code, headers, body, order);
            var n := |NatToString(code)|;
            |s| > 13 + n && s[..13] == "Status Code: " && s[13 + n] == '\n'
            && (forall k :: 13 <= k < 13 + n ==> '0' <= s[k] <= '9')
            && DigitsValue(s[13..13 + n]) == code
  {
    var section := if headers.Some? && headers.value != map[] then "\nHeaders:\n" + HeaderLines(headers.value, order) else "";
    var post := if body.Some? then "\nBody:\n" + body.value else "";
    assert Describe(code, headers, body, order) == StatusLine(code) + (section + post);
    StatusLineReadBack(code, section + post);
  }

  lemma StatusLineReadBack(code: int, rest: string)
    requires code >= 0
    ensures var s := StatusLine(code) + rest;
            var n := |NatToString(code)|;
            |s| > 13 + n && s[..13] == "Status Code: " && s[13 + n] == '\n'
            && (forall k :: 13 <= k < 13 + n ==> '0' <= s[k] <= '9')
            && DigitsValue(s[13..13 + n]) == code
  {
    var digits := NatToString(code);
    var prefix := "Status Code: ";
    var s := StatusLine(code) + rest;
    assert |prefix| == 13;
    assert IntToString(code) == digits;
    assert s == prefix + digits + ("\n" + rest);
    ThreeParts(prefix, digits, "\n" + rest);
    forall k | 13 <= k < 13 + |digits| ensures '0' <= s[k] <= '9' {
      assert s[k] == digits[k - 13];
    }
    assert s[13 + |digits|] == ("\n" + rest)[0];
    NatToStringRoundTrip(code);
  }

  /** The body, when present, is the end of the text; without one the text ends with a line break. */
  lemma DescribeEnds(code: int, headers: Option<HeaderLists>, body: Option<string>, order: seq<string>)
    requires headers.Some? ==> Enumerates(order, headers.value.Keys)
    ensures var s := Describe(code, headers, body, order);
            (body.Some? ==> EndsWith(s, "\nBody:\n" + body.value))
            && (body.None? ==> s != [] && s[|s| - 1] == '\n')
  {
    var s := Describe(code, headers, body, order);
    var hs := if headers.Some? && headers.value != map[] then "\nHeaders:\n" + HeaderLines(headers.value, order) else "";
    if body.None? {
      assert s == StatusLine(code) + hs;
      if headers.Some? && headers.value != map[] {
        var k :| k in headers.value;
        assert |order| > 0;
        var h := headers.value;
        var last := HeaderLine(order[|order| - 1], h[order[|order| - 1]]);
        assert EndsWith(HeaderLines(h, order), last);
        assert s[|s| - 1] == last[|last| - 1];
      }
    } else {
      var tail := "\nBody:\n" + body.value;
      assert s == (StatusLine(code) + hs) + tail;
    }
  }

  /** Every header of a non-null map is listed in the headers section. */
  lemma DescribeShowsHeaders(code: int, headers: Option<HeaderLists>, body: Option<string>, order: seq<string>, name: string)
    requires headers.Some? ==> Enumerates(order, headers.value.Keys)
    requires headers.Some? && name in headers.value
    ensures exists p :: OccursAt(Describe(code, headers, body, order), HeaderLine(name, headers.value[name]), p)
  {
    var h := headers.value;
    var i :| 0 <= i < |order| && order[i] == name;
    HeaderLinesShow(h, order, i);
    var lines := HeaderLines(h, order);
    var line := HeaderLine(name, h[name]);
    var p :| OccursAt(lines, line, p);
    var post := if body.Some? then "\nBody:\n" + body.value else "";
    assert h != map[];
    assert Describe(code, headers, body, order) == StatusLine(code) + ("\nHeaders:\n" + lines) + post;
    OccursInSection(StatusLine(code), lines, post, line, p);
  }

  /** A line found in the header lines is found in the text that holds the headers section. */
  lemma OccursInSection(pre: string, lines: string, post: string, line: string, p: int)
    requires OccursAt(lines, line, p)
    ensures OccursAt(pre + ("\nHeaders:\n" + lines) + post, line, |pre| + 10 + p)
  {
    var section := "\nHeaders:\n" + lines;
    assert |"\nHeaders:\n"| == 10;
    assert OccursAt(section, line, 10 + p) by {
      assert section[10 + p..10 + p + |line|] == lines[p..p + |line|];
    }
    OccursShift(pre, section, post, line, 10 + p);
  }
}
