/** What the executor's parsers, URL assembly, authorization and failure mapping promise,
    stated against their partners: the header line format, a query-string decoder, the
    quote unescaper and the base 64 decoder. */
module ApiCallProperties {
  import opened Wrappers
  import opened JavaText
  import opened StringMaps
  import FormEncoding
  import Base64
  import Utf8
  import opened Responses
  import opened ApiCall

  // ---------------------------------------------------------------- header lines

  /** A `key: value` line gives back the trimmed key and value, provided the trimmed key is
      non-empty and has no `:` and the trimmed value is non-empty. */
  lemma {:induction false} LinePairOf(k: string, v: string)
    requires Trim(k) != [] && ':' !in Trim(k) && Trim(v) != []
    ensures LinePair(k + ": " + v) == Some((Trim(k), Trim(v)))
  {
    var b, c := LineTrim(k, v);
    LinePairFromTrim(k, v, b, c);
  }

  lemma {:induction false} LinePairFromTrim(k: string, v: string, b: string, c: string)
    requires Trim(k) != [] && ':' !in Trim(k) && Trim(v) != []
    requires Trim(k + ": " + v) == Trim(k) + b + (": " + (c + Trim(v)))
    requires forall j :: 0 <= j < |b| ==> IsTrimSpace(b[j])
    requires forall j :: 0 <= j < |c| ==> IsTrimSpace(c[j])
    ensures LinePair(k + ": " + v) == Some((Trim(k), Trim(v)))
  {
    LinePairOfParts(k + ": " + v, Trim(k), b, c, Trim(v));
  }

  lemma LinePairOfParts(line: string, tk: string, b: string, c: string, tv: string)
    requires Trim(line) == tk + b + (": " + (c + tv))
    requires tk != [] && ':' !in tk && !IsTrimSpace(tk[0]) && !IsTrimSpace(tk[|tk| - 1])
    requires tv != [] && !IsTrimSpace(tv[0]) && !IsTrimSpace(tv[|tv| - 1])
    requires forall j :: 0 <= j < |b| ==> IsTrimSpace(b[j])
    requires forall j :: 0 <= j < |c| ==> IsTrimSpace(c[j])
    ensures LinePair(line) == Some((tk, tv))
  {
    ColonAfter(tk, b, c + tv);
    TrimKeyPart(tk, b);
    TrimValuePart(c, tv);
    LinePairAt(line, |tk| + |b|);
  }

  /** `LinePair` once the colon of the trimmed line is located. */
  lemma LinePairAt(line: string, i: int)
    requires IndexOf(Trim(line), ':') == i && i > 0
    requires Trim(Trim(line)[..i]) != [] && Trim(Trim(line)[i + 1..]) != []
    ensures LinePair(line) == Some((Trim(Trim(line)[..i]), Trim(Trim(line)[i + 1..])))
  {
  }

  lemma TrimKeyPart(tk: string, b: string)
    requires tk == [] || (!IsTrimSpace(tk[0]) && !IsTrimSpace(tk[|tk| - 1]))
    requires forall j :: 0 <= j < |b| ==> IsTrimSpace(b[j])
    ensures Trim(tk + b) == tk
  {
    TrimPadded([], tk, b);
    assert [] + tk + b == tk + b;
  }

  lemma TrimValuePart(c: string, tv: string)
    requires tv == [] || (!IsTrimSpace(tv[0]) && !IsTrimSpace(tv[|tv| - 1]))
    requires forall j :: 0 <= j < |c| ==> IsTrimSpace(c[j])
    ensures Trim(" " + (c + tv)) == tv
  {
    var sc := " " + c;
    assert forall j :: 1 <= j < |sc| ==> sc[j] == c[j - 1];
    TrimPadded(sc, tv, []);
    assert sc + tv + [] == sc + tv;
    AppendAssoc(" ", c, tv);
  }

  /** The trimmed line: the trimmed key, the spaces after it, ": ", the spaces before the
      value and the trimmed value. */
  lemma {:induction false} LineTrim(k: string, v: string) returns (b: string, c: string)
    requires Trim(k) != [] && Trim(v) != []
    ensures Trim(k + ": " + v) == Trim(k) + b + (": " + (c + Trim(v)))
    ensures forall j :: 0 <= j < |b| ==> IsTrimSpace(b[j])
    ensures forall j :: 0 <= j < |c| ==> IsTrimSpace(c[j])
  {
    var a, d;
    a, b := TrimDecompose(k);
    c, d := TrimDecompose(v);
    var tk, tv := Trim(k), Trim(v);
    var mid := tk + b + ": " + c + tv;
    assert k + ": " + v == a + tk + b + ": " + (c + tv + d);
    AppendAssoc(a, tk, b);
    AppendAssoc(a, tk + b, ": ");
    AppendAssoc(a, tk + b + ": ", c + tv + d);
    AppendAssoc(tk + b + ": ", c + tv, d);
    AppendAssoc(tk + b + ": ", c, tv);
    AppendAssoc(a, mid, d);
    assert mid[0] == tk[0] && mid[|mid| - 1] == tv[|tv| - 1];
    TrimPadded(a, mid, d);
    AppendAssoc(tk + b + ": ", c, tv);
    AppendAssoc(tk + b, ": ", c + tv);
  }

  /** The first `:` after a colon-free key and its trailing spaces is the separator. */
  lemma ColonAfter(tk: string, b: string, rest: string)
    requires ':' !in tk && tk != []
    requires forall j :: 0 <= j < |b| ==> IsTrimSpace(b[j])
    ensures var t := tk + b + (": " + rest);
            IndexOf(t, ':') == |tk| + |b| && t[..|tk| + |b|] == tk + b && t[|tk| + |b| + 1..] == " " + rest
  {
    var t := tk + b + (": " + rest);
    var i := |tk| + |b|;
    assert t[..i] == tk + b;
    assert forall j :: 0 <= j < |b| ==> b[j] != ':';
    IndexOfAt(t, ':', i);
    assert t[i + 1..] == " " + rest;
  }

  /** A line with no `:` after trimming yields nothing: `k=v` on its own is not a header line. */
  lemma LineWithoutColon(line: string)
    requires ':' !in line
    ensures LinePair(line) == None
  {
    TrimChars(line, ':');
  }

  /** A lone `k=v` with no `&` is read with the header rule, which finds no `:`, so
      `queryParams(text)` puts nothing. */
  lemma LoneAssignmentIgnored(k: string, v: string)
    requires '&' !in k && '&' !in v && ':' !in k && ':' !in v && '\n' !in k && '\n' !in v
    ensures QueryPairs(k + "=" + v) == []
  {
    var text := k + "=" + v;
    assert '&' !in text;
    ContainsChar(text, '&');
    assert ':' !in text;
    assert '\n' !in text;
    ContainsChar(text, '\n');
    assert Split(text, "\n") == [text];
    LineWithoutColon(text);
    var ps := [text];
    assert ps[..|ps| - 1] == [];
    assert Pairs(LinePair, ps) == Pairs(LinePair, []) + [];
  }

  // ---------------------------------------------------------------- the query string

  /** One `k=v` piece read back: both sides form-decoded, split at the first `=`. */
  function DecodePiece(piece: string): Option<(string, string)> {
    match Find(piece, "=")
    case None => None
    case Some(j) =>
      var k, v := FormEncoding.Decode(piece[..j]), FormEncoding.Decode(piece[j + 1..]);
      if k.Some? && v.Some? then Some((k.value, v.value)) else None
  }

  function DecodePieces(pieces: seq<string>): Option<seq<(string, string)>> {
    if pieces == [] then Some([])
    else match DecodePiece(pieces[0])
      case None => None
      case Some(p) =>
        match DecodePieces(pieces[1..])
        case None => None
        case Some(rest) => Some([p] + rest)
  }

  /** The reader of what `buildUrl` appends: nothing, or `?` and `&`-separated pieces. */
  function DecodeQuery(q: string): Option<seq<(string, string)>> {
    if q == [] then Some([])
    else if q[0] != '?' then None
    else DecodePieces(SplitAll(q[1..], "&"))
  }

  lemma NotEncoded(s: string, c: char)
    requires !FormEncoding.IsEncodedChar(c)
    ensures c !in FormEncoding.Encode(s)
  {
    FormEncoding.EncodedChars(s);
  }

  lemma PieceRoundTrip(k: string, v: string)
    ensures DecodePiece(FormEncoding.Encode(k) + "=" + FormEncoding.Encode(v)) == Some((k, v))
  {
    var ek, ev := FormEncoding.Encode(k), FormEncoding.Encode(v);
    var piece := ek + "=" + ev;
    NotEncoded(k, '=');
    FindSepAfter(ek, '=', ev);
    assert piece[..|ek|] == ek;
    assert piece[|ek| + 1..] == ev;
    FormEncoding.EncodeRoundTrip(k);
    FormEncoding.EncodeRoundTrip(v);
  }

  lemma {:induction false} DecodeEncodedPairs(ps: seq<(string, string)>)
    ensures DecodePieces(EncodedPairs(ps)) == Some(ps)
  {
    if ps != [] {
      var e := EncodedPairs(ps);
      EncodedPairsTail(ps);
      PieceRoundTrip(ps[0].0, ps[0].1);
      DecodeEncodedPairs(ps[1..]);
      DecodePiecesCons(e, ps[0], ps[1..]);
      ConsSplit(ps);
    }
  }

  lemma EncodedPairsTail(ps: seq<(string, string)>)
    requires ps != []
    ensures EncodedPairs(ps)[0] == FormEncoding.Encode(ps[0].0) + "=" + FormEncoding.Encode(ps[0].1)
    ensures EncodedPairs(ps)[1..] == EncodedPairs(ps[1..])
  {
  }

  lemma DecodePiecesCons(pieces: seq<string>, p: (string, string), rest: seq<(string, string)>)
    requires pieces != [] && DecodePiece(pieces[0]) == Some(p) && DecodePieces(pieces[1..]) == Some(rest)
    ensures DecodePieces(pieces) == Some([p] + rest)
  {
  }

  /** No encoded piece holds `&`. */
  lemma NoAmpersand(ps: seq<(string, string)>)
    ensures forall i :: 0 <= i < |EncodedPairs(ps)| ==> '&' !in EncodedPairs(ps)[i]
  {
    forall i | 0 <= i < |ps| ensures '&' !in EncodedPairs(ps)[i] {
      NotEncoded(ps[i].0, '&');
      NotEncoded(ps[i].1, '&');
    }
  }

  /** The query string `buildUrl` appends reads back as exactly the (substituted) pairs in
      iteration order: keys and values may hold any character, `&` and `=` included. */
  lemma QueryStringRoundTrip(ps: seq<(string, string)>)
    ensures DecodeQuery(QueryString(ps)) == Some(ps)
  {
    if ps != [] {
      var q := QueryString(ps);
      NoAmpersand(ps);
      SplitAllJoinChar(EncodedPairs(ps), '&');
      assert q[1..] == Join(EncodedPairs(ps), "&");
      DecodeEncodedPairs(ps);
    }
  }

  /** The URL `buildUrl` returns is the trimmed, substituted URL followed by a query string
      that reads back as the substituted parameters, each exactly once. */
  lemma FullUrlReadsBack(st: BuilderState, order: seq<string>)
    requires Enumerates(order, st.queryParams.Keys)
    requires !UrlMissing(st)
    ensures var u := FullUrl(st, order).value;
            var base := Subst(st.variables, Trim(st.url.value));
            |base| <= |u| && u[..|base|] == base && DecodeQuery(u[|base|..]) == Some(ParamPairs(st, order))
  {
    var base := Subst(st.variables, Trim(st.url.value));
    var q := QueryString(ParamPairs(st, order));
    assert (base + q)[|base|..] == q;
    QueryStringRoundTrip(ParamPairs(st, order));
  }

  // ---------------------------------------------------------------- authorization

  /** Basic authentication with both credentials present puts an Authorization header whose
      credentials decode back to user-id ":" password; nothing else changes. */
  lemma BasicHeaderReadsBack(st: BuilderState)
    requires st.authType == Some("Basic auth") && st.username.Some? && st.password.Some?
    ensures "Authorization" in WithAuth(st)
    ensures var h := WithAuth(st)["Authorization"];
            |h| >= 6 && h[..6] == "Basic " && Base64.Decode(h[6..]).Some?
            && Utf8.Decode(Base64.Decode(h[6..]).value) == Some(st.username.value + ":" + st.password.value)
    ensures forall k :: k != "Authorization" ==> (k in WithAuth(st) <==> k in st.headers)
    ensures forall k :: k != "Authorization" && k in st.headers ==> WithAuth(st)[k] == st.headers[k]
  {
    Base64.BasicCredentialsRoundTrip(st.username.value, st.password.value);
  }

  /** With Basic authentication a missing user or password leaves the headers as they are. */
  lemma BasicNeedsBoth(st: BuilderState)
    requires st.authType == Some("Basic auth") && (st.username.None? || st.password.None?)
    ensures WithAuth(st) == st.headers
  {
  }

  /** A bearer token, under either tag, is sent trimmed after "Bearer " when it is not blank;
      a blank or missing token adds nothing. */
  lemma BearerHeader(st: BuilderState)
    requires st.authType == Some("Bearer token") || st.authType == Some("Jwt bearer")
    ensures st.token.Some? && !IsBlankTrim(st.token.value) ==> WithAuth(st) == st.headers["Authorization" := "Bearer " + Trim(st.token.value)]
    ensures st.token.None? || IsBlankTrim(st.token.value) ==> WithAuth(st) == st.headers
  {
  }

  /** Any tag but the three known ones, "No auth" and null included, adds nothing. */
  lemma OtherTagsAddNothing(st: BuilderState)
    requires st.authType.None? || st.authType.value !in {"Basic auth", "Bearer token", "Jwt bearer"}
    ensures WithAuth(st) == st.headers
  {
  }

  /** `fromUI` stores a "Jwt bearer" choice exactly as "Bearer token". */
  lemma FromUIRetagsJwt(st: BuilderState, u: Option<string>, p: Option<string>, tok: Option<string>)
    ensures UIAuth(st, Some("Jwt bearer"), u, p, tok) == UIAuth(st, Some("Bearer token"), u, p, tok)
    ensures UIAuth(st, Some("Jwt bearer"), u, p, tok).authType == Some("Bearer token")
  {
  }

  // ---------------------------------------------------------------- the failure mapping

  lemma EscapeHead(s: string)
    ensures EscapeQuotes(s) == [] || EscapeQuotes(s)[0] != '"'
  {
  }

  /** Unescaping undoes the escaping of quotes, so the message embedded in a failure body
      reads back as the exception's message. */
  lemma {:induction false} EscapeRoundTrip(s: string)
    ensures UnescapeQuotes(EscapeQuotes(s)) == s
  {
    if s != [] {
      var e := EscapeQuotes(s);
      var rest := EscapeQuotes(s[1..]);
      EscapeRoundTrip(s[1..]);
      if s[0] == '"' {
        assert e == "\\\"" + rest;
        assert e[2..] == rest;
      } else {
        assert e == [s[0]] + rest;
        EscapeHead(s[1..]);
        assert e[1..] == rest;
      }
      assert [s[0]] + s[1..] == s;
    }
  }

  /** An escaped message holds no quote that is not preceded by a backslash, so it cannot end
      the JSON string it is embedded in. */
  lemma {:induction false} EscapedQuotesGuarded(s: string)
    ensures var e := EscapeQuotes(s);
            forall j :: 0 <= j < |e| && e[j] == '"' ==> j > 0 && e[j - 1] == '\\'
  {
    if s != [] {
      EscapedQuotesGuarded(s[1..]);
      var e := EscapeQuotes(s);
      var rest := EscapeQuotes(s[1..]);
      var h := if s[0] == '"' then "\\\"" else [s[0]];
      assert e == h + rest;
      EscapeHead(s[1..]);
      assert forall j :: 0 <= j < |h| ==> e[j] == h[j];
      assert forall j :: |h| <= j < |e| ==> e[j] == rest[j - |h|];
    }
  }

  /** Every failure, and a missing URL, is answered with an error code and no headers;
      a reply from the server is passed through unchanged. */
  lemma FailuresAreErrors(st: BuilderState, o: Outcome)
    ensures UrlMissing(st) || !o.Ok? ==> IsErrorCode(Respond(st, o).status) && Respond(st, o).headers.None?
    ensures !UrlMissing(st) && o.Ok? ==> Respond(st, o) == Reply(o.status, Some(o.responseBody), Some(o.responseHeaders))
  {
    if !UrlMissing(st) && !o.Ok? {
      FailureReply(o);
    }
  }

  lemma FailureReply(o: Outcome)
    requires !o.Ok?
    ensures IsErrorCode(ReplyTo(o).status) && ReplyTo(o).headers.None?
  {
    match o
    case Timeout =>
    case ConnectRefused =>
    case Io(message) =>
      assert ReplyTo(o).status == (if Unreachable(message) then 503 else 502);
    case Interrupted =>
    case UriSyntax(reason) =>
  }

  /** An I/O failure that names an unreachable service gives 503 and any other gives 502;
      only the absence of a message yields the text "Network error". */
  lemma IoMapping(message: Option<string>)
    ensures ReplyTo(Io(message)).status == (if Unreachable(message) then 503 else 502)
    ensures message.Some? ==> exists p :: OccursAt(ReplyTo(Io(message)).body.value, EscapeQuotes(message.value), p)
  {
    if message.Some? {
      var m := EscapeQuotes(message.value);
      var pre := if Unreachable(message) then "{\"error\": \"Service Unavailable\", \"message\": \"" else "{\"error\": \"Bad Gateway\", \"message\": \"";
      assert ReplyTo(Io(message)).body.value == pre + m + "\"}";
      assert OccursAt(m, m, 0);
      OccursShift(pre, m, "\"}", m, 0);
    }
  }

  // ---------------------------------------------------------------- the request sent

  /** A body goes out only for a non-blank body with POST, PUT or PATCH, and the JSON
      Content-Type is added only then and only when no header has exactly that name. */
  lemma SentBodyRule(st: BuilderState, o: Outcome, order: seq<string>)
    requires Enumerates(order, st.queryParams.Keys)
    requires !UrlMissing(st) && !o.UriSyntax? && st.httpMethod.Some?
    ensures var r := Sent(st, o, order).value;
            (r.body.Some? <==> AttachesBody(st)) && (r.body.Some? ==> r.body == st.body)
            && (r.addsContentType <==> AttachesBody(st) && "Content-Type" !in WithAuth(st))
            && r.uri == FullUrl(st, order).value
  {
  }
}
