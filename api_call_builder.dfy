/** The request executor (server/ApiCallBuilder.java): a builder whose setters fill its
    fields, text parsers for headers and query parameters, URL assembly with substitution
    and form encoding, the Authorization header, and the mapping from the outcome of the
    network call to a response. */
module ApiCall {
  import opened Wrappers
  import opened JavaText
  import opened StringMaps
  import opened VariableReplacer
  import FormEncoding
  import Base64
  import opened Responses

  // ---------------------------------------------------------------- text parsers

  /** One line of `key: value` text: the trimmed line split at its first `:`, which must not
      be its first character; both sides trimmed and both non-empty. */
  function LinePair(line: string): (r: Option<(string, string)>)
    ensures r.Some? ==> r.value.0 != [] && r.value.1 != [] && ':' !in r.value.0
    ensures r.Some? ==> Trim(r.value.0) == r.value.0 && Trim(r.value.1) == r.value.1
  {
    var t := Trim(line);
    var i := IndexOf(t, ':');
    if i <= 0 then None
    else
      var key := Trim(t[..i]);
      var value := Trim(t[i + 1..]);
      TrimChars(t[..i], ':');
      TrimIdempotent(t[..i]);
      TrimIdempotent(t[i + 1..]);
      if key != [] && value != [] then Some((key, value)) else None
  }

  /** One `&`-separated piece, `pair.split("=", 2)`: split at its first `=` and both sides
      trimmed, with no emptiness check; a piece without `=` yields nothing. */
  function QueryPair(piece: string): (r: Option<(string, string)>)
    ensures r.Some? <==> '=' in piece
  {
    ContainsChar(piece, '=');
    match Find(piece, "=")
    case None => None
    case Some(i) => Some((Trim(piece[..i]), Trim(piece[i + 1..])))
  }

  /** The pairs `parse` finds in the pieces, in order. */
  function Pairs(parse: string -> Option<(string, string)>, pieces: seq<string>): seq<(string, string)>
    decreases |pieces|
  {
    if pieces == [] then []
    else
      var p := parse(pieces[|pieces| - 1]);
      Pairs(parse, pieces[..|pieces| - 1]) + (if p.Some? then [p.value] else [])
  }

  /** The parser loop: every pair found is `put` into the map, later ones overwriting earlier ones. */
  method PutPairs(m: map<string, string>, parse: string -> Option<(string, string)>, pieces: seq<string>)
    returns (r: map<string, string>)
    ensures r == PutAll(m, Pairs(parse, pieces))
  {
    r := m;
    for i := 0 to |pieces|
      invariant r == PutAll(m, Pairs(parse, pieces[..i]))
    {
      PairsSnoc(parse, pieces, i);
      var p := parse(pieces[i]);
      if p.Some? {
        PutAllSnoc(m, Pairs(parse, pieces[..i]), p.value);
        r := r[p.value.0 := p.value.1];
      } else {
        assert Pairs(parse, pieces[..i]) + [] == Pairs(parse, pieces[..i]);
      }
    }
    assert pieces[..|pieces|] == pieces;
  }

  lemma PairsSnoc(parse: string -> Option<(string, string)>, pieces: seq<string>, i: nat)
    requires i < |pieces|
    ensures var p := parse(pieces[i]);
            Pairs(parse, pieces[..i + 1]) == Pairs(parse, pieces[..i]) + (if p.Some? then [p.value] else [])
  {
    var ps := pieces[..i + 1];
    assert ps[..|ps| - 1] == pieces[..i];
    assert ps[|ps| - 1] == pieces[i];
  }

  /** The pairs `parseHeaders` puts: one per line. */
  function HeaderPairs(text: string): seq<(string, string)> {
    Pairs(LinePair, Split(text, "\n"))
  }

  /** The pairs `parseQueryParams` puts: `&`-pieces when the text holds both `=` and `&`,
      otherwise the `key: value` lines of the header format. */
  function QueryPairs(text: string): seq<(string, string)> {
    if Contains(text, "=") && Contains(text, "&") then Pairs(QueryPair, Split(text, "&"))
    else Pairs(LinePair, Split(text, "\n"))
  }

  /** `headers(text)` and `queryParams(text)` parse only a non-null, non-blank text. */
  function ParseIfPresent(m: map<string, string>, text: Option<string>, pairs: string -> seq<(string, string)>): map<string, string> {
    if text.Some? && !IsBlankTrim(text.value) then PutAll(m, pairs(text.value)) else m
  }

  // ---------------------------------------------------------------- the builder's state

  datatype BuilderState = BuilderState(
    url: Option<string>, httpMethod: Option<string>, headers: map<string, string>, body: Option<string>,
    authType: Option<string>, username: Option<string>, password: Option<string>, token: Option<string>,
    queryParams: map<string, string>, variables: Option<map<string, string>>)

  /** `method(m)`: the upper-cased name, or GET for null. */
  function MethodName(m: Option<string>): string {
    if m.None? then "GET" else ToUpper(m.value)
  }

  /** A null or blank URL. */
  predicate UrlMissing(st: BuilderState) {
    st.url.None? || IsBlankTrim(st.url.value)
  }

  /** Substitution as `buildUrl` applies it: only with a non-null, non-empty variable map. */
  function Subst(vars: Option<map<string, string>>, s: string): string {
    Replaced(s, vars.GetOr(map[]))
  }

  /** The query parameters in iteration order, key and value substituted. */
  function ParamPairs(st: BuilderState, order: seq<string>): (r: seq<(string, string)>)
    requires forall i :: 0 <= i < |order| ==> order[i] in st.queryParams
    ensures |r| == |order|
  {
    seq(|order|, i requires 0 <= i < |order| => (Subst(st.variables, order[i]), Subst(st.variables, st.queryParams[order[i]])))
  }

  /** Each pair as `encode(key) + "=" + encode(value)`. */
  function EncodedPairs(ps: seq<(string, string)>): (r: seq<string>)
    ensures |r| == |ps|
  {
    seq(|ps|, i requires 0 <= i < |ps| => FormEncoding.Encode(ps[i].0) + "=" + FormEncoding.Encode(ps[i].1))
  }

  /** What `buildUrl` appends: nothing without parameters, else `?` and the `&`-joined pairs. */
  function QueryString(ps: seq<(string, string)>): string {
    if ps == [] then "" else "?" + Join(EncodedPairs(ps), "&")
  }

  /** `buildUrl()`: null for a missing URL; otherwise the trimmed, substituted URL and the query string. */
  function FullUrl(st: BuilderState, order: seq<string>): Option<string>
    requires Enumerates(order, st.queryParams.Keys)
  {
    if UrlMissing(st) then None
    else Some(Subst(st.variables, Trim(st.url.value)) + QueryString(ParamPairs(st, order)))
  }

  /** The Authorization value `addAuthHeaders` puts, if any. */
  function AuthValue(st: BuilderState): Option<string> {
    if st.authType.None? || st.authType.value == "No auth" then None
    else if st.authType.value == "Basic auth" then
      if st.username.Some? && st.password.Some? then Some(Base64.BasicCredentials(st.username.value, st.password.value))
      else None
    else if st.authType.value == "Bearer token" || st.authType.value == "Jwt bearer" then
      if st.token.Some? && !IsBlankTrim(st.token.value) then Some("Bearer " + Trim(st.token.value)) else None
    else None
  }

  function WithAuth(st: BuilderState): map<string, string> {
    if AuthValue(st).Some? then st.headers["Authorization" := AuthValue(st).value] else st.headers
  }

  /** A body is sent only when it is non-blank and the method is POST, PUT or PATCH. */
  predicate AttachesBody(st: BuilderState) {
    st.body.Some? && !IsBlankTrim(st.body.value) && st.httpMethod.Some?
    && (st.httpMethod.value == "POST" || st.httpMethod.value == "PUT" || st.httpMethod.value == "PATCH")
  }

  // ---------------------------------------------------------------- the network call

  /** What `new URI(fullUrl)` and `httpClient.send` can come back with. */
  datatype Outcome =
    | Ok(status: int, responseBody: string, responseHeaders: HeaderLists)
    | Timeout
    | ConnectRefused
    | Io(message: Option<string>)
    | Interrupted
    | UriSyntax(reason: Option<string>)

  /** The request handed to the HTTP client: every builder header (in no particular order),
      whether a `Content-Type: application/json` header is added, and the body if one is sent. */
  datatype SentRequest = SentRequest(uri: string, httpMethod: string, headers: map<string, string>,
                                     addsContentType: bool, body: Option<string>)

  datatype Reply = Reply(status: int, body: Option<string>, headers: Option<HeaderLists>)

  /** `message.replace("\"", "\\\"")`. */
  function EscapeQuotes(s: string): string {
    if s == [] then []
    else (if s[0] == '"' then "\\\"" else [s[0]]) + EscapeQuotes(s[1..])
  }

  /** Reads `\"` back as `"`; the partner of EscapeQuotes. */
  function UnescapeQuotes(s: string): string
    decreases |s|
  {
    if s == [] then []
    else if |s| >= 2 && s[0] == '\\' && s[1] == '"' then "\"" + UnescapeQuotes(s[2..])
    else [s[0]] + UnescapeQuotes(s[1..])
  }

  const UrlErrorBody := "{\"error\": \"URL cannot be null or empty\"}"
  const TimeoutBody := "{\"error\": \"Request Timeout\", \"message\": \"The request timed out after 30 seconds\"}"
  const RefusedBody := "{\"error\": \"Service Unavailable\", \"message\": \"Connection refused. The server may be down or unreachable.\"}"
  const InterruptedBody := "{\"error\": \"Client Closed Request\", \"message\": \"Request was interrupted\"}"

  /** An I/O failure message that says the service cannot be reached. */
  predicate Unreachable(message: Option<string>) {
    message.Some? && (Contains(message.value, "Connection refused") || Contains(message.value, "Network is unreachable"))
  }

  /** The response `execute` builds for each outcome. */
  function ReplyTo(o: Outcome): Reply {
    match o
    case Ok(status, b, h) => Reply(status, Some(b), Some(h))
    case Timeout => Reply(408, Some(TimeoutBody), None)
    case ConnectRefused => Reply(503, Some(RefusedBody), None)
    case Io(message) =>
      if Unreachable(message) then
        Reply(503, Some("{\"error\": \"Service Unavailable\", \"message\": \"" + EscapeQuotes(message.value) + "\"}"), None)
      else
        Reply(502, Some("{\"error\": \"Bad Gateway\", \"message\": \""
                        + (if message.Some? then EscapeQuotes(message.value) else "Network error") + "\"}"), None)
    case Interrupted => Reply(499, Some(InterruptedBody), None)
    case UriSyntax(reason) =>
      Reply(400, Some("{\"error\": \"Bad Request\", \"message\": \"Invalid URL: "
                      + (if reason.Some? then EscapeQuotes(reason.value) else "Malformed URL") + "\"}"), None)
  }

  /** `execute()` from a builder state: a missing URL gives 400 at once; otherwise the reply to the outcome. */
  function Respond(st: BuilderState, o: Outcome): Reply {
    if UrlMissing(st) then Reply(400, Some(UrlErrorBody), None) else ReplyTo(o)
  }

  /** The request `execute()` sends; none when the URL is missing or does not parse. */
  function Sent(st: BuilderState, o: Outcome, order: seq<string>): Option<SentRequest>
    requires Enumerates(order, st.queryParams.Keys)
    requires UrlMissing(st) || o.UriSyntax? || st.httpMethod.Some?
  {
    if UrlMissing(st) || o.UriSyntax? then None
    else
      var h := WithAuth(st);
      Some(SentRequest(FullUrl(st, order).value, st.httpMethod.value, h,
                       AttachesBody(st) && "Content-Type" !in h,
                       if AttachesBody(st) then st.body else None))
  }

  /** The headers after `execute()`: the Authorization header is put after the URI is built. */
  function HeadersAfter(st: BuilderState, o: Outcome): map<string, string> {
    if UrlMissing(st) || o.UriSyntax? then st.headers else WithAuth(st)
  }

  lemma EncodedAt(st: BuilderState, order: seq<string>, i: nat)
    requires forall j :: 0 <= j < |order| ==> order[j] in st.queryParams
    requires i < |order|
    ensures EncodedPairs(ParamPairs(st, order))[i]
            == FormEncoding.Encode(Subst(st.variables, order[i])) + "=" + FormEncoding.Encode(Subst(st.variables, st.queryParams[order[i]]))
  {
  }

  /** One more part of a `first`-flag join: `?` before the first, the separator before the others. */
  lemma JoinStep(parts: seq<string>, i: nat, sep: string)
    requires i < |parts|
    ensures (if i == 0 then "" else "?" + Join(parts[..i], sep)) + (if i == 0 then "?" else sep) + parts[i]
            == "?" + Join(parts[..i + 1], sep)
  {
    assert parts[..i + 1] == parts[..i] + [parts[i]];
    if i > 0 {
      JoinSnoc(parts[..i], parts[i], sep);
    } else {
      assert parts[..1] == [parts[0]];
    }
  }

  // ---------------------------------------------------------------- the builder

  class ApiCallBuilder {
    var url: Option<string>
    var httpMethod: Option<string>
    var headers: map<string, string>
    var body: Option<string>
    var authType: Option<string>
    var username: Option<string>
    var password: Option<string>
    var token: Option<string>
    var queryParams: map<string, string>
    var variables: Option<map<string, string>>

    function State(): BuilderState
      reads this
    {
      BuilderState(url, httpMethod, headers, body, authType, username, password, token, queryParams, variables)
    }

    /** A new builder: empty header and parameter maps, every other field null. */
    constructor ()
      ensures State() == BuilderState(None, None, map[], None, None, None, None, None, map[], None)
    {
      url, httpMethod, headers, body := None, None, map[], None;
      authType, username, password, token := None, None, None, None;
      queryParams, variables := map[], None;
    }

    method Url(u: Option<string>)
      modifies this
      ensures State() == old(State()).(url := u)
    {
      url := u;
    }

    method Method(m: Option<string>)
      modifies this
      ensures State() == old(State()).(httpMethod := Some(MethodName(m)))
    {
      httpMethod := Some(if m.None? then "GET" else ToUpper(m.value));
    }

    /** `header(k, v)` ignores a null key or value. */
    method Header(k: Option<string>, v: Option<string>)
      modifies this
      ensures State() == old(State()).(headers := if k.Some? && v.Some? then old(headers)[k.value := v.value] else old(headers))
    {
      if k.Some? && v.Some? {
        headers := headers[k.value := v.value];
      }
    }

    method Headers(text: Option<string>)
      modifies this
      ensures State() == old(State()).(headers := ParseIfPresent(old(headers), text, HeaderPairs))
    {
      if text.Some? && !IsBlankTrim(text.value) {
        ParseHeaders(text.value);
      }
    }

    method Body(b: Option<string>)
      modifies this
      ensures State() == old(State()).(body := b)
    {
      body := b;
    }

    method AuthType(t: Option<string>)
      modifies this
      ensures State() == old(State()).(authType := t)
    {
      authType := t;
    }

    method BasicAuth(user: Option<string>, pass: Option<string>)
      modifies this
      ensures State() == old(State()).(username := user, password := pass, authType := Some("Basic auth"))
    {
      username, password, authType := user, pass, Some("Basic auth");
    }

    method BearerToken(t: Option<string>)
      modifies this
      ensures State() == old(State()).(token := t, authType := Some("Bearer token"))
    {
      token, authType := t, Some("Bearer token");
    }

    method JwtToken(t: Option<string>)
      modifies this
      ensures State() == old(State()).(token := t, authType := Some("Jwt bearer"))
    {
      token, authType := t, Some("Jwt bearer");
    }

    /** `queryParam(k, v)` ignores a null key or value. */
    method QueryParam(k: Option<string>, v: Option<string>)
      modifies this
      ensures State() == old(State()).(queryParams := if k.Some? && v.Some? then old(queryParams)[k.value := v.value] else old(queryParams))
    {
      if k.Some? && v.Some? {
        queryParams := queryParams[k.value := v.value];
      }
    }

    method QueryParams(text: Option<string>)
      modifies this
      ensures State() == old(State()).(queryParams := ParseIfPresent(old(queryParams), text, QueryPairs))
    {
      if text.Some? && !IsBlankTrim(text.value) {
        ParseQueryParams(text.value);
      }
    }

    method Variables(vars: Option<map<string, string>>)
      modifies this
      ensures State() == old(State()).(variables := vars)
    {
      variables := vars;
    }

    method ParseHeaders(text: string)
      modifies this
      ensures State() == old(State()).(headers := PutAll(old(headers), HeaderPairs(text)))
    {
      headers := PutPairs(headers, LinePair, Split(text, "\n"));
    }

    method ParseQueryParams(text: string)
      modifies this
      ensures State() == old(State()).(queryParams := PutAll(old(queryParams), QueryPairs(text)))
    {
      if Contains(text, "=") && Contains(text, "&") {
        queryParams := PutPairs(queryParams, QueryPair, Split(text, "&"));
      } else {
        queryParams := PutPairs(queryParams, LinePair, Split(text, "\n"));
      }
    }

    /** The `switch (authType)` of `fromUI`. */
    method ApplyUIAuth(t: Option<string>, user: Option<string>, pass: Option<string>, tok: Option<string>)
      modifies this
      ensures State() == UIAuth(old(State()), t, user, pass, tok)
    {
      if t.Some? {
        if t.value == "Basic auth" {
          BasicAuth(user, pass);
        } else if t.value == "Bearer token" || t.value == "Jwt bearer" {
          BearerToken(tok);
        } else {
          AuthType(t);
        }
      }
    }

    /** `replaceVariables` applied only for a non-null, non-empty variable map. */
    method Substitute(s: string) returns (r: string)
      ensures r == Subst(variables, s)
    {
      if variables.Some? && variables.value != map[] {
        var t := ReplaceVariables(Some(s), variables);
        r := t.value;
      } else {
        ReplacedWithoutVariables(s, variables.GetOr(map[]));
        r := s;
      }
    }

    /** `buildUrl()`, the parameter map visited in the iteration order `order`. */
    method BuildUrl(order: seq<string>) returns (r: Option<string>)
      requires Enumerates(order, queryParams.Keys)
      ensures r == FullUrl(State(), order)
    {
      if url.None? || IsBlankTrim(url.value) {
        return None;
      }
      ghost var st := State();
      var full := Substitute(Trim(url.value));
      var query := "";
      if queryParams != map[] {
        query := BuildQuery(order);
      } else {
        assert queryParams.Keys == {};
        assert ParamPairs(st, order) == [];
      }
      assert query == QueryString(ParamPairs(st, order));
      r := Some(full + query);
    }

    /** The query-string loop of `buildUrl`: `?` before the first pair, `&` before every other. */
    method BuildQuery(order: seq<string>) returns (query: string)
      requires Enumerates(order, queryParams.Keys)
      ensures query == QueryString(ParamPairs(State(), order))
    {
      ghost var encoded := EncodedPairs(ParamPairs(State(), order));
      query := "";
      var first := true;
      for i := 0 to |order|
        invariant first <==> i == 0
        invariant query == if i == 0 then "" else "?" + Join(encoded[..i], "&")
      {
        if first {
          query := query + "?";
          first := false;
        } else {
          query := query + "&";
        }
        var key := Substitute(order[i]);
        var value := Substitute(queryParams[order[i]]);
        var piece := FormEncoding.Encode(key) + "=" + FormEncoding.Encode(value);
        EncodedAt(State(), order, i);
        JoinStep(encoded, i, "&");
        query := query + piece;
      }
      assert encoded[..|order|] == encoded;
    }

    /** `addAuthHeaders()`. */
    method AddAuthHeaders()
      modifies this
      ensures State() == old(State()).(headers := WithAuth(old(State())))
    {
      if authType.None? || authType.value == "No auth" {
        return;
      }
      if authType.value == "Basic auth" {
        if username.Some? && password.Some? {
          headers := headers["Authorization" := Base64.BasicCredentials(username.value, password.value)];
        }
      } else if authType.value == "Bearer token" || authType.value == "Jwt bearer" {
        if token.Some? && !IsBlankTrim(token.value) {
          headers := headers["Authorization" := "Bearer " + Trim(token.value)];
        }
      }
    }

    /** `execute()`, with the outcome of building the URI and sending the request given as
        `outcome` and the parameter map visited in the order `order`.  Returns the response and
        the request that was sent. */
    method Execute(outcome: Outcome, order: seq<string>) returns (response: ApiResponse, sent: Option<SentRequest>)
      requires Enumerates(order, queryParams.Keys)
      requires UrlMissing(State()) || outcome.UriSyntax? || httpMethod.Some?
      modifies this
      ensures fresh(response)
      ensures Reply(response.statusCode, response.body, response.headers) == Respond(old(State()), outcome)
      ensures sent == Sent(old(State()), outcome, order)
      ensures State() == old(State()).(headers := HeadersAfter(old(State()), outcome))
    {
      if url.None? || IsBlankTrim(url.value) {
        response := NewResponse(Reply(400, Some(UrlErrorBody), None));
        return response, None;
      }
      var fullUrl := BuildUrl(order);
      if outcome.UriSyntax? {
        response := NewResponse(ReplyTo(outcome));
        return response, None;
      }
      AddAuthHeaders();
      var attach := body.Some? && !IsBlankTrim(body.value)
                    && (httpMethod.value == "POST" || httpMethod.value == "PUT" || httpMethod.value == "PATCH");
      sent := Some(SentRequest(fullUrl.value, httpMethod.value, headers, attach && "Content-Type" !in headers,
                               if attach then body else None));
      response := NewResponse(ReplyTo(outcome));
    }
  }

  /** A fresh `ApiResponse` with the reply's status, body and headers set. */
  method NewResponse(reply: Reply) returns (response: ApiResponse)
    ensures fresh(response)
    ensures Reply(response.statusCode, response.body, response.headers) == reply
  {
    response := new ApiResponse();
    response.SetStatusCode(reply.status);
    response.SetBody(reply.body);
    response.SetHeaders(reply.headers);
  }

  /** The builder state of `fromUI` before authentication: url, method, header text, body and
      parameter text in that order, then the item's variables when `itemId > 0` and they are non-empty. */
  function FromUIBase(url: Option<string>, httpMethod: Option<string>, headersText: Option<string>, bodyText: Option<string>,
                      queryParamsText: Option<string>, itemId: int, itemVariables: map<string, string>): BuilderState
  {
    BuilderState(url, Some(MethodName(httpMethod)), ParseIfPresent(map[], headersText, HeaderPairs), bodyText,
                 None, None, None, None, ParseIfPresent(map[], queryParamsText, QueryPairs),
                 if itemId > 0 && itemVariables != map[] then Some(itemVariables) else None)
  }

  /** The authentication part of `fromUI`: "Basic auth" stores user and password, "Bearer token"
      and "Jwt bearer" both store the token under "Bearer token", any other non-null tag is stored as is. */
  function UIAuth(st: BuilderState, authType: Option<string>, username: Option<string>, password: Option<string>,
                  token: Option<string>): BuilderState
  {
    if authType.None? then st
    else if authType.value == "Basic auth" then st.(username := username, password := password, authType := Some("Basic auth"))
    else if authType.value == "Bearer token" || authType.value == "Jwt bearer" then st.(token := token, authType := Some("Bearer token"))
    else st.(authType := authType)
  }

  /** `ApiCallBuilder.fromUI(...)`; `itemVariables` is what `CollectionDao.getAllVariablesForRequest`
      returns for the item (only consulted when `itemId > 0`). */
  method FromUI(url: Option<string>, httpMethod: Option<string>, headersText: Option<string>, bodyText: Option<string>,
                authType: Option<string>, username: Option<string>, password: Option<string>, token: Option<string>,
                queryParamsText: Option<string>, itemId: int, itemVariables: map<string, string>)
    returns (b: ApiCallBuilder)
    ensures fresh(b)
    ensures b.State() == UIAuth(FromUIBase(url, httpMethod, headersText, bodyText, queryParamsText, itemId, itemVariables),
                                authType, username, password, token)
  {
    b := new ApiCallBuilder();
    b.Url(url);
    b.Method(httpMethod);
    b.Headers(headersText);
    b.Body(bodyText);
    b.QueryParams(queryParamsText);
    if itemId > 0 && itemVariables != map[] {
      b.Variables(Some(itemVariables));
    }
    assert b.State() == FromUIBase(url, httpMethod, headersText, bodyText, queryParamsText, itemId, itemVariables);
    b.ApplyUIAuth(authType, username, password, token);
  }
}
