/** The request editor's data mapping (the components package): the headers and params tables,
    the authorization fields, the request panel with its cache of unsaved edits, and the
    table model of the environment variables window. Widgets are their contents: a table is
    its rows, a text field its text, a combo box its selection. */
module Components {
  import opened Wrappers
  import opened JavaText
  import opened Objects
  import ApiCall
  import ApiCallProperties
  import opened TableRows
  import opened TablePanels

  // ---------------------------------------------------------------- authorization

  const NoAuthText := "No auth"
  const BasicAuthText := "Basic auth"
  const BearerTokenText := "Bearer token"
  const JwtBearerText := "Jwt bearer"

  /** The items of the authorization type combo box, in order. */
  const AuthChoices := [NoAuthText, BasicAuthText, BearerTokenText, JwtBearerText]

  /** What the authorization tab shows: the selected type and the three text fields. */
  datatype AuthFields = AuthFields(selected: string, user: string, pass: string, token: string)

  const ClearedAuth := AuthFields(NoAuthText, "", "", "")

  /** The text a field shows after `setText(list.get(i).getValue())`, or `""` when the list is
      shorter; `setText(null)` empties a field. */
  function CredentialText(cs: seq<Credential>, i: nat): string {
    if i < |cs| then cs[i].value.GetOr("") else ""
  }

  /** The authorization tab after `populateFromRequest`: a basic list wins over a bearer list,
      and the tab never ends on "Jwt bearer". */
  function PopulatedAuth(request: Option<Request>): (f: AuthFields)
    ensures f.selected in AuthChoices && f.selected != JwtBearerText
    ensures f.selected == NoAuthText ==> f == ClearedAuth
  {
    if request.None? || request.value.auth.None? then ClearedAuth
    else
      var a := request.value.auth.value;
      if a.basic.Some? then AuthFields(BasicAuthText, CredentialText(a.basic.value, 0), CredentialText(a.basic.value, 1), "")
      else if a.bearer.Some? then AuthFields(BearerTokenText, "", "", CredentialText(a.bearer.value, 0))
      else ClearedAuth
  }

  /** The authorization tab (AuthPanel.java). */
  class AuthPanel {
    var selected: string
    var user: string
    var pass: string
    var token: string

    constructor ()
      ensures Fields() == ClearedAuth
    {
      selected := NoAuthText;
      user := "";
      pass := "";
      token := "";
    }

    function Fields(): AuthFields
      reads this
    {
      AuthFields(selected, user, pass, token)
    }

    method PopulateFromRequest(request: Option<Request>)
      modifies this
      ensures Fields() == PopulatedAuth(request)
    {
      if request.None? || request.value.auth.None? {
        user, pass, token := "", "", "";
        selected := NoAuthText;
        return;
      }
      var a := request.value.auth.value;
      if a.basic.Some? {
        var basic := a.basic.value;
        user := if |basic| > 0 then basic[0].value.GetOr("") else "";
        pass := if |basic| > 1 then basic[1].value.GetOr("") else "";
        token := "";
        selected := BasicAuthText;
      } else if a.bearer.Some? {
        var bearer := a.bearer.value;
        token := if |bearer| > 0 then bearer[0].value.GetOr("") else "";
        user, pass := "", "";
        selected := BearerTokenText;
      } else {
        user, pass, token := "", "", "";
        selected := NoAuthText;
      }
    }
  }

  /** `buildAuthFromUI`: nothing for a null tag or "No auth"; otherwise the tag lower-cased
      with its spaces removed as the type, a username/password pair for "Basic auth", one
      token for either bearer tag, and no credentials for any other tag. */
  function AuthFromUI(authType: Option<string>, user: string, pass: string, token: string): Option<Auth> {
    if authType.None? || authType.value == NoAuthText then None
    else
      var tag := authType.value;
      Some(Auth(Some(RemoveSpaces(ToLower(tag))),
                if tag == BasicAuthText
                then Some([Credential(Some("username"), Some(user), None), Credential(Some("password"), Some(pass), None)])
                else None,
                if tag == BearerTokenText || tag == JwtBearerText
                then Some([Credential(Some("token"), Some(token), None)])
                else None))
  }

  /** Any tag but "No auth" is stored lower-cased without its spaces. */
  lemma AuthTypeOf(tag: string, user: string, pass: string, token: string)
    requires tag != NoAuthText
    ensures AuthFromUI(Some(tag), user, pass, token).value.authType == Some(RemoveSpaces(ToLower(tag)))
  {
  }

  /** A tag made of a capitalised word, a space and a lower-case word, lower-cased with its
      space removed. */
  lemma FoldTag(c: char, a: string, b: string)
    requires 'A' <= c <= 'Z'
    requires forall k :: 0 <= k < |a| ==> 'a' <= a[k] <= 'z'
    requires forall k :: 0 <= k < |b| ==> 'a' <= b[k] <= 'z'
    ensures RemoveSpaces(ToLower([c] + a + " " + b)) == [ToLowerChar(c)] + a + b
  {
    var t := [c] + a + " " + b;
    var lowered := [ToLowerChar(c)] + a + " " + b;
    forall k | 0 <= k < |t| ensures ToLower(t)[k] == lowered[k] {
      if 0 < k <= |a| {
        assert t[k] == a[k - 1] && lowered[k] == a[k - 1];
      } else if k > |a| + 1 {
        assert t[k] == b[k - |a| - 2] && lowered[k] == b[k - |a| - 2];
      }
    }
    assert ToLower(t) == lowered;
    assert ' ' !in [ToLowerChar(c)] + a;
    RemoveOneSpace([ToLowerChar(c)] + a, b);
  }

  /** The type "Basic auth" is stored under. */
  lemma BasicAuthTypeName(user: string, pass: string, token: string)
    ensures AuthFromUI(Some(BasicAuthText), user, pass, token).value.authType == Some("basicauth")
  {
    AuthTypeOf(BasicAuthText, user, pass, token);
    BasicTagFolded();
  }

  lemma BasicTagFolded()
    ensures RemoveSpaces(ToLower(BasicAuthText)) == "basicauth"
  {
    assert BasicAuthText == ['B'] + "asic" + " " + "auth";
    FoldTag('B', "asic", "auth");
    assert [ToLowerChar('B')] + "asic" + "auth" == "basicauth";
  }


  /** The type "Bearer token" is stored under. */
  lemma BearerTokenTypeName(user: string, pass: string, token: string)
    ensures AuthFromUI(Some(BearerTokenText), user, pass, token).value.authType == Some("bearertoken")
  {
    AuthTypeOf(BearerTokenText, user, pass, token);
    BearerTagFolded();
  }

  lemma BearerTagFolded()
    ensures RemoveSpaces(ToLower(BearerTokenText)) == "bearertoken"
  {
    assert BearerTokenText == ['B'] + "earer" + " " + "token";
    FoldTag('B', "earer", "token");
    assert [ToLowerChar('B')] + "earer" + "token" == "bearertoken";
  }


  /** The type "Jwt bearer" is stored under. */
  lemma JwtBearerTypeName(user: string, pass: string, token: string)
    ensures AuthFromUI(Some(JwtBearerText), user, pass, token).value.authType == Some("jwtbearer")
  {
    AuthTypeOf(JwtBearerText, user, pass, token);
    JwtTagFolded();
  }

  lemma JwtTagFolded()
    ensures RemoveSpaces(ToLower(JwtBearerText)) == "jwtbearer"
  {
    assert JwtBearerText == ['J'] + "wt" + " " + "bearer";
    FoldTag('J', "wt", "bearer");
    assert [ToLowerChar('J')] + "wt" + "bearer" == "jwtbearer";
  }


  /** Building the authorization from the tab and showing it again: basic credentials come
      back unchanged, either bearer tag comes back as "Bearer token" with its token, and
      "No auth" clears the tab. */
  lemma AuthRoundTrip(f: AuthFields, r: Request)
    requires f.selected in AuthChoices
    ensures PopulatedAuth(Some(r.(auth := AuthFromUI(Some(f.selected), f.user, f.pass, f.token))))
         == if f.selected == BasicAuthText then AuthFields(BasicAuthText, f.user, f.pass, "")
            else if f.selected == BearerTokenText || f.selected == JwtBearerText then AuthFields(BearerTokenText, "", "", f.token)
            else ClearedAuth
  {
  }

  // ---------------------------------------------------------------- the request panel

  /** The items of the method combo box; it is not editable, so selecting anything else
      leaves the selection as it was. */
  const MethodChoices := ["GET", "POST", "PUT", "DELETE", "PATCH", "OPTIONS", "HEAD"]

  /** The initial text of the URL field. */
  const UrlPlaceholder := "Enter URL or paste text"

  /** The method selection after `setSelectedItem(m)` for a non-null `m`. */
  function ShownMethod(current: string, m: Option<string>): string {
    if m.Some? && m.value in MethodChoices then m.value else current
  }

  /** A request whose header and query lists hold no null element: the populate loops
      dereference every element. */
  predicate NoNullLists(r: Request) {
    (r.header.Some? ==> NoNulls(r.header.value))
    && (r.url.Some? && r.url.value.query.Some? ==> NoNulls(r.url.value.query.value))
  }

  function UrlTextOf(r: Request): string {
    if r.url.Some? && r.url.value.raw.Some? then r.url.value.raw.value else ""
  }

  function BodyTextOf(r: Request): string {
    if r.body.Some? && r.body.value.raw.Some? then r.body.value.raw.value else ""
  }

  /** The headers text: a `key: value` line, ended by a newline, per header with both a key
      and a value. */
  function HeaderText(hs: seq<Option<Header>>): string
    requires NoNulls(hs)
  {
    if hs == [] then ""
    else
      var h := hs[|hs| - 1].value;
      HeaderText(hs[..|hs| - 1])
      + (if h.key.Some? && h.value.Some? then h.key.value + ": " + h.value.value + "\n" else "")
  }

  /** The params text: a `key=value` line, ended by a newline, per parameter with both a key
      and a value. */
  function QueryText(qs: seq<Option<Query>>): string
    requires NoNulls(qs)
  {
    if qs == [] then ""
    else
      var q := qs[|qs| - 1].value;
      QueryText(qs[..|qs| - 1])
      + (if q.key.Some? && q.value.Some? then q.key.value + "=" + q.value.value + "\n" else "")
  }

  function HeadersTextOf(r: Request): string
    requires NoNullLists(r)
  {
    if r.header.Some? && r.header.value != [] then HeaderText(r.header.value) else ""
  }

  function ParamsTextOf(r: Request): string
    requires NoNullLists(r)
  {
    if r.url.Some? && r.url.value.query.Some? then QueryText(r.url.value.query.value) else ""
  }

  /** The loop of `populateFromRequest` that writes the headers text. */
  method BuildHeadersText(hs: seq<Option<Header>>) returns (text: string)
    requires NoNulls(hs)
    ensures text == HeaderText(hs)
  {
    text := "";
    for i := 0 to |hs|
      invariant NoNulls(hs[..i]) && text == HeaderText(hs[..i])
    {
      assert hs[..i + 1][..i] == hs[..i];
      var h := hs[i].value;
      if h.key.Some? && h.value.Some? {
        text := text + h.key.value + ": " + h.value.value + "\n";
      }
    }
    assert hs[..|hs|] == hs;
  }

  /** The loop of `populateFromRequest` that writes the params text. */
  method BuildParamsText(qs: seq<Option<Query>>) returns (text: string)
    requires NoNulls(qs)
    ensures text == QueryText(qs)
  {
    text := "";
    for i := 0 to |qs|
      invariant NoNulls(qs[..i]) && text == QueryText(qs[..i])
    {
      assert qs[..i + 1][..i] == qs[..i];
      var q := qs[i].value;
      if q.key.Some? && q.value.Some? {
        text := text + q.key.value + "=" + q.value.value + "\n";
      }
    }
    assert qs[..|qs|] == qs;
  }

  // ---------------------------------------------------------------- headers text and the parser

  /** The lines of the headers text, without their newlines. */
  function TextLines(hs: seq<Option<Header>>): (r: seq<string>)
    requires NoNulls(hs)
    ensures forall i :: 0 <= i < |r| ==> r[i] != []
  {
    if hs == [] then []
    else
      var h := hs[|hs| - 1].value;
      TextLines(hs[..|hs| - 1]) + (if h.key.Some? && h.value.Some? then [h.key.value + ": " + h.value.value] else [])
  }

  /** The pairs the headers text stands for: the trimmed key and value of each header with both. */
  function TextPairs(hs: seq<Option<Header>>): seq<(string, string)>
    requires NoNulls(hs)
  {
    if hs == [] then []
    else
      var h := hs[|hs| - 1].value;
      TextPairs(hs[..|hs| - 1]) + (if h.key.Some? && h.value.Some? then [(Trim(h.key.value), Trim(h.value.value))] else [])
  }

  /** A header that the parser reads back from its line: trimmed key non-empty and free of
      `:`, trimmed value non-empty, no line break in either. */
  predicate Parseable(h: Header) {
    h.key.Some? && h.value.Some? ==>
      Trim(h.key.value) != [] && ':' !in Trim(h.key.value) && Trim(h.value.value) != []
      && '\n' !in h.key.value && '\n' !in h.value.value
  }

  predicate AllParseable(hs: seq<Option<Header>>)
    requires NoNulls(hs)
  {
    forall i :: 0 <= i < |hs| ==> Parseable(hs[i].value)
  }

  /** Newline-terminated lines concatenated. */
  function Terminated(lines: seq<string>): string {
    if lines == [] then "" else lines[0] + "\n" + Terminated(lines[1..])
  }

  lemma {:induction false} TerminatedSnoc(lines: seq<string>, l: string)
    ensures Terminated(lines + [l]) == Terminated(lines) + l + "\n"
  {
    if lines != [] {
      assert (lines + [l])[1..] == lines[1..] + [l];
      TerminatedSnoc(lines[1..], l);
    } else {
      assert [l][1..] == [];
    }
  }

  lemma {:induction false} TerminatedJoin(lines: seq<string>)
    ensures Terminated(lines) == Join(lines + [""], "\n")
  {
    if lines != [] {
      TerminatedJoin(lines[1..]);
      assert (lines + [""])[1..] == lines[1..] + [""];
    }
  }

  lemma {:induction false} HeaderTextLines(hs: seq<Option<Header>>)
    requires NoNulls(hs)
    ensures HeaderText(hs) == Terminated(TextLines(hs))
  {
    if hs != [] {
      var init := hs[..|hs| - 1];
      HeaderTextLines(init);
      var h := hs[|hs| - 1].value;
      if h.key.Some? && h.value.Some? {
        var l := h.key.value + ": " + h.value.value;
        TerminatedSnoc(TextLines(init), l);
        assert HeaderText(hs) == HeaderText(init) + (l + "\n");
        AppendAssoc(HeaderText(init), l, "\n");
      } else {
        assert HeaderText(hs) == HeaderText(init);
        assert TextLines(hs) == TextLines(init);
      }
    }
  }

  /** Splitting newline-terminated non-empty lines at the newlines gives the lines back. */
  lemma SplitTerminated(lines: seq<string>)
    requires lines != []
    requires forall i :: 0 <= i < |lines| ==> lines[i] != [] && '\n' !in lines[i]
    ensures Split(Terminated(lines), "\n") == lines
  {
    TerminatedHasNewline(lines);
    var ls := lines + [""];
    forall k | 0 <= k < |ls| ensures '\n' !in ls[k] {
      if k < |lines| {
        assert ls[k] == lines[k];
      }
    }
    TerminatedJoin(lines);
    SplitAllJoinChar(ls, '\n');
    DropLastEmpty(lines);
  }

  lemma TerminatedHasNewline(lines: seq<string>)
    requires lines != []
    ensures Contains(Terminated(lines), "\n")
  {
    var t := Terminated(lines);
    assert t == lines[0] + "\n" + Terminated(lines[1..]);
    assert t[|lines[0]|] == '\n';
    ContainsChar(t, '\n');
  }

  lemma DropLastEmpty(lines: seq<string>)
    requires lines != [] && lines[|lines| - 1] != []
    ensures DropTrailingEmpty(lines + [""]) == lines
  {
    var ls := lines + [""];
    assert ls[..|ls| - 1] == lines;
  }

  lemma {:induction false} PairsOfLines(hs: seq<Option<Header>>)
    requires NoNulls(hs) && AllParseable(hs)
    ensures ApiCall.Pairs(ApiCall.LinePair, TextLines(hs)) == TextPairs(hs)
  {
    if hs != [] {
      var init := hs[..|hs| - 1];
      PairsOfLines(init);
      var h := hs[|hs| - 1].value;
      var ls := TextLines(hs);
      if h.key.Some? && h.value.Some? {
        assert Parseable(h);
        ApiCallProperties.LinePairOf(h.key.value, h.value.value);
        assert ls[..|ls| - 1] == TextLines(init);
      } else {
        assert ls == TextLines(init);
      }
    }
  }

  /** Parsing the headers text that populating writes gives back every header with a key and
      a value, trimmed and in order, when each of them is one the parser can read. */
  lemma HeadersTextParses(r: Request)
    requires NoNullLists(r)
    requires r.header.Some? ==> AllParseable(r.header.value)
    ensures ApiCall.HeaderPairs(HeadersTextOf(r)) == if r.header.Some? then TextPairs(r.header.value) else []
  {
    if r.header.None? || r.header.value == [] {
      assert Split("", "\n") == [""] by {
        ContainsChar("", '\n');
      }
      assert ApiCall.LinePair("") == None;
    } else {
      var hs := r.header.value;
      HeaderTextLines(hs);
      PairsOfLines(hs);
      var ls := TextLines(hs);
      if ls == [] {
        assert Split("", "\n") == [""] by {
          ContainsChar("", '\n');
        }
        assert ApiCall.LinePair("") == None;
      } else {
        assert forall i :: 0 <= i < |ls| ==> '\n' !in ls[i] by {
          LinesFree(hs);
        }
        SplitTerminated(ls);
      }
    }
  }

  lemma {:induction false} LinesFree(hs: seq<Option<Header>>)
    requires NoNulls(hs) && AllParseable(hs)
    ensures forall i :: 0 <= i < |TextLines(hs)| ==> '\n' !in TextLines(hs)[i]
  {
    if hs != [] {
      LinesFree(hs[..|hs| - 1]);
      assert Parseable(hs[|hs| - 1].value);
    }
  }

  function HeaderEntries(ps: seq<(string, string)>): (r: seq<Option<Header>>)
    ensures |r| == |ps| && forall i :: 0 <= i < |ps| ==> r[i] == Some(HeaderOf(ps[i]))
  {
    seq(|ps|, i requires 0 <= i < |ps| => Some(HeaderOf(ps[i])))
  }

  function QueryEntries(ps: seq<(string, string)>): (r: seq<Option<Query>>)
    ensures |r| == |ps| && forall i :: 0 <= i < |ps| ==> r[i] == Some(QueryOf(ps[i]))
  {
    seq(|ps|, i requires 0 <= i < |ps| => Some(QueryOf(ps[i])))
  }

  /** `buildRequestFromUI` over the panel contents: the selected method; a URL of the field's
      text and the params table; a raw body only for non-blank text; the headers table only
      when it yields a header; the authorization of the tab. */
  function BuildRequest(url: string, httpMethod: string, body: string, auth: AuthFields,
                        headerRows: seq<Row>, queryRows: seq<Row>): (r: Request)
    ensures NoNullLists(r)
  {
    var headers := Cleaned(headerRows);
    Request(Some(httpMethod),
            AuthFromUI(Some(auth.selected), auth.user, auth.pass, auth.token),
            if headers == [] then None else Some(HeaderEntries(headers)),
            if IsBlankTrim(body) then None else Some(Body(Some("raw"), Some(body), None)),
            Some(Url(Some(url), None, None, None, Some(QueryEntries(Cleaned(queryRows))), None, None)))
  }

  /** A request built from the panel, shown again and rebuilt, is the same request, provided
      the method is one the combo box offers and the authorization tab is not on "Jwt bearer":
      a cached draft restores exactly what was cached. */
  lemma {:induction false} DraftRoundTrip(url: string, httpMethod: string, body: string, auth: AuthFields,
                                          headerRows: seq<Row>, queryRows: seq<Row>, current: string)
    requires httpMethod in MethodChoices
    requires auth.selected in [NoAuthText, BasicAuthText, BearerTokenText]
    ensures var r := BuildRequest(url, httpMethod, body, auth, headerRows, queryRows);
            BuildRequest(UrlTextOf(r), ShownMethod(current, r.httpMethod), BodyTextOf(r),
                         PopulatedAuth(Some(r)), HeaderRows(Some(r)), QueryRows(Some(r))) == r
  {
    var r := BuildRequest(url, httpMethod, body, auth, headerRows, queryRows);
    var r2 := BuildRequest(UrlTextOf(r), ShownMethod(current, r.httpMethod), BodyTextOf(r),
                           PopulatedAuth(Some(r)), HeaderRows(Some(r)), QueryRows(Some(r)));
    HeadersRebuilt(r, Cleaned(headerRows));
    QueriesRebuilt(r, Cleaned(queryRows));
    AuthRebuilt(auth, r);
    assert r2.header == r.header;
    assert r2.url == r.url;
    assert r2.auth == r.auth;
    assert r2.body == r.body;
  }

  lemma HeadersRebuilt(r: Request, hs: seq<(string, string)>)
    requires AllClean(hs)
    requires r.header == if hs == [] then None else Some(HeaderEntries(hs))
    ensures Cleaned(HeaderRows(Some(r))) == hs
  {
    if hs == [] {
      assert HeaderRows(Some(r)) == [];
    } else {
      ReadIsStable(HeaderEntries(hs), HeaderCells, hs);
    }
  }

  lemma QueriesRebuilt(r: Request, qs: seq<(string, string)>)
    requires AllClean(qs)
    requires r.url.Some? && r.url.value.query == Some(QueryEntries(qs))
    ensures Cleaned(QueryRows(Some(r))) == qs
  {
    ReadIsStable(QueryEntries(qs), QueryCells, qs);
  }

  lemma AuthRebuilt(auth: AuthFields, r: Request)
    requires auth.selected in [NoAuthText, BasicAuthText, BearerTokenText]
    requires r.auth == AuthFromUI(Some(auth.selected), auth.user, auth.pass, auth.token)
    ensures var f := PopulatedAuth(Some(r));
            AuthFromUI(Some(f.selected), f.user, f.pass, f.token) == r.auth
  {
    AuthRoundTrip(auth, r);
    assert r.(auth := r.auth) == r;
  }

  /** The request editor (RequestPanel.java), with the URL field and method combo box of
      its top bar. */
  class RequestPanel {
    var urlText: string
    var methodSel: string
    var bodyText: string
    /** `headersTextArea`; `getHeaders` reads a null text as "", so the model starts at "". */
    var headersText: string
    var paramsText: string
    var saveEnabled: bool
    /** The item being edited, -1 before the first. */
    var currentItemId: int
    /** The edits not yet saved, by item id. */
    var unsavedChanges: map<int, Request>
    const authPanel: AuthPanel
    const headersPanel: HeadersPanel
    const paramsPanel: ParamsPanel

    ghost predicate Valid()
      reads this, authPanel
    {
      methodSel in MethodChoices && authPanel.selected in AuthChoices
      && forall id :: id in unsavedChanges ==> NoNullLists(unsavedChanges[id])
    }

    constructor ()
      ensures Valid()
      ensures urlText == UrlPlaceholder && methodSel == "GET" && bodyText == "" && headersText == "" && paramsText == ""
      ensures !saveEnabled && currentItemId == -1 && unsavedChanges == map[]
      ensures authPanel.Fields() == ClearedAuth && headersPanel.rows == [] && paramsPanel.rows == []
    {
      urlText := UrlPlaceholder;
      methodSel := "GET";
      bodyText := "";
      headersText := "";
      paramsText := "";
      saveEnabled := false;
      currentItemId := -1;
      unsavedChanges := map[];
      authPanel := new AuthPanel();
      headersPanel := new HeadersPanel();
      paramsPanel := new ParamsPanel();
    }

    /** What the panel would save now. */
    function BuildRequestFromUI(): Request
      reads this, authPanel, headersPanel, paramsPanel
    {
      BuildRequest(urlText, methodSel, bodyText, authPanel.Fields(), headersPanel.rows, paramsPanel.rows)
    }

    /** The panel shows `r`: every field and table holds what populating writes for it. */
    ghost predicate Shows(r: Request)
      requires NoNullLists(r)
      reads this, authPanel, headersPanel, paramsPanel
    {
      urlText == UrlTextOf(r) && bodyText == BodyTextOf(r) && headersText == HeadersTextOf(r)
      && paramsText == ParamsTextOf(r) && authPanel.Fields() == PopulatedAuth(Some(r))
      && headersPanel.rows == HeaderRows(Some(r)) && paramsPanel.rows == QueryRows(Some(r))
    }

    /** Caches the current state under the current item, if there is one. */
    method SaveCurrentStateToMemory()
      requires Valid()
      modifies this`unsavedChanges
      ensures Valid()
      ensures unsavedChanges == if currentItemId > 0 then old(unsavedChanges)[currentItemId := BuildRequestFromUI()] else old(unsavedChanges)
    {
      if currentItemId > 0 {
        unsavedChanges := unsavedChanges[currentItemId := BuildRequestFromUI()];
      }
    }

    /** The listeners on every input: an edit enables Save and caches the state. */
    method OnUserEdit()
      requires Valid()
      modifies this`saveEnabled, this`unsavedChanges
      ensures Valid() && saveEnabled
      ensures unsavedChanges == if currentItemId > 0 then old(unsavedChanges)[currentItemId := BuildRequestFromUI()] else old(unsavedChanges)
    {
      saveEnabled := true;
      SaveCurrentStateToMemory();
    }

    /** After a successful save: forgets the current item's cached edits, if there is an item. */
    method ClearUnsavedChanges()
      modifies this`unsavedChanges
      ensures unsavedChanges == if currentItemId > 0 then old(unsavedChanges) - {currentItemId} else old(unsavedChanges)
    {
      if currentItemId > 0 {
        unsavedChanges := unsavedChanges - {currentItemId};
      }
    }

    /** Shows an item: caches the state of the item being left, then loads the item's cached
        edits if there are any, else `request`; Save is enabled exactly when edits were cached.
        Nothing is loaded when both are absent. */
    method PopulateFromRequest(request: Option<Request>, itemId: int)
      requires Valid()
      requires request.Some? ==> NoNullLists(request.value)
      modifies this, authPanel, headersPanel, paramsPanel
      ensures Valid()
      ensures unsavedChanges == if old(currentItemId) > 0 && old(currentItemId) != itemId
                                then old(unsavedChanges)[old(currentItemId) := old(BuildRequestFromUI())]
                                else old(unsavedChanges)
      ensures currentItemId == itemId && saveEnabled == (itemId in unsavedChanges)
      ensures var toLoad := if itemId in unsavedChanges then Some(unsavedChanges[itemId]) else request;
              if toLoad.None? then
                urlText == old(urlText) && methodSel == old(methodSel) && bodyText == old(bodyText)
                && headersText == old(headersText) && paramsText == old(paramsText)
                && unchanged(authPanel, headersPanel, paramsPanel)
              else
                Shows(toLoad.value) && methodSel == ShownMethod(old(methodSel), toLoad.value.httpMethod)
    {
      SwitchItem(itemId);
      var toLoad := if itemId in unsavedChanges then Some(unsavedChanges[itemId]) else request;
      if toLoad.None? {
        return;
      }
      Load(toLoad.value);
    }

    /** The first half of `populateFromRequest`: caches the state of the item being left and
        makes `itemId` current, Save enabled exactly when it has cached edits. */
    method SwitchItem(itemId: int)
      requires Valid()
      modifies this`unsavedChanges, this`currentItemId, this`saveEnabled
      ensures Valid()
      ensures unsavedChanges == if old(currentItemId) > 0 && old(currentItemId) != itemId
                                then old(unsavedChanges)[old(currentItemId) := BuildRequestFromUI()]
                                else old(unsavedChanges)
      ensures currentItemId == itemId && saveEnabled == (itemId in unsavedChanges)
    {
      // the positive-id test of the source is the one `saveCurrentStateToMemory` makes
      if currentItemId != itemId {
        SaveCurrentStateToMemory();
      }
      currentItemId := itemId;
      saveEnabled := itemId in unsavedChanges;
    }

    /** The second half of `populateFromRequest`: shows `r` in every field and tab. */
    method Load(r: Request)
      requires Valid() && NoNullLists(r)
      modifies this`urlText, this`methodSel, this`bodyText, this`headersText, this`paramsText
      modifies authPanel, headersPanel, paramsPanel
      ensures Valid() && Shows(r) && methodSel == ShownMethod(old(methodSel), r.httpMethod)
    {
      LoadTexts(r);
      LoadTabs(r);
    }

    /** Writes the URL, method, body, headers and params texts for `r`. */
    method LoadTexts(r: Request)
      requires NoNullLists(r)
      modifies this`urlText, this`methodSel, this`bodyText, this`headersText, this`paramsText
      ensures urlText == UrlTextOf(r) && bodyText == BodyTextOf(r)
      ensures headersText == HeadersTextOf(r) && paramsText == ParamsTextOf(r)
      ensures methodSel == ShownMethod(old(methodSel), r.httpMethod)
    {
      urlText := if r.url.Some? && r.url.value.raw.Some? then r.url.value.raw.value else "";
      if r.httpMethod.Some? && r.httpMethod.value in MethodChoices {
        methodSel := r.httpMethod.value;
      }
      bodyText := if r.body.Some? && r.body.value.raw.Some? then r.body.value.raw.value else "";
      if r.header.Some? && r.header.value != [] {
        headersText := BuildHeadersText(r.header.value);
      } else {
        headersText := "";
      }
      if r.url.Some? && r.url.value.query.Some? {
        paramsText := BuildParamsText(r.url.value.query.value);
      } else {
        paramsText := "";
      }
    }

    /** Populates the authorization, headers and params tabs from `r`. */
    method LoadTabs(r: Request)
      modifies authPanel, headersPanel, paramsPanel
      ensures authPanel.Fields() == PopulatedAuth(Some(r))
      ensures headersPanel.rows == HeaderRows(Some(r)) && paramsPanel.rows == QueryRows(Some(r))
    {
      authPanel.PopulateFromRequest(Some(r));
      headersPanel.PopulateFromRequest(Some(r));
      paramsPanel.PopulateFromRequest(Some(r));
    }

    /** The overload without an id reloads the current item. */
    method Repopulate(request: Option<Request>)
      requires Valid()
      requires request.Some? ==> NoNullLists(request.value)
      modifies this, authPanel, headersPanel, paramsPanel
      ensures Valid() && currentItemId == old(currentItemId) && unsavedChanges == old(unsavedChanges)
      ensures saveEnabled == (currentItemId in unsavedChanges)
      ensures var toLoad := if currentItemId in unsavedChanges then Some(unsavedChanges[currentItemId]) else request;
              if toLoad.None? then
                urlText == old(urlText) && methodSel == old(methodSel) && bodyText == old(bodyText)
                && headersText == old(headersText) && paramsText == old(paramsText)
                && unchanged(authPanel, headersPanel, paramsPanel)
              else
                Shows(toLoad.value) && methodSel == ShownMethod(old(methodSel), toLoad.value.httpMethod)
    {
      PopulateFromRequest(request, currentItemId);
    }
  }

  // ---------------------------------------------------------------- environment variables window

  /** An entry as `getValuesForSave` hands it out: a non-empty trimmed key, enabled, no type. */
  predicate IsSaved(v: EnvironmentValue) {
    v.key.Some? && v.key.value != [] && Trim(v.key.value) == v.key.value && v.enabled == Some(true) && v.valueType.None?
  }

  predicate AllSaved(vs: seq<EnvironmentValue>) {
    forall i :: 0 <= i < |vs| ==> IsSaved(vs[i])
  }

  lemma AllSavedSnoc(vs: seq<EnvironmentValue>, v: EnvironmentValue)
    requires AllSaved(vs) && IsSaved(v)
    ensures AllSaved(vs + [v])
  {
    forall i | 0 <= i < |vs| + 1
      ensures IsSaved((vs + [v])[i])
    {
      if i < |vs| {
        assert (vs + [v])[i] == vs[i];
      }
    }
  }

  /** The row `getValuesForSave` keeps for an entry: one whose key is non-blank after
      trimming, as a copy with the trimmed key, the value as it is, and enabled set. */
  function SavedValue(v: EnvironmentValue): (r: Option<EnvironmentValue>)
    ensures r.Some? ==> IsSaved(r.value) && r.value.value == v.value
  {
    if v.key.Some? && Trim(v.key.value) != [] then
      TrimIdempotent(v.key.value);
      Some(EnvironmentValue(Some(Trim(v.key.value)), v.value, Some(true), None))
    else None
  }

  /** The list `getValuesForSave` returns, in row order; every entry in it is saved-shaped. */
  function ValuesForSave(vs: seq<EnvironmentValue>): (r: seq<EnvironmentValue>)
    ensures |r| <= |vs| && AllSaved(r)
  {
    if vs == [] then []
    else
      var init := ValuesForSave(vs[..|vs| - 1]);
      var v := SavedValue(vs[|vs| - 1]);
      if v.Some? then
        AllSavedSnoc(init, v.value);
        init + [v.value]
      else init
  }

  /** Saving what was saved changes nothing. */
  lemma {:induction false} ValuesForSaveIdempotent(vs: seq<EnvironmentValue>)
    ensures ValuesForSave(ValuesForSave(vs)) == ValuesForSave(vs)
  {
    if vs != [] {
      var init := vs[..|vs| - 1];
      ValuesForSaveIdempotent(init);
      var saved := ValuesForSave(vs);
      var v := SavedValue(vs[|vs| - 1]);
      if v.Some? {
        TrimIdempotent(vs[|vs| - 1].key.value);
        assert saved[..|saved| - 1] == ValuesForSave(init);
        assert SavedValue(v.value) == v;
      }
    }
  }

  /** The table of the environment variables window: key and value columns over a private
      copy of the entries. */
  class EnvironmentValuesTableModel {
    var values: seq<EnvironmentValue>

    constructor (initialValues: Option<seq<EnvironmentValue>>)
      ensures values == initialValues.GetOr([])
    {
      values := if initialValues.None? then [] else initialValues.value;
    }

    function RowCount(): nat
      reads this
    {
      |values|
    }

    function ColumnCount(): nat {
      2
    }

    function ValueAt(row: nat, column: int): Option<string>
      requires row < |values|
      reads this
    {
      if column == 0 then values[row].key else values[row].value
    }

    /** Column 0 edits the key, any other column the value; nothing else changes. */
    method SetValueAt(aValue: Option<string>, row: nat, column: int)
      requires row < |values|
      modifies this
      ensures |values| == old(|values|) && ValueAt(row, column) == aValue
      ensures values == old(values)[row := if column == 0 then old(values[row]).(key := aValue) else old(values[row]).(value := aValue)]
    {
      var v := values[row];
      if column == 0 {
        values := values[row := v.(key := aValue)];
      } else {
        values := values[row := v.(value := aValue)];
      }
    }

    method AddEmptyRow()
      modifies this
      ensures values == old(values) + [EmptyEnvironmentValue]
    {
      values := values + [EmptyEnvironmentValue];
    }

    method GetValuesForSave() returns (sanitized: seq<EnvironmentValue>)
      ensures sanitized == ValuesForSave(values)
    {
      sanitized := [];
      for i := 0 to |values|
        invariant sanitized == ValuesForSave(values[..i])
      {
        assert values[..i + 1][..i] == values[..i];
        var value := values[i];
        var key := if value.key.Some? then Trim(value.key.value) else "";
        if key != [] {
          sanitized := sanitized + [EnvironmentValue(Some(key), value.value, Some(true), None)];
        }
      }
      assert values[..|values|] == values;
    }
  }
}
