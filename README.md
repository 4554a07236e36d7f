# quill-client: a verified model of the request client's core

quill-client is a desktop API client in the manner of Postman. It imports Postman collections
and environments into a SQLite database. It shows the collections as a tree and edits a request
in a set of panels. It sends the request and shows the formatted response, and it stores
responses beside their requests. This project models the logic behind those views. Each
operation is a Dafny function, method or class, and the properties the code promises are proved
about it.

What is modelled, module by module:

- `VariableReplacer`, `Resolution`: `{{name}}` substitution in request text, name extraction,
  and the request-scoped resolver that merges collection, item and environment variables.
- `ApiCall`, `ApiCallProperties`, `FormEncoding`, `Utf8`, `Base64`, `Responses`: how a request
  is built from the editor's state. This covers the URL with its query string, the header lines,
  the raw body and the auth headers (Basic, Bearer, JWT). Only the raw body is modelled, as it
  is the only body the builder sends.
  - A request built from the editor's texts reads back as those texts.
- `Controller`, `ResponseFormatter`: the JSON and XML pretty-printing of response bodies, the
  status line and the response-header view.
- `TableRows`, `TablePanels`, `Components`: the editor panels.
  - The headers, params and auth panels, the request panel's saved and unsaved state, and the
    table of environment variables.
  - A populated panel reads back what it was populated with.
- `Store`, `StoreRows`, `StoreProperties`, `Sorting`: the database.
  - The tables of the schema, with their NOT NULL, CHECK, UNIQUE and foreign-key constraints
    and their cascading deletes, and transactions.
  - Every write keeps the constraints.
- `CollectionWrites`, `CollectionReads`, `CollectionWriteProperties`, `CollectionRoundTrips`,
  `ResponseRoundTrip`, `ResponseHeaderValues`, `AuthColumnProperties`: saving a collection
  (folders, requests, headers, parameters, variables, events, auth), updating and creating a
  request, saving a response, and reading each of them back.
  - The frame lemmas say which tables every write touches.
  - The round-trip lemmas say what a save followed by a read gives back, and what it loses.
  - A request's auth is also kept in positional columns. Reading and updating a basic auth
    that was saved without a username moves its password into the username
    (`PositionalShiftsLoneCredential`), and that is proved.
- `CollectionItems`, `CollectionTree`, `FileSelection`: loading a collection's items in one
  query and building the tree from memory.
  - The tree does not depend on the HashMap's iteration order.
  - Adding a request node and a collection root is modelled.
  - Selecting a node is turned back into a request name. A request whose own name holds a
    bracketed part is looked up under a shorter name (`BracketedNameShortened`).
- `EnvironmentDao`, `EnvironmentList`: saving an environment as a replace of the row found by
  Postman id or name, listing environments newest first, and the list manager's active
  environment and its variables.

Null becomes `Option`. A HashMap's iteration order is an explicit parameter that lists every key
once. The SQLite database is a value of type `Db`, held by a `Connection` object that the
writing methods modify.

## Model

| member | source | states |
|---|---|---|
| `VariableReplacer.TokenAtExact` | src/main/java/com/quillapiclient/utility/VariableReplacer.java:14 | the pattern `{{([^}]+)}}` matches at the start of a text exactly when `TokenAt` finds a match, and then it is that match |
| `VariableReplacer.NextToken` | src/main/java/com/quillapiclient/utility/VariableReplacer.java:36 | `Matcher.find` from a position: a match starts at the reported position |
| `VariableReplacer.NextTokenLeftmost` | src/main/java/com/quillapiclient/utility/VariableReplacer.java:36 | no match starts between the search position and the reported one |
| `VariableReplacer.ReplaceVariables` | src/main/java/com/quillapiclient/utility/VariableReplacer.java:24-51 | a null text gives null; an empty text or a null or empty map gives the text back; otherwise the result is `Replaced`: each match replaced by the value of its trimmed name, or kept when the name is unmapped, and the text between matches copied |
| `VariableReplacer.ReplacedWithoutTokens` | src/main/java/com/quillapiclient/utility/VariableReplacer.java:24-51 | a text without placeholders comes back unchanged whatever the variables |
| `VariableReplacer.ReplacedWithoutVariables` | src/main/java/com/quillapiclient/utility/VariableReplacer.java:24-51 | with an empty map every placeholder is kept and the text comes back unchanged |
| `VariableReplacer.UnknownPlaceholdersKept` | src/main/java/com/quillapiclient/utility/VariableReplacer.java:43-46 | a placeholder whose name has no value is kept verbatim |
| `VariableReplacer.NoRescan` | src/main/java/com/quillapiclient/utility/VariableReplacer.java:40-42 | a value is inserted once and never scanned again |
| `VariableReplacer.PrefixKept` | src/main/java/com/quillapiclient/utility/VariableReplacer.java:36-49 | the text before the first placeholder is kept in place |
| `VariableReplacer.ExampleTrimmedName` | src/main/java/com/quillapiclient/utility/VariableReplacer.java:37 | the lookup name is trimmed: `{{ host }}` is looked up as `host` |
| `VariableReplacer.ContainsVariables` | src/main/java/com/quillapiclient/utility/VariableReplacer.java:59-64 | false for a null or empty text, otherwise true exactly when a match exists |
| `VariableReplacer.NoVariablesNoChange` | src/main/java/com/quillapiclient/utility/VariableReplacer.java:59-64 | when `containsVariables` is false, `replaceVariables` returns its input |
| `VariableReplacer.FirstOccurrencesMembers` | src/main/java/com/quillapiclient/utility/VariableReplacer.java:80-85 | a name is listed iff it is a non-empty trimmed placeholder name of the text |
| `VariableReplacer.FirstOccurrencesDistinct` | src/main/java/com/quillapiclient/utility/VariableReplacer.java:82 | the listed names hold no duplicate and no empty name |
| `VariableReplacer.AddNamesFirstOccurrences` | src/main/java/com/quillapiclient/utility/VariableReplacer.java:80-85 | the add-unless-present loop builds exactly the first occurrences in order |
| `VariableReplacer.ExtractVariableNames` | src/main/java/com/quillapiclient/utility/VariableReplacer.java:72-88 | empty for a null or empty text; otherwise the trimmed non-empty names, each once, in order of first occurrence |
| `VariableReplacer.ExtractedNames` | src/main/java/com/quillapiclient/utility/VariableReplacer.java:72-88 | the extracted names are distinct, non-empty and exactly the text's non-empty names |
| `VariableReplacer.GroupReference` | src/main/java/com/quillapiclient/utility/VariableReplacer.java:45 | in a replacement string, digits after `$` are absorbed while the number is still a group of the pattern (0 or 1) |
| `VariableReplacer.ExpandReplacement` | src/main/java/com/quillapiclient/utility/VariableReplacer.java:45 | `appendReplacement`'s reading of an unquoted replacement string, with `\c` for `c` and `$0`/`$1` for the groups; only a `\` or a `$` can make it throw |
| `VariableReplacer.RenderAsWritten` | src/main/java/com/quillapiclient/utility/VariableReplacer.java:36-49 | the `find` loop as written over the scanned segments; it throws only at an unmapped placeholder whose text does not expand as a replacement string |
| `VariableReplacer.ReplacedAsWritten` | src/main/java/com/quillapiclient/utility/VariableReplacer.java:24-51 | `replaceVariables` as written; an exception escapes it only when some placeholder name has no value |
| `VariableReplacer.ExpandPlain` | src/main/java/com/quillapiclient/utility/VariableReplacer.java:45 | a replacement string without `\` and `$` stands for itself |
| `VariableReplacer.AsWrittenAgrees` | src/main/java/com/quillapiclient/utility/VariableReplacer.java:36-49 | without `$` and `\` in the text, the code as written and the corrected replacement agree |
| `VariableReplacer.SingleUnmapped` | src/main/java/com/quillapiclient/utility/VariableReplacer.java:43-46 | a lone unmapped placeholder is kept by the corrected replacement but interpreted as a replacement string by the code as written |
| `VariableReplacer.AsWrittenDollarThrows` | src/main/java/com/quillapiclient/utility/VariableReplacer.java:45 | an unmapped `{{a$b}}` makes the code as written throw |
| `VariableReplacer.AsWrittenBackslashDropped` | src/main/java/com/quillapiclient/utility/VariableReplacer.java:45 | an unmapped `{{a\b}}` loses its backslash in the code as written |
| `Resolution.MergeVariables` | src/main/java/com/quillapiclient/utility/RequestVariableResolver.java:21-31 | the keys of both maps; on a collision the overriding value wins; a null or empty argument adds nothing |
| `Resolution.ResolveAllKeys` | src/main/java/com/quillapiclient/utility/RequestVariableResolver.java:46-53 | the resolved map's keys are exactly the resolved keys that are not blank, stored untrimmed |
| `Resolution.ResolveAllLast` | src/main/java/com/quillapiclient/utility/RequestVariableResolver.java:46-53 | the last surviving entry with a given resolved key decides its value |
| `Resolution.RequestVariableResolver.constructor` | src/main/java/com/quillapiclient/utility/RequestVariableResolver.java:13-19 | the resolver holds a copy of the map, empty for null |
| `Resolution.RequestVariableResolver.Resolve` | src/main/java/com/quillapiclient/utility/RequestVariableResolver.java:33-38 | the shortcuts return what replacement would, so the result is exactly `replaceVariables` |
| `Resolution.RequestVariableResolver.ResolveMap` | src/main/java/com/quillapiclient/utility/RequestVariableResolver.java:40-56 | empty for a null or empty map; otherwise every surviving entry with resolved key and value, a null value stored as "", in the given iteration order |
| `Utf8.EncodeChar` | src/main/java/com/quillapiclient/server/ApiCallBuilder.java:228 | `getBytes(UTF_8)` of one scalar value: one to four bytes, as section 3 of RFC 3629 lays out |
| `Utf8.DecodeEncodeChar` | src/main/java/com/quillapiclient/server/ApiCallBuilder.java:228 | the strict decoder reads back exactly the bytes one scalar value was encoded to |
| `Utf8.DecodeEncode` | src/main/java/com/quillapiclient/server/ApiCallBuilder.java:228 | decoding undoes encoding, so distinct strings have distinct UTF-8 bytes |
| `Base64.Encode` | src/main/java/com/quillapiclient/server/ApiCallBuilder.java:228 | `Base64.getEncoder()`: three bytes become four digits; one or two final bytes become two or three digits and padding |
| `Base64.DecodeEncode` | src/main/java/com/quillapiclient/server/ApiCallBuilder.java:228 | decoding undoes encoding for every byte sequence |
| `Base64.BasicCredentialsRoundTrip` | src/main/java/com/quillapiclient/server/ApiCallBuilder.java:226-229 | the text after "Basic " decodes to the UTF-8 bytes of user-id, ":" and password |
| `FormEncoding.EncodeRoundTrip` | src/main/java/com/quillapiclient/server/ApiCallBuilder.java:204-206 | `URLEncoder.encode(_, UTF_8)` loses nothing: decoding gives every string back |
| `FormEncoding.EncodedChars` | src/main/java/com/quillapiclient/server/ApiCallBuilder.java:204-206 | an encoded text holds only unreserved characters, `+` and `%`, so no `&` and no `=` |
| `FormEncoding.EncodeUnreserved` | src/main/java/com/quillapiclient/server/ApiCallBuilder.java:204-206 | a text of letters, digits and `.-*_` is its own encoding |
| `Responses.ApiResponse.constructor` | src/main/java/com/quillapiclient/server/ApiResponse.java:11-12 | a new response: code 0, no body, no headers, duration 0 |
| `Responses.ApiResponse.SetStatusCode` | src/main/java/com/quillapiclient/server/ApiResponse.java:18-20 | sets the code and nothing else |
| `Responses.ApiResponse.SetBody` | src/main/java/com/quillapiclient/server/ApiResponse.java:26-28 | sets the body and nothing else |
| `Responses.ApiResponse.SetHeaders` | src/main/java/com/quillapiclient/server/ApiResponse.java:34-36 | sets the headers and nothing else |
| `Responses.ApiResponse.SetDuration` | src/main/java/com/quillapiclient/server/ApiResponse.java:50-52 | sets the duration and nothing else |
| `Responses.ApiResponse.ToString` | src/main/java/com/quillapiclient/server/ApiResponse.java:54-72 | the text `toString` builds, with the header map visited in a given iteration order |
| `Responses.SuccessAndErrorExclusive` | src/main/java/com/quillapiclient/server/ApiResponse.java:38-44 | no code is both a success and an error; 1xx and 3xx codes are neither |
| `Responses.HeaderLinesShow` | src/main/java/com/quillapiclient/server/ApiResponse.java:61-64 | every header is shown on a line of its own, its values joined by ", " |
| `Responses.DescribeStartsWithStatus` | src/main/java/com/quillapiclient/server/ApiResponse.java:57 | the status line comes first and the number after "Status Code: " reads back as the code |
| `Responses.DescribeEnds` | src/main/java/com/quillapiclient/server/ApiResponse.java:67-71 | a body, when present, is the end of the text; without one the text ends with a line break |
| `Responses.DescribeShowsHeaders` | src/main/java/com/quillapiclient/server/ApiResponse.java:59-65 | every header of a non-null map is listed in the headers section |
| `ApiCall.LinePair` | src/main/java/com/quillapiclient/server/ApiCallBuilder.java:128-138 | a line yields a pair only when its first `:` is not its first character and both trimmed sides are non-empty |
| `ApiCall.QueryPair` | src/main/java/com/quillapiclient/server/ApiCallBuilder.java:148-151 | a piece yields a pair exactly when it holds `=`: both sides of the first `=`, trimmed, with no emptiness check |
| `ApiCall.PutPairs` | src/main/java/com/quillapiclient/server/ApiCallBuilder.java:125-170 | the parser loop puts every pair found, later ones overwriting earlier ones |
| `ApiCall.ParamPairs` | src/main/java/com/quillapiclient/server/ApiCallBuilder.java:188-202 | one pair per parameter in iteration order, key and value substituted |
| `ApiCall.EncodedPairs` | src/main/java/com/quillapiclient/server/ApiCallBuilder.java:204-206 | each pair written as the encoded key, `=` and the encoded value |
| `ApiCall.ApiCallBuilder.constructor` | src/main/java/com/quillapiclient/server/ApiCallBuilder.java:39-42 | empty header and parameter maps, every other field null |
| `ApiCall.ApiCallBuilder.Url` | src/main/java/com/quillapiclient/server/ApiCallBuilder.java:45-48 | sets the URL and nothing else |
| `ApiCall.ApiCallBuilder.Method` | src/main/java/com/quillapiclient/server/ApiCallBuilder.java:50-53 | stores the upper-cased method, GET for null |
| `ApiCall.ApiCallBuilder.Header` | src/main/java/com/quillapiclient/server/ApiCallBuilder.java:55-60 | puts the header, ignoring a null key or value |
| `ApiCall.ApiCallBuilder.Headers` | src/main/java/com/quillapiclient/server/ApiCallBuilder.java:62-67 | parses a non-null, non-blank text and leaves the headers alone otherwise |
| `ApiCall.ApiCallBuilder.Body` | src/main/java/com/quillapiclient/server/ApiCallBuilder.java:69-72 | sets the body and nothing else |
| `ApiCall.ApiCallBuilder.AuthType` | src/main/java/com/quillapiclient/server/ApiCallBuilder.java:74-77 | sets the auth tag and nothing else |
| `ApiCall.ApiCallBuilder.BasicAuth` | src/main/java/com/quillapiclient/server/ApiCallBuilder.java:79-84 | stores user and password under the tag "Basic auth" |
| `ApiCall.ApiCallBuilder.BearerToken` | src/main/java/com/quillapiclient/server/ApiCallBuilder.java:86-90 | stores the token under the tag "Bearer token" |
| `ApiCall.ApiCallBuilder.JwtToken` | src/main/java/com/quillapiclient/server/ApiCallBuilder.java:92-96 | stores the token under the tag "Jwt bearer" |
| `ApiCall.ApiCallBuilder.QueryParam` | src/main/java/com/quillapiclient/server/ApiCallBuilder.java:98-103 | puts the parameter, ignoring a null key or value |
| `ApiCall.ApiCallBuilder.QueryParams` | src/main/java/com/quillapiclient/server/ApiCallBuilder.java:105-110 | parses a non-null, non-blank text and leaves the parameters alone otherwise |
| `ApiCall.ApiCallBuilder.Variables` | src/main/java/com/quillapiclient/server/ApiCallBuilder.java:119-122 | sets the variable map and nothing else |
| `ApiCall.ApiCallBuilder.ParseHeaders` | src/main/java/com/quillapiclient/server/ApiCallBuilder.java:125-140 | the headers after one `put` per `key: value` line of the text |
| `ApiCall.ApiCallBuilder.ParseQueryParams` | src/main/java/com/quillapiclient/server/ApiCallBuilder.java:143-170 | `&`-pieces when the text holds both `=` and `&`, otherwise the line format |
| `ApiCall.ApiCallBuilder.ApplyUIAuth` | src/main/java/com/quillapiclient/server/ApiCallBuilder.java:390-402 | the auth switch of `fromUI`: "Jwt bearer" is stored as "Bearer token", any other tag as it is |
| `ApiCall.ApiCallBuilder.Substitute` | src/main/java/com/quillapiclient/server/ApiCallBuilder.java:180-182 | substitution only with a non-null, non-empty variable map |
| `ApiCall.ApiCallBuilder.BuildUrl` | src/main/java/com/quillapiclient/server/ApiCallBuilder.java:173-216 | null for a missing URL; otherwise the trimmed, substituted URL and the query string |
| `ApiCall.ApiCallBuilder.BuildQuery` | src/main/java/com/quillapiclient/server/ApiCallBuilder.java:185-210 | the loop writes `?` before the first pair and `&` before every other |
| `ApiCall.ApiCallBuilder.AddAuthHeaders` | src/main/java/com/quillapiclient/server/ApiCallBuilder.java:219-240 | the headers after the Authorization header is put for the auth tag |
| `ApiCall.ApiCallBuilder.Execute` | src/main/java/com/quillapiclient/server/ApiCallBuilder.java:243-341 | 400 at once for a missing URL; otherwise the reply to the outcome, with the request sent |
| `ApiCall.NewResponse` | src/main/java/com/quillapiclient/server/ApiCallBuilder.java:288-293 | a fresh response carrying the reply's status, body and headers |
| `ApiCall.FromUI` | src/main/java/com/quillapiclient/server/ApiCallBuilder.java:369-405 | the builder state of `fromUI`: fields in order, the item's variables only for `itemId > 0` when they are non-empty, then the auth switch |
| `ApiCallProperties.LinePairOf` | src/main/java/com/quillapiclient/server/ApiCallBuilder.java:128-138 | `key: value` gives back the trimmed key and value when the key has no `:` and both are non-empty |
| `ApiCallProperties.LineWithoutColon` | src/main/java/com/quillapiclient/server/ApiCallBuilder.java:131-132 | a line without `:` yields nothing |
| `ApiCallProperties.LoneAssignmentIgnored` | src/main/java/com/quillapiclient/server/ApiCallBuilder.java:145-169 | a lone `k=v` with no `&` is read with the line rule, so `queryParams` puts nothing |
| `ApiCallProperties.NoAmpersand` | src/main/java/com/quillapiclient/server/ApiCallBuilder.java:204-206 | no encoded piece holds `&` |
| `ApiCallProperties.QueryStringRoundTrip` | src/main/java/com/quillapiclient/server/ApiCallBuilder.java:185-210 | the query string reads back as exactly the substituted pairs in iteration order, whatever characters they hold |
| `ApiCallProperties.FullUrlReadsBack` | src/main/java/com/quillapiclient/server/ApiCallBuilder.java:173-216 | the URL is the trimmed, substituted URL followed by a query string that reads back as the parameters, each once |
| `ApiCallProperties.BasicHeaderReadsBack` | src/main/java/com/quillapiclient/server/ApiCallBuilder.java:225-231 | with both credentials the Authorization header decodes back to user-id ":" password; nothing else changes |
| `ApiCallProperties.BasicNeedsBoth` | src/main/java/com/quillapiclient/server/ApiCallBuilder.java:226 | a missing user or password leaves the headers as they are |
| `ApiCallProperties.BearerHeader` | src/main/java/com/quillapiclient/server/ApiCallBuilder.java:233-238 | a non-blank token is sent trimmed after "Bearer " under either tag; a blank or missing one adds nothing |
| `ApiCallProperties.OtherTagsAddNothing` | src/main/java/com/quillapiclient/server/ApiCallBuilder.java:220-239 | any other tag, "No auth" and null included, adds nothing |
| `ApiCallProperties.FromUIRetagsJwt` | src/main/java/com/quillapiclient/server/ApiCallBuilder.java:395-398 | a "Jwt bearer" choice ends up exactly like "Bearer token" |
| `ApiCallProperties.EscapeRoundTrip` | src/main/java/com/quillapiclient/server/ApiCallBuilder.java:316-321 | unescaping undoes the quote escaping, so the embedded message reads back |
| `ApiCallProperties.EscapedQuotesGuarded` | src/main/java/com/quillapiclient/server/ApiCallBuilder.java:316-321 | an escaped message has no quote without a backslash before it |
| `ApiCallProperties.FailuresAreErrors` | src/main/java/com/quillapiclient/server/ApiCallBuilder.java:244-340 | every failure, and a missing URL, gets an error code and no headers; a server reply passes through unchanged |
| `ApiCallProperties.IoMapping` | src/main/java/com/quillapiclient/server/ApiCallBuilder.java:309-323 | an unreachable service gives 503 and any other I/O failure 502; only a missing message gives "Network error" |
| `ApiCallProperties.SentBodyRule` | src/main/java/com/quillapiclient/server/ApiCallBuilder.java:270-278 | a body goes out only for a non-blank body with POST, PUT or PATCH; the JSON Content-Type is added only then and only when absent |
| `ResponseFormatter.SniffingOnTrimmed` | src/main/java/com/quillapiclient/utility/ResponseFormatter.java:148-180 | the three sniffers look only at the trimmed text, and none holds for a null or blank text |
| `ResponseFormatter.JsonIsNotXml` | src/main/java/com/quillapiclient/utility/ResponseFormatter.java:148-166 | a JSON-looking text never looks like XML |
| `ResponseFormatter.HtmlDocumentIsXml` | src/main/java/com/quillapiclient/utility/ResponseFormatter.java:66-72 | an HTML document that starts with `<` and ends with `>` is taken for XML and re-indented, not cut at 2000 characters |
| `ResponseFormatter.TruncateText` | src/main/java/com/quillapiclient/utility/ResponseFormatter.java:238-242 | text of at most `max` characters is kept; longer text keeps its first `max` characters and a note follows |
| `ResponseFormatter.TruncatedCountReadsBack` | src/main/java/com/quillapiclient/utility/ResponseFormatter.java:240-241 | the number in the note reads back as the count of characters cut off |
| `ResponseFormatter.Indent` | src/main/java/com/quillapiclient/utility/ResponseFormatter.java:250-252 | two spaces per level, nothing for a zero or negative level |
| `ResponseFormatter.StatusText` | src/main/java/com/quillapiclient/utility/ResponseFormatter.java:126-140 | the reason phrase of the ten listed codes, "" for any other code |
| `ResponseFormatter.HeaderCategory` | src/main/java/com/quillapiclient/utility/ResponseFormatter.java:106-118 | the label for the first keyword the lower-cased key holds, "" when it holds none |
| `ResponseFormatter.HeaderCategoryNone` | src/main/java/com/quillapiclient/utility/ResponseFormatter.java:106-118 | a key gets no label exactly when its lower-cased form holds none of the keywords |
| `ResponseFormatter.HeaderCategoryIgnoresCase` | src/main/java/com/quillapiclient/utility/ResponseFormatter.java:107 | the label does not depend on the case of ASCII letters |
| `ResponseFormatter.HeaderCategoryPrecedence` | src/main/java/com/quillapiclient/utility/ResponseFormatter.java:108-111 | a key naming a content type and a token is a content type |
| `ResponseFormatter.FormatSizeBytes` | src/main/java/com/quillapiclient/utility/ResponseFormatter.java:261-262 | below 1024 the size is the number followed by " bytes" |
| `ResponseFormatter.InsertLineBreaks` | src/main/java/com/quillapiclient/utility/ResponseFormatter.java:209 | `replaceAll("><", ">\n<")` with matches taken left to right |
| `ResponseFormatter.InsertLineBreaksOnlyBreaks` | src/main/java/com/quillapiclient/utility/ResponseFormatter.java:209 | only line breaks are inserted: without them the text is unchanged |
| `ResponseFormatter.NoAdjacentTags` | src/main/java/com/quillapiclient/utility/ResponseFormatter.java:209 | afterwards no `>` is directly followed by `<` |
| `ResponseFormatter.FormatXml` | src/main/java/com/quillapiclient/utility/ResponseFormatter.java:203-229 | line breaks go in first, then the lines are re-indented |
| `ResponseFormatter.IndentXmlLines` | src/main/java/com/quillapiclient/utility/ResponseFormatter.java:210-224 | the loop over the lines computes the reference fold |
| `ResponseFormatter.XmlFoldLines` | src/main/java/com/quillapiclient/utility/ResponseFormatter.java:210-224 | the output is exactly the trimmed non-blank lines, in order, each indented and ended by a line break |
| `ResponseFormatter.XmlFoldLevel` | src/main/java/com/quillapiclient/utility/ResponseFormatter.java:214-223 | the level after the loop is the opening lines less the closing lines |
| `ResponseFormatter.OpenCloseExclusive` | src/main/java/com/quillapiclient/utility/ResponseFormatter.java:214-221 | no line both opens and closes an element |
| `ResponseFormatter.FormatResponse` | src/main/java/com/quillapiclient/utility/ResponseFormatter.java:32-88 | a fixed message for a null response; otherwise the headers part and then the body part |
| `ResponseFormatter.FormatHeaders` | src/main/java/com/quillapiclient/utility/ResponseFormatter.java:40-57 | the title with the header count, the separator, one line per header in iteration order, and a blank line |
| `ResponseFormatter.FormatBody` | src/main/java/com/quillapiclient/utility/ResponseFormatter.java:60-85 | the body heading with its length and the body sniffed as JSON, XML, HTML or text, or the empty-body line |
| `ResponseFormatter.BodySection` | src/main/java/com/quillapiclient/utility/ResponseFormatter.java:60-85 | a null or empty body ends with the empty-body line; otherwise the section ends with the note exactly for bodies over 10000 characters |
| `ResponseFormatter.LargeNoteReadsBack` | src/main/java/com/quillapiclient/utility/ResponseFormatter.java:78-82 | the number in the large-body note reads back as the body's length |
| `ResponseFormatter.BodyShownCut` | src/main/java/com/quillapiclient/utility/ResponseFormatter.java:70-75 | HTML is cut to 2000 characters, other text to 5000 |
| `Controller.GuardAndBuilder` | src/main/java/com/quillapiclient/controller/ApiController.java:24-43 | only the empty URL is stopped by the controller; a URL of blanks reaches the builder, which answers 400 |
| `Controller.UIAuthKeepsUrl` | src/main/java/com/quillapiclient/controller/ApiController.java:40-43 | the auth step of `fromUI` leaves the URL as it was |
| `Controller.StatusLabelPartition` | src/main/java/com/quillapiclient/controller/ApiController.java:99-107 | SUCCESS for 2xx, WARNING for 4xx, ERROR for every other code; a WARNING is always an error response |
| `Controller.FormatJson` | src/main/java/com/quillapiclient/controller/ApiController.java:297-335 | the character loop computes the reference fold; its catch branch is never taken |
| `Controller.JsonStepPieces` | src/main/java/com/quillapiclient/controller/ApiController.java:309-329 | every step writes its character once, with only spaces and line breaks around it |
| `Controller.FormatJsonKeepsText` | src/main/java/com/quillapiclient/controller/ApiController.java:297-335 | every input character is kept, in order, and only spaces and line breaks are added |
| `Controller.QuotedVerbatim` | src/main/java/com/quillapiclient/controller/ApiController.java:327-329 | inside quotes a run without `"` is copied as it is |
| `Controller.UnquotedLevel` | src/main/java/com/quillapiclient/controller/ApiController.java:310-318 | outside quotes the level moves by one per bracket |
| `Controller.EscapedBackslashStaysQuoted` | src/main/java/com/quillapiclient/controller/ApiController.java:305-306 | the literal `"\\"` leaves the scan inside quotes, so a bracket after it is copied with no line break |
| `Controller.ScanStringLiteral` | src/main/java/com/quillapiclient/controller/ApiController.java:305-306 | with the escape rule a string literal is passed through whole and the scan is back outside quotes after it |
| `Controller.ScanAgrees` | src/main/java/com/quillapiclient/controller/ApiController.java:304-330 | on text without backslashes the escape rule changes nothing |
| `TableRows.RowsOf` | src/main/java/com/quillapiclient/components/HeadersPanel.java:34-41 | populating adds at most one row per list entry, and every row it adds has a key cell and a value cell |
| `TableRows.RowPair` | src/main/java/com/quillapiclient/components/HeadersPanel.java:55-63 | a row that yields a pair yields one with a non-empty trimmed key and a trimmed value |
| `TableRows.Cleaned` | src/main/java/com/quillapiclient/components/HeadersPanel.java:51-66 | reading a table yields at most one pair per row, each with a non-empty trimmed key and a trimmed value |
| `TableRows.CleanedSnoc` | src/main/java/com/quillapiclient/components/HeadersPanel.java:54-64 | reading one more row appends that row's pair when it has one and nothing otherwise |
| `TableRows.PopulateThenRead` | src/main/java/com/quillapiclient/components/HeadersPanel.java:24-66 | populating a table from a list and reading it back gives exactly the entries that are non-null and have a key that is not blank after trimming, trimmed, in list order |
| `TableRows.ReadIsStable` | src/main/java/com/quillapiclient/components/ParamsPanel.java:26-73 | a list whose entries show exactly some clean pairs populates a table that reads back as those same pairs |
| `TableRows.ReadRowsMapsCleaned` | src/main/java/com/quillapiclient/components/HeadersPanel.java:51-66 | reading the rows one at a time, keeping the pair of each row that yields one, gives the table's clean pairs mapped in row order |
| `TablePanels.HeadersPanel.constructor` | src/main/java/com/quillapiclient/components/HeadersPanel.java:14-22 | a new headers table has no rows |
| `TablePanels.HeadersPanel.PopulateFromRequest` | src/main/java/com/quillapiclient/components/HeadersPanel.java:24-42 | the table is cleared, then holds one row per non-null header with a non-null key, a null value shown as "" |
| `TablePanels.HeadersPanel.GetHeaders` | src/main/java/com/quillapiclient/components/HeadersPanel.java:51-66 | the headers returned are the table's clean pairs in row order, each enabled and untyped |
| `TablePanels.ParamsPanel.constructor` | src/main/java/com/quillapiclient/components/ParamsPanel.java:19-24 | a new params table has no rows |
| `TablePanels.ParamsPanel.PopulateFromRequest` | src/main/java/com/quillapiclient/components/ParamsPanel.java:26-51 | the table is cleared; with no request, URL or query list it stays empty, otherwise it holds one row per non-null parameter with a non-null key |
| `TablePanels.ParamsPanel.GetQueryParams` | src/main/java/com/quillapiclient/components/ParamsPanel.java:60-73 | the parameters returned are the table's clean pairs in row order |
| `Components.PopulatedAuth` | src/main/java/com/quillapiclient/components/AuthPanel.java:112-166 | the tab always shows one of the four combo box entries but never "Jwt bearer", and whenever it shows "No auth" all three fields are empty |
| `Components.AuthPanel.constructor` | src/main/java/com/quillapiclient/components/AuthPanel.java:21-40 | a new tab shows "No auth" with empty fields |
| `Components.AuthPanel.PopulateFromRequest` | src/main/java/com/quillapiclient/components/AuthPanel.java:112-166 | the tab ends as `PopulatedAuth` says: basic credentials take priority over bearer ones, a missing credential shows "", and an unknown or absent authorization clears the tab |
| `Components.BasicAuthTypeName` | src/main/java/com/quillapiclient/components/RequestPanel.java:333 | "Basic auth" is saved under the type "basicauth" |
| `Components.BearerTokenTypeName` | src/main/java/com/quillapiclient/components/RequestPanel.java:333 | "Bearer token" is saved under the type "bearertoken" |
| `Components.JwtBearerTypeName` | src/main/java/com/quillapiclient/components/RequestPanel.java:333 | "Jwt bearer" is saved under the type "jwtbearer" |
| `Components.AuthRoundTrip` | src/main/java/com/quillapiclient/components/RequestPanel.java:325-359 | building the authorization from the tab and showing it again gives the basic credentials back unchanged, turns either bearer tag into "Bearer token" with its token, and clears the tab for "No auth" |
| `Components.BuildHeadersText` | src/main/java/com/quillapiclient/components/RequestPanel.java:192-206 | the loop writes one `key: value` line, ended by a newline, per header with both a key and a value, in list order |
| `Components.BuildParamsText` | src/main/java/com/quillapiclient/components/RequestPanel.java:209-223 | the loop writes one `key=value` line, ended by a newline, per parameter with both a key and a value, in list order |
| `Components.TextLines` | src/main/java/com/quillapiclient/components/RequestPanel.java:196-201 | no line of the headers text is empty |
| `Components.HeaderTextLines` | src/main/java/com/quillapiclient/components/RequestPanel.java:192-206 | the headers text is its lines, each ended by a newline |
| `Components.SplitTerminated` | src/main/java/com/quillapiclient/components/RequestPanel.java:200 | splitting newline-terminated lines that are non-empty and contain no newline gives the lines back |
| `Components.HeadersTextParses` | src/main/java/com/quillapiclient/components/RequestPanel.java:192-206 | the header parser reads back, trimmed and in order, every header the text was written from, provided each one has a key free of `:` and a value, neither blank and neither holding a line break |
| `Components.BuildRequest` | src/main/java/com/quillapiclient/components/RequestPanel.java:286-320 | a request built from the panel never contains a null header or parameter entry |
| `Components.DraftRoundTrip` | src/main/java/com/quillapiclient/components/RequestPanel.java:147-320 | a request built from the panel, shown again and rebuilt, is the same request when its method is one the combo box offers and its authorization tab is not on "Jwt bearer", so a cached draft comes back exactly as it was cached |
| `Components.RequestPanel.constructor` | src/main/java/com/quillapiclient/components/RequestPanel.java:36-60 | a new panel shows the URL placeholder and GET, with empty texts, empty tables, the tab on "No auth", Save disabled, no current item and no cached edits |
| `Components.RequestPanel.SaveCurrentStateToMemory` | src/main/java/com/quillapiclient/components/RequestPanel.java:121-126 | when the current item id is positive, the panel state is cached under it; otherwise the cache is unchanged |
| `Components.RequestPanel.OnUserEdit` | src/main/java/com/quillapiclient/components/RequestPanel.java:62-119 | an edit enables Save and caches the panel state under the current item |
| `Components.RequestPanel.ClearUnsavedChanges` | src/main/java/com/quillapiclient/components/RequestPanel.java:244-248 | the current item's cached edits are dropped when its id is positive, and nothing else is dropped |
| `Components.RequestPanel.PopulateFromRequest` | src/main/java/com/quillapiclient/components/RequestPanel.java:147-232 | the state of the item being left is cached when it differs from the new item; the new item's cached edits, failing those the given request, are shown in every field and tab; Save is enabled exactly when cached edits exist; when there is nothing to load every field stays as it was |
| `Components.RequestPanel.SwitchItem` | src/main/java/com/quillapiclient/components/RequestPanel.java:148-164 | the state of the item being left is cached under its id when that id is positive and differs from the new one; the new item becomes current, and Save is enabled exactly when it has cached edits |
| `Components.RequestPanel.Load` | src/main/java/com/quillapiclient/components/RequestPanel.java:171-229 | every field and tab shows the request, the method selection changes only to a known method, and the panel's invariant is kept |
| `Components.RequestPanel.LoadTexts` | src/main/java/com/quillapiclient/components/RequestPanel.java:172-223 | the URL, body, headers and params texts are those written for the request, and the method is selected only when the combo box offers it |
| `Components.RequestPanel.LoadTabs` | src/main/java/com/quillapiclient/components/RequestPanel.java:225-228 | the authorization, headers and params tabs are populated from the request |
| `Components.RequestPanel.Repopulate` | src/main/java/com/quillapiclient/components/RequestPanel.java:237-239 | the overload without an id keeps the current item and the cache, enables Save exactly when the current item has cached edits, and shows the cached draft of the current item in preference to the passed request (nothing changes on screen when there is neither) |
| `Components.SavedValue` | src/main/java/com/quillapiclient/components/EnvironmentVariablesWindow.java:133-143 | an entry is kept only when its key is not blank after trimming, and it is kept with the trimmed key, its value unchanged, and enabled set |
| `Components.ValuesForSave` | src/main/java/com/quillapiclient/components/EnvironmentVariablesWindow.java:131-146 | at most one entry per row, each with a non-empty trimmed key, enabled set and no type |
| `Components.ValuesForSaveIdempotent` | src/main/java/com/quillapiclient/components/EnvironmentVariablesWindow.java:131-146 | sanitizing an already sanitized list changes nothing |
| `Components.EnvironmentValuesTableModel.constructor` | src/main/java/com/quillapiclient/components/EnvironmentVariablesWindow.java:80-86 | the table holds a copy of the initial entries, or no entries when there are none |
| `Components.EnvironmentValuesTableModel.SetValueAt` | src/main/java/com/quillapiclient/components/EnvironmentVariablesWindow.java:110-118 | column 0 sets the row's key and any other column its value; every other row and field stays the same |
| `Components.EnvironmentValuesTableModel.AddEmptyRow` | src/main/java/com/quillapiclient/components/EnvironmentVariablesWindow.java:125-129 | one empty entry is appended |
| `Components.EnvironmentValuesTableModel.GetValuesForSave` | src/main/java/com/quillapiclient/components/EnvironmentVariablesWindow.java:131-146 | the loop returns `ValuesForSave` of the rows |
| `Store.Snap` | src/main/java/com/quillapiclient/db/CollectionDao.java:196-201 | a column holds the JSON of an object exactly when the object is non-null, and the JSON stands for that object |
| `Store.Decoded` | src/main/java/com/quillapiclient/db/CollectionDao.java:510-560 | reading a snapshot column yields a value exactly when the column holds JSON that decodes |
| `Store.Add` | src/main/java/com/quillapiclient/db/DatabaseSchema.java:31-41 | an insert gives the new row the next AUTOINCREMENT id, a fresh one, and keeps every other row |
| `Store.Remove` | src/main/java/com/quillapiclient/db/DatabaseSchema.java:54-55 | a delete keeps exactly the rows it does not select, unchanged, and never lowers the AUTOINCREMENT counter |
| `Store.FirstFrom` | src/main/java/com/quillapiclient/db/EnvironmentDao.java:100-124 | the id found is the lowest id from the start position whose row matches; none is found only when no row from there matches |
| `Store.First` | src/main/java/com/quillapiclient/db/EnvironmentDao.java:100-124 | a row found matches the condition; finding none means that no row matches |
| `Store.RowsFrom` | src/main/java/com/quillapiclient/db/CollectionDao.java:441 | a query selects only rows of the table that match, with their own ids |
| `Store.InsertCollection` | src/main/java/com/quillapiclient/db/DatabaseSchema.java:30-41 | the insert is accepted exactly when the table exists, the name is non-null and no collection has the same `postman_id` |
| `Store.InsertItem` | src/main/java/com/quillapiclient/db/DatabaseSchema.java:45-57 | the insert is accepted exactly when the table exists, the name is non-null, the type is 'folder' or 'request', the collection exists and the parent is null or an existing item |
| `Store.InsertRequest` | src/main/java/com/quillapiclient/db/DatabaseSchema.java:61-83 | the insert is accepted exactly when the table exists, the item exists and the item has no request yet |
| `Store.InsertHeader` | src/main/java/com/quillapiclient/db/DatabaseSchema.java:87-97 | the insert is accepted exactly when the table exists, the key is non-null and the request exists |
| `Store.InsertQueryParam` | src/main/java/com/quillapiclient/db/DatabaseSchema.java:100-109 | the insert is accepted exactly when the table exists, the key is non-null and the request exists |
| `Store.InsertVariable` | src/main/java/com/quillapiclient/db/DatabaseSchema.java:112-125 | the insert is accepted exactly when the table exists, the key is non-null and exactly one owner is set and that owner exists |
| `Store.InsertEvent` | src/main/java/com/quillapiclient/db/DatabaseSchema.java:129-143 | the insert is accepted exactly when the table exists, the type is 'prerequest' or 'test' and exactly one owner is set and that owner exists |
| `Store.InsertResponse` | src/main/java/com/quillapiclient/db/DatabaseSchema.java:147-158 | the insert is accepted exactly when the table exists and the request exists |
| `Store.InsertResponseHeader` | src/main/java/com/quillapiclient/db/DatabaseSchema.java:161-170 | the insert is accepted exactly when the table exists and the response exists |
| `Store.InsertEnvironment` | src/main/java/com/quillapiclient/db/EnvironmentDao.java:54-67 | the insert is rejected only when the environments table is missing |
| `Store.InsertEnvironmentValue` | src/main/java/com/quillapiclient/db/EnvironmentDao.java:126-147 | the insert is rejected only when the environment values table is missing |
| `Store.DeleteCollection` | src/main/java/com/quillapiclient/db/CollectionDao.java:55-62 | deleting a collection with its cascades leaves the set of tables unchanged |
| `Store.DeleteRequestLists` | src/main/java/com/quillapiclient/db/CollectionDao.java:865-877 | the request's headers and query parameters are deleted, every other header and parameter is kept, and no other table changes |
| `Store.DeleteEnvironment` | src/main/java/com/quillapiclient/db/EnvironmentDao.java:46-52 | the environment's row is deleted and nothing else changes |
| `Store.InitializeSchema` | src/main/java/com/quillapiclient/db/DatabaseSchema.java:19-44 | the schema's tables are added to the tables present, and every existing table keeps its rows |
| `Store.DropTable` | src/main/java/com/quillapiclient/db/DatabaseSchema.java:293 | the table is gone and holds no rows |
| `Store.Connection.constructor` | src/main/java/com/quillapiclient/db/LiteConnection.java:41-73 | a connection starts on the given database |
| `Store.Connection.Begin` | src/main/java/com/quillapiclient/db/CollectionDao.java:32 | a transaction starts from the current state |
| `Store.Connection.Rollback` | src/main/java/com/quillapiclient/db/CollectionDao.java:102-108 | every change since the transaction began is undone |
| `Store.Connection.DropSchema` | src/main/java/com/quillapiclient/db/DatabaseSchema.java:289-304 | the schema's tables are dropped in the source's order |
| `StoreProperties.EmptyDbValid` | src/main/java/com/quillapiclient/db/DatabaseSchema.java:19-44 | a database with no tables meets every constraint of the schema |
| `StoreProperties.InitializeSchemaValid` | src/main/java/com/quillapiclient/db/DatabaseSchema.java:19-44 | creating the schema keeps every constraint, keeps every row, and a second run changes nothing |
| `StoreProperties.InsertCollectionValid` | src/main/java/com/quillapiclient/db/DatabaseSchema.java:30-41 | an accepted collection insert keeps every constraint |
| `StoreProperties.InsertItemValid` | src/main/java/com/quillapiclient/db/DatabaseSchema.java:45-57 | an accepted item insert keeps every constraint |
| `StoreProperties.InsertRequestValid` | src/main/java/com/quillapiclient/db/DatabaseSchema.java:61-83 | an accepted request insert keeps every constraint |
| `StoreProperties.InsertHeaderValid` | src/main/java/com/quillapiclient/db/DatabaseSchema.java:87-97 | an accepted header insert keeps every constraint |
| `StoreProperties.InsertQueryParamValid` | src/main/java/com/quillapiclient/db/DatabaseSchema.java:100-109 | an accepted query parameter insert keeps every constraint |
| `StoreProperties.InsertVariableValid` | src/main/java/com/quillapiclient/db/DatabaseSchema.java:112-125 | an accepted variable insert keeps every constraint |
| `StoreProperties.InsertEventValid` | src/main/java/com/quillapiclient/db/DatabaseSchema.java:129-143 | an accepted event insert keeps every constraint |
| `StoreProperties.InsertResponseValid` | src/main/java/com/quillapiclient/db/DatabaseSchema.java:147-158 | an accepted response insert keeps every constraint |
| `StoreProperties.InsertResponseHeaderValid` | src/main/java/com/quillapiclient/db/DatabaseSchema.java:161-170 | an accepted response header insert keeps every constraint |
| `StoreProperties.InsertEnvironmentValid` | src/main/java/com/quillapiclient/db/EnvironmentDao.java:54-67 | an accepted environment insert keeps every constraint |
| `StoreProperties.InsertEnvironmentValueValid` | src/main/java/com/quillapiclient/db/EnvironmentDao.java:126-147 | an accepted environment value insert keeps every constraint |
| `StoreProperties.DeleteEnvironmentValid` | src/main/java/com/quillapiclient/db/EnvironmentDao.java:46-52 | deleting an environment keeps every constraint |
| `StoreProperties.ParentSurvives` | src/main/java/com/quillapiclient/db/DatabaseSchema.java:54-55 | an item is deleted with a collection exactly when it or one of its ancestors belongs to it, so a surviving item's parent survives too |
| `StoreProperties.DeleteCollectionValid` | src/main/java/com/quillapiclient/db/DatabaseSchema.java:54-168 | following every ON DELETE CASCADE of a collection delete leaves no row pointing at a deleted row |
| `StoreProperties.DeleteRequestListsValid` | src/main/java/com/quillapiclient/db/CollectionDao.java:865-877 | deleting a request's headers and query parameters keeps every constraint |
| `StoreProperties.DropOrderIsSchema` | src/main/java/com/quillapiclient/db/DatabaseSchema.java:293-301 | `dropSchema` drops every table of the schema and nothing else, each exactly once |
| `StoreProperties.DropOrderChildrenFirst` | src/main/java/com/quillapiclient/db/DatabaseSchema.java:293-301 | a table is dropped only after every table whose foreign keys reference it |
| `StoreProperties.DropAllPresent` | src/main/java/com/quillapiclient/db/DatabaseSchema.java:293-301 | dropping a list of tables removes exactly those tables |
| `StoreProperties.DropSchemaRemovesSchema` | src/main/java/com/quillapiclient/db/DatabaseSchema.java:268-304 | after `dropSchema` no table of the schema is left, `schemaExists` is false, and the environment tables are left alone |
| `StoreRows.RowsFromAdd` | src/main/java/com/quillapiclient/db/CollectionDao.java:441 | an inserted row comes last among the rows a query selects, and only if it matches |
| `StoreRows.RowsFromNone` | src/main/java/com/quillapiclient/db/CollectionDao.java:441 | a table with no matching row selects nothing |
| `StoreRows.RowsFromSame` | src/main/java/com/quillapiclient/db/CollectionDao.java:441 | two tables that agree on their matching rows select the same rows |
| `StoreRows.RowsFromComplete` | src/main/java/com/quillapiclient/db/CollectionDao.java:441 | every matching row is selected |
| `StoreRows.RowsFromAscending` | src/main/java/com/quillapiclient/db/CollectionDao.java:441 | rows are selected in strictly ascending id order |
| `Sorting.InsertBy` | src/main/java/com/quillapiclient/db/CollectionDao.java:646 | inserting places the element after every element whose key is not larger |
| `Sorting.InsertByKeys` | src/main/java/com/quillapiclient/db/CollectionDao.java:646 | inserting adds exactly the new element's key to the keys |
| `Sorting.InsertBySorted` | src/main/java/com/quillapiclient/db/CollectionDao.java:646 | inserting into a sorted sequence keeps it sorted |
| `Sorting.InsertByStrict` | src/main/java/com/quillapiclient/db/CollectionDao.java:646 | inserting a new key into a strictly sorted sequence keeps it strictly sorted |
| `Sorting.SortBy` | src/main/java/com/quillapiclient/db/CollectionDao.java:646 | `ORDER BY` on an integer column: ascending order, and rows with equal keys keep their id order |
| `Sorting.SortByKeys` | src/main/java/com/quillapiclient/db/CollectionDao.java:646 | sorting keeps the set of keys |
| `Sorting.SortBySortedInput` | src/main/java/com/quillapiclient/db/CollectionDao.java:441 | a sequence already in key order is left as it is |
| `Sorting.SortBySorted` | src/main/java/com/quillapiclient/db/CollectionDao.java:646 | the result is sorted by key |
| `Sorting.SortByStrict` | src/main/java/com/quillapiclient/db/CollectionDao.java:441 | with pairwise distinct keys the result is strictly ascending |
| `Sorting.SortByMembers` | src/main/java/com/quillapiclient/db/CollectionDao.java:646 | the result holds exactly the elements of the input |
| `Sorting.StrictlySortedUnique` | src/main/java/com/quillapiclient/db/CollectionDao.java:441 | two strictly ascending sequences with the same elements are equal, so sorting distinct ids does not depend on their input order |
| `CollectionWrites.CredentialValue` | src/main/java/com/quillapiclient/db/CollectionDao.java:216-222 | no credential with the key gives no value; otherwise the value is that of the last credential with the key, as the loop overwrites its variable on every match |
| `CollectionWrites.ExtractKeyedAuth` | src/main/java/com/quillapiclient/db/CollectionDao.java:209-229 | the auth columns are the type, and the keyed username, password and token, taken only from a "basic" or "bearer" list in any case |
| `CollectionWrites.HeadersSaved` | src/main/java/com/quillapiclient/db/CollectionDao.java:270-288 | the header loop changes only the headers table |
| `CollectionWrites.QueryParamsSaved` | src/main/java/com/quillapiclient/db/CollectionDao.java:290-308 | the query parameter loop changes only the query parameters table |
| `CollectionWrites.RequestSaved` | src/main/java/com/quillapiclient/db/CollectionDao.java:179-309 | `saveRequest` changes only the requests, headers and query parameters tables |
| `CollectionWrites.ListsSaved` | src/main/java/com/quillapiclient/db/CollectionDao.java:270-308 | the two list loops of one request change only the headers and query parameters tables |
| `CollectionWrites.VariablesSaved` | src/main/java/com/quillapiclient/db/CollectionDao.java:313-335 | `saveVariables` changes only the variables table |
| `CollectionWrites.EventsSaved` | src/main/java/com/quillapiclient/db/CollectionDao.java:340-385 | `saveEvents` changes only the events table |
| `CollectionWrites.ResponseHeadersSaved` | src/main/java/com/quillapiclient/db/CollectionDao.java:981-1002 | the response header loop changes only the response headers table |
| `CollectionWrites.SaveHeaders` | src/main/java/com/quillapiclient/db/CollectionDao.java:270-288 | one insert per header, numbered from 0 by its position, the counter advancing past a rejected insert |
| `CollectionWrites.SaveQueryParams` | src/main/java/com/quillapiclient/db/CollectionDao.java:290-308 | one insert per query parameter, numbered the same way |
| `CollectionWrites.SaveRequest` | src/main/java/com/quillapiclient/db/CollectionDao.java:179-309 | the request row, then its headers and query parameters; a rejected request row writes nothing more |
| `CollectionWrites.SaveVariables` | src/main/java/com/quillapiclient/db/CollectionDao.java:313-335 | one insert per variable, owned by the collection when one is given and by the item otherwise, a rejected one skipped |
| `CollectionWrites.SaveEvents` | src/main/java/com/quillapiclient/db/CollectionDao.java:340-385 | one insert per event with `listen` as its type and its script lines joined by newlines, a rejected one skipped |
| `CollectionWrites.SaveItem` | src/main/java/com/quillapiclient/db/CollectionDao.java:125-173 | the item row, typed "request" exactly when the item has a request, then its variables, its request and its children depth first; -1 when the item row is rejected |
| `CollectionWrites.SaveCollection` | src/main/java/com/quillapiclient/db/CollectionDao.java:29-120 | inside one transaction: the collection with the same `postman_id` deleted with its cascades, the new collection row, its variables, events and items; a failure rolls every change back and gives -1 |
| `CollectionWrites.SaveContents` | src/main/java/com/quillapiclient/db/CollectionDao.java:82-97 | the collection's variables, events and items are written in that order |
| `CollectionWrites.UpdateRequest` | src/main/java/com/quillapiclient/db/CollectionDao.java:765-935 | inside one transaction: the item's request row rewritten in place with the auth columns taken by position (first and second basic credential, first bearer credential), its headers and query parameters replaced; false with every change rolled back when the item has no request or a table it touches is missing |
| `CollectionWrites.CreateNewRequest` | src/main/java/com/quillapiclient/db/CollectionDao.java:1433-1495 | inside one transaction: a "request" item and a GET request with an empty URL; -1 with nothing written when the item row is rejected |
| `CollectionWrites.SaveResponse` | src/main/java/com/quillapiclient/db/CollectionDao.java:946-1015 | the response row, then one row per header with its values joined by ", ", numbered from 0 in the map's iteration order; -1 when the response row is rejected |
| `CollectionReads.ReconstructAuth` | src/main/java/com/quillapiclient/db/CollectionDao.java:591-630 | no authorization exactly when the type column is NULL; otherwise the stored type, a basic list exactly for "basic" and a bearer list only for "bearer" (in any case), whose keyed values are the stored columns |
| `CollectionReads.HeaderResult` | src/main/java/com/quillapiclient/db/CollectionDao.java:646 | the request's headers come ordered by `sort_order` |
| `CollectionReads.GetHeaders` | src/main/java/com/quillapiclient/db/CollectionDao.java:641-662 | one header per selected row, in `sort_order` order |
| `CollectionReads.QueryParamResult` | src/main/java/com/quillapiclient/db/CollectionDao.java:672 | the request's query parameters come ordered by `sort_order` |
| `CollectionReads.GetQueryParams` | src/main/java/com/quillapiclient/db/CollectionDao.java:667-686 | one query parameter per selected row, in `sort_order` order |
| `CollectionReads.GetRequestByItemId` | src/main/java/com/quillapiclient/db/CollectionDao.java:495-582 | the request of an item rebuilt from its row: URL, body and authorization from their JSON columns when those decode, else from the flat columns, with its headers and query parameters; none when the item has no request |
| `CollectionReads.ResponseHeaderResult` | src/main/java/com/quillapiclient/db/CollectionDao.java:1114 | the response's headers come ordered by `sort_order` |
| `CollectionReads.TrimAll` | src/main/java/com/quillapiclient/db/CollectionDao.java:1124-1126 | every piece is trimmed, and no piece is dropped or added |
| `CollectionReads.SplitValues` | src/main/java/com/quillapiclient/db/CollectionDao.java:1121-1130 | a stored value splits at ", " into trimmed pieces; a NULL or empty value gives no pieces |
| `CollectionReads.HeaderListsReadSnoc` | src/main/java/com/quillapiclient/db/CollectionDao.java:1117-1131 | each row read puts its key with its split value into the map, replacing an earlier entry |
| `CollectionReads.GetResponseHeaders` | src/main/java/com/quillapiclient/db/CollectionDao.java:1109-1138 | the header map is built from the response's rows in `sort_order` order |
| `CollectionReads.HeaderListsReadKeys` | src/main/java/com/quillapiclient/db/CollectionDao.java:1117-1131 | a key is in the map exactly when some row has it |
| `CollectionReads.HeaderListsReadLast` | src/main/java/com/quillapiclient/db/CollectionDao.java:1117-1131 | the last row holding a key gives its values |
| `CollectionReads.VariablePairs` | src/main/java/com/quillapiclient/db/CollectionDao.java:1305-1307 | one key and value pair per row, a NULL value read as "" |
| `CollectionReads.ReadVariables` | src/main/java/com/quillapiclient/db/CollectionDao.java:1303-1310 | the map holds exactly the keys of the rows |
| `CollectionReads.GetCollectionVariables` | src/main/java/com/quillapiclient/db/CollectionDao.java:1293-1322 | the collection's variables, read as `ReadVariables` reads them |
| `CollectionReads.GetItemVariables` | src/main/java/com/quillapiclient/db/CollectionDao.java:1324-1355 | the item's variables, read as `ReadVariables` reads them |
| `CollectionReads.VariableValueIsLast` | src/main/java/com/quillapiclient/db/CollectionDao.java:1305-1307 | a variable's value is that of the last row, by id, holding its key |
| `CollectionReads.GetAllVariablesForRequest` | src/main/java/com/quillapiclient/db/CollectionDao.java:1357-1371 | the keys are those of the collection (when its id is positive) and of the item (when its id is positive); an item variable overrides a collection variable with the same key |
| `CollectionReads.CollectionIdOfItem` | src/main/java/com/quillapiclient/db/CollectionDao.java:1379-1398 | the item's collection id, or -1 exactly when the table or the item is missing |
| `ResponseHeaderValues.SplitAllPiecesFree` | src/main/java/com/quillapiclient/db/CollectionDao.java:1123 | no piece of a split at ", " contains ", " |
| `ResponseHeaderValues.SplitPiecesFree` | src/main/java/com/quillapiclient/db/CollectionDao.java:1123 | no piece that `split` keeps contains ", " |
| `ResponseHeaderValues.TrimKeepsFree` | src/main/java/com/quillapiclient/db/CollectionDao.java:1125 | trimming cannot create an occurrence of ", " |
| `ResponseHeaderValues.ReadValuesClean` | src/main/java/com/quillapiclient/db/CollectionDao.java:1121-1130 | every value read back is trimmed and free of ", " |
| `ResponseHeaderValues.JoinLastNonEmpty` | src/main/java/com/quillapiclient/db/CollectionDao.java:988 | a list whose last value is not empty joins to a non-empty text |
| `ResponseHeaderValues.SplitOfJoin` | src/main/java/com/quillapiclient/db/CollectionDao.java:988 | splitting a join of parts that are free of ", ", the last one non-empty, gives the parts back |
| `ResponseHeaderValues.RoundTripsSuffices` | src/main/java/com/quillapiclient/db/CollectionDao.java:988 | a list of trimmed values free of ", ", the last one non-empty, is read back as itself |
| `ResponseHeaderValues.TrimAllClean` | src/main/java/com/quillapiclient/db/CollectionDao.java:1125 | trimming values that are already trimmed changes nothing |
| `ResponseHeaderValues.RoundTripsNecessary` | src/main/java/com/quillapiclient/db/CollectionDao.java:1121-1130 | a list read back as itself is made of trimmed values free of ", ", the last one non-empty |
| `ResponseHeaderValues.ValuesRoundTrip` | src/main/java/com/quillapiclient/db/CollectionDao.java:988 | joining a header's values with ", " and reading them back gives the list itself exactly when it is empty or made of trimmed values free of ", " whose last one is non-empty |
| `CollectionWriteProperties.HeadersSavedValid` | src/main/java/com/quillapiclient/db/CollectionDao.java:270-288 | the header loop keeps every constraint of the schema |
| `CollectionWriteProperties.QueryParamsSavedValid` | src/main/java/com/quillapiclient/db/CollectionDao.java:290-308 | the query parameter loop keeps every constraint |
| `CollectionWriteProperties.VariablesSavedValid` | src/main/java/com/quillapiclient/db/CollectionDao.java:313-335 | `saveVariables` keeps every constraint |
| `CollectionWriteProperties.VariablesSavedCollectionScoped` | src/main/java/com/quillapiclient/db/CollectionDao.java:319-325 | with a collection given, every variable is stored under the collection and no item-scoped row appears |
| `CollectionWriteProperties.EventsSavedValid` | src/main/java/com/quillapiclient/db/CollectionDao.java:340-385 | `saveEvents` keeps every constraint |
| `CollectionWriteProperties.ResponseHeadersSavedValid` | src/main/java/com/quillapiclient/db/CollectionDao.java:981-1002 | the response header loop keeps every constraint |
| `CollectionWriteProperties.RequestSavedValid` | src/main/java/com/quillapiclient/db/CollectionDao.java:179-309 | `saveRequest` keeps every constraint |
| `CollectionWriteProperties.RequestSavedFrame` | src/main/java/com/quillapiclient/db/CollectionDao.java:179-309 | `saveRequest` leaves items, events and item variables alone, and adds a request for the item exactly when the item exists without one |
| `CollectionWriteProperties.ItemSavedValid` | src/main/java/com/quillapiclient/db/CollectionDao.java:125-173 | `saveItem` keeps every constraint |
| `CollectionWriteProperties.ChildrenSavedValid` | src/main/java/com/quillapiclient/db/CollectionDao.java:166-170 | saving the children of an item keeps every constraint |
| `CollectionWriteProperties.ItemsSavedValid` | src/main/java/com/quillapiclient/db/CollectionDao.java:93-97 | saving the top-level items keeps every constraint |
| `CollectionWriteProperties.ItemSavedFrame` | src/main/java/com/quillapiclient/db/CollectionDao.java:125-173 | saving an item writes no item event and no item-scoped variable, and only adds item and request rows |
| `CollectionWriteProperties.ChildrenSavedFrame` | src/main/java/com/quillapiclient/db/CollectionDao.java:166-170 | saving the children of an item keeps the same frame |
| `CollectionWriteProperties.ItemsSavedFrame` | src/main/java/com/quillapiclient/db/CollectionDao.java:93-97 | saving the top-level items keeps the same frame |
| `CollectionWriteProperties.ItemSavedResult` | src/main/java/com/quillapiclient/db/CollectionDao.java:125-173 | `saveItem` returns -1 exactly when the items table is missing, the name is null, or the collection or parent is unknown; otherwise a new row under a fresh id, typed "request" exactly when the item has a request |
| `CollectionWriteProperties.ItemSavedRequest` | src/main/java/com/quillapiclient/db/CollectionDao.java:161-164 | an item saved with a request, into a database with a requests table, has its request |
| `CollectionWriteProperties.ContentsSavedValid` | src/main/java/com/quillapiclient/db/CollectionDao.java:82-97 | what `saveCollection` writes after the collection row keeps every constraint |
| `CollectionWriteProperties.ContentsSavedFrame` | src/main/java/com/quillapiclient/db/CollectionDao.java:82-97 | what follows the collection row leaves the tables present and the collections unchanged, and stores no item-scoped variable |
| `CollectionWriteProperties.ClearedFacts` | src/main/java/com/quillapiclient/db/CollectionDao.java:49-63 | the opening delete keeps every constraint, removes the collection holding the `postman_id` and nothing else from the collections, keeps the counter, and only removes variables |
| `CollectionWriteProperties.CollectionSavedResult` | src/main/java/com/quillapiclient/db/CollectionDao.java:29-120 | `saveCollection` keeps every constraint and returns -1 exactly when the collections table is missing or there is no name to store, changing nothing then; failures of nested inserts do not change the result; a saved collection gets a fresh id, the imported `postman_id`, and the name from `info.name` or else the file name |
| `CollectionWriteProperties.CollectionSavedReplaces` | src/main/java/com/quillapiclient/db/CollectionDao.java:49-63 | every collection except the one holding the imported `postman_id` is kept unchanged, and that one is gone once the save succeeds |
| `CollectionWriteProperties.NullPostmanIdAdds` | src/main/java/com/quillapiclient/db/CollectionDao.java:49-63 | with a null `postman_id` no row matches, so a successful save keeps every collection and adds one |
| `CollectionWriteProperties.ImportedItemsHaveNoVariables` | src/main/java/com/quillapiclient/db/CollectionDao.java:157-159 | item variables are stored under the collection, so `getItemVariables` finds nothing for any item that the import created |
| `CollectionWriteProperties.RequestRowReplaced` | src/main/java/com/quillapiclient/db/CollectionDao.java:841-862 | rewriting a request row in place under the same item keeps every constraint |
| `CollectionWriteProperties.RequestUpdatedResult` | src/main/java/com/quillapiclient/db/CollectionDao.java:765-935 | `updateRequest` keeps every constraint, and returns false, changing nothing, exactly when the item has no request or a table it touches is missing |
| `CollectionWriteProperties.NewRequestCreatedResult` | src/main/java/com/quillapiclient/db/CollectionDao.java:1433-1495 | `createNewRequest` keeps every constraint and returns -1 exactly when the item row is rejected; a new item is a "request" item and, when a requests table exists, has its request |
| `CollectionWriteProperties.ResponseSavedResult` | src/main/java/com/quillapiclient/db/CollectionDao.java:946-1015 | `saveResponse` keeps every constraint and returns -1 exactly when the responses table is missing or the request is unknown |
| `CollectionRoundTrips.HeadersSavedRows` | src/main/java/com/quillapiclient/db/CollectionDao.java:268-288 | starting from no headers for the request, the rows selected afterwards are exactly the rows the loop writes |
| `CollectionRoundTrips.HeaderRowsWrittenOrder` | src/main/java/com/quillapiclient/db/CollectionDao.java:268-288 | the written rows are numbered in increasing order below the list's length, and numbered 0 to n-1 when every header has a key |
| `CollectionRoundTrips.HeaderRowsRead` | src/main/java/com/quillapiclient/db/CollectionDao.java:641-662 | reading the written rows gives the headers that have a key, as read back |
| `CollectionRoundTrips.HeadersRoundTrip` | src/main/java/com/quillapiclient/db/CollectionDao.java:641-662 | saving headers for a request with none and reading them back gives the headers that have a key, in order |
| `CollectionRoundTrips.HeadersKeptAllKeyed` | src/main/java/com/quillapiclient/db/CollectionDao.java:268-288 | when every header has a key, all of them come back, each as read back |
| `CollectionRoundTrips.HeadersKeptLength` | src/main/java/com/quillapiclient/db/CollectionDao.java:268-288 | no more headers come back than were saved, and as many only when every header has a key |
| `CollectionRoundTrips.HeadersKeptExact` | src/main/java/com/quillapiclient/db/CollectionDao.java:641-662 | a header list reads back as itself exactly when every header has a key, no type and a definite `disabled` |
| `CollectionRoundTrips.QueryParamsSavedRows` | src/main/java/com/quillapiclient/db/CollectionDao.java:290-308 | starting from no query parameters for the request, the rows selected afterwards are exactly the rows the loop writes |
| `CollectionRoundTrips.QueryRowsWrittenOrder` | src/main/java/com/quillapiclient/db/CollectionDao.java:290-308 | the written rows are numbered in increasing order, and numbered 0 to n-1 when every parameter has a key |
| `CollectionRoundTrips.QueryRowsRead` | src/main/java/com/quillapiclient/db/CollectionDao.java:667-686 | reading the written rows gives the parameters that have a key |
| `CollectionRoundTrips.QueriesRoundTrip` | src/main/java/com/quillapiclient/db/CollectionDao.java:667-686 | saving query parameters for a request with none and reading them back gives the parameters that have a key, in order |
| `CollectionRoundTrips.QueriesKeptLength` | src/main/java/com/quillapiclient/db/CollectionDao.java:290-308 | no more parameters come back than were saved, and as many only when every parameter has a key |
| `CollectionRoundTrips.QueriesKeptAllKeyed` | src/main/java/com/quillapiclient/db/CollectionDao.java:290-308 | a parameter list whose every parameter has a key comes back as itself |
| `CollectionRoundTrips.QueriesKeptExact` | src/main/java/com/quillapiclient/db/CollectionDao.java:667-686 | a parameter list reads back as itself exactly when every parameter has a key |
| `CollectionRoundTrips.OnlyRequestOfItem` | src/main/java/com/quillapiclient/db/CollectionDao.java:740-757 | the request found for an item is its only request row |
| `CollectionRoundTrips.ListsRoundTrip` | src/main/java/com/quillapiclient/db/CollectionDao.java:268-308 | writing the lists of a request that has none yet and reading them back gives the keyed headers and the keyed query parameters |
| `CollectionRoundTrips.RowRead` | src/main/java/com/quillapiclient/db/CollectionDao.java:495-582 | the method, authorization, body and URL of a written request row read back as written; no method reads back as "", no body as an empty body and no URL as one with an empty raw text |
| `CollectionRoundTrips.RequestReadFound` | src/main/java/com/quillapiclient/db/CollectionDao.java:495-582 | `getRequestByItemId` of an item with a request row gives the row's method, authorization, body and URL with its headers, and its query parameters when there are any |
| `CollectionRoundTrips.ListsSavedRead` | src/main/java/com/quillapiclient/db/CollectionDao.java:495-582 | writing the lists of a request whose row is in place and reading the request gives the request as it reads back; the auth columns matter only through their type |
| `CollectionRoundTrips.SavedRequestRead` | src/main/java/com/quillapiclient/db/CollectionDao.java:179-309 | `saveRequest` then `getRequestByItemId` gives the saved request as it reads back, for an item that had no request yet |
| `CollectionRoundTrips.UpdatedRequestRead` | src/main/java/com/quillapiclient/db/CollectionDao.java:765-935 | a successful `updateRequest` then `getRequestByItemId` gives the new request as it reads back, with nothing left of the old headers or query parameters |
| `CollectionRoundTrips.StoredRequestReadsBack` | src/main/java/com/quillapiclient/db/CollectionDao.java:495-582 | a request with a method, a body, a URL whose query is fully keyed, and keyed headers with no type and a definite `disabled`, reads back as itself |
| `ResponseRoundTrip.ResponseRowsWritten` | src/main/java/com/quillapiclient/db/CollectionDao.java:981-1002 | one row per header key in the map's iteration order, its values joined by ", ", numbered by position |
| `ResponseRoundTrip.ResponseHeadersSavedRows` | src/main/java/com/quillapiclient/db/CollectionDao.java:981-1002 | starting from no rows for the response, the rows selected afterwards are those written |
| `ResponseRoundTrip.HeaderListsAsRead` | src/main/java/com/quillapiclient/db/CollectionDao.java:1109-1138 | the map read back for a saved one has the same keys |
| `ResponseRoundTrip.WrittenRowsRead` | src/main/java/com/quillapiclient/db/CollectionDao.java:1117-1131 | reading the written rows gives every key with its values joined and split again, since each key is written once |
| `ResponseRoundTrip.WrittenRowKey` | src/main/java/com/quillapiclient/db/CollectionDao.java:1117-1131 | a key is read back exactly when the saved map has it |
| `ResponseRoundTrip.WrittenRowValue` | src/main/java/com/quillapiclient/db/CollectionDao.java:1117-1131 | each key reads back with its values joined with ", " and split again |
| `ResponseRoundTrip.SavedResponseHeadersRead` | src/main/java/com/quillapiclient/db/CollectionDao.java:946-1015 | `saveResponse` then `getResponseHeaders` of the new response gives every saved key with its values joined and split again, and an empty map when no headers were saved |
| `ResponseRoundTrip.HeaderListsAsReadExact` | src/main/java/com/quillapiclient/db/CollectionDao.java:1109-1138 | a saved header map reads back as itself exactly when every value list is empty or made of trimmed values free of ", " whose last one is non-empty |
| `AuthColumnProperties.BasicIsNotBearer` | src/main/java/com/quillapiclient/db/CollectionDao.java:215-223 | no type is both "basic" and "bearer" when case is ignored |
| `AuthColumnProperties.KeyedColumnsReadBack` | src/main/java/com/quillapiclient/db/CollectionDao.java:591-630 | saving with the keyed extraction, reading back and saving again writes the same columns |
| `AuthColumnProperties.OrderedBasicColumnsAgree` | src/main/java/com/quillapiclient/db/CollectionDao.java:824-839 | credentials keyed "username" then "password" give the same credential columns under both extractions; only the type can differ, since `updateRequest` always writes "basic" |
| `AuthColumnProperties.SwappedBasicColumnsDisagree` | src/main/java/com/quillapiclient/db/CollectionDao.java:824-839 | with the two credentials the other way round, `updateRequest` stores the password as the username |
| `AuthColumnProperties.PositionalIgnoresType` | src/main/java/com/quillapiclient/db/CollectionDao.java:824-839 | `updateRequest` ignores the auth's type: a bearer-typed auth that also has a basic list is stored as basic, where `saveRequest` stores the token |
| `AuthColumnProperties.PositionalColumnsReadBack` | src/main/java/com/quillapiclient/db/CollectionDao.java:824-839 | columns `updateRequest` wrote for a basic auth with both credentials set read back as the two credentials, which are then written again unchanged |
| `AuthColumnProperties.PositionalShiftsLoneCredential` | src/main/java/com/quillapiclient/db/CollectionDao.java:824-839 | a basic auth stored without a username reads back as a one-credential list, which `updateRequest` then writes as the username |
| `CollectionItems.ItemQueryRows` | src/main/java/com/quillapiclient/db/CollectionDao.java:1169-1201 | a missing items or requests table makes the query fail, and the caught exception leaves no rows |
| `CollectionItems.GetAllItemsForCollection` | src/main/java/com/quillapiclient/db/CollectionDao.java:1161-1204 | the loop builds the four maps by one update per row of the query, in row order |
| `CollectionItems.IdsWhereSnoc` | src/main/java/com/quillapiclient/db/CollectionDao.java:1177-1197 | one more row adds its id to the ids of the matching rows exactly when it matches |
| `CollectionItems.LoadedItems` | src/main/java/com/quillapiclient/db/CollectionDao.java:1185 | `itemsMap` holds exactly the rows' items, each under its own id |
| `CollectionItems.LoadedChildIds` | src/main/java/com/quillapiclient/db/CollectionDao.java:1193-1196 | the child set holds exactly the ids of the rows with a parent |
| `CollectionItems.LoadedMethods` | src/main/java/com/quillapiclient/db/CollectionDao.java:1188-1190 | `requestMethodsMap` holds exactly the rows with a non-empty method, each with the method upper-cased |
| `CollectionItems.LoadedChildrenListed` | src/main/java/com/quillapiclient/db/CollectionDao.java:1193-1196 | every row with a parent is listed under that parent in `childrenMap` |
| `CollectionItems.LoadedChildrenParents` | src/main/java/com/quillapiclient/db/CollectionDao.java:1193-1196 | every id listed under a parent in `childrenMap` is a row with that parent |
| `CollectionItems.LoadedChildrenAscending` | src/main/java/com/quillapiclient/db/CollectionDao.java:1173 | each list of `childrenMap` is strictly ascending, as the rows come ordered by id |
| `CollectionItems.QueryRowsFacts` | src/main/java/com/quillapiclient/db/CollectionDao.java:1170-1173 | the query returns every item of the collection once, in ascending id order, each with its own columns and its request's method |
| `CollectionItems.ItemsLoaded` | src/main/java/com/quillapiclient/db/CollectionDao.java:1161-1204 | `itemsMap` holds exactly the items of the collection, each under its id with its name and type |
| `CollectionItems.ChildIdsLoaded` | src/main/java/com/quillapiclient/db/CollectionDao.java:1161-1204 | the child set holds exactly the items of the collection that have a parent |
| `CollectionItems.MethodsLoaded` | src/main/java/com/quillapiclient/db/CollectionDao.java:1161-1204 | `requestMethodsMap` holds exactly the items of the collection whose request has a non-empty method, upper-cased |
| `CollectionItems.ChildrenLoaded` | src/main/java/com/quillapiclient/db/CollectionDao.java:1161-1204 | every item of the collection with a parent is listed under that parent, every listed id is such an item, and each list is ascending |
| `CollectionItems.LoadedWellFormed` | src/main/java/com/quillapiclient/db/CollectionDao.java:1161-1204 | the data loaded from a database that meets the schema is well formed: every child's id is above its parent's |
| `CollectionItems.GetRootItems` | src/main/java/com/quillapiclient/db/CollectionDao.java:1230-1241 | the loop returns the root items for the given iteration order of `itemsMap` |
| `CollectionItems.RootCandidatesMembers` | src/main/java/com/quillapiclient/db/CollectionDao.java:1232-1237 | the candidates are the items of the iteration order outside the child set, with distinct ids |
| `CollectionItems.RootItemsExact` | src/main/java/com/quillapiclient/db/CollectionDao.java:1230-1241 | `getRootItems` gives exactly the items outside the child set, strictly ascending by id |
| `CollectionItems.RootItemsOrderFree` | src/main/java/com/quillapiclient/db/CollectionDao.java:1230-1241 | whatever the HashMap's iteration order, the root list is the same |
| `CollectionItems.GetChildItems` | src/main/java/com/quillapiclient/db/CollectionDao.java:1246-1262 | the loop returns the child items of the parent |
| `CollectionItems.PresentChildrenMembers` | src/main/java/com/quillapiclient/db/CollectionDao.java:1253-1258 | the children kept are the listed ids found in `itemsMap`, with distinct ids |
| `CollectionItems.ChildItemsExact` | src/main/java/com/quillapiclient/db/CollectionDao.java:1246-1262 | `getChildItems` gives exactly the listed children found in `itemsMap`, strictly ascending by id and all above their parent; an unknown parent gives the empty list |
| `CollectionTree.DisplayName` | src/main/java/com/quillapiclient/controller/CollectionTreeManager.java:340-348 | the label starts with the item's name, and differs from it exactly when the item is a request with a non-empty method in the loaded map |
| `CollectionTree.AboveShrinks` | src/main/java/com/quillapiclient/controller/CollectionTreeManager.java:354-358 | the loaded ids above a child are fewer than those above its parent, so the recursion of `buildNodeFromMemory` ends |
| `CollectionTree.BuildChildrenFollow` | src/main/java/com/quillapiclient/controller/CollectionTreeManager.java:355-358 | one child node per child item, in the same order |
| `CollectionTree.BuildNodeFollows` | src/main/java/com/quillapiclient/controller/CollectionTreeManager.java:338-361 | a built node carries the item's id, name, type and label, and its children are the nodes built for `getChildItems`, in ascending id order |
| `CollectionTree.BuiltFromAnyOrder` | src/main/java/com/quillapiclient/controller/CollectionTreeManager.java:312-328 | the built tree does not depend on the iteration order: its top-level nodes are built from the items outside the child set, by ascending id |
| `CollectionTree.HashMapOrder` | src/main/java/com/quillapiclient/db/CollectionDao.java:1232 | an iteration order of a key set lists every key once |
| `CollectionTree.BuildTreeFromDatabase` | src/main/java/com/quillapiclient/controller/CollectionTreeManager.java:312-328 | a collection root node holding a node per root item, built from the items loaded in one query |
| `CollectionTree.FindNodeDepthFirst` | src/main/java/com/quillapiclient/controller/CollectionTreeManager.java:198-209 | a node found matches the test and lies under the start node |
| `CollectionTree.FindFrom` | src/main/java/com/quillapiclient/controller/CollectionTreeManager.java:203-207 | a node found from a child on matches the test and lies under the start node |
| `CollectionTree.FirstMatchAppend` | src/main/java/com/quillapiclient/controller/CollectionTreeManager.java:198-209 | the first match in two lists is the first list's match when it has one, else the second list's |
| `CollectionTree.FindIsFirstInPreorder` | src/main/java/com/quillapiclient/controller/CollectionTreeManager.java:198-209 | `findNodeDepthFirst` finds the first pre-order match, and finds none exactly when no node of the subtree matches |
| `CollectionTree.FindFromIsFirst` | src/main/java/com/quillapiclient/controller/CollectionTreeManager.java:203-207 | the loop from child `i` finds the first pre-order match among the children from `i` on |
| `CollectionTree.CollectionIndex` | src/main/java/com/quillapiclient/controller/CollectionTreeManager.java:151-163 | the index of the first top-level node of the collection; no earlier node belongs to it, and it is the number of nodes when none does |
| `CollectionTree.AddCollectionKeepsDistinct` | src/main/java/com/quillapiclient/controller/CollectionTreeManager.java:272-302 | removing the collection's node and putting a node of the same collection first keeps at most one node per collection, and that node is the only one of its collection |
| `CollectionTree.WithoutCollectionKeeps` | src/main/java/com/quillapiclient/controller/CollectionTreeManager.java:278-290 | the nodes kept are the old ones except the first of the collection, in their old order |
| `CollectionTree.SizeAllAppend` | src/main/java/com/quillapiclient/controller/CollectionTreeManager.java:165-196 | the size of two concatenated node lists is the sum of their sizes |
| `CollectionTree.SizeAllUpdate` | src/main/java/com/quillapiclient/controller/CollectionTreeManager.java:165-196 | replacing one node of a list changes the list's size by the difference of the two nodes' sizes |
| `CollectionTree.AppendChildAtExact` | src/main/java/com/quillapiclient/controller/CollectionTreeManager.java:186-191 | appending at a position adds exactly the new subtree, keeps the path valid and makes the new node the last child there |
| `CollectionTree.InsertPosition` | src/main/java/com/quillapiclient/controller/CollectionTreeManager.java:172-185 | the insert position is a valid path under the collection node |
| `CollectionTree.RequestNodeAddedExact` | src/main/java/com/quillapiclient/controller/CollectionTreeManager.java:165-196 | with no node for the collection the tree is unchanged; otherwise exactly one node, labelled with the name, is added as the last child of the first folder with the parent id met depth-first under the collection node, or of the collection node when there is no parent id or no such folder, and every other top-level node is kept |
| `CollectionTree.CollectionTreeManager.constructor` | src/main/java/com/quillapiclient/controller/CollectionTreeManager.java:23-34 | a new manager shows only the "Collections" root and has no current collection |
| `CollectionTree.CollectionTreeManager.AddCollectionToTree` | src/main/java/com/quillapiclient/controller/CollectionTreeManager.java:272-302 | the first top-level node of the collection is removed and the node rebuilt from the database goes first |
| `CollectionTree.CollectionTreeManager.LoadCollectionFile` | src/main/java/com/quillapiclient/controller/CollectionTreeManager.java:224-243 | a file that is missing or does not parse changes nothing; otherwise the collection is saved, the id the save returns (-1 when rejected) becomes the current one, and the node rebuilt for it, named after the file, goes first |
| `CollectionTree.CollectionTreeManager.AddRequestNode` | src/main/java/com/quillapiclient/controller/CollectionTreeManager.java:165-196 | the tree after the call is the one `RequestNodeAddedExact` describes |
| `CollectionTree.CollectionTreeManager.HandleAddRequest` | src/main/java/com/quillapiclient/controller/CollectionTreeManager.java:108-148 | without a positive collection id, or with a null or blank name, nothing changes; otherwise the trimmed name is saved as a new request and its node is added only when the new id is positive |
| `CollectionTree.AddedRequestSaved` | src/main/java/com/quillapiclient/controller/CollectionTreeManager.java:125-140 | a request added from the menu to a valid database gets a positive id exactly when the collection exists and so does the parent, when one is given |
| `FileSelection.OriginalName` | src/main/java/com/quillapiclient/utility/FileSelectionListener.java:43-47 | a label with both "[" and "]" gives back a shorter text without "[", and any other label is used whole |
| `FileSelection.SelectedRequest` | src/main/java/com/quillapiclient/utility/FileSelectionListener.java:33-58 | the callback gets a request exactly when a node is selected, a callback is set and the extracted name maps to a non-null request, and then it gets that request |
| `FileSelection.UntrimmableIsTrimmed` | src/main/java/com/quillapiclient/utility/FileSelectionListener.java:46 | a text is left unchanged by `trim` exactly when it neither starts nor ends with a character `trim` removes |
| `FileSelection.TrimTrailingSpace` | src/main/java/com/quillapiclient/utility/FileSelectionListener.java:46 | trimming a text with no surrounding whitespace plus one trailing space gives the text back |
| `FileSelection.BracketSuffixStripped` | src/main/java/com/quillapiclient/utility/FileSelectionListener.java:43-47 | a label made of a name, a space and a "[" that a "]" follows gives the name back, when the name has no "[" and no surrounding whitespace |
| `FileSelection.LabelGivesName` | src/main/java/com/quillapiclient/utility/FileSelectionListener.java:43-47 | extraction inverts the tree's label: an item whose name has no "[" and no surrounding whitespace is looked up under its own name, with or without the method suffix |
| `FileSelection.BracketedNameShortened` | src/main/java/com/quillapiclient/utility/FileSelectionListener.java:43-47 | a request named `a [b]` is looked up as `a`, so its own entry in the map is never found from the tree |
| `FileSelection.SelectingBuiltNode` | src/main/java/com/quillapiclient/utility/FileSelectionListener.java:33-58 | selecting the node built for a request item hands the callback the request stored under the item's name, when the name has no "[" and no surrounding whitespace |
| `EnvironmentDao.FindExistingEnvironmentId` | src/main/java/com/quillapiclient/db/EnvironmentDao.java:100-124 | the id found is -1 or the id of a stored environment |
| `EnvironmentDao.FindExistingExact` | src/main/java/com/quillapiclient/db/EnvironmentDao.java:100-124 | a usable `postman_id` held by some row finds the first such row; otherwise a usable name held by some row finds the first such row; otherwise -1; a found id is positive |
| `EnvironmentDao.EnabledColumn` | src/main/java/com/quillapiclient/db/EnvironmentDao.java:137-141 | `enabled` is stored as 1 exactly when true, as 0 when false, and as NULL exactly when null |
| `EnvironmentDao.ValuesSaved` | src/main/java/com/quillapiclient/db/EnvironmentDao.java:126-147 | the batch touches only the `environment_values` table |
| `EnvironmentDao.SaveEnvironmentValues` | src/main/java/com/quillapiclient/db/EnvironmentDao.java:126-147 | the `sortOrder++` loop leaves the database the batch describes |
| `EnvironmentDao.ValuesSavedSnoc` | src/main/java/com/quillapiclient/db/EnvironmentDao.java:132-144 | one more value appends its row to the values table and touches nothing else |
| `EnvironmentDao.ValuesSavedRows` | src/main/java/com/quillapiclient/db/EnvironmentDao.java:126-147 | the batch numbers its rows after the existing ones and changes no earlier row |
| `EnvironmentDao.ValuesSavedRowAt` | src/main/java/com/quillapiclient/db/EnvironmentDao.java:131-142 | the value at position `k` of the list is row `last + 1 + k`, with sort order `k` and the key, value, type and enabled column of that value |
| `EnvironmentDao.ValuesSavedValid` | src/main/java/com/quillapiclient/db/EnvironmentDao.java:126-147 | the batch keeps the schema's constraints |
| `EnvironmentDao.SaveEnvironment` | src/main/java/com/quillapiclient/db/EnvironmentDao.java:20-98 | the method leaves the database and returns the id of the one-transaction save |
| `EnvironmentDao.EnvironmentSavedValid` | src/main/java/com/quillapiclient/db/EnvironmentDao.java:20-98 | a save keeps the schema's constraints |
| `EnvironmentDao.EnvironmentSavedFails` | src/main/java/com/quillapiclient/db/EnvironmentDao.java:80-89 | the save returns -1 exactly when a table it writes is missing, and then the rollback leaves the database unchanged |
| `EnvironmentDao.EnvironmentSavedRows` | src/main/java/com/quillapiclient/db/EnvironmentDao.java:45-72 | a saved environment gets a new positive id holding the row built from the environment, the name falling back to the file name; the row the lookup found is deleted, not updated; every other environment row is kept |
| `EnvironmentDao.EnvironmentValuesSaved` | src/main/java/com/quillapiclient/db/EnvironmentDao.java:74-76 | a successful save adds one values row per value of the list, none when the list is null, numbered after the existing rows, which stay as they were |
| `EnvironmentDao.EnvironmentValueSavedAt` | src/main/java/com/quillapiclient/db/EnvironmentDao.java:74-76 | the `k`-th value of a successful save is stored under the new environment's id with sort order `k` |
| `EnvironmentDao.EnvironmentsListed` | src/main/java/com/quillapiclient/db/EnvironmentDao.java:149-165 | one info per row of the query, with that row's id and name, in the query's order |
| `EnvironmentDao.GetAllEnvironments` | src/main/java/com/quillapiclient/db/EnvironmentDao.java:149-165 | the loop reading the cursor returns the infos of the query's rows |
| `EnvironmentDao.EnvironmentsListedExact` | src/main/java/com/quillapiclient/db/EnvironmentDao.java:149-165 | the listing names every stored environment once, newest first, with its stored name |
| `EnvironmentDao.EnvironmentQueryRowsDescending` | src/main/java/com/quillapiclient/db/EnvironmentDao.java:154 | the rows come newest first |
| `EnvironmentDao.EnvironmentQueryRowsExact` | src/main/java/com/quillapiclient/db/EnvironmentDao.java:153-162 | the rows are exactly the stored environments, each with its own columns, and none when the table is missing |
| `EnvironmentDao.SavedEnvironmentListedFirst` | src/main/java/com/quillapiclient/db/EnvironmentDao.java:20-98 | after a successful save the new environment comes first in the listing, under its stored name |
| `EnvironmentList.FirstWithIdFrom` | src/main/java/com/quillapiclient/controller/EnvironmentListManager.java:122-126 | the index found from `i` holds the id and no earlier index from `i` does; none is found exactly when no index from `i` holds it |
| `EnvironmentList.FirstWithId` | src/main/java/com/quillapiclient/controller/EnvironmentListManager.java:122-126 | the index found is the first that holds the id, and none is found exactly when the list does not hold it |
| `EnvironmentList.ActiveName` | src/main/java/com/quillapiclient/controller/EnvironmentListManager.java:118-128 | null with no active id, a non-positive one or one the list does not hold; otherwise the name of the first info with the id |
| `EnvironmentList.VariablesOf` | src/main/java/com/quillapiclient/controller/EnvironmentListManager.java:135-146 | every key of the map is trimmed and not empty |
| `EnvironmentList.HasKeySnoc` | src/main/java/com/quillapiclient/controller/EnvironmentListManager.java:136-146 | one more entry contributes a key exactly when the earlier ones or the new one do |
| `EnvironmentList.VariablesOfKeys` | src/main/java/com/quillapiclient/controller/EnvironmentListManager.java:135-146 | a key is in the map exactly when some entry that is not null, has a non-blank key and is not disabled trims to it |
| `EnvironmentList.VariablesOfLastWins` | src/main/java/com/quillapiclient/controller/EnvironmentListManager.java:145 | the last contributing entry with a key decides its value, a null value read as "" |
| `EnvironmentList.ListsSnoc` | src/main/java/com/quillapiclient/controller/EnvironmentListManager.java:65-71 | a prefix one longer holds an id exactly when the shorter one does or the new info has it |
| `EnvironmentList.EnvironmentListManager.constructor` | src/main/java/com/quillapiclient/controller/EnvironmentListManager.java:33-38 | a new manager has empty lists and no active environment |
| `EnvironmentList.EnvironmentListManager.LoadAllEnvironments` | src/main/java/com/quillapiclient/controller/EnvironmentListManager.java:60-75 | both lists are rebuilt from the store's listing, index for index; the active id is kept only when the new list holds it |
| `EnvironmentList.EnvironmentListManager.GetEnvironmentInfoAt` | src/main/java/com/quillapiclient/controller/EnvironmentListManager.java:81-86 | the info at the index, and null exactly when the index is outside the list |
| `EnvironmentList.EnvironmentListManager.SetActiveEnvironmentByIndex` | src/main/java/com/quillapiclient/controller/EnvironmentListManager.java:88-91 | the active id becomes the id of the info at the index, and none exactly when the index is outside the list |
| `EnvironmentList.EnvironmentListManager.CreateEnvironmentAndStartEditing` | src/main/java/com/quillapiclient/controller/EnvironmentListManager.java:93-112 | a failed create (id not positive) changes neither list; otherwise the new environment, named "New Environment", goes first in both lists and the rest follow unchanged |
| `EnvironmentList.EnvironmentListManager.GetActiveEnvironmentId` | src/main/java/com/quillapiclient/controller/EnvironmentListManager.java:114-116 | the active id, or -1 when there is none |
| `EnvironmentList.EnvironmentListManager.GetActiveEnvironmentName` | src/main/java/com/quillapiclient/controller/EnvironmentListManager.java:118-128 | the scan returns the name `ActiveName` describes |
| `EnvironmentList.EnvironmentListManager.GetActiveEnvironmentVariables` | src/main/java/com/quillapiclient/controller/EnvironmentListManager.java:130-148 | an empty map with no active environment or a non-positive id, otherwise the map `VariablesOf` describes for the stored values |
| `EnvironmentList.EnvironmentListManager.LoadEnvironmentFile` | src/main/java/com/quillapiclient/controller/EnvironmentListManager.java:40-58 | a missing file or one that does not parse changes nothing; otherwise the environment is saved under the file's name, and only a successful save reloads the list, which then starts with the new environment when the database met the schema; the active id survives the reload only if the reloaded list holds it, and a failed save changes neither list nor the active id |
| `EnvironmentList.ReloadKeepsStoredActive` | src/main/java/com/quillapiclient/controller/EnvironmentListManager.java:60-75 | a reload keeps an active id exactly when the store still holds that environment, whatever the listing's order |
| `EnvironmentList.ActiveNameOfListed` | src/main/java/com/quillapiclient/controller/EnvironmentListManager.java:118-128 | the active name read from a freshly loaded list is the stored name of the active environment |
| `EnvironmentList.CreatedEnvironmentNamed` | src/main/java/com/quillapiclient/controller/EnvironmentListManager.java:105-109 | a new environment put first is found under its id with the name "New Environment" |

## Left out

- I/O and plumbing: SQLite I/O errors, the JDBC connection setup (`LiteConnection`), the PRAGMAs, the indexes, the `updated_at` triggers and the timestamps are not modelled. A statement fails only on a constraint it breaks or on a table that is missing.
- Autocommit: restoring autocommit in `finally`, and the failure to switch it off, are not modelled. A transaction is a snapshot of `Db` and its restore.
- Jackson: JSON serialization and parsing are not modelled. A snapshot column is a `Snapshot<T>`: NULL, empty text, an encoding of a value, or text that does not decode. Files read with `ObjectMapper.readValue` arrive as `Option` parameters, `None` standing for a missing file or one that does not parse.
- Serialization failure: the case where writing a snapshot fails, leaving the column NULL, is not modelled. `JsonProcessor` and `ResponseFormatter.formatJson` are Jackson and org.json wrappers and are not modelled.
- Null list elements: the saving code dereferences every element of the imported lists, so the writes require lists without null elements (`CollectionNoNulls`, `NoNulls`). The NullPointerException a null element would raise is not modelled.
- The network: `HttpClient.send`, timeouts and URI construction are the `Outcome` datatype. An uncaught exception of `HttpRequest.Builder` (a restricted header, an unknown scheme) is not modelled, and neither is an unset method.
- Concurrency and time: the executor, `invokeLater`, duration timing and the `LocalDateTime` stamps in messages are not modelled.
- `ResponseFormatter.TruncateText`, `ResponseFormatter.FormatBody`, `ResponseFormatter.BodySection`, `ResponseFormatter.LargeNoteReadsBack`, `ResponseFormatter.BodyShownCut`, `ResponseFormatter.TruncatedCountReadsBack`, `ResponseFormatter.FormatResponse`: lengths are counts of Unicode scalar values, and the cut keeps whole scalar values. Java's `length()` and `substring` count UTF-16 code units, so a body with characters outside the Basic Multilingual Plane is measured longer there, may be truncated or get the large-body note where the model does not, and may be cut through a surrogate pair. `ApiController`'s private `truncateText` and its body display are the same functions and differ from Java in the same way.
- `ApiCall.Subst`, `ApiCall.FullUrl`, `ApiCall.ParamPairs`, `ApiCall.ApiCallBuilder.Substitute`, `ApiCall.ApiCallBuilder.BuildUrl`, `Resolution.RequestVariableResolver.Resolve`, `Resolution.RequestVariableResolver.ResolveMap`: these use the corrected replacement (`VariableReplacer.ReplaceVariables`), which copies an unmapped placeholder verbatim. In the code as written (`VariableReplacer.ReplacedAsWritten`), an unmapped placeholder holding `$` can make `appendReplacement` throw, and one holding `\` loses the backslash. Thrown from the URL's substitution, the exception escapes `execute`. Thrown from a query parameter's, it makes `buildUrl` return null, and `new URI(null)` then throws out of `execute`. A mapped value is quoted in the source too, so values are not affected.
- `ResponseFormatter.FormatSizeBytes`: only the bytes branch of `formatSize` is modelled, because the KB and MB branches format floating-point numbers. The same holds in `ApiController`.
- Case mapping: `toUpperCase`, `toLowerCase` and `equalsIgnoreCase` are modelled on ASCII letters only. Java's full Unicode case mapping is not modelled.
- Iteration order: the iteration order of a HashMap is a parameter that lists each key once. No ordering is claimed where the code iterates one.
- Missing `EnvironmentDao` methods: `createEnvironment`, `updateEnvironmentName`, `getEnvironmentValues` and `replaceEnvironmentValues` have no body in the repository. Their results are parameters of the members that call them (`CreateEnvironmentAndStartEditing`, `GetActiveEnvironmentVariables`, `EnvironmentValuesTableModel`), and no contract is invented for them.
- The environments schema: no `DatabaseSchema` statement creates `environments` or `environment_values`. Their tables are modelled with the columns the DAO writes, and without constraints beyond the keys.
- `EnvironmentDao.EnvironmentQueryRowsDescending`: `ORDER BY created_at DESC` is modelled as descending id. Rows created within the same second of the timestamp, whose relative order SQLite leaves open, are ordered by id.
- `EnvironmentDao.FindExistingEnvironmentId`: the lookups have no ORDER BY, so which duplicate is found is left to SQLite. The model takes the row with the smallest id.
- `CollectionReads.ReadVariables`: the variables query has no ORDER BY. It is modelled in id order, SQLite's rowid scan.
- `CollectionReads.GetHeaders`: equal `sort_order` values, in the headers, query-parameter and response-header reads, are ordered by id. The model never writes such ties itself.
- `CollectionTree.BuildTreeFromDatabase`: the tree is built only from a database that meets the schema (`Valid`). Termination of the recursion rests on a parent's id being below its child's, which the inserts guarantee.
- `TreeNodeData.collectionId`: this field is not part of the node model.
- Other tree code: the popup and context menu (`CollectionTreeContextMenu`, `showPopupMenu`) are not modelled. Neither are `getCollectionIdByItemId`, `loadAllCollections`, `startInlineEdit`, and the Swing expand, scroll and selection calls after an insert.
- Swing: layout, rendering, dialogs (`JOptionPane`), themes and the windows other than the table model are not modelled. A dialog's input is a parameter.
- `Components.RequestPanel`: the `isPopulating` flag is not modelled, since it is false between calls. The URL field's own text handling, in `TopPanel`, is not part of this model.
- Mismatched call sites: `ApiController` calls `fromUI` with nine arguments, though the method takes ten. `Views` uses a two-argument `FileSelectionListener` constructor. `MainWindow` calls `getHeadersPanel`. The model follows the callee bodies that exist.
- The POJOs: the classes under `objects/` are datatypes with no behaviour of their own.
- `ResponseHeaderValues.ValuesRoundTrip`: the round trip of response header values is stated as an exact condition. The empty list and empty values in the middle of a list do come back; only a last value that is empty or trims differently is lost.

## Findings

| source | as written | input that shows it | evidently intended | confidence | as-written member | corrected member |
|---|---|---|---|---|---|---|
| src/main/java/com/quillapiclient/utility/VariableReplacer.java:43-46 | an unmapped placeholder is passed unquoted to `appendReplacement`, so `$` and `\` in it are read as replacement syntax | the text `{{a$b}}` with no variable `a$b`: `appendReplacement` throws IllegalArgumentException; `{{a\b}}` comes out as `{{ab}}` | the placeholder is copied verbatim (`Matcher.quoteReplacement`, as for the mapped value) | not executed | `VariableReplacer.AsWrittenDollarThrows` | `VariableReplacer.UnknownPlaceholdersKept` |
| src/main/java/com/quillapiclient/controller/ApiController.java:305-306 | a quote counts as escaped when the last character WRITTEN is a backslash, so the second backslash of an escaped backslash escapes the closing quote | the JSON text `["\\"]`: after the literal `"\\"` the scan stays inside quotes, and the closing `]` is copied with no line break or indent | the escape is judged on the input, so a backslash escaped by a backslash does not escape the quote | not executed | `Controller.EscapedBackslashStaysQuoted` | `Controller.ScanStringLiteral` |
