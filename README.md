# Inbound OAuth authentication filter, modelled in Dafny

This project models the authentication filter of `go-oauth-lib` (`oauth/oauth.go`).
The filter works on one inbound HTTP request at a time:

- `IsPublic` says whether the request is public: a missing request is, and so is one whose first `X-Public` value is exactly `"true"`.
- `GetClientID` and `GetCallerID` read the trusted `X-ClientID` and `X-CallerID` headers as base-10 64-bit integers. They give 0 whenever they cannot.
- `AuthenticateRequest` first deletes both trust headers, so a caller can never forge them. It then trims the `access_token` query parameter; this is the bearer-token-in-query form of section 2.3 of RFC 6750. If the token is empty, it stops. Otherwise it asks the token service once at `/oauth/access_token/<token>` and sorts the answer (`getAccessToken`). A 404 error lets the request through as anonymous. Any other error is returned unchanged. On success the resolved client and user identifiers are appended as decimal header values.

Modules:

- `Wrappers`: `Option` and `Result`.
- `Strconv`: `strconv.ParseInt(s, 10, 64)` as `ParseInt`, and the `%v` rendering of an `int64` as `FormatInt`, with round-trip lemmas in both directions.
- `Strings`: `strings.TrimSpace`, over Go's `unicode.IsSpace` set of white-space characters.
- `Http`: a header or query map (`map<string, seq<string>>`) with `Get`, `Add` and `Del`, and the class `Request`, whose `header` field the filter changes in place.
- `RestErrors`: the `RestErr` record (message, status, error kind) and `NewInternalServerError`.
- `Oauth`: the filter itself.

The filter's request-changing operations, `CleanRequest` and `AuthenticateRequest`, are methods that change a `Request` in place, with `modifies` clauses. Their `ensures` tie the new header map to the pure function `Authenticate`, and the security and outcome properties are proved about that function.

The token service is a parameter `service: string -> Response`. It gives the response for a request path, so the model can say which path, if any, was asked. A `Response` is `NoResponse`, or a `Reply` with a status code and a `Body`. A `Body` records what JSON decoding makes of it for each record it may be decoded into:

- the error record;
- the token record with its identifier fields filled;
- the token record as the source declares it, where only the id is filled.

How the success body is decoded is a parameter `unmarshal` of `Authenticate` and `AuthenticateRequest`. `UnmarshalAccessTokenAsWritten` decodes into the record as the source declares it, so the flow with it is the code as written. `UnmarshalAccessToken` fills the identifiers, as the code evidently intends (see Findings). Every property of the flow is proved for both decoders unless a row says otherwise.

Details of the code's behaviour that the model keeps:

- The token is put into the service path as it is, with no escaping.
- The internal-error messages are the code's own strings.
- A 404 reply counts as anonymous only when its body decodes as an error record. A 404 reply whose body does not decode is an internal error, and it is returned (oauth/oauth.go:107-111, 83).
- The anonymous test reads the `status` field of the decoded error record, not the HTTP status code (oauth/oauth.go:83). So a 404 reply whose body carries another status (e.g. `{"message":"gone"}`, status 0) is returned as an error, and a 500 reply whose body says status 404 lets the request through as anonymous.
- As written, the success identifiers are never decoded (see Findings).

## Model

| member | source | states |
|---|---|---|
| `Oauth.IsPublic` | oauth/oauth.go:39-44 | A missing request is public. Otherwise the request is public exactly when an `X-Public` header exists, its list is non-empty and its first value is the literal `"true"`. An absent header gives false. |
| `Oauth.IdFromHeader` | oauth/oauth.go:51-55 | The first value of a header parsed as a 64-bit decimal, or 0 when the parse fails. |
| `Oauth.GetClientID` | oauth/oauth.go:46-56 | A missing request gives 0. Otherwise the result is the parse of the first `X-ClientID` value, or 0 when the parse fails. |
| `Oauth.GetCallerID` | oauth/oauth.go:58-68 | The same, for `X-CallerID`. |
| `Oauth.IdAbsentIsZero` | oauth/oauth.go:51-54 | A missing header, an empty value list or an empty first value reads as 0. |
| `Oauth.IdMalformedIsZero` | oauth/oauth.go:51-54 | A value with any character that is neither a digit nor a leading sign reads as 0. |
| `Oauth.IdOutOfRangeIsZero` | oauth/oauth.go:51-54 | A well-formed decimal outside [-2^63, 2^63-1] reads as 0. |
| `Oauth.IdReadsBackRendering` | oauth/oauth.go:88-89 | A header whose first value is the `%v` rendering of an int64 n reads back as exactly n. |
| `Strconv.ParseInt` | oauth/oauth.go:51 | A parse succeeds only on a non-empty string of digits, with at most one leading `+` or `-` followed by at least one digit. A negative result needs a leading `-`. `ParseAccepts` states the converse, with the value. |
| `Strconv.ParseAccepts` | oauth/oauth.go:51-55 | Every optionally signed digit run whose value lies in the int64 range parses to exactly that value, leading zeros, `+` and `-0` included, so `+7` and `007` read as 7. |
| `Strconv.ParseEmpty` | oauth/oauth.go:51 | The empty string does not parse. |
| `Strconv.ParseRejectsNonDigit` | oauth/oauth.go:51 | Any character other than a digit, except a leading `+` or `-`, makes the parse fail. |
| `Strconv.ParseRejectsOutOfRange` | oauth/oauth.go:51 | An optionally signed digit run whose value lies outside the int64 range fails to parse. |
| `Strconv.NatDigits` | oauth/oauth.go:88-89 | The digits of a natural number: at least one digit, and no leading zero unless the number is 0. |
| `Strconv.FormatInt` | oauth/oauth.go:88-89 | The rendering is canonical decimal text. It starts with `-` exactly when the number is negative. |
| `Strconv.DigitsValueOfNatDigits` | oauth/oauth.go:88-89 | The digit run written for n denotes n. |
| `Strconv.ParseFormatRoundTrip` | oauth/oauth.go:88-89 | For every int64 n, parsing the rendering of n gives n. |
| `Strconv.NatDigitsOfDigitsValue` | oauth/oauth.go:51 | A canonical digit run is exactly the digits written for its own value. |
| `Strconv.FormatParseRoundTrip` | oauth/oauth.go:51 | A canonical decimal that parses renders back to itself. So the rendering is the only canonical text of each value. |
| `Http.Get` | oauth/oauth.go:43 | The first value listed for the name, or `""` when the name is missing or has no values. |
| `Http.Add` | oauth/oauth.go:88-89 | The name's list becomes its old list, or the empty list, with the value appended. Every other name keeps its values. |
| `Http.Del` | oauth/oauth.go:97-98 | The name is gone afterwards, and every other name keeps its values. |
| `Strings.IsSpace` | oauth/oauth.go:76 | The white-space set of Go's `unicode.IsSpace`, the Unicode White_Space property. Its Latin-1 part is spelled out by `IsSpaceLatin1`. |
| `Strings.IsSpaceLatin1` | oauth/oauth.go:76 | Below U+0100, white space is exactly tab, line feed, vertical tab, form feed, carriage return, space, U+0085 and U+00A0. |
| `Strings.TrimLeft` | oauth/oauth.go:76 | The result is a suffix of the input. Everything dropped is white space. The result is empty or starts with a non-space. |
| `Strings.TrimRight` | oauth/oauth.go:76 | The result is a prefix of the input. Everything dropped is white space. The result is empty or ends with a non-space. |
| `Strings.TrimSpace` | oauth/oauth.go:76 | `strings.TrimSpace`: white space cut from both ends. Its contents are pinned by `TrimSpaceIsInfix`, `TrimSpaceEnds` and `TrimSpaceEmptyIff`. |
| `Strings.TrimSpaceEmptyIff` | oauth/oauth.go:76-77 | The trimmed token is empty exactly when the parameter is missing or holds only white space. |
| `Strings.TrimSpaceIsInfix` | oauth/oauth.go:76 | The trimmed string is the stretch of the input between its leading and its trailing white space. |
| `Strings.TrimSpaceEnds` | oauth/oauth.go:76 | A non-empty trimmed string starts and ends with a character that is not white space. |
| `Oauth.TokenOf` | oauth/oauth.go:76-77 | The token taken from the query is empty exactly when the `access_token` value is missing or holds only white space. |
| `Oauth.AccessTokenPath` | oauth/oauth.go:103 | The lookup path is `/oauth/access_token/` followed by the token, unescaped, so the token can be read back from it. |
| `RestErrors.NewInternalServerError` | oauth/oauth.go:105 | The synthesized error is internal (status 500, kind `internal_server_error`) and carries the given message. Its status is never 404, so it is always returned to the caller. |
| `Oauth.UnmarshalAccessToken` | oauth/oauth.go:114-117 | Decoding succeeds exactly when the body decodes into the record with identifiers, and the user and client ids are those the body carries. |
| `Oauth.UnmarshalAccessTokenAsWritten` | oauth/oauth.go:30-34 | With the record as declared, a decoded token always has user id 0 and client id 0. Whenever the record with identifiers decodes a consistent body, the declared record decodes it too, with the same id. |
| `Oauth.ClassifyResponse` | oauth/oauth.go:104-118 | No response is an internal error. A status above 299 gives the decoded error record verbatim, or an internal error if the body does not decode. Any other status gives the decoded token, or an internal error if the body does not decode. The result is a token exactly when the reply has status ≤ 299 and the body decodes as a token. |
| `Oauth.GetAccessToken` | oauth/oauth.go:101-119 | The lookup at the token's path succeeds exactly when the service answers with status ≤ 299 and a body that decodes as a token. |
| `Oauth.Clean` | oauth/oauth.go:93-99 | Both trust headers are absent afterwards, and every other header is unchanged. |
| `Oauth.Stamp` | oauth/oauth.go:88-89 | On a map without trust headers, `X-ClientID` then holds exactly one value, the rendering of the client id, and `X-CallerID` exactly one value, the rendering of the user id. Every other header is unchanged. |
| `Oauth.Authenticate` | oauth/oauth.go:70-91 | Only the two trust headers change. The service is asked, once, exactly when the trimmed token is non-empty. If it resolves the token, there is no error and each trust header holds exactly one value, the rendering of the resolved identifier. Otherwise both trust headers are absent. An error is returned exactly when resolution failed with a status other than 404, and it is that error unchanged. |
| `Oauth.AuthenticatedIdsReadBack` | oauth/oauth.go:88-89 | After authentication, the accessors read exactly the resolved client and user ids, or 0 and 0 when nothing was resolved (no token, a 404, or any other error). |
| `Oauth.AsWrittenIdsReadZero` | oauth/oauth.go:30-34 | For every request and every service answer, the flow as written leaves both identifiers reading 0. |
| `Oauth.CorrectedIdsFromBody` | oauth/oauth.go:88-89 | With the identifiers decoded, a successful authentication leaves the identifiers reading exactly what the reply body carries. |
| `Oauth.AsWrittenResolvesWhenCorrectedDoes` | oauth/oauth.go:114-118 | For a consistent body, whenever the corrected flow resolves a token, the flow as written resolves it too, with the same id and zero identifiers. |
| `Oauth.DeclaredRecordAcceptsMore` | oauth/oauth.go:114-118 | A 200 body whose `user_id` is not a number decodes into the declared record, giving a token with zero ids. The record with identifiers rejects it, giving an internal error. |
| `Oauth.ForgedTrustHeadersIgnored` | oauth/oauth.go:75 | Two requests that differ only in `X-ClientID`/`X-CallerID` authenticate to the same outcome, so no value sent in by the caller survives or has any influence. |
| `Oauth.CleanAgrees` | oauth/oauth.go:93-99 | Cleaning two maps that agree outside the trust headers gives the same map. |
| `Oauth.AuthenticateTwice` | oauth/oauth.go:70-91 | Authenticating the authenticated request again, against the same service, gives the same outcome. |
| `Oauth.AuthenticateKeepsPublic` | oauth/oauth.go:93-99 | Authentication never changes what `X-Public` reads as, so `IsPublic` is unaffected. |
| `Oauth.UnexportedIdsLost` | oauth/oauth.go:30-34 | A request `?access_token=abc123` meets a 200 reply carrying user id 55 and client id 9. Through the whole flow, the code as written leaves the ids reading 0 and 0, and the corrected decoding leaves them reading 9 and 55. |
| `Oauth.CleanRequest` | oauth/oauth.go:93-99 | A missing request is left alone. Otherwise the request's header map afterwards is the old one without `X-ClientID` and `X-CallerID`, and the query is unchanged. |
| `Oauth.AuthenticateRequest` | oauth/oauth.go:70-91 | A missing request gives no error and no lookup. Otherwise the new header map, the returned error and the looked-up path are exactly those of `Authenticate` on the old header map, and `GetClientID`/`GetCallerID` then return the resolved identifiers, or 0. |

## Findings

| source | as written | input that shows it | evidently intended | confidence | as-written member | corrected member |
|---|---|---|---|---|---|---|
| oauth/oauth.go:32-33 | `userId` and `clientId` of `accessToken` are unexported, so `json.Unmarshal` never fills them. Every successful authentication stamps `X-ClientID: 0` and `X-CallerID: 0`. | Token service answers 200 with `{"id":"abc123","user_id":55,"client_id":9}` | The identifiers are decoded from the body (the fields carry `json` tags), so the headers read back 9 and 55 | high; not executed | `Oauth.UnmarshalAccessTokenAsWritten` (with `Oauth.AsWrittenIdsReadZero`, `Oauth.UnexportedIdsLost`) | `Oauth.UnmarshalAccessToken` (with `Oauth.CorrectedIdsFromBody`, `Oauth.AuthenticatedIdsReadBack`) |

## Left out

- The HTTP call to the token service (`oauthRestClient.Get`), its base URL, its 200 ms timeout and the shared request builder are network I/O through a library that is not part of this model. They are replaced by the `service` parameter, whose answer is an input. A timeout appears as `NoResponse`.
- JSON decoding (`json.Unmarshal`) is a foreign library. A body is represented by what it decodes to as each record. That a body accepted by the record with identifiers is also accepted by the declared record is stated as `ConsistentBody` and assumed only where a lemma says so.
- The `errors` package is not part of this model. `NewInternalServerError` is assumed to give status 500 and the error kind `"internal_server_error"`; only a status other than 404 matters to the filter. `RestErr` keeps only message, status and kind; other fields pass through untouched in the source.
- URL query parsing: the query is taken as an already parsed map, and `Get` returns its first value for `access_token`.
- MIME canonicalisation of header names in `http.Header`: the map is keyed directly by the three fixed names.
- `Strings.TrimSpace` works on characters, not on UTF-8 bytes, so the handling of invalid UTF-8 is not modelled.
- `Strconv.ParseInt` returns `None` for every failure. The kind of error (syntax or range) is not modelled, because the callers discard it.
- A nil header map: reading it and deleting from it behave as on an empty map, so every path but success runs as modelled. On the success path the source's `Header.Add` panics on a nil map, while the model stamps the headers. The model's requests always have a map. A request with a nil URL makes the source panic in every path past the nil-request check; the model's requests always have a query.
- The empty `oauthInterface` (oauth/oauth.go:36-37) declares nothing. The filter holds no shared mutable state, so there is no concurrency to model.
