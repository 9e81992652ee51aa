/**
 * The inbound authentication filter. It reads whether a request is public,
 * reads the caller identity that an earlier authentication stamped on the
 * request, and authenticates a request: it strips the two trust headers
 * the caller may have forged, takes the bearer token from the
 * `access_token` query parameter (the URI-query form of section 2.3 of
 * RFC 6750), resolves it with one call to the token service and stamps the
 * resolved identity back on the request as decimal header values.
 *
 * The call to the token service is the parameter `service`, which gives
 * the response for a request path. JSON decoding of the success body is
 * the parameter `unmarshal`: `UnmarshalAccessTokenAsWritten` decodes into
 * the token record as it is declared, `UnmarshalAccessToken` into the
 * record with its identifier fields filled.
 */
module Oauth {
  import opened Wrappers
  import opened Strconv
  import opened Strings
  import opened Http
  import opened RestErrors

  const HeaderXPublic: string := "X-Public"
  const HeaderXClientID: string := "X-ClientID"
  const HeaderXCallerID: string := "X-CallerID"
  const ParamAccessToken: string := "access_token"

  const AccessTokenPrefix: string := "/oauth/access_token/"
  const MsgInvalidResponse: string := "invalid restclient response when trying to get access token"
  const MsgInvalidPayload: string := "invalid error interface when trying to unmarshal error msg"

  /** The token record: an id and the user and client identifiers. */
  datatype AccessToken = AccessToken(id: string, userId: Int64, clientId: Int64)

  /** What decoding a body as JSON into a given record yields. */
  datatype Decoded<T> = Decoded(value: T) | DecodeFailed

  /**
   * A reply body, as what JSON decoding makes of it for each record it may
   * be decoded into: the error record; the token record with its
   * identifier fields filled from "user_id" and "client_id"; and the token
   * record as declared, whose only filled field is the id, since the
   * decoder ignores keys that match only unexported fields.
   */
  datatype Body = Body(asError: Decoded<RestErr>, asToken: Decoded<AccessToken>, asDeclaredToken: Decoded<string>)

  /**
   * A body that decodes into the token record with identifiers also
   * decodes into the declared record, with the same id: the declared
   * record reads the same "id" key and ignores two more keys.
   */
  predicate ConsistentBody(b: Body) {
    b.asToken.Decoded? ==> b.asDeclaredToken == Decoded(b.asToken.value.id)
  }

  /** What the token service call yields: no response at all, or a status code and a body. */
  datatype Response = NoResponse | Reply(statusCode: int, body: Body)

  /** The header map, the error returned and the service path looked up by one authentication. */
  datatype Outcome = Outcome(header: Header, err: Option<RestErr>, lookup: Option<string>)

  predicate TrustHeadersAbsent(h: Header) {
    HeaderXClientID !in h && HeaderXCallerID !in h
  }

  // ---------------------------------------------------------------------
  // Read-only accessors

  /** A missing request counts as public; otherwise the first X-Public value must be exactly "true". */
  function IsPublic(request: Request?): (public: bool)
    reads request
    ensures request == null ==> public
    ensures request != null ==>
      (public <==> HeaderXPublic in request.header && request.header[HeaderXPublic] != []
                   && request.header[HeaderXPublic][0] == "true")
  {
    request == null || Get(request.header, HeaderXPublic) == "true"
  }

  /** The first value of a header parsed as a 64-bit decimal, or 0 when it is missing or does not parse. */
  function IdFromHeader(h: Header, name: string): (id: Int64)
    ensures ParseInt(Get(h, name)) == Some(id) || (ParseInt(Get(h, name)) == None && id == 0)
  {
    match ParseInt(Get(h, name))
    case Some(v) => v
    case None => 0
  }

  /** The X-ClientID header as a 64-bit decimal; 0 for a missing request, a missing header or a value that does not parse. */
  function GetClientID(request: Request?): (id: Int64)
    reads request
    ensures request == null ==> id == 0
    ensures request != null ==>
              ParseInt(Get(request.header, HeaderXClientID)) == Some(id) ||
              (ParseInt(Get(request.header, HeaderXClientID)) == None && id == 0)
  {
    if request == null then 0 else IdFromHeader(request.header, HeaderXClientID)
  }

  /** The X-CallerID header as a 64-bit decimal; 0 for a missing request, a missing header or a value that does not parse. */
  function GetCallerID(request: Request?): (id: Int64)
    reads request
    ensures request == null ==> id == 0
    ensures request != null ==>
              ParseInt(Get(request.header, HeaderXCallerID)) == Some(id) ||
              (ParseInt(Get(request.header, HeaderXCallerID)) == None && id == 0)
  {
    if request == null then 0 else IdFromHeader(request.header, HeaderXCallerID)
  }

  /** A missing header, or one whose first value is empty, reads as 0. */
  lemma IdAbsentIsZero(h: Header, name: string)
    requires name !in h || h[name] == [] || h[name][0] == ""
    ensures IdFromHeader(h, name) == 0
  {
  }

  /** A value holding a character that is neither a digit nor a leading sign reads as 0. */
  lemma IdMalformedIsZero(h: Header, name: string, i: nat)
    requires i < |Get(h, name)| && !IsDigit(Get(h, name)[i])
    requires !(i == 0 && IsSign(Get(h, name)[0]))
    ensures IdFromHeader(h, name) == 0
  {
    ParseRejectsNonDigit(Get(h, name), i);
  }

  /** A well-formed decimal outside [-2^63, 2^63-1] reads as 0. */
  lemma IdOutOfRangeIsZero(h: Header, name: string, sign: string, digits: string)
    requires Get(h, name) == sign + digits
    requires sign == "" || sign == "+" || sign == "-"
    requires |digits| >= 1 && AllDigits(digits)
    requires var v: int := if sign == "-" then -(DigitsValue(digits) as int) else DigitsValue(digits);
             v < MinInt64 || MaxInt64 < v
    ensures IdFromHeader(h, name) == 0
  {
    ParseRejectsOutOfRange(sign, digits);
  }

  /** A header whose first value is the rendering of n reads back as exactly n. */
  lemma IdReadsBackRendering(h: Header, name: string, n: Int64)
    requires Get(h, name) == FormatInt(n)
    ensures IdFromHeader(h, name) == n
  {
    ParseFormatRoundTrip(n);
  }

  // ---------------------------------------------------------------------
  // Resolving a token

  /**
   * The service path a token is looked up at. The token is inserted as it
   * is, without escaping, and can be read back from the path.
   */
  function AccessTokenPath(token: string): (path: string)
    ensures |path| == |AccessTokenPrefix| + |token|
    ensures path[..|AccessTokenPrefix|] == AccessTokenPrefix && path[|AccessTokenPrefix|..] == token
  {
    AccessTokenPrefix + token
  }

  /** Decoding the body into the token record with its identifier fields filled from the body. */
  function UnmarshalAccessToken(b: Body): (r: Decoded<AccessToken>)
    ensures r.Decoded? <==> b.asToken.Decoded?
    ensures r.Decoded? ==> r.value.userId == b.asToken.value.userId && r.value.clientId == b.asToken.value.clientId
  {
    b.asToken
  }

  /**
   * Decoding the body into the token record as it is declared: its two
   * identifier fields are unexported, so the decoder never fills them and
   * they keep their zero value. It accepts every body the filled record
   * accepts, with the same id.
   */
  function UnmarshalAccessTokenAsWritten(b: Body): (r: Decoded<AccessToken>)
    ensures r.Decoded? ==> r.value.userId == 0 && r.value.clientId == 0
    ensures ConsistentBody(b) && UnmarshalAccessToken(b).Decoded? ==>
              r == Decoded(AccessToken(UnmarshalAccessToken(b).value.id, 0, 0))
  {
    match b.asDeclaredToken
    case Decoded(id) => Decoded(AccessToken(id, 0, 0))
    case DecodeFailed => DecodeFailed
  }

  /**
   * How a token service response is sorted: no response, an undecodable
   * error body and an undecodable token body are internal errors; an error
   * status with a decodable body gives that error unchanged; a success
   * status with a decodable body gives the token.
   */
  function ClassifyResponse(resp: Response, unmarshal: Body -> Decoded<AccessToken>): (r: Result<AccessToken, RestErr>)
    ensures r.Success? <==> resp.Reply? && resp.statusCode <= 299 && unmarshal(resp.body).Decoded?
    ensures r.Success? ==> r.value == unmarshal(resp.body).value
    ensures resp.Reply? && resp.statusCode > 299 && resp.body.asError.Decoded? ==> r == Failure(resp.body.asError.value)
    ensures resp.NoResponse? ==> r == Failure(NewInternalServerError(MsgInvalidResponse))
    ensures resp.Reply? && (if resp.statusCode > 299 then resp.body.asError.DecodeFailed? else unmarshal(resp.body).DecodeFailed?) ==>
              r == Failure(NewInternalServerError(MsgInvalidPayload))
  {
    match resp
    case NoResponse => Failure(NewInternalServerError(MsgInvalidResponse))
    case Reply(code, body) =>
      if code > 299 then
        match body.asError
        case Decoded(e) => Failure(e)
        case DecodeFailed => Failure(NewInternalServerError(MsgInvalidPayload))
      else
        match unmarshal(body)
        case Decoded(at) => Success(at)
        case DecodeFailed => Failure(NewInternalServerError(MsgInvalidPayload))
  }

  /** One lookup of a token at the service, at the token's path, sorted into a token or an error. */
  function GetAccessToken(token: string, service: string -> Response, unmarshal: Body -> Decoded<AccessToken>): (r: Result<AccessToken, RestErr>)
    ensures var resp := service(AccessTokenPath(token));
            r.Success? <==> resp.Reply? && resp.statusCode <= 299 && unmarshal(resp.body).Decoded?
  {
    ClassifyResponse(service(AccessTokenPath(token)), unmarshal)
  }

  // ---------------------------------------------------------------------
  // Authenticating a request

  /** The bearer token: the access_token query value with surrounding white space removed. */
  function TokenOf(query: Header): (token: string)
    ensures token == "" <==> AllSpace(Get(query, ParamAccessToken))
  {
    TrimSpaceEmptyIff(Get(query, ParamAccessToken));
    TrimSpace(Get(query, ParamAccessToken))
  }

  /** The identity an authentication resolves, if any: a non-empty token that the service resolves. */
  function Resolved(query: Header, service: string -> Response, unmarshal: Body -> Decoded<AccessToken>): Option<AccessToken> {
    if TokenOf(query) == "" then None
    else match GetAccessToken(TokenOf(query), service, unmarshal)
      case Success(at) => Some(at)
      case Failure(_) => None
  }

  /** Only X-ClientID and X-CallerID may differ between the two header maps. */
  ghost predicate SameOtherHeaders(a: Header, b: Header) {
    forall k :: k != HeaderXClientID && k != HeaderXCallerID ==>
      (k in a <==> k in b) && (k in a ==> a[k] == b[k])
  }

  /** The two trust headers removed, everything else kept. */
  function Clean(h: Header): (r: Header)
    ensures TrustHeadersAbsent(r) && SameOtherHeaders(r, h)
  {
    Del(Del(h, HeaderXClientID), HeaderXCallerID)
  }

  /** The resolved identifiers appended, client first, as decimal text, to a map without trust headers. */
  function Stamp(h: Header, at: AccessToken): (r: Header)
    requires TrustHeadersAbsent(h)
    ensures HeaderXClientID in r && r[HeaderXClientID] == [FormatInt(at.clientId)]
    ensures HeaderXCallerID in r && r[HeaderXCallerID] == [FormatInt(at.userId)]
    ensures SameOtherHeaders(r, h)
  {
    assert HeaderXClientID[3] != HeaderXCallerID[3];
    Add(Add(h, HeaderXClientID, FormatInt(at.clientId)), HeaderXCallerID, FormatInt(at.userId))
  }

  /**
   * One authentication of a request with header map h and query map query.
   * Only the two trust headers change. They end up either absent, or each
   * holding exactly one value: the rendering of the identity this call
   * resolved. The service is asked exactly when the trimmed token is not
   * empty. A failed resolution is returned unless its status is 404.
   */
  function Authenticate(h: Header, query: Header, service: string -> Response, unmarshal: Body -> Decoded<AccessToken>): (o: Outcome)
    ensures SameOtherHeaders(o.header, h)
    ensures o.lookup == (if TokenOf(query) == "" then None else Some(AccessTokenPath(TokenOf(query))))
    ensures Resolved(query, service, unmarshal).Some? ==>
              o.err.None? && HeaderXClientID in o.header && HeaderXCallerID in o.header &&
              o.header[HeaderXClientID] == [FormatInt(Resolved(query, service, unmarshal).value.clientId)] &&
              o.header[HeaderXCallerID] == [FormatInt(Resolved(query, service, unmarshal).value.userId)]
    ensures Resolved(query, service, unmarshal).None? ==> TrustHeadersAbsent(o.header)
    ensures o.err.Some? <==>
              TokenOf(query) != "" && GetAccessToken(TokenOf(query), service, unmarshal).Failure? &&
              GetAccessToken(TokenOf(query), service, unmarshal).error.status != StatusNotFound
    ensures o.err.Some? ==> o.err.value == GetAccessToken(TokenOf(query), service, unmarshal).error
  {
    var cleaned := Clean(h);
    var token := TokenOf(query);
    if token == "" then Outcome(cleaned, None, None)
    else
      var lookup := Some(AccessTokenPath(token));
      var res := GetAccessToken(token, service, unmarshal);
      if res.Failure? then
        assert Resolved(query, service, unmarshal) == None;
        Outcome(cleaned, if res.error.status == StatusNotFound then None else Some(res.error), lookup)
      else
        assert Resolved(query, service, unmarshal) == Some(res.value);
        Outcome(Stamp(cleaned, res.value), None, lookup)
  }

  /** After an authentication the accessors read exactly the resolved identifiers, or 0 when nothing was resolved. */
  lemma AuthenticatedIdsReadBack(h: Header, query: Header, service: string -> Response, unmarshal: Body -> Decoded<AccessToken>)
    ensures var o := Authenticate(h, query, service, unmarshal);
            var id := Resolved(query, service, unmarshal);
            IdFromHeader(o.header, HeaderXClientID) == (if id.Some? then id.value.clientId else 0) &&
            IdFromHeader(o.header, HeaderXCallerID) == (if id.Some? then id.value.userId else 0)
  {
    var o := Authenticate(h, query, service, unmarshal);
    match Resolved(query, service, unmarshal)
    case Some(at) =>
      IdReadsBackRendering(o.header, HeaderXClientID, at.clientId);
      IdReadsBackRendering(o.header, HeaderXCallerID, at.userId);
    case None =>
      IdAbsentIsZero(o.header, HeaderXClientID);
      IdAbsentIsZero(o.header, HeaderXCallerID);
  }

  /**
   * With the token record as declared, every authentication, whatever the
   * request and the service's answer, leaves both identifiers reading 0.
   */
  lemma AsWrittenIdsReadZero(h: Header, query: Header, service: string -> Response)
    ensures var o := Authenticate(h, query, service, UnmarshalAccessTokenAsWritten);
            IdFromHeader(o.header, HeaderXClientID) == 0 && IdFromHeader(o.header, HeaderXCallerID) == 0
  {
    AuthenticatedIdsReadBack(h, query, service, UnmarshalAccessTokenAsWritten);
  }

  /**
   * With the identifier fields filled, a successful authentication leaves
   * the identifiers reading exactly what the service's reply body carries.
   */
  lemma CorrectedIdsFromBody(h: Header, query: Header, service: string -> Response)
    requires Resolved(query, service, UnmarshalAccessToken).Some?
    ensures var o := Authenticate(h, query, service, UnmarshalAccessToken);
            var body := service(AccessTokenPath(TokenOf(query))).body;
            body.asToken.Decoded? &&
            IdFromHeader(o.header, HeaderXClientID) == body.asToken.value.clientId &&
            IdFromHeader(o.header, HeaderXCallerID) == body.asToken.value.userId
  {
    AuthenticatedIdsReadBack(h, query, service, UnmarshalAccessToken);
  }

  /**
   * Whenever the filled record resolves the token, the declared record
   * resolves it too, with the same id and zero identifiers, provided the
   * service's body decodes consistently into both.
   */
  lemma AsWrittenResolvesWhenCorrectedDoes(query: Header, service: string -> Response)
    requires var resp := service(AccessTokenPath(TokenOf(query))); resp.Reply? ==> ConsistentBody(resp.body)
    requires Resolved(query, service, UnmarshalAccessToken).Some?
    ensures Resolved(query, service, UnmarshalAccessTokenAsWritten) ==
              Some(AccessToken(Resolved(query, service, UnmarshalAccessToken).value.id, 0, 0))
  {
    var resp := service(AccessTokenPath(TokenOf(query)));
    assert UnmarshalAccessToken(resp.body).Decoded?;
  }

  /**
   * Whatever trust headers the caller sent make no difference: two requests
   * that differ only in X-ClientID and X-CallerID authenticate identically.
   */
  lemma ForgedTrustHeadersIgnored(h1: Header, h2: Header, query: Header, service: string -> Response, unmarshal: Body -> Decoded<AccessToken>)
    requires SameOtherHeaders(h1, h2)
    ensures Authenticate(h1, query, service, unmarshal) == Authenticate(h2, query, service, unmarshal)
  {
    CleanAgrees(h1, h2);
  }

  lemma CleanAgrees(h1: Header, h2: Header)
    requires SameOtherHeaders(h1, h2)
    ensures Clean(h1) == Clean(h2)
  {
    var c1, c2 := Clean(h1), Clean(h2);
    assert c1.Keys == c2.Keys;
    forall k | k in c1 ensures c1[k] == c2[k] {
      assert c1[k] == h1[k] == h2[k];
    }
  }

  /** Authenticating a request a second time, against the same service, gives the same outcome. */
  lemma AuthenticateTwice(h: Header, query: Header, service: string -> Response, unmarshal: Body -> Decoded<AccessToken>)
    ensures var o := Authenticate(h, query, service, unmarshal);
            Authenticate(o.header, query, service, unmarshal) == o
  {
    var o := Authenticate(h, query, service, unmarshal);
    ForgedTrustHeadersIgnored(o.header, h, query, service, unmarshal);
  }

  /** X-Public, and so IsPublic, is never changed by authentication. */
  lemma AuthenticateKeepsPublic(h: Header, query: Header, service: string -> Response, unmarshal: Body -> Decoded<AccessToken>)
    ensures Get(Authenticate(h, query, service, unmarshal).header, HeaderXPublic) == Get(h, HeaderXPublic)
  {
    assert HeaderXPublic[2] != HeaderXClientID[2];
    assert HeaderXPublic[2] != HeaderXCallerID[2];
  }

  /**
   * A request with ?access_token=abc123 against a service that answers 200
   * with {"id":"abc123","user_id":55,"client_id":9}: with the record as
   * declared the accessors read 0 and 0; with the identifiers filled they
   * read 9 and 55.
   */
  lemma UnexportedIdsLost(h: Header)
    ensures var query: Header := map[ParamAccessToken := ["abc123"]];
            var service := (path: string) =>
              Reply(200, Body(DecodeFailed, Decoded(AccessToken("abc123", 55, 9)), Decoded("abc123")));
            var asWritten := Authenticate(h, query, service, UnmarshalAccessTokenAsWritten);
            var fixed := Authenticate(h, query, service, UnmarshalAccessToken);
            asWritten.err.None? && fixed.err.None? &&
            IdFromHeader(asWritten.header, HeaderXClientID) == 0 &&
            IdFromHeader(asWritten.header, HeaderXCallerID) == 0 &&
            IdFromHeader(fixed.header, HeaderXClientID) == 9 &&
            IdFromHeader(fixed.header, HeaderXCallerID) == 55
  {
    var query: Header := map[ParamAccessToken := ["abc123"]];
    var service := (path: string) =>
      Reply(200, Body(DecodeFailed, Decoded(AccessToken("abc123", 55, 9)), Decoded("abc123")));
    assert TokenOf(query) == "abc123" by {
      assert Get(query, ParamAccessToken) == "abc123";
      assert TrimLeft("abc123") == "abc123";
      assert TrimRight("abc123") == "abc123";
    }
    assert Resolved(query, service, UnmarshalAccessTokenAsWritten) == Some(AccessToken("abc123", 0, 0));
    assert Resolved(query, service, UnmarshalAccessToken) == Some(AccessToken("abc123", 55, 9));
    AuthenticatedIdsReadBack(h, query, service, UnmarshalAccessTokenAsWritten);
    AuthenticatedIdsReadBack(h, query, service, UnmarshalAccessToken);
  }

  /**
   * A 200 reply {"id":"abc123","user_id":"55","client_id":9}, whose user_id
   * is not a number: the declared record ignores the key, so the lookup
   * succeeds with identifiers 0; the filled record fails to decode it, so
   * the lookup is an internal error.
   */
  lemma DeclaredRecordAcceptsMore()
    ensures var resp := Reply(200, Body(DecodeFailed, DecodeFailed, Decoded("abc123")));
            ConsistentBody(resp.body) &&
            ClassifyResponse(resp, UnmarshalAccessTokenAsWritten) == Success(AccessToken("abc123", 0, 0)) &&
            ClassifyResponse(resp, UnmarshalAccessToken) == Failure(NewInternalServerError(MsgInvalidPayload))
  {
  }

  // ---------------------------------------------------------------------
  // The request, changed in place

  /** Removes both trust headers from the request; a missing request is left alone. */
  method CleanRequest(request: Request?)
    modifies request
    ensures request != null ==> request.header == old(request.header) - {HeaderXClientID, HeaderXCallerID}
    ensures request != null ==> request.query == old(request.query)
  {
    if request == null {
      return;
    }
    request.header := Del(request.header, HeaderXClientID);
    request.header := Del(request.header, HeaderXCallerID);
  }

  /**
   * Authenticates a request in place and returns the error, if any, and the
   * service path looked up, if any. A missing request is nothing to
   * authenticate. Afterwards the accessors read the resolved identity, or 0.
   */
  method AuthenticateRequest(request: Request?, service: string -> Response, unmarshal: Body -> Decoded<AccessToken>)
    returns (err: Option<RestErr>, lookup: Option<string>)
    modifies request
    ensures request == null ==> err.None? && lookup.None?
    ensures request != null ==> request.query == old(request.query)
    ensures request != null ==>
              Outcome(request.header, err, lookup) == Authenticate(old(request.header), request.query, service, unmarshal)
    ensures request != null ==>
              var id := Resolved(request.query, service, unmarshal);
              GetClientID(request) == (if id.Some? then id.value.clientId else 0) &&
              GetCallerID(request) == (if id.Some? then id.value.userId else 0)
  {
    if request == null {
      return None, None;
    }
    ghost var h := request.header;
    CleanRequest(request);
    assert request.header == Clean(h);
    var accessToken := TrimSpace(Get(request.query, ParamAccessToken));
    if accessToken == "" {
      err, lookup := None, None;
    } else {
      lookup := Some(AccessTokenPath(accessToken));
      var at := GetAccessToken(accessToken, service, unmarshal);
      if at.Failure? {
        err := if at.error.status == StatusNotFound then None else Some(at.error);
      } else {
        request.header := Add(request.header, HeaderXClientID, FormatInt(at.value.clientId));
        request.header := Add(request.header, HeaderXCallerID, FormatInt(at.value.userId));
        err := None;
      }
    }
    assert Outcome(request.header, err, lookup) == Authenticate(h, request.query, service, unmarshal);
    AuthenticatedIdsReadBack(h, request.query, service, unmarshal);
  }
}
