/** The credential helpers and the request gateway of `src/lib/api.ts`:
    reading the bearer token out of `document.cookie`, writing and
    clearing it, and `apiRequest`, which sends a request to the remote API
    with layered headers and turns a non-OK status into an error. The
    network is an oracle `server` that answers each request sent. */
module Api {
  import opened Wrappers
  import opened Text
  import opened Sequences
  import opened Cookies

  const ApiBaseUrl := "http://127.0.0.1:8000/api"

  const TokenName := "access_token"
  const TokenPrefix := "access_token="

  // ---------------------------------------------------------------------
  // Reading the token

  /** A `;`-separated piece of `document.cookie` that holds the token:
      once trimmed, it starts with `access_token=`. */
  predicate IsTokenSegment(segment: string)
    ensures IsTokenSegment(segment) <==> StartsWith(TrimStart(segment, JsWhitespace), TokenPrefix)
  {
    PrefixShape();
    TrimKeepsPrefix(segment, TokenPrefix, JsWhitespace);
    StartsWith(Trim(segment, JsWhitespace), TokenPrefix)
  }

  lemma TokenSegmentHasEquals(segment: string)
    requires IsTokenSegment(segment)
    ensures '=' in segment
  {
    var t := Trim(segment, JsWhitespace);
    assert t[12] == TokenPrefix[12] == '=';
    TrimWithin(segment, JsWhitespace, '=');
  }

  /** The lookup over the `;`-separated pieces: the first token segment,
      split at `=`, gives its second piece; no token segment gives `null`. */
  function TokenOfSegments(segments: seq<string>): (r: Option<string>)
    ensures r.None? <==> forall k :: 0 <= k < |segments| ==> !IsTokenSegment(segments[k])
    ensures r.Some? ==> '=' !in r.value
    ensures r.Some? && (forall k :: 0 <= k < |segments| ==> ';' !in segments[k]) ==> ';' !in r.value
  {
    match FindIndex(segments, IsTokenSegment)
    case None => None
    case Some(i) =>
      var segment := segments[i];
      TokenSegmentHasEquals(segment);
      SplitMany(segment, '=');
      SplitPiecesFree(segment, '=', ';');
      Some(Split(segment, '=')[1])
  }

  /** `getTokenFromCookies`, given the value of `document.cookie`. */
  function GetTokenFromCookies(cookie: string): (r: Option<string>)
    ensures r.Some? ==> '=' !in r.value && ';' !in r.value
  {
    TokenOfSegments(Split(cookie, ';'))
  }

  /** Among several token segments the first wins, and its value is the
      text between its first and its second `=` (or its end). */
  lemma FirstTokenWins(segments: seq<string>, i: nat)
    requires i < |segments| && IsTokenSegment(segments[i])
    requires forall k :: 0 <= k < i ==> !IsTokenSegment(segments[k])
    ensures '=' in segments[i]
    ensures var a := IndexOf(segments[i], '=');
            var rest := segments[i][a + 1..];
            TokenOfSegments(segments) == Some(rest[..IndexOf(rest, '=')])
  {
    var segment := segments[i];
    TokenSegmentHasEquals(segment);
    var a := IndexOf(segment, '=');
    SplitStep(segment, '=');
    SplitHead(segment[a + 1..], '=');
  }

  /** An empty `document.cookie` holds no token. */
  lemma EmptyCookieHasNoToken()
    ensures GetTokenFromCookies("") == None
  {
    assert Split("", ';') == [""];
    assert !IsTokenSegment("");
  }

  // ---------------------------------------------------------------------
  // The token in the cookie jar

  /** The attributes `setTokenInCookies` writes: a day's lifetime,
      HTTPS only, same-site only. */
  const SetTokenAttributes := "; path=/" + "; max-age=86400" + "; secure" + "; samesite=strict"

  /** The attributes `removeTokenFromCookies` writes: an expiry date at
      the start of 1970. */
  const RemoveTokenAttributes := "; path=/" + "; expires=Thu, 01 Jan 1970 00:00:00 GMT"

  /** The line `setTokenInCookies(token)` assigns to `document.cookie`:
      its name-value pair is `access_token=` and the token up to its first
      `;`, since the attributes begin at a `;`. */
  function SetTokenLine(token: string): (r: string)
    ensures Split(r, ';')[0] == TokenPrefix + Split(token, ';')[0]
  {
    TokenNameIsToken();
    TokenFree(TokenName);
    PrefixShape();
    AttributesStart();
    HeadOfNamed(TokenName, token, SetTokenAttributes);
    assert TokenPrefix + token + SetTokenAttributes == TokenName + "=" + token + SetTokenAttributes;
    TokenPrefix + token + SetTokenAttributes
  }

  /** The line `removeTokenFromCookies()` assigns to `document.cookie`. */
  const RemoveTokenLine := TokenPrefix + RemoveTokenAttributes

  /** The value the jar keeps for `token`: the part before any `;`,
      stripped of spaces and tabs. */
  function StoredToken(token: string): string {
    Trim(Split(token, ';')[0], Wsp)
  }

  /** Both attribute lists start at a `;`. */
  lemma AttributesStart()
    ensures SetTokenAttributes[0] == ';' && RemoveTokenAttributes[0] == ';'
  {
  }

  /** The name `access_token` is a token. */
  lemma TokenNameIsToken()
    ensures IsToken(TokenName)
  {
    forall k | 0 <= k < |TokenName|
      ensures '!' <= TokenName[k] <= '~' && !IsSeparator(TokenName[k])
    {
      assert 'a' <= TokenName[k] <= 'z' || TokenName[k] == '_';
    }
  }

  /** The line `setTokenInCookies` writes stores the token cookie. */
  lemma SetTokenLineParses(token: string)
    ensures ParseSetCookie(SetTokenLine(token)) == Some(Cookie(TokenName, StoredToken(token)))
  {
    PrefixShape();
    TokenNameIsToken();
    AttributesStart();
    assert SetTokenLine(token) == TokenName + "=" + token + SetTokenAttributes;
    ParseNamed(TokenName, token, SetTokenAttributes);
  }

  /** The line `removeTokenFromCookies` writes names the token cookie. */
  lemma RemoveTokenLineParses()
    ensures ParseSetCookie(RemoveTokenLine) == Some(Cookie(TokenName, ""))
  {
    PrefixShape();
    TokenNameIsToken();
    AttributesStart();
    assert RemoveTokenLine == TokenName + "=" + "" + RemoveTokenAttributes;
    ParseNamed(TokenName, "", RemoveTokenAttributes);
    assert Split("", ';') == [""];
  }

  /** A segment of the jar's reading, with or without the space that
      follows a `;`, is a token segment exactly when its cookie is the
      token cookie: a token name holds neither whitespace nor `=`. */
  lemma SegmentIsToken(lead: string, c: Cookie)
    requires lead == "" || lead == " "
    requires IsToken(c.name)
    ensures IsTokenSegment(lead + Pair(c)) <==> c.name == TokenName
  {
    TokenNameStart(c.name);
    PrefixShape();
    SpaceIsWhitespace();
    TrimmedStartsWith(lead, Pair(c), TokenPrefix, JsWhitespace);
    PrefixAtSeparator(c.name, c.value, TokenName, '=');
  }

  /** A token name starts with a visible ASCII character and holds no `=`. */
  lemma TokenNameStart(name: string)
    requires IsToken(name)
    ensures name[0] !in JsWhitespace && '=' !in name
  {
    assert '!' <= name[0] <= '~';
  }

  /** The prefix the lookup looks for is the token's name and `=`. */
  lemma PrefixShape()
    ensures TokenPrefix == TokenName + ['='] && '=' !in TokenName
    ensures TokenPrefix[|TokenPrefix| - 1] !in JsWhitespace
  {
  }

  /** The space that follows each `;` of the reading is whitespace to
      `trim`. */
  lemma SpaceIsWhitespace()
    ensures " "[0] in JsWhitespace
  {
  }

  /** When exactly one segment is a token segment, the lookup reads
      that one. */
  lemma TokenOfUnique(segments: seq<string>, k: nat)
    requires k < |segments| && IsTokenSegment(segments[k])
    requires forall j :: 0 <= j < |segments| && IsTokenSegment(segments[j]) ==> j == k
    ensures |Split(segments[k], '=')| >= 2
    ensures TokenOfSegments(segments) == Some(Split(segments[k], '=')[1])
  {
    TokenSegmentHasEquals(segments[k]);
    SplitMany(segments[k], '=');
    FindUnique(segments, IsTokenSegment, k);
  }

  /** In the reading of a well-formed jar, the token cookie's segment is
      the only token segment. */
  lemma OnlyTokenSegment(cs: seq<Cookie>, k: nat)
    requires WellFormed(cs) && k < |cs| && cs[k].name == TokenName
    ensures forall j :: 0 <= j < |cs| ==> (IsTokenSegment(Segments(cs)[j]) <==> j == k)
  {
    forall j | 0 <= j < |cs|
      ensures IsTokenSegment(Segments(cs)[j]) <==> j == k
    {
      SegmentIsToken(if j == 0 then "" else " ", cs[j]);
    }
  }

  /** The text after the first `=` of the token cookie's segment, up to
      the next `=`, is its value up to its first `=`. */
  lemma TokenSegmentValue(lead: string, value: string)
    requires lead == "" || lead == " "
    ensures |Split(lead + Pair(Cookie(TokenName, value)), '=')| >= 2
    ensures Split(lead + Pair(Cookie(TokenName, value)), '=')[1] == Split(value, '=')[0]
  {
    PrefixShape();
    assert lead + Pair(Cookie(TokenName, value)) == (lead + TokenName) + ['='] + value;
    SplitAroundFree(lead + TokenName, value, '=');
  }

  /** Reading the token back from a jar that holds the token cookie gives
      the cookie's value up to its first `=`. */
  lemma TokenOfJar(cs: seq<Cookie>, k: nat)
    requires WellFormed(cs) && k < |cs| && cs[k].name == TokenName
    ensures GetTokenFromCookies(Render(cs)) == Some(Split(cs[k].value, '=')[0])
  {
    RenderSplits(cs);
    OnlyTokenSegment(cs, k);
    TokenOfUnique(Segments(cs), k);
    TokenSegmentValue(if k == 0 then "" else " ", cs[k].value);
  }

  /** A `document.cookie` that is just the token cookie reads as its value
      up to the first `=`: `access_token=a=b` reads as `a`. */
  lemma TokenCookieAlone(value: string)
    requires ';' !in value
    ensures GetTokenFromCookies(Pair(Cookie(TokenName, value))) == Some(Split(value, '=')[0])
  {
    var c := Cookie(TokenName, value);
    TokenNameIsToken();
    assert WellFormed([c]);
    TokenOfJar([c], 0);
    RenderOne(c);
  }

  /** A jar without the token cookie reads as no token. */
  lemma NoTokenOfJar(cs: seq<Cookie>)
    requires WellFormed(cs)
    requires forall k :: 0 <= k < |cs| ==> cs[k].name != TokenName
    ensures GetTokenFromCookies(Render(cs)) == None
  {
    if cs == [] {
      assert Split("", ';') == [""];
      assert !IsTokenSegment("");
    } else {
      RenderSplits(cs);
      forall j | 0 <= j < |cs|
        ensures !IsTokenSegment(Segments(cs)[j])
      {
        SegmentIsToken(if j == 0 then "" else " ", cs[j]);
      }
    }
  }

  /** Round trip: after `setTokenInCookies(token)` the lookup gives the
      stored value up to its first `=`, whatever other cookies exist. */
  lemma TokenRoundTrip(cs: seq<Cookie>, token: string)
    requires WellFormed(cs)
    ensures WellFormed(AfterWrite(cs, SetTokenLine(token), false))
    ensures GetTokenFromCookies(Render(AfterWrite(cs, SetTokenLine(token), false)))
            == Some(Split(StoredToken(token), '=')[0])
  {
    SetTokenLineParses(token);
    var c := Cookie(TokenName, StoredToken(token));
    var after := Upsert(cs, c);
    var k :| 0 <= k < |after| && after[k] == c;
    TokenOfJar(after, k);
  }

  /** For a token free of `;` and `=` and not padded with spaces or tabs
      the round trip is exact. */
  lemma PlainTokenRoundTrip(cs: seq<Cookie>, token: string)
    requires WellFormed(cs)
    requires ';' !in token && '=' !in token
    requires token == [] || (token[0] !in Wsp && token[|token| - 1] !in Wsp)
    ensures GetTokenFromCookies(Render(AfterWrite(cs, SetTokenLine(token), false))) == Some(token)
  {
    TokenRoundTrip(cs, token);
    SplitFree(token, ';');
    TrimUnchanged(token, Wsp);
    SplitFree(token, '=');
  }

  /** After `removeTokenFromCookies()` the lookup gives `null`. */
  lemma TokenRemoved(cs: seq<Cookie>)
    requires WellFormed(cs)
    ensures WellFormed(AfterWrite(cs, RemoveTokenLine, true))
    ensures GetTokenFromCookies(Render(AfterWrite(cs, RemoveTokenLine, true))) == None
  {
    RemoveTokenLineParses();
    var after := Without(cs, TokenName);
    assert forall k :: 0 <= k < |after| ==> after[k] in after;
    NoTokenOfJar(after);
  }

  /** Removing the token twice is removing it once. */
  lemma RemoveTokenIdempotent(cs: seq<Cookie>)
    ensures AfterWrite(AfterWrite(cs, RemoveTokenLine, true), RemoveTokenLine, true)
            == AfterWrite(cs, RemoveTokenLine, true)
  {
    RemoveTokenLineParses();
    WithoutIdempotent(cs, TokenName);
  }

  /** Writing or clearing the token leaves every other cookie as it was. */
  lemma TokenWritesKeepOtherCookies(cs: seq<Cookie>, token: string)
    requires WellFormed(cs)
    ensures Without(AfterWrite(cs, SetTokenLine(token), false), TokenName) == Without(cs, TokenName)
    ensures Without(AfterWrite(cs, RemoveTokenLine, true), TokenName) == Without(cs, TokenName)
  {
    SetTokenLineParses(token);
    UpsertKeepsOthers(cs, Cookie(TokenName, StoredToken(token)));
    RemoveTokenLineParses();
    WithoutIdempotent(cs, TokenName);
  }

  /** Signing in and then out leaves exactly the other cookies, in their
      order, whether or not a token was there before. */
  lemma SignOutAfterSignIn(cs: seq<Cookie>, token: string)
    requires WellFormed(cs)
    ensures AfterWrite(AfterWrite(cs, SetTokenLine(token), false), RemoveTokenLine, true) == Without(cs, TokenName)
  {
    SetTokenLineParses(token);
    RemoveTokenLineParses();
    UpsertKeepsOthers(cs, Cookie(TokenName, StoredToken(token)));
  }

  /** `setTokenInCookies`. */
  method SetTokenInCookies(jar: CookieJar, token: string)
    requires jar.Valid()
    modifies jar
    ensures jar.Valid()
    ensures jar.cookies == AfterWrite(old(jar.cookies), SetTokenLine(token), false)
    ensures GetTokenFromCookies(jar.Document()) == Some(Split(StoredToken(token), '=')[0])
  {
    TokenRoundTrip(jar.cookies, token);
    jar.Write(SetTokenLine(token), false);
  }

  /** `removeTokenFromCookies`; the expiry date in 1970 is in the past. */
  method RemoveTokenFromCookies(jar: CookieJar)
    requires jar.Valid()
    modifies jar
    ensures jar.Valid()
    ensures jar.cookies == AfterWrite(old(jar.cookies), RemoveTokenLine, true)
    ensures GetTokenFromCookies(jar.Document()) == None
  {
    TokenRemoved(jar.cookies);
    jar.Write(RemoveTokenLine, true);
  }

  // ---------------------------------------------------------------------
  // Requests

  /** A request body: the JSON text of an object, or a `FormData`, both by
      their fields in insertion order. */
  datatype Body = Json(fields: seq<(string, string)>) | Form(fields: seq<(string, string)>)

  /** The `RequestInit` handed to `fetch` (`verb` is its `method`); `None`
      is an absent property. */
  datatype RequestInit = RequestInit(verb: Option<string>, headers: map<string, string>, body: Option<Body>)

  datatype HttpRequest = HttpRequest(url: string, init: RequestInit)

  /** What the network answers: `fetch` rejects, or a response arrives
      with its status and the outcome of `response.json()`. */
  datatype Reply<+P> = NetworkFailure(error: Error) | Response(status: nat, json: Result<P>)

  /** A remote call: the request sent and how the returned promise
      settles. */
  datatype Exchange<+P> = Exchange(sent: HttpRequest, result: Result<P>)

  /** `response.ok` per the Fetch standard: a status of the 2xx class. */
  predicate IsOkStatus(status: nat)
    ensures IsOkStatus(status) <==> status / 100 == 2
  {
    200 <= status <= 299
  }

  /** A token is attached when it is truthy: of the values of
      `string | null`, only `null` and the empty string are falsy. */
  predicate Truthy(token: Option<string>)
    ensures Truthy(token) <==> token != None && token != Some("")
  {
    token.Some? && token.value != ""
  }

  /** The headers of `apiRequest`: the JSON content type, then the bearer
      token when truthy, then the caller's headers, each layer overriding
      the one before. */
  function RequestHeaders(token: Option<string>, callerHeaders: map<string, string>): (h: map<string, string>)
    ensures h.Keys == callerHeaders.Keys + {"Content-Type"} + (if Truthy(token) then {"Authorization"} else {})
    ensures forall k :: k in callerHeaders ==> h[k] == callerHeaders[k]
    ensures "Content-Type" in h
    ensures "Content-Type" !in callerHeaders ==> h["Content-Type"] == "application/json"
    ensures "Authorization" !in callerHeaders ==>
              ("Authorization" in h <==> Truthy(token))
              && (Truthy(token) ==> h["Authorization"] == "Bearer " + token.value)
  {
    var defaults := map["Content-Type" := "application/json"];
    var withToken := if Truthy(token) then defaults["Authorization" := "Bearer " + token.value] else defaults;
    withToken + callerHeaders
  }

  /** Once `setTokenInCookies(token)` has run with a plain, non-empty
      token, every request the caller does not give its own
      `Authorization` carries `Bearer <token>`. */
  lemma BearerAfterTokenWrite(cs: seq<Cookie>, token: string, callerHeaders: map<string, string>)
    requires WellFormed(cs)
    requires token != [] && ';' !in token && '=' !in token
    requires token[0] !in Wsp && token[|token| - 1] !in Wsp
    requires "Authorization" !in callerHeaders
    ensures var h := RequestHeaders(GetTokenFromCookies(Render(AfterWrite(cs, SetTokenLine(token), false))), callerHeaders);
            "Authorization" in h && h["Authorization"] == "Bearer " + token
  {
    PlainTokenRoundTrip(cs, token);
  }

  /** Once `removeTokenFromCookies()` has run, no request carries a bearer
      token unless its caller adds one. */
  lemma NoBearerAfterRemove(cs: seq<Cookie>, callerHeaders: map<string, string>)
    requires WellFormed(cs)
    requires "Authorization" !in callerHeaders
    ensures "Authorization" !in RequestHeaders(GetTokenFromCookies(Render(AfterWrite(cs, RemoveTokenLine, true))), callerHeaders)
  {
    TokenRemoved(cs);
  }

  const ApiErrorPrefix := "API Error: "

  /** The error a non-OK status raises: the prefix, then the status in
      plain decimal (at least one digit, no leading zero), which reads back
      as the status. */
  function ApiError(status: nat): (e: Error)
    ensures StartsWith(e.message, ApiErrorPrefix)
    ensures |e.message| > |ApiErrorPrefix|
    ensures forall k :: |ApiErrorPrefix| <= k < |e.message| ==> IsDigit(e.message[k])
    ensures |e.message| > |ApiErrorPrefix| + 1 ==> e.message[|ApiErrorPrefix|] != '0'
    ensures DecimalValue(e.message[|ApiErrorPrefix|..]) == status
  {
    DecimalRoundTrip(status);
    assert (ApiErrorPrefix + Decimal(status))[|ApiErrorPrefix|..] == Decimal(status);
    Error(ApiErrorPrefix + Decimal(status))
  }

  /** Distinct statuses raise distinct errors: the message names the
      status. */
  lemma ApiErrorNamesStatus(s1: nat, s2: nat)
    requires s1 != s2
    ensures ApiError(s1) != ApiError(s2)
  {
    var p := |ApiErrorPrefix|;
    assert ApiError(s1).message[p..] != ApiError(s2).message[p..];
  }

  /** How `apiRequest`'s promise settles on a reply: a rejected `fetch`
      propagates, a non-OK status raises `API Error: <status>` whatever
      the body, and an OK status gives the parsed body. */
  function Settle<P>(reply: Reply<P>): (r: Result<P>)
    ensures reply.NetworkFailure? ==> r == Err(reply.error)
    ensures reply.Response? && !IsOkStatus(reply.status) ==> r == Err(ApiError(reply.status))
    ensures reply.Response? && IsOkStatus(reply.status) ==> r == reply.json
  {
    match reply
    case NetworkFailure(e) => Err(e)
    case Response(status, json) => if IsOkStatus(status) then json else Err(ApiError(status))
  }

  /** `apiRequest(endpoint, options)` with `cookie` the value of
      `document.cookie` at the time of the call. */
  function ApiRequest<P>(endpoint: string, options: RequestInit, cookie: string,
                         server: HttpRequest -> Reply<P>): (r: Exchange<P>)
    ensures r.sent.url == ApiBaseUrl + endpoint
    ensures r.sent.init.verb == options.verb && r.sent.init.body == options.body
    ensures r.sent.init.headers == RequestHeaders(GetTokenFromCookies(cookie), options.headers)
    ensures r.result == Settle(server(r.sent))
  {
    var init := RequestInit(options.verb, RequestHeaders(GetTokenFromCookies(cookie), options.headers), options.body);
    var sent := HttpRequest(ApiBaseUrl + endpoint, init);
    Exchange(sent, Settle(server(sent)))
  }
}

/** The request shapes of `authAPI`. */
module AuthApi {
  import opened Wrappers
  import opened Api

  datatype LoginCredentials = LoginCredentials(username: string, password: string)

  datatype SignupCredentials = SignupCredentials(email: string, password: string)

  datatype LoginResponse = LoginResponse(message: string, accessToken: string, userId: string,
                                         email: string, fullName: string, avatarUrl: Option<string>)

  datatype SignupResponse = SignupResponse(id: string, email: string, role: string, isActive: bool)

  /** The request `authAPI.login` sends: a bare `fetch`, with no headers
      of its own and so no bearer token. */
  function LoginRequest(credentials: LoginCredentials): (r: HttpRequest)
    ensures r.url == ApiBaseUrl + "/auth/token" && r.init.verb == Some("POST")
    ensures "Authorization" !in r.init.headers && "Content-Type" !in r.init.headers
    ensures r.init.body.Some? && r.init.body.value.Form?
    ensures r.init.body.value.fields == [("username", credentials.username), ("password", credentials.password)]
  {
    var form := Form([("username", credentials.username), ("password", credentials.password)]);
    HttpRequest(ApiBaseUrl + "/auth/token", RequestInit(Some("POST"), map[], Some(form)))
  }

  /** `authAPI.login`: posts the form fields `username` and `password`, in
      that order; a non-OK status raises `Login failed`. */
  function Login(credentials: LoginCredentials, server: HttpRequest -> Reply<LoginResponse>): (r: Exchange<LoginResponse>)
    ensures r.sent.url == ApiBaseUrl + "/auth/token"
    ensures r.sent.init.verb == Some("POST") && "Authorization" !in r.sent.init.headers
    ensures r.sent.init.body == Some(Form([("username", credentials.username), ("password", credentials.password)]))
    ensures server(r.sent).NetworkFailure? ==> r.result == Err(server(r.sent).error)
    ensures server(r.sent).Response? && !IsOkStatus(server(r.sent).status) ==> r.result == Err(Error("Login failed"))
    ensures server(r.sent).Response? && IsOkStatus(server(r.sent).status) ==> r.result == server(r.sent).json
  {
    var sent := LoginRequest(credentials);
    var result := match server(sent)
      case NetworkFailure(e) => Err(e)
      case Response(status, json) => if IsOkStatus(status) then json else Err(Error("Login failed"));
    Exchange(sent, result)
  }

  /** `authAPI.signup`: posts the JSON object `{email, password}` through
      `apiRequest`. */
  function Signup(credentials: SignupCredentials, cookie: string,
                  server: HttpRequest -> Reply<SignupResponse>): (r: Exchange<SignupResponse>)
    ensures r.sent.url == ApiBaseUrl + "/auth/auth/signup"
    ensures r.sent.init.verb == Some("POST")
    ensures r.sent.init.body == Some(Json([("email", credentials.email), ("password", credentials.password)]))
    ensures "Content-Type" in r.sent.init.headers && r.sent.init.headers["Content-Type"] == "application/json"
    ensures "Authorization" in r.sent.init.headers <==> Truthy(GetTokenFromCookies(cookie))
    ensures Truthy(GetTokenFromCookies(cookie)) ==>
              r.sent.init.headers["Authorization"] == "Bearer " + GetTokenFromCookies(cookie).value
    ensures r.sent.init.headers == RequestHeaders(GetTokenFromCookies(cookie), map[])
    ensures r.result == Settle(server(r.sent))
  {
    var body := Json([("email", credentials.email), ("password", credentials.password)]);
    ApiRequest("/auth/auth/signup", RequestInit(Some("POST"), map[], Some(body)), cookie, server)
  }

  /** `authAPI.logout`: a bodiless POST through `apiRequest`, so the
      current token goes with it. */
  function Logout<P>(cookie: string, server: HttpRequest -> Reply<P>): (r: Exchange<P>)
    ensures r.sent.url == ApiBaseUrl + "/auth/logout"
    ensures r.sent.init.verb == Some("POST") && r.sent.init.body == None
    ensures r.sent.init.headers == RequestHeaders(GetTokenFromCookies(cookie), map[])
    ensures "Authorization" in r.sent.init.headers <==> Truthy(GetTokenFromCookies(cookie))
    ensures Truthy(GetTokenFromCookies(cookie)) ==>
              r.sent.init.headers["Authorization"] == "Bearer " + GetTokenFromCookies(cookie).value
    ensures r.result == Settle(server(r.sent))
  {
    ApiRequest("/auth/logout", RequestInit(Some("POST"), map[], None), cookie, server)
  }

  /** `authAPI.forgotPassword`: posts the JSON object `{email}`. */
  function ForgotPassword<P>(email: string, cookie: string, server: HttpRequest -> Reply<P>): (r: Exchange<P>)
    ensures r.sent.url == ApiBaseUrl + "/auth/forgot-password"
    ensures r.sent.init.verb == Some("POST")
    ensures r.sent.init.body == Some(Json([("email", email)]))
    ensures r.sent.init.headers == RequestHeaders(GetTokenFromCookies(cookie), map[])
    ensures "Content-Type" in r.sent.init.headers && r.sent.init.headers["Content-Type"] == "application/json"
    ensures r.result == Settle(server(r.sent))
  {
    ApiRequest("/auth/forgot-password", RequestInit(Some("POST"), map[], Some(Json([("email", email)]))), cookie, server)
  }

  /** `authAPI.resetPassword`: posts the JSON keys `email`, `pin` and
      `new_password`, in that order. */
  function ResetPassword<P>(email: string, pin: string, newPassword: string, cookie: string,
                            server: HttpRequest -> Reply<P>): (r: Exchange<P>)
    ensures r.sent.url == ApiBaseUrl + "/auth/reset-password"
    ensures r.sent.init.verb == Some("POST")
    ensures r.sent.init.body == Some(Json([("email", email), ("pin", pin), ("new_password", newPassword)]))
    ensures r.sent.init.headers == RequestHeaders(GetTokenFromCookies(cookie), map[])
    ensures "Content-Type" in r.sent.init.headers && r.sent.init.headers["Content-Type"] == "application/json"
    ensures r.result == Settle(server(r.sent))
  {
    var body := Json([("email", email), ("pin", pin), ("new_password", newPassword)]);
    ApiRequest("/auth/reset-password", RequestInit(Some("POST"), map[], Some(body)), cookie, server)
  }
}
