/** The session held by `AuthProvider` in `src/contexts/AuthContext.tsx`:
    two state cells, `user` and `isLoading`, beside the cookie jar, and
    the transitions that change them. Each asynchronous transition is
    modelled as one step that runs to completion; the remote API is the
    oracle `server`. */
module AuthContext {
  import opened Wrappers
  import opened Text
  import opened Cookies
  import opened Api
  import AuthApi

  datatype User = User(id: string, email: string, fullName: string, avatarUrl: Option<string>)

  /** The record the mount check assumes for a session it finds in the
      cookie, before any validation against the backend. */
  const Placeholder := User("temp-id", "temp@email.com", "Temp User", None)

  /** The user a successful login reports. */
  function UserOf(response: AuthApi.LoginResponse): (u: User)
    ensures u.id == response.userId && u.email == response.email
    ensures u.fullName == response.fullName && u.avatarUrl == response.avatarUrl
  {
    User(response.userId, response.email, response.fullName, response.avatarUrl)
  }

  /** What the provider hands to its consumers (its callbacks are the
      methods of `AuthProvider`). */
  datatype ContextValue = ContextValue(user: Option<User>, isAuthenticated: bool, isLoading: bool)

  /** How a promise returned by `login` or `signup` settles. */
  datatype Completion = Resolved | Rejected(error: Error)

  const OutsideProvider := Error("useAuth must be used within an AuthProvider")

  /** `useAuth`: the context value, or an error when no provider encloses
      the caller. */
  function UseAuth(context: Option<ContextValue>): (r: Result<ContextValue>)
    ensures context.None? <==> r == Err(OutsideProvider)
    ensures context.Some? ==> r == Ok(context.value)
  {
    match context
    case None => Err(OutsideProvider)
    case Some(value) => Ok(value)
  }

  class AuthProvider {
    var user: Option<User>
    var isLoading: bool
    const jar: CookieJar

    ghost predicate Valid()
      reads this, jar
    {
      jar.Valid()
    }

    /** The first render: no user, still loading. */
    constructor (jar: CookieJar)
      requires jar.Valid()
      ensures Valid() && this.jar == jar
      ensures user == None && isLoading
    {
      this.jar := jar;
      user := None;
      isLoading := true;
    }

    /** The value the provider renders; `isAuthenticated` is `!!user`. */
    function Value(): (v: ContextValue)
      reads this
      ensures v.isAuthenticated <==> v.user.Some?
      ensures v.user == user && v.isLoading == isLoading
    {
      ContextValue(user, user.Some?, isLoading)
    }

    /** The mount effect: a truthy token in the cookie is taken as a
        session of the placeholder user; loading ends either way. */
    method MountCheck()
      requires Valid()
      modifies this
      ensures Valid() && !isLoading
      ensures Truthy(GetTokenFromCookies(jar.Document())) ==> user == Some(Placeholder)
      ensures !Truthy(GetTokenFromCookies(jar.Document())) ==> user == old(user)
    {
      var token := GetTokenFromCookies(jar.Document());
      if Truthy(token) {
        user := Some(Placeholder);
      }
      isLoading := false;
    }

    /** `login`: on success the token goes into the cookie first and the
        reported user into `user`; on failure the error is rethrown and
        nothing changes. */
    method Login(credentials: AuthApi.LoginCredentials,
                 server: HttpRequest -> Reply<AuthApi.LoginResponse>) returns (outcome: Completion)
      requires Valid()
      modifies this, jar
      ensures Valid() && isLoading == old(isLoading)
      ensures AuthApi.Login(credentials, server).result.Err? ==>
                outcome == Rejected(AuthApi.Login(credentials, server).result.error)
                && user == old(user) && jar.cookies == old(jar.cookies)
      ensures AuthApi.Login(credentials, server).result.Ok? ==>
                var response := AuthApi.Login(credentials, server).result.value;
                outcome == Resolved && user == Some(UserOf(response))
                && jar.cookies == AfterWrite(old(jar.cookies), SetTokenLine(response.accessToken), false)
                && GetTokenFromCookies(jar.Document()) == Some(Split(StoredToken(response.accessToken), '=')[0])
    {
      var exchange := AuthApi.Login(credentials, server);
      match exchange.result {
        case Err(e) =>
          outcome := Rejected(e);
        case Ok(response) =>
          StartSession(response);
          outcome := Resolved;
      }
    }

    /** What a successful `login` does with the response: the token into
        the cookie, then the reported user into `user`. */
    method StartSession(response: AuthApi.LoginResponse)
      requires Valid()
      modifies this, jar
      ensures Valid() && isLoading == old(isLoading) && user == Some(UserOf(response))
      ensures jar.cookies == AfterWrite(old(jar.cookies), SetTokenLine(response.accessToken), false)
      ensures GetTokenFromCookies(jar.Document()) == Some(Split(StoredToken(response.accessToken), '=')[0])
    {
      SetTokenInCookies(jar, response.accessToken);
      user := Some(UserOf(response));
    }

    /** `signup`: the account is created remotely; the session is left as
        it was and a failure is rethrown. */
    method Signup(credentials: AuthApi.SignupCredentials,
                  server: HttpRequest -> Reply<AuthApi.SignupResponse>) returns (outcome: Completion)
      requires Valid()
      ensures AuthApi.Signup(credentials, jar.Document(), server).result.Ok? ==> outcome == Resolved
      ensures AuthApi.Signup(credentials, jar.Document(), server).result.Err? ==>
                outcome == Rejected(AuthApi.Signup(credentials, jar.Document(), server).result.error)
    {
      var exchange := AuthApi.Signup(credentials, jar.Document(), server);
      match exchange.result {
        case Ok(_) => outcome := Resolved;
        case Err(e) => outcome := Rejected(e);
      }
    }

    /** `logout`: the remote call goes out with the current token; whatever
        it answers, the token is removed and the user cleared, and the
        returned promise always resolves. A second logout changes nothing
        more. */
    method Logout<P>(server: HttpRequest -> Reply<P>) returns (sent: HttpRequest)
      requires Valid()
      modifies this, jar
      ensures Valid() && user == None && isLoading == old(isLoading)
      ensures sent == AuthApi.Logout(old(jar.Document()), server).sent
      ensures jar.cookies == AfterWrite(old(jar.cookies), RemoveTokenLine, true)
      ensures GetTokenFromCookies(jar.Document()) == None && !Value().isAuthenticated
      ensures AfterWrite(jar.cookies, RemoveTokenLine, true) == jar.cookies
    {
      var exchange := AuthApi.Logout(jar.Document(), server);
      sent := exchange.sent;
      EndSession();
    }

    /** What `logout` does whatever the remote call answered: the token
        out of the cookie, then `user` cleared. */
    method EndSession()
      requires Valid()
      modifies this, jar
      ensures Valid() && user == None && isLoading == old(isLoading)
      ensures jar.cookies == AfterWrite(old(jar.cookies), RemoveTokenLine, true)
      ensures GetTokenFromCookies(jar.Document()) == None
      ensures AfterWrite(jar.cookies, RemoveTokenLine, true) == jar.cookies
    {
      RemoveTokenIdempotent(jar.cookies);
      RemoveTokenFromCookies(jar);
      user := None;
    }
  }

  /** Mounting a fresh provider: afterwards it has stopped loading, and it
      holds the placeholder user exactly when the cookie held a truthy
      token. */
  method Mount(jar: CookieJar) returns (provider: AuthProvider)
    requires jar.Valid()
    ensures provider.Valid() && provider.jar == jar && !provider.isLoading
    ensures provider.user == (if Truthy(GetTokenFromCookies(jar.Document())) then Some(Placeholder) else None)
  {
    provider := new AuthProvider(jar);
    provider.MountCheck();
  }
}
