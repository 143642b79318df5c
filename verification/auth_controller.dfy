/** The `/auth` HTTP handlers: payload normalisation, the session cookie, and `me`. */
module AuthController {
  import opened Wrappers
  import opened Crypto
  import opened AuthService

  // ---------------------------------------------------------------------------
  // Cookies
  // ---------------------------------------------------------------------------

  /** The name of the session cookie. */
  const TokenCookie := "token"

  /** The session cookie's lifetime in milliseconds. */
  const CookieMaxAgeMs := 3600000

  /** An instruction to the client about one cookie. */
  datatype CookieOp = SetCookie(name: string, value: string, maxAgeMs: int) | ClearCookie(name: string)

  /** The client's cookies, by name. */
  type Jar = map<string, string>

  /** The client's cookies after it follows `op`. */
  function Apply(jar: Jar, op: CookieOp): (after: Jar)
    ensures op.SetCookie? ==> op.name in after && after[op.name] == op.value
    ensures op.ClearCookie? ==> op.name !in after
    ensures forall n :: n in jar && n != op.name ==> n in after && after[n] == jar[n]
    ensures forall n :: n in after && n != op.name ==> n in jar
  {
    match op
    case SetCookie(name, value, _) => jar[name := value]
    case ClearCookie(name) => jar - {name}
  }

  /** The number of seconds a duration of the form `<digits><unit>` stands for, unit one of s, m, h, d. */
  function DurationSeconds(d: string): Option<int> {
    if |d| < 2 || !(forall i :: 0 <= i < |d| - 1 ==> IsDigit(d[i])) then None
    else
      var n := DecimalValue(d[..|d| - 1]);
      match d[|d| - 1]
      case 's' => Some(n)
      case 'm' => Some(60 * n)
      case 'h' => Some(3600 * n)
      case 'd' => Some(86400 * n)
      case _ => None
  }

  // ---------------------------------------------------------------------------
  // signup
  // ---------------------------------------------------------------------------

  /** The signup request body; the client may send the display name as `fullName` or `name`. */
  datatype SignupBody = SignupBody(fullName: Option<string>, name: Option<string>, email: string, password: string)

  /** `body.fullName ?? body.name ?? ''`: only an absent value falls through, an empty one is kept. */
  function DisplayName(body: SignupBody): (r: string)
    ensures body.fullName.Some? ==> r == body.fullName.value
    ensures body.fullName.None? && body.name.Some? ==> r == body.name.value
    ensures body.fullName.None? && body.name.None? ==> r == ""
  {
    match body.fullName
    case Some(n) => n
    case None =>
      match body.name
      case Some(n) => n
      case None => ""
  }

  /** `POST /auth/signup`. */
  function Signup(users: Users, hasher: Hasher, salt: string, newId: int, body: SignupBody): (r: SignedUp)
    requires newId !in users
    ensures r.user == PublicUser(newId, DisplayName(body), body.email)
    ensures newId in r.users && r.users[newId] == User(newId, DisplayName(body), body.email, hasher.hash(body.password, salt))
    ensures forall k :: k in users ==> k in r.users && r.users[k] == users[k]
  {
    AuthService.Signup(users, hasher, salt, newId, SignupData(DisplayName(body), body.email, body.password))
  }

  // ---------------------------------------------------------------------------
  // login, logout, me
  // ---------------------------------------------------------------------------

  /** The login response: the body `{ user }` and the cookie instruction that carries the token. */
  datatype LoginResponse = LoginResponse(user: PublicUser, cookie: CookieOp)

  /** `POST /auth/login`. */
  function Login(users: Users, hasher: Hasher, codec: TokenCodec, secretEnv: Option<string>,
                 email: string, password: string): (r: Result<LoginResponse, string>)
    requires UsersWellFormed(users)
    ensures r.Success? <==> AuthService.Login(users, hasher, codec, secretEnv, email, password).Success?
    ensures r.Failure? ==> r.error == InvalidCredentials
    ensures r.Success? ==>
              var ok := AuthService.Login(users, hasher, codec, secretEnv, email, password).value;
              r.value.user == ok.user && r.value.cookie == SetCookie(TokenCookie, ok.token, CookieMaxAgeMs)
  {
    match AuthService.Login(users, hasher, codec, secretEnv, email, password)
    case Failure(e) => Failure(e)
    case Success(ok) => Success(LoginResponse(ok.user, SetCookie(TokenCookie, ok.token, CookieMaxAgeMs)))
  }

  /** The session cookie lives exactly as long as the token it carries. */
  lemma CookieLifetimeMatchesToken()
    ensures DurationSeconds(TokenLifetime) == Some(3600)
    ensures CookieMaxAgeMs == 1000 * DurationSeconds(TokenLifetime).value
  {
    assert TokenLifetime[..1] == "1";
    assert DecimalValue("1") == 10 * DecimalValue("") + 1;
  }

  /** The logout response: the body `{ ok: true }` and the instruction to drop the session cookie. */
  datatype LogoutResponse = LogoutResponse(ok: bool, cookie: CookieOp)

  /** `POST /auth/logout`. */
  function Logout(): (r: LogoutResponse)
    ensures r.ok
    ensures r.cookie.ClearCookie? && r.cookie.name == TokenCookie
  {
    LogoutResponse(true, ClearCookie(TokenCookie))
  }

  /** `GET /auth/me`: the body's `user`, read from the session cookie. */
  function Me(jar: Jar, users: Users, codec: TokenCodec, secretEnv: Option<string>): (r: Option<PublicUser>)
    ensures TokenCookie !in jar ==> r.None?
    ensures TokenCookie in jar ==> r == GetUserFromToken(users, codec, secretEnv, jar[TokenCookie])
  {
    if TokenCookie !in jar || jar[TokenCookie] == "" then None
    else GetUserFromToken(users, codec, secretEnv, jar[TokenCookie])
  }

  /** After logout, `me` reports no user, whatever cookies the client held. */
  lemma LogoutEndsSession(jar: Jar, users: Users, codec: TokenCodec, secretEnv: Option<string>)
    ensures Me(Apply(jar, Logout().cookie), users, codec, secretEnv).None?
  {
  }

  /** A client that stores the login cookie is recognised by `me` as the user login returned, as long
      as that user's row is still in the table `me` reads, unless the codec rejects the token. */
  lemma LoginThenMe(jar: Jar, users: Users, later: Users, hasher: Hasher, codec: TokenCodec,
                    secretEnv: Option<string>, email: string, password: string)
    requires FaithfulCodec(codec)
    requires UsersWellFormed(users)
    requires Login(users, hasher, codec, secretEnv, email, password).Success?
    requires var u := FindByEmail(users, email).value; u.id in later && later[u.id] == u
    ensures var resp := Login(users, hasher, codec, secretEnv, email, password).value;
            var seen := Me(Apply(jar, resp.cookie), later, codec, secretEnv);
            && (seen.Some? ==> seen.value == resp.user)
            && (seen.None? ==> codec.verify(resp.cookie.value, SecretKey(secretEnv)).Rejected?)
  {
  }
}
