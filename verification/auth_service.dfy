/** The authentication service: signup, login and restoring a session from a token. */
module AuthService {
  import opened Wrappers
  import opened Lookup
  import opened Crypto

  /** A row of the users table; `password` holds the password digest. */
  datatype User = User(id: int, name: string, email: string, password: string)

  /** The users table, keyed by primary key. */
  type Users = map<int, User>

  predicate UsersWellFormed(users: Users) {
    forall k :: k in users ==> users[k].id == k
  }

  /** The view of a user the service hands out: it has no password field. */
  datatype PublicUser = PublicUser(id: int, fullName: string, email: string)

  function PublicView(u: User): PublicUser {
    PublicUser(u.id, u.name, u.email)
  }

  // ---------------------------------------------------------------------------
  // signup
  // ---------------------------------------------------------------------------

  datatype SignupData = SignupData(fullName: string, email: string, password: string)

  /** The users table after a signup, and the public user the call returns. */
  datatype SignedUp = SignedUp(users: Users, user: PublicUser)

  /** `signup(data)`; `salt` is the salt the hasher draws and `newId` the id the database assigns. */
  function Signup(users: Users, hasher: Hasher, salt: string, newId: int, data: SignupData): (r: SignedUp)
    requires newId !in users
    ensures r.users.Keys == users.Keys + {newId}
    ensures forall k :: k in users ==> r.users[k] == users[k]
    ensures r.users[newId].password == hasher.hash(data.password, salt)
    ensures r.users[newId].name == data.fullName && r.users[newId].email == data.email
    ensures r.user == PublicUser(newId, data.fullName, data.email)
    ensures UsersWellFormed(users) ==> UsersWellFormed(r.users)
  {
    var row := User(newId, data.fullName, data.email, hasher.hash(data.password, salt));
    SignedUp(users[newId := row], PublicView(row))
  }

  // ---------------------------------------------------------------------------
  // login
  // ---------------------------------------------------------------------------

  const InvalidCredentials := "Invalid credentials"

  /** The lifetime requested for session tokens. */
  const TokenLifetime := "1h"

  /** The user whose email is `email`; among several, the one with the least id. */
  function FindByEmail(users: Users, email: string): (r: Option<User>)
    requires UsersWellFormed(users)
    ensures r.None? <==> forall k :: k in users ==> users[k].email != email
    ensures r.Some? ==> r.value.id in users && users[r.value.id] == r.value && r.value.email == email
  {
    match FirstMatch(users, (u: User) => u.email == email)
    case None => None
    case Some(k) => Some(users[k])
  }

  /** The claims a session token carries: the user's id and email, nothing else. */
  function Claims(u: User): (p: Payload)
    ensures p.Keys == {"id", "email"}
    ensures p["id"] == JInt(u.id) && p["email"] == JStr(u.email)
  {
    map["id" := JInt(u.id), "email" := JStr(u.email)]
  }

  datatype LoggedIn = LoggedIn(token: string, user: PublicUser)

  /** `login(email, password)`; `secretEnv` is the `SECRET_KEY` environment variable. */
  function Login(users: Users, hasher: Hasher, codec: TokenCodec, secretEnv: Option<string>,
                 email: string, password: string): (r: Result<LoggedIn, string>)
    requires UsersWellFormed(users)
    ensures r.Failure? ==> r.error == InvalidCredentials
    ensures r.Success? <==>
              FindByEmail(users, email).Some? && hasher.compare(password, FindByEmail(users, email).value.password)
    ensures r.Success? ==> r.value.user == PublicView(FindByEmail(users, email).value)
    ensures r.Success? ==>
              r.value.token == codec.sign(Claims(FindByEmail(users, email).value), SecretKey(secretEnv), TokenLifetime)
  {
    match FindByEmail(users, email)
    case None => Failure(InvalidCredentials)
    case Some(u) =>
      if !hasher.compare(password, u.password) then Failure(InvalidCredentials)
      else
        var token := codec.sign(Claims(u), SecretKey(secretEnv), TokenLifetime);
        Success(LoggedIn(token, PublicView(u)))
  }

  /** An unknown email and a wrong password are answered by the very same failure value. */
  lemma LoginFailuresIdentical(users: Users, hasher: Hasher, codec: TokenCodec, secretEnv: Option<string>,
                              unknown: string, known: string, wrong: string)
    requires UsersWellFormed(users)
    requires forall k :: k in users ==> users[k].email != unknown
    requires FindByEmail(users, known).Some? && !hasher.compare(wrong, FindByEmail(users, known).value.password)
    ensures Login(users, hasher, codec, secretEnv, unknown, wrong) == Failure(InvalidCredentials)
    ensures Login(users, hasher, codec, secretEnv, known, wrong) == Login(users, hasher, codec, secretEnv, unknown, wrong)
  {
  }

  /** With a sound hasher, a new user can log in with the password they signed up with, when no
      earlier account has their email, and receives the user signup returned. */
  lemma SignupThenLogin(users: Users, hasher: Hasher, salt: string, newId: int, data: SignupData,
                        codec: TokenCodec, secretEnv: Option<string>)
    requires SoundHasher(hasher)
    requires UsersWellFormed(users) && newId !in users
    requires forall k :: k in users ==> users[k].email != data.email
    ensures var s := Signup(users, hasher, salt, newId, data);
            Login(s.users, hasher, codec, secretEnv, data.email, data.password).Success? &&
            Login(s.users, hasher, codec, secretEnv, data.email, data.password).value.user == s.user
  {
  }

  // ---------------------------------------------------------------------------
  // getUserFromToken
  // ---------------------------------------------------------------------------

  /** The user id a verified token names, if it names one. */
  function TokenUserId(d: Decoded): Option<int> {
    if d.ObjectPayload? && "id" in d.claims then ToNumber(d.claims["id"]) else None
  }

  /** `getUserFromToken(token)`: the public view of the user the token names, or None on every bad path. */
  function GetUserFromToken(users: Users, codec: TokenCodec, secretEnv: Option<string>, token: string): (r: Option<PublicUser>)
    ensures token == "" ==> r.None?
    ensures codec.verify(token, SecretKey(secretEnv)).Rejected? ==> r.None?
    ensures codec.verify(token, SecretKey(secretEnv)).TextPayload? ==> r.None?
    ensures TokenUserId(codec.verify(token, SecretKey(secretEnv))).None? ==> r.None?
    ensures r.Some? <==> token != "" && TokenUserId(codec.verify(token, SecretKey(secretEnv))).Some?
                         && TokenUserId(codec.verify(token, SecretKey(secretEnv))).value in users
    ensures r.Some? ==> r.value == PublicView(users[TokenUserId(codec.verify(token, SecretKey(secretEnv))).value])
  {
    if token == "" then None
    else
      var decoded := codec.verify(token, SecretKey(secretEnv));
      if !decoded.ObjectPayload? || "id" !in decoded.claims then None
      else
        match ToNumber(decoded.claims["id"])
        case None => None
        case Some(userId) => if userId in users then Some(PublicView(users[userId])) else None
  }

  /** Restoring the session from a token that login issued gives the user login returned, as long
      as that user's row is still in the table restore reads (other rows may have come and gone);
      the only way it gives nothing is that the codec rejects the token (for instance once expired). */
  lemma SessionRestoresLoginUser(users: Users, later: Users, hasher: Hasher, codec: TokenCodec,
                                 secretEnv: Option<string>, email: string, password: string)
    requires FaithfulCodec(codec)
    requires UsersWellFormed(users)
    requires Login(users, hasher, codec, secretEnv, email, password).Success?
    requires var u := FindByEmail(users, email).value; u.id in later && later[u.id] == u
    ensures var ok := Login(users, hasher, codec, secretEnv, email, password).value;
            var restored := GetUserFromToken(later, codec, secretEnv, ok.token);
            && (restored.None? ==> codec.verify(ok.token, SecretKey(secretEnv)).Rejected?)
            && (restored.Some? ==> restored.value == ok.user)
  {
  }
}
