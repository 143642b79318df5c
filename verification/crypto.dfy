/** The password hasher and the session-token codec, both abstract: the model
    knows them only through the properties the auth flow relies on. */
module Crypto {
  import opened Wrappers

  /** A JSON value as it can appear in a token payload. Objects and arrays are one opaque case. */
  datatype Json = JNull | JBool(b: bool) | JInt(n: int) | JStr(s: string) | JCompound

  /** A token payload: a JSON object. */
  type Payload = map<string, Json>

  /** What verifying a token yields: rejection (bad signature, malformed or expired),
      a string payload, or an object payload. */
  datatype Decoded = Rejected | TextPayload(text: string) | ObjectPayload(claims: Payload)

  /** `encodePassword(plain)` with the salt it draws made explicit, and `comparePassword(plain, digest)`. */
  datatype Hasher = Hasher(hash: (string, string) -> string, compare: (string, string) -> bool)

  /** A password always matches a digest made from it, whatever the salt. */
  ghost predicate SoundHasher(h: Hasher) {
    forall plain, salt :: h.compare(plain, h.hash(plain, salt))
  }

  /** `generateToken(payload, secret, expiresIn)` and `verifyToken(token, secret)`. */
  datatype TokenCodec = TokenCodec(sign: (Payload, string, string) -> string, verify: (string, string) -> Decoded)

  /** `d` is an object payload holding every claim of `p`, plus at most the issue and expiry times. */
  predicate Carries(d: Decoded, p: Payload) {
    && d.ObjectPayload?
    && p.Keys <= d.claims.Keys <= p.Keys + {"iat", "exp"}
    && forall k :: k in p ==> d.claims[k] == p[k]
  }

  /** A signed token is never empty, and verifying it with the same secret either rejects
      it (once expired) or gives back the signed claims. */
  ghost predicate FaithfulCodec(c: TokenCodec) {
    forall p, secret, ttl ::
      && c.sign(p, secret, ttl) != ""
      && (c.verify(c.sign(p, secret, ttl), secret).Rejected? || Carries(c.verify(c.sign(p, secret, ttl), secret), p))
  }

  /** `process.env.SECRET_KEY || 'default_secret'`: an unset or empty variable falls back to the default. */
  function SecretKey(env: Option<string>): (secret: string)
    ensures secret != ""
    ensures env.Some? && env.value != "" ==> secret == env.value
    ensures !(env.Some? && env.value != "") ==> secret == "default_secret"
  {
    if env.Some? && env.value != "" then env.value else "default_secret"
  }

  predicate IsDigit(c: char) {
    '0' <= c <= '9'
  }

  /** The value of a string of decimal digits. */
  function DecimalValue(s: string): (n: nat)
    requires forall i :: 0 <= i < |s| ==> IsDigit(s[i])
    decreases |s|
  {
    if s == [] then 0
    else
      var last := s[|s| - 1];
      assert IsDigit(last);
      10 * DecimalValue(s[..|s| - 1]) + (last as int - '0' as int)
  }

  /** JavaScript's `Number(x)`, with None for NaN. */
  function ToNumber(j: Json): (r: Option<int>)
    ensures j.JNull? ==> r == Some(0)
    ensures j.JBool? ==> r == Some(if j.b then 1 else 0)
    ensures j.JInt? ==> r == Some(j.n)
    ensures j.JStr? && (forall i :: 0 <= i < |j.s| ==> IsDigit(j.s[i])) ==> r == Some(DecimalValue(j.s))
    ensures j.JCompound? ==> r.None?
    ensures j.JStr? && j.s != "" && (exists i :: 0 <= i < |j.s| && !IsDigit(j.s[i])) ==> r.None?
  {
    match j
    case JNull => Some(0)
    case JBool(b) => Some(if b then 1 else 0)
    case JInt(n) => Some(n)
    case JStr(s) =>
      if s == "" then Some(0)
      else if forall i :: 0 <= i < |s| ==> IsDigit(s[i]) then Some(DecimalValue(s))
      else None
    case JCompound => None
  }
}
