/** The values the account handlers work on: request-body fields, the stored user
    record with its password digest, the login token and its cookie, and the replies
    a handler can end in. */
module Accounts {

  datatype Option<+T> = None | Some(value: T)

  /** Identifier of a stored user (the document's `_id`).  Identifiers are issued in
      increasing order, so the smallest one is the oldest document. */
  type Id = nat

  /** One field of a JSON request body: absent (`undefined` or `null`) or a string. */
  type Field = Option<string>

  /** JavaScript truthiness of a request field: `!f` is false exactly when the field
      is present and is not the empty string. */
  predicate Filled(f: Field)
  {
    f.Some? && f.value != ""
  }

  /** `String.prototype.length`: the number of UTF-16 code units, so a character
      outside the Basic Multilingual Plane counts twice. */
  function JsLength(s: string): (n: nat)
    ensures |s| <= n <= 2 * |s|
    ensures n == 0 <==> s == []
  {
    if s == [] then 0
    else (if s[0] as int > 0xFFFF then 2 else 1) + JsLength(s[1..])
  }

  /** For text made of Basic Multilingual Plane characters only (all of ASCII, say)
      the JavaScript length is the number of characters. */
  lemma {:induction false} JsLengthOfBmp(s: string)
    requires forall i :: 0 <= i < |s| ==> s[i] as int <= 0xFFFF
    ensures JsLength(s) == |s|
  {
    if s != [] {
      assert forall i :: 0 <= i < |s[1..]| ==> s[1..][i] == s[i + 1];
      JsLengthOfBmp(s[1..]);
    }
  }

  /** A bcrypt digest, kept symbolic: `Hash(p)` is the digest of the plaintext `p`.
      Different plaintexts have different digests, and since a digest is not a
      string, a stored password can never be the plaintext itself. */
  datatype Digest = Hash(preimage: string)

  /** `bcrypt.compare(candidate, digest)`: true exactly when `digest` is the digest
      of `candidate`. */
  predicate Compare(candidate: string, digest: Digest)
  {
    digest == Hash(candidate)
  }

  /** A digest accepts the password it was made from and no other. */
  lemma CompareAcceptsOnlyItsPassword(p: string, q: string)
    ensures Compare(p, Hash(q)) <==> p == q
  {
  }

  /** A stored user document (`name`, `email`, hashed `password`); its `_id` is the
      key it is stored under. */
  datatype User = User(name: string, email: string, password: Digest)

  /** `expiresIn: "30d"`, in seconds. */
  const TokenLifetime: nat := 30 * 24 * 60 * 60

  /** The cookie's `maxAge`, in milliseconds. */
  const CookieMaxAge: nat := 30 * 24 * 60 * 60 * 1000

  /** The claims of a signed token: the user's id, name and email, the time of
      issue and the expiry, both in seconds.  The signature is not modelled. */
  datatype Token = Token(id: Id, name: string, email: string, iat: nat, exp: nat)

  /** `generateToken(user)` signed at clock time `now` (seconds). */
  function GenerateToken(id: Id, u: User, now: nat): (t: Token)
    ensures t.id == id && t.name == u.name && t.email == u.email
    ensures t.iat == now && t.exp == now + 2592000
  {
    Token(id, u.name, u.email, now, now + TokenLifetime)
  }

  /** The cookie that carries a token: named `token`, http-only, 30 days. */
  datatype Cookie = Cookie(name: string, token: Token, httpOnly: bool, maxAge: nat)

  function TokenCookie(t: Token): (c: Cookie)
    ensures c.name == "token" && c.token == t && c.httpOnly
    ensures c.maxAge == 2592000000
  {
    Cookie("token", t, true, CookieMaxAge)
  }

  /** The cookie and the token it carries run out at the same moment. */
  lemma CookieExpiresWithToken(id: Id, u: User, now: nat)
    ensures var t := GenerateToken(id, u, now);
            TokenCookie(t).maxAge == (t.exp - t.iat) * 1000
  {
  }

  /** An exception a handler raises and never catches. */
  datatype JsError = TypeError | ReferenceError

  /** How a handler ends. */
  datatype Reply =
      /** `res.status(status).json({ message })` */
    | Message(status: int, message: string)
      /** `res.status(status).json({ message, user })`, `user` being the document with `_id` `id` */
    | WithUser(status: int, message: string, id: Id, user: User)
      /** `res.cookie(...)` and nothing else: the cookie is attached to a response
          that is never ended, so no status, cookie or body reaches the client */
    | CookieOnly(cookie: Cookie)
      /** the handler's promise is rejected; what the framework then does is not modelled */
    | Throws(error: JsError)

  const FillAllFields := "Please fill all fields"
  const UserExists := "User already exists"
  const PasswordTooShort := "Password must be at least 6 characters"
  const UserRegistered := "User registered successfully"
  const InvalidCredentials := "Invalid credentials"
  const UserNotFound := "User does not exist"
  const UserUpdated := "User updated successfully"
  const UserDeleted := "User deleted successfully"
}
