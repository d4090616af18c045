# Account-lifecycle controller, modelled in Dafny

This project models the request handlers of a small user-account service:
`register`, `login`, `update` and `terminate`, and the broken `find`, all in
`controller/controller.js`. The handlers act on a collection of user documents.
`register`, `login` and `update` check their request fields in a fixed order;
`terminate` checks no fields, only that the caller's document exists. A handler
then reads or writes the collection and usually answers with a status and a JSON
message. In three outcomes the handler itself sends no answer: a successful login attaches a
token cookie to a response it never ends, a login with an unknown email throws,
and `find` always throws.

Files:

- `accounts.dfy` (module `Accounts`) holds the values. It has request fields
  (absent or a string), JavaScript string length in UTF-16 code units, the
  password digest, the stored user document, the token with its cookie, the
  reply kinds and the reply messages.
- `handlers.dfy` (module `Handlers`) holds each handler as a function. Each maps
  the collection (`Store`: documents by `_id`, plus the next `_id` to issue) to a
  new collection and a reply. Its `ensures` state the handler's promises.
- `controller.dfy` (module `Controller`) holds the class `UserController`. Its
  fields are the collection map and the id counter. Its methods change the
  collection in place. Each method is proved to be exactly its `Handlers`
  function.
- `lifecycle.dfy` (module `Lifecycle`) holds lemmas that chain handlers:
  register then login, register twice, update then login, terminate then
  anything, and a concrete worked example.

Abstractions:

- **Password hashing (bcrypt).** A digest is the symbolic term `Hash(p)`.
  `Compare(p, h)` holds exactly when `h == Hash(p)`. A stored password has type
  `Digest`, so it can never be the plaintext. Salt and cost factor are not
  modelled.
- **Tokens (jsonwebtoken).** A token is the record of its claims: id, name,
  email, issue time and expiry. The expiry is the issue time plus 30 days, in
  seconds. The signing clock is the parameter `now` of `Login`. Signatures and
  secrets are not modelled.
- **Authenticated caller.** `update`, `terminate` and `find` sit behind the
  token middleware (`routes/router.js:102`, `:136`, `:149`). They take the
  caller's id `req.user.id` as a parameter. `middleware/jwt` is not part of this
  model.
- **Document ids.** `_id`s are taken to be issued by a counter in increasing
  order, and `findOne({ email })` is taken to return the matching document with
  the smallest id, the oldest one. MongoDB does not promise that natural order
  is insertion order, and with an index on `email` it follows the index.
- **Request fields.** A field is `None` (absent) or `Some(string)`. `!field`
  is true when the field is absent or the empty string.

Behaviour of the code a caller may not expect:

- `register` checks for a duplicate email before it checks password length.
  So a duplicate email with a short password gets "User already exists". Both
  checks answer 400.
- `login` on an unknown email throws. It reads `.length` of the `null` that
  `findOne` returns, so the handler's promise is rejected with a `TypeError`.
  On a known email, `.length` of a document is `undefined`, so the "User does not
  exist" branch (`controller/controller.js:58-59`) can never fire, and the model
  leaves it out. A successful login calls `res.cookie`, which only adds a
  `Set-Cookie` header to the response, and then returns without ending the
  response. So the client receives nothing: no status, no cookie and no body,
  and the request stays open. `CookieOnly` is that cookie, attached to a
  response that is never sent. The cookie would be http-only with `maxAge`
  2592000000 ms and no same-site attribute.
- `find` always throws a `ReferenceError`: it answers with a name it never
  bound.
- `update` does not re-check email uniqueness. Taking the document schema to
  declare no unique index on `email`, `Lifecycle.UpdateCanDuplicateEmail` shows
  two documents ending up with the same email. So the one-account-per-email
  invariant holds only for `register` and `terminate`, which preserve it.
- Replies include the stored digest: `register` and `update` answer with the whole
  document.

## Model

| member | source | states |
|---|---|---|
| `Accounts.JsLength` | controller/controller.js:30 | the JavaScript length of a string lies between its character count and twice that, and is 0 only for the empty string |
| `Accounts.JsLengthOfBmp` | controller/controller.js:30 | for text of Basic Multilingual Plane characters (ASCII included) the length compared with 6 is the number of characters |
| `Accounts.CompareAcceptsOnlyItsPassword` | controller/controller.js:62-63 | a stored digest is accepted for the password it was made from and for no other |
| `Accounts.GenerateToken` | controller/controller.js:6-16 | the token carries the user's id, name and email and expires 30 days (2592000 s) after it is issued |
| `Accounts.TokenCookie` | controller/controller.js:70-73 | the cookie is named `token`, is http-only, carries the token and has `maxAge` 2592000000 ms |
| `Accounts.CookieExpiresWithToken` | controller/controller.js:70-73 | the cookie's lifetime in ms is the token's lifetime in seconds times 1000 |
| `Handlers.FirstByEmail` | controller/controller.js:57 | the scan returns a document with the email and no earlier document has it; it returns nothing only when no document below the bound has it |
| `Handlers.FindOne` | controller/controller.js:57 | `findOne` finds a document exactly when some stored document has the email, and it finds the oldest such document |
| `Handlers.Register` | controller/controller.js:18-47 | succeeds (201) exactly when all fields are filled, the email is unused and the password has at least 6 code units; otherwise answers 400 and leaves the collection unchanged; reports missing fields first, then a duplicate email, then a short password; on success adds exactly one document under a new id holding name, email and `Hash(password)`, keeps every other document, and keeps emails unique if they were |
| `Handlers.Login` | controller/controller.js:49-74 | never changes the collection; missing fields answer 400; an unknown email throws a `TypeError`; the token cookie is attached (to a response that is never sent) exactly when the password matches the digest of the first document with the email, and its token claims that document's id, name and email; otherwise answers 400 "Invalid credentials" and issues no token |
| `Handlers.Find` | controller/controller.js:76-82 | always throws a `ReferenceError` and changes nothing |
| `Handlers.Update` | controller/controller.js:84-114 | succeeds (200) exactly when all fields are filled and the caller's document exists; missing fields are reported before a missing document; on failure answers 400 and changes nothing; on success replaces the caller's document by (name, email, `Hash(password)`), returns that new document, keeps the id set and every other document |
| `Handlers.Terminate` | controller/controller.js:116-127 | succeeds (200 "User deleted successfully") exactly when the caller's document exists; otherwise answers 400 "User does not exist" and changes nothing; on success removes exactly the caller's id, keeps every other document and keeps emails unique if they were |
| `Lifecycle.RegisterThenLogin` | controller/controller.js:36-74 | after a successful registration, logging in with the same email and password attaches a cookie whose token names the new document |
| `Lifecycle.RegisterTwiceRejected` | controller/controller.js:26-28 | registering an email that was just registered answers "User already exists" and stores nothing, for any non-empty name and password |
| `Lifecycle.RegisterPasswordBoundary` | controller/controller.js:30-33 | with a free email, a password of 5 code units is refused and one of 6 is accepted |
| `Lifecycle.UpdateThenLogin` | controller/controller.js:98-107 | after an update, a login with the new email and password passes every check and attaches a cookie whose token carries the new name and email, and any other password is refused, provided no other document carries the new email |
| `Lifecycle.UpdateCanDuplicateEmail` | controller/controller.js:103-107 | an update can give a document the email of another document, breaking uniqueness |
| `Lifecycle.TerminateThenGone` | controller/controller.js:116-123 | after terminate, the caller's id answers "User does not exist" to a second terminate and to an update whose three fields are all filled; login with its old email throws, provided no other document carries that email |
| `Lifecycle.AliceExample` | controller/controller.js:18-74 | on an empty collection, registering Alice answers 201 with her document at id 0, and logging in attaches a 30-day cookie with her id, name and email |
| `Controller.UserController.Register` | controller/controller.js:18-47 | changes the collection in place exactly as `Handlers.Register` says, and leaves the object unchanged when it refuses |
| `Controller.UserController.Login` | controller/controller.js:49-74 | answers exactly as `Handlers.Login` says, without changing the collection |
| `Controller.UserController.Find` | controller/controller.js:76-82 | answers exactly as `Handlers.Find` says |
| `Controller.UserController.Update` | controller/controller.js:84-114 | changes the collection in place exactly as `Handlers.Update` says, and leaves the object unchanged when it refuses |
| `Controller.UserController.Terminate` | controller/controller.js:116-127 | changes the collection in place exactly as `Handlers.Terminate` says, and leaves the object unchanged when it refuses |

## Left out

- `Accounts.CompareAcceptsOnlyItsPassword`: bcrypt reads only the first 72 bytes of a password. Real digests therefore also match longer passwords that share those bytes, while the symbolic `Hash` tells all passwords apart. `Lifecycle.UpdateThenLogin` relies on that.
- Salt generation and the cost factor 10 (`controller/controller.js:36-37`, `98-99`), and constant-time comparison: hashing is symbolic.
- Token signing, the secret key and verification of incoming tokens: `middleware/jwt` is not part of this model, and the caller's id is a parameter.
- Concurrency between requests: each handler is one atomic step. Two registrations racing past the duplicate check are not modelled.
- Storage failures, and Mongoose casting or schema validation (`model/User` is not part of this model; in particular it is taken to declare no unique index on `email` and no index that would change the order `findOne` follows). `save`, `findByIdAndUpdate` and `findByIdAndDelete` are taken to succeed.
- What happens after a handler's promise is rejected (`Throws`): the model stops there. Depending on the framework version the rejection is unhandled, which by default ends the Node process from Node 15 on, or it reaches the default error handler, which answers 500.
- Lone surrogates in request strings (JSON allows `"\ud800"`, which JavaScript counts as one code unit): request strings are taken to be sequences of Unicode scalar values, since a Dafny `char` excludes surrogates.
- JavaScript values that are not strings in request fields, such as a number as password: fields are absent or strings.
- The HTTP response headers and the serialized form of the document (`__v` and the `_id` format): a reply carries the id and the document.
- Express routing, Swagger documentation, CORS, body and cookie parsing, the database connection and the listening port (`routes/router.js`, `config/swagger.js`, `app.js`): configuration and I/O.
