/** The four account handlers of the controller (plus `find`), each as one atomic
    step from a user collection to a new collection and a reply.  The controller
    class runs these steps in place; the lemmas of `Lifecycle` chain them. */
module Handlers {
  import opened Accounts

  /** The user collection: documents by `_id`, and the next `_id` to issue. */
  datatype Store = Store(users: map<Id, User>, nextId: Id)

  /** How a handler leaves the collection, and how it answers. */
  datatype Outcome = Outcome(store: Store, reply: Reply)

  /** Every stored `_id` was issued before `nextId`, so `nextId` is unused, and every
      stored document has the non-empty name and email that a handler let through. */
  ghost predicate Valid(s: Store)
  {
    forall id :: id in s.users ==> id < s.nextId && s.users[id].name != "" && s.users[id].email != ""
  }

  /** No two stored documents have the same email. */
  ghost predicate EmailsUnique(users: map<Id, User>)
  {
    forall i, j :: i in users && j in users && users[i].email == users[j].email ==> i == j
  }

  /** `user.find({ email }).length > 0`: some stored document has this email. */
  predicate EmailTaken(users: map<Id, User>, email: string)
  {
    exists id :: id in users && users[id].email == email
  }

  /** The first of the identifiers below `n`, in increasing order, whose document
      has this email: the scan that `findOne({ email })` makes in natural order. */
  function FirstByEmail(users: map<Id, User>, email: string, n: nat): (r: Option<Id>)
    ensures r.Some? ==> r.value < n && r.value in users && users[r.value].email == email
    ensures r.Some? ==> forall j :: j in users && j < r.value ==> users[j].email != email
    ensures r.None? ==> forall j :: j in users && j < n ==> users[j].email != email
  {
    if n == 0 then None
    else
      var earlier := FirstByEmail(users, email, n - 1);
      if earlier.Some? then earlier
      else if n - 1 in users && users[n - 1].email == email then Some(n - 1)
      else None
  }

  /** `user.findOne({ email })`: the oldest document with this email, or `null`. */
  function FindOne(s: Store, email: string): (r: Option<Id>)
    requires Valid(s)
    ensures r.Some? <==> EmailTaken(s.users, email)
    ensures r.Some? ==> r.value in s.users && s.users[r.value].email == email
    ensures r.Some? ==> forall j :: j in s.users && j < r.value ==> s.users[j].email != email
  {
    FirstByEmail(s.users, email, s.nextId)
  }

  /** `register`: the fields are checked first, then the email, then the password's
      length; only a request that passes all three stores a new document. */
  function Register(s: Store, name: Field, email: Field, password: Field): (r: Outcome)
    requires Valid(s)
    ensures Valid(r.store)
    ensures r.reply.WithUser? <==>
      Filled(name) && Filled(email) && Filled(password) &&
      !EmailTaken(s.users, email.value) && JsLength(password.value) >= 6
    ensures !r.reply.WithUser? ==> r.store == s
    ensures !(Filled(name) && Filled(email) && Filled(password)) ==>
      r.reply == Message(400, FillAllFields)
    ensures Filled(name) && Filled(email) && Filled(password) && EmailTaken(s.users, email.value) ==>
      r.reply == Message(400, UserExists)
    ensures Filled(name) && Filled(email) && Filled(password) &&
            !EmailTaken(s.users, email.value) && JsLength(password.value) < 6
            ==> r.reply == Message(400, PasswordTooShort)
    ensures r.reply.WithUser? ==>
      r.reply.status == 201 && r.reply.message == UserRegistered &&
      r.reply.id !in s.users &&
      r.reply.user == User(name.value, email.value, Hash(password.value)) &&
      r.store.users.Keys == s.users.Keys + {r.reply.id} &&
      r.store.users[r.reply.id] == r.reply.user &&
      (forall id :: id in s.users ==> r.store.users[id] == s.users[id])
    ensures EmailsUnique(s.users) ==> EmailsUnique(r.store.users)
  {
    if !Filled(name) || !Filled(email) || !Filled(password) then
      Outcome(s, Message(400, FillAllFields))
    else if EmailTaken(s.users, email.value) then
      Outcome(s, Message(400, UserExists))
    else if JsLength(password.value) < 6 then
      Outcome(s, Message(400, PasswordTooShort))
    else
      var id := s.nextId;
      var u := User(name.value, email.value, Hash(password.value));
      Outcome(Store(s.users[id := u], s.nextId + 1), WithUser(201, UserRegistered, id, u))
  }

  /** `login`: never changes the collection.  As written, an unknown email makes
      the handler throw (it reads `.length` of `null`), and a success attaches the
      token cookie to a response it never ends, so the client receives nothing. */
  function Login(s: Store, email: Field, password: Field, now: nat): (r: Outcome)
    requires Valid(s)
    ensures r.store == s
    ensures !(Filled(email) && Filled(password)) ==> r.reply == Message(400, FillAllFields)
    ensures Filled(email) && Filled(password) && !EmailTaken(s.users, email.value) ==>
      r.reply == Throws(TypeError)
    ensures r.reply.CookieOnly? <==>
      Filled(email) && Filled(password) && EmailTaken(s.users, email.value) &&
      Compare(password.value, s.users[FindOne(s, email.value).value].password)
    ensures r.reply.CookieOnly? ==>
      var id := FindOne(s, email.value).value;
      r.reply.cookie == TokenCookie(GenerateToken(id, s.users[id], now))
    ensures Filled(email) && Filled(password) && EmailTaken(s.users, email.value) &&
            !r.reply.CookieOnly?
            ==> r.reply == Message(400, InvalidCredentials)
  {
    if !Filled(email) || !Filled(password) then
      Outcome(s, Message(400, FillAllFields))
    else
      match FindOne(s, email.value)
      case None => Outcome(s, Throws(TypeError))
      case Some(id) =>
        if !Compare(password.value, s.users[id].password) then
          Outcome(s, Message(400, InvalidCredentials))
        else
          Outcome(s, CookieOnly(TokenCookie(GenerateToken(id, s.users[id], now))))
  }

  /** `find`: always throws, because it answers with a name it never defined. */
  function Find(s: Store): (r: Outcome)
    ensures r.store == s && r.reply.Throws? && r.reply.error == ReferenceError
  {
    Outcome(s, Throws(ReferenceError))
  }

  /** `update` for the authenticated caller: all three fields of the caller's own
      document are replaced, and nothing else changes.  The new email is not
      checked against the other documents. */
  function Update(s: Store, caller: Id, name: Field, email: Field, password: Field): (r: Outcome)
    requires Valid(s)
    ensures Valid(r.store) && r.store.nextId == s.nextId
    ensures r.reply.WithUser? <==>
      Filled(name) && Filled(email) && Filled(password) && caller in s.users
    ensures !r.reply.WithUser? ==> r.store == s
    ensures !(Filled(name) && Filled(email) && Filled(password)) ==>
      r.reply == Message(400, FillAllFields)
    ensures Filled(name) && Filled(email) && Filled(password) && caller !in s.users ==>
      r.reply == Message(400, UserNotFound)
    ensures r.reply.WithUser? ==>
      r.reply.status == 200 && r.reply.message == UserUpdated &&
      r.reply.id == caller &&
      r.reply.user == User(name.value, email.value, Hash(password.value)) &&
      r.store.users.Keys == s.users.Keys &&
      r.store.users[caller] == r.reply.user &&
      (forall id :: id in s.users && id != caller ==> r.store.users[id] == s.users[id])
  {
    if !Filled(name) || !Filled(email) || !Filled(password) then
      Outcome(s, Message(400, FillAllFields))
    else if caller !in s.users then
      Outcome(s, Message(400, UserNotFound))
    else
      var u := User(name.value, email.value, Hash(password.value));
      var s' := Store(s.users[caller := u], s.nextId);
      Outcome(s', WithUser(200, UserUpdated, caller, s'.users[caller]))
  }

  /** `terminate` for the authenticated caller: the caller's own document is
      deleted, and nothing else changes. */
  function Terminate(s: Store, caller: Id): (r: Outcome)
    requires Valid(s)
    ensures Valid(r.store) && r.store.nextId == s.nextId
    ensures r.reply.Message?
    ensures r.reply.status == 200 <==> caller in s.users
    ensures r.reply.status != 200 ==> r.store == s && r.reply == Message(400, UserNotFound)
    ensures r.reply.status == 200 ==>
      r.reply.message == UserDeleted &&
      r.store.users.Keys == s.users.Keys - {caller} &&
      (forall id :: id in r.store.users ==> r.store.users[id] == s.users[id])
    ensures EmailsUnique(s.users) ==> EmailsUnique(r.store.users)
  {
    if caller !in s.users then
      Outcome(s, Message(400, UserNotFound))
    else
      Outcome(Store(s.users - {caller}, s.nextId), Message(200, UserDeleted))
  }
}
