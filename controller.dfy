/** The controller as the server runs it: one object holding the user collection,
    whose handlers change that collection in place.  Each handler is one atomic step
    and does exactly what the matching function of `Handlers` says. */
module Controller {
  import opened Accounts
  import Handlers

  class UserController {
    /** The user collection: documents by `_id`. */
    var users: map<Id, User>
    /** The next `_id` the collection will issue. */
    var nextId: Id

    ghost predicate Valid()
      reads this
    {
      Handlers.Valid(State())
    }

    /** The collection as a value. */
    function State(): Handlers.Store
      reads this
    {
      Handlers.Store(users, nextId)
    }

    /** An empty collection. */
    constructor ()
      ensures Valid() && users == map[] && nextId == 0
    {
      users := map[];
      nextId := 0;
    }

    /** `POST /register` with body fields `name`, `email` and `password`. */
    method Register(name: Field, email: Field, password: Field) returns (reply: Reply)
      requires Valid()
      modifies this
      ensures Valid()
      ensures !reply.WithUser? ==> unchanged(this)
      ensures Handlers.Outcome(State(), reply) == Handlers.Register(old(State()), name, email, password)
    {
      if !Filled(name) || !Filled(email) || !Filled(password) {
        return Message(400, FillAllFields);
      }
      var existing := Handlers.EmailTaken(users, email.value);
      if existing {
        return Message(400, UserExists);
      }
      if JsLength(password.value) < 6 {
        return Message(400, PasswordTooShort);
      }
      var hashed := Hash(password.value);
      var id := nextId;
      var newUser := User(name.value, email.value, hashed);
      users := users[id := newUser];
      nextId := nextId + 1;
      reply := WithUser(201, UserRegistered, id, newUser);
    }

    /** `POST /auth/login` with body fields `email` and `password`, at clock time `now`. */
    method Login(email: Field, password: Field, now: nat) returns (reply: Reply)
      requires Valid()
      ensures reply == Handlers.Login(State(), email, password, now).reply
    {
      if !Filled(email) || !Filled(password) {
        return Message(400, FillAllFields);
      }
      var existing := Handlers.FindOne(State(), email.value);
      if existing.None? {
        return Throws(TypeError);
      }
      var id := existing.value;
      var isPasswordCorrect := Compare(password.value, users[id].password);
      if !isPasswordCorrect {
        return Message(400, InvalidCredentials);
      }
      var token := GenerateToken(id, users[id], now);
      reply := CookieOnly(TokenCookie(token));
    }

    /** `GET /find`, behind the token check. */
    method Find() returns (reply: Reply)
      ensures reply == Handlers.Find(State()).reply
    {
      reply := Throws(ReferenceError);
    }

    /** `PUT /update` by the caller whose token carried `caller`. */
    method Update(caller: Id, name: Field, email: Field, password: Field) returns (reply: Reply)
      requires Valid()
      modifies this
      ensures Valid()
      ensures !reply.WithUser? ==> unchanged(this)
      ensures Handlers.Outcome(State(), reply) == Handlers.Update(old(State()), caller, name, email, password)
    {
      if !Filled(name) || !Filled(email) || !Filled(password) {
        return Message(400, FillAllFields);
      }
      if caller !in users {
        return Message(400, UserNotFound);
      }
      var hashed := Hash(password.value);
      users := users[caller := User(name.value, email.value, hashed)];
      var updatedUser := users[caller];
      reply := WithUser(200, UserUpdated, caller, updatedUser);
    }

    /** `DELETE /terminate` by the caller whose token carried `caller`. */
    method Terminate(caller: Id) returns (reply: Reply)
      requires Valid()
      modifies this
      ensures Valid()
      ensures reply != Message(200, UserDeleted) ==> unchanged(this)
      ensures Handlers.Outcome(State(), reply) == Handlers.Terminate(old(State()), caller)
    {
      if caller !in users {
        return Message(400, UserNotFound);
      }
      users := users - {caller};
      reply := Message(200, UserDeleted);
    }
  }
}
