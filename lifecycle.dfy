/** What happens when the handlers are chained: an account is created by `register`,
    used by `login`, changed by `update` and destroyed by `terminate`. */
module Lifecycle {
  import opened Accounts
  import opened Handlers

  /** After a user registers, a login with the same email and password passes
      every check and attaches the token cookie (to a response that is never
      sent), and the token names the new document. */
  lemma RegisterThenLogin(s: Store, name: string, email: string, password: string, now: nat)
    requires Valid(s)
    requires Register(s, Some(name), Some(email), Some(password)).reply.WithUser?
    ensures var r := Register(s, Some(name), Some(email), Some(password));
            Login(r.store, Some(email), Some(password), now).reply ==
              CookieOnly(TokenCookie(GenerateToken(r.reply.id, r.reply.user, now)))
  {
  }

  /** Once an email is registered, registering it again is refused with
      "User already exists", for any non-empty name and password, and stores nothing. */
  lemma RegisterTwiceRejected(s: Store, name: string, email: string, password: string,
                              name2: string, password2: string)
    requires Valid(s)
    requires Register(s, Some(name), Some(email), Some(password)).reply.WithUser?
    requires name2 != "" && password2 != ""
    ensures var r := Register(s, Some(name), Some(email), Some(password));
            Register(r.store, Some(name2), Some(email), Some(password2)) ==
              Outcome(r.store, Message(400, UserExists))
  {
  }

  /** The password boundary: with a free email, five UTF-16 code units are refused
      and six are accepted. */
  lemma RegisterPasswordBoundary(s: Store, name: string, email: string, password: string)
    requires Valid(s)
    requires name != "" && email != "" && !EmailTaken(s.users, email)
    requires JsLength(password) == 5 || JsLength(password) == 6
    ensures Register(s, Some(name), Some(email), Some(password)).reply.WithUser? <==>
            JsLength(password) == 6
  {
  }

  /** After an update, a login with the new email and password passes every check
      and attaches the caller's token cookie (so long as no other document carries
      the new email), and any other password is refused. */
  lemma UpdateThenLogin(s: Store, caller: Id, name: string, email: string, password: string,
                        other: string, now: nat)
    requires Valid(s)
    requires Update(s, caller, Some(name), Some(email), Some(password)).reply.WithUser?
    requires forall id :: id in s.users && id != caller ==> s.users[id].email != email
    ensures var r := Update(s, caller, Some(name), Some(email), Some(password));
            Login(r.store, Some(email), Some(password), now).reply ==
              CookieOnly(TokenCookie(GenerateToken(caller, User(name, email, Hash(password)), now)))
    ensures var r := Update(s, caller, Some(name), Some(email), Some(password));
            other != "" && other != password ==>
              Login(r.store, Some(email), Some(other), now).reply == Message(400, InvalidCredentials)
  {
  }

  /** `update` does not re-check uniqueness: two documents with distinct emails can
      end up sharing one. */
  lemma UpdateCanDuplicateEmail()
    ensures exists s: Store, caller: Id, name: string, email: string, password: string ::
      Valid(s) && EmailsUnique(s.users) &&
      Update(s, caller, Some(name), Some(email), Some(password)).reply.WithUser? &&
      !EmailsUnique(Update(s, caller, Some(name), Some(email), Some(password)).store.users)
  {
    var a := User("Alice", "a@x.com", Hash("secret1"));
    var b := User("Bob", "b@x.com", Hash("secret2"));
    var s := Store(map[0 := a, 1 := b], 2);
    assert EmailsUnique(s.users) by {
      forall i, j | i in s.users && j in s.users && s.users[i].email == s.users[j].email
        ensures i == j
      {
        assert a.email != b.email by { assert a.email[0] != b.email[0]; }
      }
    }
    var r := Update(s, 1, Some("Bob"), Some("a@x.com"), Some("secret2"));
    assert r.store.users[0].email == r.store.users[1].email;
    assert Valid(s) && r.reply.WithUser? && !EmailsUnique(r.store.users);
  }

  /** After `terminate`, the caller's id is gone: a second `terminate` and any
      `update` with all three fields filled answer "User does not exist", and logging in with the old
      email (carried by no other document) throws as the handler is written. */
  lemma TerminateThenGone(s: Store, caller: Id, name: string, email: string, password: string,
                          oldPassword: string, now: nat)
    requires Valid(s)
    requires Terminate(s, caller).reply.status == 200
    requires name != "" && email != "" && password != "" && oldPassword != ""
    requires forall id :: id in s.users && id != caller ==> s.users[id].email != s.users[caller].email
    ensures var t := Terminate(s, caller).store;
            Terminate(t, caller) == Outcome(t, Message(400, UserNotFound)) &&
            Update(t, caller, Some(name), Some(email), Some(password)) ==
              Outcome(t, Message(400, UserNotFound))
    ensures var t := Terminate(s, caller).store;
            Login(t, Some(s.users[caller].email), Some(oldPassword), now).reply == Throws(TypeError)
  {
  }

  /** A worked example: on an empty collection, Alice registers and her login passes; the
      token carries her id, name and email and lives 30 days. */
  lemma AliceExample(now: nat)
    ensures var r := Register(Store(map[], 0), Some("Alice"), Some("a@x.com"), Some("secret1"));
            r.reply == WithUser(201, UserRegistered, 0, User("Alice", "a@x.com", Hash("secret1"))) &&
            Login(r.store, Some("a@x.com"), Some("secret1"), now).reply ==
              CookieOnly(Cookie("token", Token(0, "Alice", "a@x.com", now, now + 2592000),
                                true, 2592000000))
  {
  }
}
