/**
  backend/src/controllers/auth.controller.ts: register a user, log in with
  email and password, log out. Password hashing, password comparison and
  token signing are library calls whose internals are not modelled: they
  are the fields of a `Crypto` value the handlers receive.
 */
module AuthController {
  import opened Options
  import opened Schema
  import opened Db
  import opened Http

  const UserExists: string := "User already exists"
  const InvalidCredentials: string := "Invalid credentials"
  const LoggedOut: string := "Logged out successfully"

  /** `expiresIn: '7d'`, in seconds. */
  const TokenLifetime: int := 7 * 24 * 60 * 60

  /** The claims a signed token carries: `{ userId }` plus the issue time
      and the expiry the signing library adds, in whole seconds. */
  datatype TokenClaims = TokenClaims(userId: Id, issuedAt: int, expiresAt: int)

  /** The library calls: `hash` stores a password under a salt, `matches`
      compares a candidate password with a stored hash, `sign` turns claims
      into a token with the server's secret. */
  datatype Crypto = Crypto(hash: (string, string) -> string,
                           matches: (string, string) -> bool,
                           sign: TokenClaims -> string)

  /** The claims of a token issued at `now` (milliseconds) for `userId`. */
  function Claims(userId: Id, now: int): (c: TokenClaims)
    ensures c.userId == userId
    ensures c.expiresAt - c.issuedAt == TokenLifetime
    ensures c.issuedAt * 1000 <= now < c.issuedAt * 1000 + 1000
  {
    TokenClaims(userId, now / 1000, now / 1000 + TokenLifetime)
  }

  /** `User.findOne({ email })` over keys `ks`: the first user with the
      email, in key order. */
  function FindIn(users: map<Id, User>, ks: seq<Id>, email: string): (r: Option<Id>)
    requires forall k :: k in ks ==> k in users
    ensures r.Some? ==> r.value in ks && users[r.value].email == email
    ensures r.None? ==> forall k :: k in ks ==> users[k].email != email
  {
    if ks == [] then None
    else if users[ks[0]].email == email then Some(ks[0])
    else FindIn(users, ks[1..], email)
  }

  /** `User.findOne({ email })`: some stored user with the email, if any. */
  function FindByEmail(s: Store, email: string): (r: Option<Id>)
    ensures r.Some? ==> r.value in s.users && s.users[r.value].email == email
    ensures r.None? ==> forall k :: k in s.users && k < s.nextId ==> s.users[k].email != email
  {
    FindIn(s.users, IdsAsc(s.users, s.nextId), email)
  }

  /** With emails unique, the user found is the only one with that email. */
  lemma FindByEmailUnique(s: Store, email: string, id: Id)
    requires Valid(s)
    requires id in s.users && s.users[id].email == email
    ensures FindByEmail(s, email) == Some(id)
  {}

  /** The body `{ token, user: { id, name, email } }` for user `u`. */
  function SessionFor(crypto: Crypto, u: User, now: int): Body {
    Session(crypto.sign(Claims(u.id, now)), Public(u))
  }

  /** `register`: 400 if the email is taken, otherwise save a new user with
      the hashed password and answer 201 with a token and the public user. */
  function Register(s: Store, crypto: Crypto, name: string, email: string, password: string,
                    salt: string, now: int, fault: Option<string>): (r: Exchange)
    ensures r.response.status == 201 || r.response.status == 400 || r.response.status == 500
    ensures fault.Some? ==> r == Exchange(s, ServerFailure(DbError(fault.value)))
    ensures fault.None? && FindByEmail(s, email).Some? ==> r == Exchange(s, Reply(400, UserExists))
    ensures r.response.status == 201 <==> fault.None? && FindByEmail(s, email).None?
    ensures r.response.status != 201 ==> r.store == s
    ensures r.response.status == 201 ==>
              && fault.None?
              && (forall k :: k in s.users && k < s.nextId ==> s.users[k].email != email)
              && var u := User(s.nextId, name, email, crypto.hash(password, salt), now, now);
              && r.store == InsertUser(s, u)
              && r.response.body.Session?
              && r.response.body.token == crypto.sign(Claims(s.nextId, now))
              && r.response.body.user == PublicUser(s.nextId, name, email)
  {
    if fault.Some? then Exchange(s, ServerFailure(DbError(fault.value)))
    else if FindByEmail(s, email).Some? then Exchange(s, Reply(400, UserExists))
    else
      var u := User(s.nextId, name, email, crypto.hash(password, salt), now, now);
      Exchange(InsertUser(s, u), Response(201, SessionFor(crypto, u, now)))
  }

  /** A successful registration adds exactly one user and keeps the store
      valid, in particular keeps emails unique; projects and tasks are
      untouched. */
  lemma RegisterAddsOne(s: Store, crypto: Crypto, name: string, email: string, password: string,
                        salt: string, now: int, fault: Option<string>)
    requires Valid(s)
    ensures var r := Register(s, crypto, name, email, password, salt, now, fault);
            && Valid(r.store)
            && r.store.projects == s.projects && r.store.tasks == s.tasks
            && (r.response.status == 201 ==>
                  && r.store.users.Keys == s.users.Keys + {s.nextId}
                  && |r.store.users| == |s.users| + 1)
  {
    var r := Register(s, crypto, name, email, password, salt, now, fault);
    if r.response.status == 201 {
      InsertUserValid(s, User(s.nextId, name, email, crypto.hash(password, salt), now, now));
    }
  }

  /** Registering the same email twice: the second attempt is refused and
      creates no user. */
  lemma RegisterTwice(s: Store, crypto: Crypto, name: string, email: string, password: string,
                      salt: string, now: int, name2: string, password2: string, salt2: string, now2: int)
    requires forall k :: k in s.users ==> s.users[k].email != email
    ensures var r1 := Register(s, crypto, name, email, password, salt, now, None);
            && r1.response.status == 201
            && Register(r1.store, crypto, name2, email, password2, salt2, now2, None)
              == Exchange(r1.store, Reply(400, UserExists))
  {
    var u := User(s.nextId, name, email, crypto.hash(password, salt), now, now);
    var s1 := InsertUser(s, u);
    assert s1.users[u.id].email == email;
  }

  /** `login`: 400 "Invalid credentials" if no user has the email or the
      password does not match, otherwise 200 with a token and the public
      user. Logging in never changes the store. */
  function Login(s: Store, crypto: Crypto, email: string, password: string,
                 now: int, fault: Option<string>): (r: Exchange)
    ensures r.store == s
    ensures r.response.status == 200 || r.response.status == 400 || r.response.status == 500
    ensures fault.Some? ==> r.response == ServerFailure(DbError(fault.value))
    ensures r.response.status == 400 ==> r.response == Reply(400, InvalidCredentials)
    ensures fault.None? && r.response.status != 200 ==> r.response == Reply(400, InvalidCredentials)
    ensures r.response.status == 200 <==>
              && fault.None?
              && FindByEmail(s, email).Some?
              && crypto.matches(password, s.users[FindByEmail(s, email).value].passwordHash)
    ensures r.response.status == 200 ==>
              && var id := FindByEmail(s, email).value;
              && s.users[id].email == email
              && r.response.body == SessionFor(crypto, s.users[id], now)
              && r.response.body.token == crypto.sign(Claims(s.users[id].id, now))
              && r.response.body.user == PublicUser(s.users[id].id, s.users[id].name, email)
  {
    if fault.Some? then Exchange(s, ServerFailure(DbError(fault.value)))
    else
      match FindByEmail(s, email)
      case None => Exchange(s, Reply(400, InvalidCredentials))
      case Some(id) =>
        if !crypto.matches(password, s.users[id].passwordHash) then
          Exchange(s, Reply(400, InvalidCredentials))
        else Exchange(s, Response(200, SessionFor(crypto, s.users[id], now)))
  }

  /** An unknown email and a wrong password for a known email get the very
      same answer, so a client cannot tell which accounts exist. */
  lemma LoginFailuresIndistinguishable(s: Store, crypto: Crypto, unknown: string, known: string,
                                       guess: string, password: string, now1: int, now2: int)
    requires forall k :: k in s.users ==> s.users[k].email != unknown
    requires FindByEmail(s, known).Some?
    requires !crypto.matches(guess, s.users[FindByEmail(s, known).value].passwordHash)
    ensures Login(s, crypto, unknown, password, now1, None).response
         == Login(s, crypto, known, guess, now2, None).response
         == Reply(400, InvalidCredentials)
  {}

  /** Registering and then logging in with the same email and password
      opens a session for the new user, provided the comparison accepts
      the password it hashed. */
  lemma RegisterThenLogin(s: Store, crypto: Crypto, name: string, email: string, password: string,
                          salt: string, now: int, later: int)
    requires Valid(s)
    requires crypto.matches(password, crypto.hash(password, salt))
    requires forall k :: k in s.users ==> s.users[k].email != email
    ensures var s1 := Register(s, crypto, name, email, password, salt, now, None).store;
            var r := Login(s1, crypto, email, password, later, None);
            && r.response.status == 200
            && r.response.body.user == PublicUser(s.nextId, name, email)
            && r.response.body.token == crypto.sign(Claims(s.nextId, later))
  {
    var u := User(s.nextId, name, email, crypto.hash(password, salt), now, now);
    var s1 := InsertUser(s, u);
    InsertUserValid(s, u);
    FindByEmailUnique(s1, email, u.id);
  }

  /** `logout`: always "Logged out successfully"; the token is not revoked
      and nothing is stored. */
  function Logout(s: Store): (r: Exchange)
    ensures r.store == s
    ensures r.response == Reply(200, LoggedOut)
  {
    Exchange(s, Reply(200, LoggedOut))
  }

  /** Since logging out changes nothing, every login answers after a logout
      exactly as before it. */
  lemma LoginUnaffectedByLogout(s: Store, crypto: Crypto, email: string, password: string,
                                now: int, fault: Option<string>)
    ensures Login(Logout(s).store, crypto, email, password, now, fault)
         == Login(s, crypto, email, password, now, fault)
  {}
}
