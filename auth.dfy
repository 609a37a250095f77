/** The decisions of backend/routes/auth.js: registration with its validation and
    error mapping, and login by e-mail with a single answer for every kind of bad
    credentials. bcrypt and JWT are outside the model: hashing, checking a
    password against a hash and signing a token are parameters. */
module Auth {
  import opened Common
  import opened Seqs

  /** `password.length < 6` is refused. */
  const MinPasswordLength: nat := 6

  /** `expiresIn: '7d'`, in seconds. */
  const TokenLifetimeSeconds: nat := 7 * 24 * 60 * 60

  /** A row of `users`; `passwordHash` is what bcrypt made of the password. */
  datatype User = User(id: nat, username: string, email: string, passwordHash: string)

  /** The `user` object of a reply: it has no field for the password or its hash. */
  datatype PublicUser = PublicUser(id: nat, username: string, email: string)

  /** The payload signed into a token. */
  datatype Claims = Claims(id: nat, username: string, email: string)

  /** `jwt.sign(claims, JWT_SECRET, { expiresIn })` called at second `now`:
      `sign(claims, now, expiresIn)`. The token carries `iat`, the time it was
      issued, so tokens signed in different seconds differ. */
  type Signer = (Claims, nat, nat) -> string

  /** The body of a successful register or login: `{ token, user }`. */
  datatype AuthPayload = AuthPayload(token: string, user: PublicUser)

  /** `bcrypt.compare(q, hash(p))` holds exactly when `q == p`. */
  ghost predicate HashChecks(hash: string -> string, verify: (string, string) -> bool) {
    forall p, q :: verify(q, hash(p)) <==> q == p
  }

  function UserIdKey(u: User): nat { u.id }
  function UsernameKey(u: User): string { u.username }
  function EmailKey(u: User): string { u.email }

  predicate UsernameTaken(users: seq<User>, username: string) {
    exists u :: u in users && u.username == username
  }

  predicate EmailTaken(users: seq<User>, email: string) {
    exists u :: u in users && u.email == email
  }

  /** The projection both handlers reply with, and the claims they sign. */
  function Payload(u: User, sign: Signer, now: nat): (r: AuthPayload)
    ensures r.user.id == u.id && r.user.username == u.username && r.user.email == u.email
    ensures r.token == sign(Claims(u.id, u.username, u.email), now, TokenLifetimeSeconds)
  {
    AuthPayload(sign(Claims(u.id, u.username, u.email), now, TokenLifetimeSeconds),
                PublicUser(u.id, u.username, u.email))
  }

  /** The `users` table, with UNIQUE username and email and an AUTOINCREMENT id. */
  class UserTable {
    var users: seq<User>
    var lastUserId: nat
    ghost var issuedUserIds: set<nat>

    ghost predicate Valid()
      reads this
    {
      && KeysDistinct(users, UserIdKey)
      && KeysDistinct(users, UsernameKey)
      && KeysDistinct(users, EmailKey)
      && (forall u :: u in users ==> u.id in issuedUserIds)
      && (forall id :: id in issuedUserIds ==> 1 <= id <= lastUserId)
    }

    constructor ()
      ensures Valid() && users == [] && issuedUserIds == {}
    {
      users, lastUserId, issuedUserIds := [], 0, {};
    }

    /** `INSERT INTO users (username, email, password) VALUES (?, ?, ?)`. */
    method Insert(username: string, email: string, passwordHash: string) returns (result: Outcome<nat>)
      requires Valid()
      modifies this
      ensures Valid()
      ensures UsernameTaken(old(users), username) || EmailTaken(old(users), email) ==>
        && result == Failed(ConstraintViolation)
        && users == old(users) && lastUserId == old(lastUserId)
        && issuedUserIds == old(issuedUserIds)
      ensures !UsernameTaken(old(users), username) && !EmailTaken(old(users), email) ==>
        && result == Done(old(lastUserId) + 1)
        && result.value !in old(issuedUserIds)
        && users == old(users) + [User(result.value, username, email, passwordHash)]
        && lastUserId == result.value
        && issuedUserIds == old(issuedUserIds) + {result.value}
    {
      if UsernameTaken(users, username) || EmailTaken(users, email) {
        return Failed(ConstraintViolation);
      }
      var id := lastUserId + 1;
      forall i | 0 <= i < |users|
        ensures users[i].id != id && users[i].username != username && users[i].email != email
      {
        assert users[i] in users;
      }
      users := users + [User(id, username, email, passwordHash)];
      lastUserId := id;
      issuedUserIds := issuedUserIds + {id};
      result := Done(id);
    }
  }

  /** The body of POST /register. */
  datatype RegisterForm = RegisterForm(username: Option<string>, email: Option<string>, password: Option<string>)

  /** The `catch` of /register. */
  function RegisterFailureReply(e: DbError): (r: Response<AuthPayload>)
    ensures r.ErrorReply?
    ensures e == ConstraintViolation <==> r == ErrorReply(400, "Username or email already exists")
    ensures e == OtherFailure <==> r == ErrorReply(500, "Server error")
  {
    match e
    case ConstraintViolation => ErrorReply(400, "Username or email already exists")
    case OtherFailure => ErrorReply(500, "Server error")
  }

  /** POST /register. The stored password is `hash` of the submitted one. */
  method Register(table: UserTable, form: RegisterForm, hash: string -> string, sign: Signer, now: nat)
    returns (response: Response<AuthPayload>)
    requires table.Valid()
    modifies table
    ensures table.Valid()
    ensures !(TruthyString(form.username) && TruthyString(form.email) && TruthyString(form.password)) ==>
      && response == ErrorReply(400, "All fields required")
      && table.users == old(table.users) && table.lastUserId == old(table.lastUserId)
      && table.issuedUserIds == old(table.issuedUserIds)
    ensures TruthyString(form.username) && TruthyString(form.email) && TruthyString(form.password)
            && |form.password.value| < MinPasswordLength ==>
      && response == ErrorReply(400, "Password must be at least 6 characters")
      && table.users == old(table.users) && table.lastUserId == old(table.lastUserId)
      && table.issuedUserIds == old(table.issuedUserIds)
    ensures TruthyString(form.username) && TruthyString(form.email) && TruthyString(form.password)
            && |form.password.value| >= MinPasswordLength
            && (UsernameTaken(old(table.users), form.username.value) || EmailTaken(old(table.users), form.email.value)) ==>
      && response == ErrorReply(400, "Username or email already exists")
      && table.users == old(table.users) && table.lastUserId == old(table.lastUserId)
      && table.issuedUserIds == old(table.issuedUserIds)
    ensures TruthyString(form.username) && TruthyString(form.email) && TruthyString(form.password)
            && |form.password.value| >= MinPasswordLength
            && !UsernameTaken(old(table.users), form.username.value) && !EmailTaken(old(table.users), form.email.value) ==>
      var u := User(old(table.lastUserId) + 1, form.username.value, form.email.value, hash(form.password.value));
      && response == Reply(201, Payload(u, sign, now))
      && u.id !in old(table.issuedUserIds)
      && table.users == old(table.users) + [u]
      && table.lastUserId == u.id
      && table.issuedUserIds == old(table.issuedUserIds) + {u.id}
  {
    if !(TruthyString(form.username) && TruthyString(form.email) && TruthyString(form.password)) {
      return ErrorReply(400, "All fields required");
    }
    var username, email, password := form.username.value, form.email.value, form.password.value;
    if |password| < MinPasswordLength {
      return ErrorReply(400, "Password must be at least 6 characters");
    }
    var passwordHash := hash(password);
    var result := table.Insert(username, email, passwordHash);
    match result
    case Done(id) =>
      response := Reply(201, Payload(User(id, username, email, passwordHash), sign, now));
    case Failed(e) =>
      response := RegisterFailureReply(e);
  }

  /** The body of POST /login. */
  datatype LoginForm = LoginForm(email: Option<string>, password: Option<string>)

  /** `SELECT * FROM users WHERE email = ?` with `.get`: the first matching row. */
  function FindByEmail(users: seq<User>, email: string): (r: Option<User>)
    ensures r.None? <==> !EmailTaken(users, email)
    ensures r.Some? ==> r.value in users && r.value.email == email
  {
    if users == [] then None
    else if users[0].email == email then Some(users[0])
    else
      var r := FindByEmail(users[1..], email);
      assert forall u :: u in users[1..] ==> u in users;
      assert forall u :: u in users ==> u == users[0] || u in users[1..];
      r
  }

  /** POST /login: `verify(q, h)` is `bcrypt.compare(q, h)`. */
  function Login(users: seq<User>, form: LoginForm, verify: (string, string) -> bool, sign: Signer, now: nat)
    : (r: Response<AuthPayload>)
    ensures !(TruthyString(form.email) && TruthyString(form.password)) <==>
      r == ErrorReply(400, "Email and password required")
    ensures TruthyString(form.email) && TruthyString(form.password) && r.ErrorReply? ==>
      r == ErrorReply(401, "Invalid credentials")
    ensures TruthyString(form.email) && TruthyString(form.password) ==>
      (r.Reply? <==> exists u :: u in users && u.email == form.email.value &&
                                 verify(form.password.value, u.passwordHash) &&
                                 FindByEmail(users, u.email) == Some(u))
    ensures r.Reply? ==>
      && r.status == 200
      && exists u :: u in users && u.email == form.email.value &&
                     verify(form.password.value, u.passwordHash) && r.body == Payload(u, sign, now)
  {
    if !(TruthyString(form.email) && TruthyString(form.password)) then
      ErrorReply(400, "Email and password required")
    else
      match FindByEmail(users, form.email.value)
      case None => ErrorReply(401, "Invalid credentials")
      case Some(u) =>
        if !verify(form.password.value, u.passwordHash) then ErrorReply(401, "Invalid credentials")
        else Reply(200, Payload(u, sign, now))
  }

  /** An unknown e-mail and a wrong password get the same reply. */
  lemma BadCredentialsLookAlike(users: seq<User>, unknown: LoginForm, wrong: LoginForm,
                                verify: (string, string) -> bool, sign: Signer, now: nat)
    requires TruthyString(unknown.email) && TruthyString(unknown.password)
    requires !EmailTaken(users, unknown.email.value)
    requires TruthyString(wrong.email) && TruthyString(wrong.password)
    requires forall u :: u in users && u.email == wrong.email.value ==> !verify(wrong.password.value, u.passwordHash)
    ensures Login(users, unknown, verify, sign, now) == Login(users, wrong, verify, sign, now)
  {
  }

  /** Once an account is in the table with a fresh e-mail, logging in with that
      e-mail succeeds with exactly the registered password. */
  lemma LoginAfterRegister(users: seq<User>, u: User, password: string, attempt: string,
                           hash: string -> string, verify: (string, string) -> bool,
                           sign: Signer, now: nat)
    requires HashChecks(hash, verify)
    requires !EmailTaken(users, u.email) && u.email != ""
    requires u.passwordHash == hash(password) && attempt != ""
    ensures Login(users + [u], LoginForm(Some(u.email), Some(attempt)), verify, sign, now) ==
            if attempt == password then Reply(200, Payload(u, sign, now))
            else ErrorReply(401, "Invalid credentials")
  {
    FindAppended(users, u);
  }

  /** Register, then log in with the same e-mail: the login succeeds exactly
      when the password matches, with the registration's user and a token
      over the same claims, issued at the time of the login. */
  method RegisterThenLogin(table: UserTable, username: string, email: string, password: string,
                           attempt: string, hash: string -> string, verify: (string, string) -> bool,
                           sign: Signer, registeredAt: nat, loggedInAt: nat)
    returns (registered: Response<AuthPayload>, loggedIn: Response<AuthPayload>)
    requires table.Valid() && HashChecks(hash, verify)
    requires username != "" && email != "" && |password| >= MinPasswordLength && attempt != ""
    requires !UsernameTaken(table.users, username) && !EmailTaken(table.users, email)
    modifies table
    ensures table.Valid()
    ensures registered.Reply? && registered.status == 201
    ensures var user := registered.body.user;
      loggedIn == if attempt == password
                  then Reply(200, AuthPayload(sign(Claims(user.id, user.username, user.email),
                                                   loggedInAt, TokenLifetimeSeconds), user))
                  else ErrorReply(401, "Invalid credentials")
    ensures attempt == password && loggedInAt == registeredAt ==> loggedIn == Reply(200, registered.body)
  {
    ghost var before, id := table.users, table.lastUserId + 1;
    registered := Register(table, RegisterForm(Some(username), Some(email), Some(password)), hash, sign, registeredAt);
    ghost var u := User(id, username, email, hash(password));
    assert table.users == before + [u];
    LoginAfterRegister(before, u, password, attempt, hash, verify, sign, loggedInAt);
    loggedIn := Login(table.users, LoginForm(Some(email), Some(attempt)), verify, sign, loggedInAt);
  }

  lemma {:induction false} FindAppended(users: seq<User>, u: User)
    requires !EmailTaken(users, u.email)
    ensures FindByEmail(users + [u], u.email) == Some(u)
  {
    if users == [] {
      assert users + [u] == [u];
    } else {
      assert users[0] in users;
      assert (users + [u])[1..] == users[1..] + [u];
      assert forall v :: v in users[1..] ==> v in users;
      FindAppended(users[1..], u);
    }
  }
}
