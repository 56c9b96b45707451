/**
 * `AuthService`: log-in against the user table, which first makes sure
 * the default administrator exists, and registration of new users.
 * Password hashing and token signing are not modelled: they are the
 * functions of a `Crypto` value, about which nothing is assumed.
 */
module Auth {
  import opened Wrappers

  /** `User.Role`. */
  datatype Role = USER | ADMIN

  /** The role's `name()`, as it goes into the token. */
  function RoleName(r: Role): string
  {
    match r
    case USER => "USER"
    case ADMIN => "ADMIN"
  }

  /** A row of the user table; `password` holds the encoder's output. */
  datatype User = User(username: string, email: string, password: string, role: Role)

  /** `AuthRequest`. */
  datatype AuthRequest = AuthRequest(username: string, password: string)

  /** `AuthResponse`; the type is always "Bearer". */
  datatype AuthResponse = AuthResponse(token: string, tokenType: string, username: string)

  /** `PasswordEncoder.encode`/`matches` and `JwtTokenProvider.generateToken`. */
  datatype Crypto = Crypto(
    encode: string -> string,
    matches: (string, string) -> bool,
    generateToken: (string, string) -> string)

  const ADMIN_USERNAME: string := "admin"
  const ADMIN_EMAIL: string := "admin@example.com"
  const ADMIN_PASSWORD: string := "admin123"
  const TOKEN_TYPE: string := "Bearer"

  /** The one message for an unknown user and for a wrong password alike. */
  const INVALID_CREDENTIALS: string := "Invalid username or password"
  const USERNAME_TAKEN: string := "Username already exists"
  const EMAIL_TAKEN: string := "Email already exists"

  /** The user table, keyed by user name. */
  class UserStore {
    var users: map<string, User>

    /** Every row is filed under its own user name. */
    ghost predicate Valid()
      reads this
    {
      forall u | u in users :: users[u].username == u
    }

    constructor ()
      ensures Valid() && users == map[]
    {
      users := map[];
    }

    /** Some user has that e-mail address. */
    ghost predicate EmailTaken(email: string)
      reads this
    {
      exists u | u in users :: users[u].email == email
    }

    /** `existsByEmail`. */
    method ExistsByEmail(email: string) returns (b: bool)
      ensures b <==> EmailTaken(email)
    {
      b := exists u | u in users :: users[u].email == email;
    }

    /** `save` of a new user. */
    method Insert(u: User)
      requires Valid() && u.username !in users
      modifies this
      ensures Valid() && users == old(users)[u.username := u]
    {
      users := users[u.username := u];
    }
  }

  /** The administrator `authenticate` and the seeder create when there is none. */
  function DefaultAdmin(crypto: Crypto): (u: User)
  {
    User(ADMIN_USERNAME, ADMIN_EMAIL, crypto.encode(ADMIN_PASSWORD), ADMIN)
  }

  /**
   * Inserts the default administrator unless a user named "admin"
   * exists; an existing one is left as it is.
   */
  method EnsureDefaultAdmin(store: UserStore, crypto: Crypto)
    requires store.Valid()
    modifies store
    ensures store.Valid() && ADMIN_USERNAME in store.users
    ensures ADMIN_USERNAME in old(store.users) ==> store.users == old(store.users)
    ensures ADMIN_USERNAME !in old(store.users) ==> store.users == old(store.users)[ADMIN_USERNAME := DefaultAdmin(crypto)]
  {
    if ADMIN_USERNAME !in store.users {
      store.Insert(DefaultAdmin(crypto));
    }
  }

  /** The credential check and the response of `authenticate`, on a given user table. */
  function LogIn(users: map<string, User>, req: AuthRequest, crypto: Crypto): (r: Result<AuthResponse, string>)
    ensures r.Ok? <==> req.username in users && crypto.matches(req.password, users[req.username].password)
    ensures r.Err? ==> r.error == INVALID_CREDENTIALS
    ensures r.Ok? ==>
      r.value.username == users[req.username].username && r.value.tokenType == TOKEN_TYPE &&
      r.value.token == crypto.generateToken(users[req.username].username, RoleName(users[req.username].role))
  {
    if req.username !in users then Err(INVALID_CREDENTIALS)
    else
      var user := users[req.username];
      if !crypto.matches(req.password, user.password) then Err(INVALID_CREDENTIALS)
      else Ok(AuthResponse(crypto.generateToken(user.username, RoleName(user.role)), TOKEN_TYPE, user.username))
  }

  /**
   * An unknown user name and a wrong password fail alike, so a failure
   * does not tell which of the two was wrong.
   */
  lemma FailuresIndistinguishable(
    users: map<string, User>, unknown: AuthRequest, wrong: AuthRequest, crypto: Crypto)
    requires unknown.username !in users
    requires wrong.username in users && !crypto.matches(wrong.password, users[wrong.username].password)
    ensures LogIn(users, unknown, crypto) == LogIn(users, wrong, crypto) == Err(INVALID_CREDENTIALS)
  {
  }

  /** The user table once the default administrator is sure to exist. */
  function WithDefaultAdmin(users: map<string, User>, crypto: Crypto): (r: map<string, User>)
    ensures ADMIN_USERNAME in r && users.Keys <= r.Keys
    ensures forall u | u in users :: r[u] == users[u]
    ensures forall u | u in r && u !in users :: u == ADMIN_USERNAME && r[u] == DefaultAdmin(crypto)
  {
    if ADMIN_USERNAME in users then users else users[ADMIN_USERNAME := DefaultAdmin(crypto)]
  }

  /**
   * `authenticate`: makes sure the default administrator exists, then
   * checks the credentials against the table as it is after that. The
   * whole call is one transaction, so a failed log-in rolls the insert of
   * the administrator back.
   */
  method Authenticate(store: UserStore, req: AuthRequest, crypto: Crypto) returns (r: Result<AuthResponse, string>)
    requires store.Valid()
    modifies store
    ensures store.Valid()
    ensures r == LogIn(WithDefaultAdmin(old(store.users), crypto), req, crypto)
    ensures r.Ok? ==> store.users == WithDefaultAdmin(old(store.users), crypto)
    ensures r.Err? ==> store.users == old(store.users)
  {
    var before := store.users;
    EnsureDefaultAdmin(store, crypto);
    if req.username !in store.users {
      store.users := before;
      return Err(INVALID_CREDENTIALS);
    }
    var user := store.users[req.username];
    if !crypto.matches(req.password, user.password) {
      store.users := before;
      return Err(INVALID_CREDENTIALS);
    }
    var token := crypto.generateToken(user.username, RoleName(user.role));
    r := Ok(AuthResponse(token, TOKEN_TYPE, user.username));
  }

  /**
   * On a table without an administrator, logging in as "admin" with
   * "admin123" succeeds whenever the encoder's own output matches the
   * password it encoded, and the token carries the role ADMIN.
   */
  lemma DefaultAdminLogsIn(users: map<string, User>, crypto: Crypto)
    requires ADMIN_USERNAME !in users
    requires crypto.matches(ADMIN_PASSWORD, crypto.encode(ADMIN_PASSWORD))
    ensures var r := LogIn(WithDefaultAdmin(users, crypto), AuthRequest(ADMIN_USERNAME, ADMIN_PASSWORD), crypto);
      r.Ok? && r.value.token == crypto.generateToken(ADMIN_USERNAME, "ADMIN")
  {
  }

  /**
   * `createUser`: fails when the user name is taken, and otherwise when
   * the e-mail address is; else stores one new user with role USER and
   * the encoded password.
   */
  method CreateUser(store: UserStore, username: string, email: string, password: string, crypto: Crypto)
    returns (r: Result<User, string>)
    requires store.Valid()
    modifies store
    ensures store.Valid()
    ensures username in old(store.users) ==> r == Err(USERNAME_TAKEN)
    ensures username !in old(store.users) && old(store.EmailTaken(email)) ==> r == Err(EMAIL_TAKEN)
    ensures r.Err? ==> store.users == old(store.users)
    ensures r.Ok? <==> username !in old(store.users) && !old(store.EmailTaken(email))
    ensures r.Ok? ==>
      && r.value == User(username, email, crypto.encode(password), USER)
      && store.users == old(store.users)[username := r.value]
  {
    if username in store.users {
      return Err(USERNAME_TAKEN);
    }
    var taken := store.ExistsByEmail(email);
    if taken {
      return Err(EMAIL_TAKEN);
    }
    var user := User(username, email, crypto.encode(password), USER);
    store.Insert(user);
    r := Ok(user);
  }
}
