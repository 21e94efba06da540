/** AuthService: registering an account and logging in by email or by
    username. Password hashing and token signing are parameters: `encode` and
    `matches` stand for the password encoder, `generateToken` for the signed
    token whose subject is its argument. */
module Auth {
  import opened Wrappers
  import opened Entities
  import opened Users
  import opened Store

  datatype Crypto = Crypto(
    encode: string -> string,
    matches: (string, string) -> bool,
    generateToken: string -> string)

  datatype RegisterRequest = RegisterRequest(email: string, username: string, password: string)

  /** `None` stands for a null field of the request. */
  datatype LoginRequest = LoginRequest(email: Option<string>, username: Option<string>, password: string)

  datatype AuthResponse = AuthResponse(id: int, email: Option<string>, username: Option<string>, token: string)

  const RoleUser := "ROLE_USER"
  const UserExists := Failure(Authentication, "Пользователь уже существует")
  const NoIdentifier := Failure(AuthUserNotFound, "Введите имя или электронную почту")
  const WrongPassword := Failure(Authentication, "Неверный пароль!")

  function LoginUserNotFound(identifier: string): Failure
  {
    Failure(AuthUserNotFound, "Пользователь " + identifier + " не найден")
  }

  /** An email or a username already in use. */
  predicate Taken(users: seq<User>, req: RegisterRequest)
  {
    FindByEmail(users, req.email).Some? || FindByUsername(users, req.username).Some?
  }

  /** The row `register` saves under `id`. */
  function NewUser(id: int, crypto: Crypto, req: RegisterRequest): (u: User)
    ensures u.email == req.email && u.username == req.username
    ensures u.password == crypto.encode(req.password) && u.roles == {RoleUser}
  {
    User(id, req.username, req.email, crypto.encode(req.password), {RoleUser})
  }

  /** `register`: a free email and username get a new row holding the encoded
      password and the one role ROLE_USER; the token is made from the email. */
  method Register(db: Database, crypto: Crypto, req: RegisterRequest) returns (r: Result<AuthResponse>)
    requires db.Valid()
    modifies db`users, db`nextUserId
    ensures db.Valid()
    ensures r.Err? <==> Taken(old(db.users), req)
    ensures r.Err? ==> r.error == UserExists && db.users == old(db.users) && db.nextUserId == old(db.nextUserId)
    ensures r.Ok? ==>
      && db.users == old(db.users) + [NewUser(old(db.nextUserId), crypto, req)]
      && db.nextUserId == old(db.nextUserId) + 1
      && r.value == AuthResponse(old(db.nextUserId), Some(req.email), Some(req.username), crypto.generateToken(req.email))
  {
    if FindByEmail(db.users, req.email).Some? || FindByUsername(db.users, req.username).Some? {
      return Err(UserExists);
    }
    var user := NewUser(db.nextUserId, crypto, req);
    UsersValidAppend(db.users, user);
    db.users := db.users + [user];
    db.nextUserId := db.nextUserId + 1;
    return Ok(AuthResponse(user.id, Some(req.email), Some(req.username), crypto.generateToken(req.email)));
  }

  /** The identifier `login` looks the user up by: the email whenever it is
      given, the username otherwise. */
  function Identifier(req: LoginRequest): (r: Option<string>)
    ensures r.None? <==> req.email.None? && req.username.None?
    ensures req.email.Some? ==> r == req.email
    ensures req.email.None? ==> r == req.username
  {
    if req.email.Some? then req.email else req.username
  }

  /** The user row `login` finds for the request, if any. */
  function LoginUser(users: seq<User>, req: LoginRequest): (r: Option<User>)
    ensures req.email.Some? ==> r == FindByEmail(users, req.email.value)
    ensures req.email.None? && req.username.Some? ==> r == FindByUsername(users, req.username.value)
    ensures Identifier(req).None? ==> r.None?
  {
    if req.email.Some? then FindByEmail(users, req.email.value)
    else if req.username.Some? then FindByUsername(users, req.username.value)
    else None
  }

  /** What `login` answers: the checks in the order the service makes them. */
  function LoginOutcome(users: seq<User>, crypto: Crypto, req: LoginRequest): (r: Result<AuthResponse>)
    ensures Identifier(req).None? ==> r == Err(NoIdentifier)
    ensures Identifier(req).Some? && LoginUser(users, req).None? ==> r == Err(LoginUserNotFound(Identifier(req).value))
    ensures LoginUser(users, req).Some? && !crypto.matches(req.password, LoginUser(users, req).value.password)
      ==> r == Err(WrongPassword)
    ensures r.Ok? <==> LoginUser(users, req).Some? && crypto.matches(req.password, LoginUser(users, req).value.password)
    // the response names exactly the identifier used, and the token is made from it
    ensures r.Ok? ==>
      && r.value.id == LoginUser(users, req).value.id
      && r.value.token == crypto.generateToken(Identifier(req).value)
      && (req.email.Some? ==> r.value.email == req.email && r.value.username.None?)
      && (req.email.None? ==> r.value.email.None? && r.value.username == req.username)
  {
    match Identifier(req)
    case None => Err(NoIdentifier)
    case Some(identifier) =>
      match LoginUser(users, req)
      case None => Err(LoginUserNotFound(identifier))
      case Some(user) =>
        if !crypto.matches(req.password, user.password) then Err(WrongPassword)
        else if req.email.Some? then Ok(AuthResponse(user.id, req.email, None, crypto.generateToken(identifier)))
        else Ok(AuthResponse(user.id, None, req.username, crypto.generateToken(identifier)))
  }

  /** `login`, with the flag the service keeps for which lookup it made; it
      writes nothing. */
  method Login(users: seq<User>, crypto: Crypto, req: LoginRequest) returns (r: Result<AuthResponse>)
    ensures r == LoginOutcome(users, crypto, req)
  {
    var existsByEmail := false;
    var user: User;
    if req.username.None? && req.email.None? {
      return Err(NoIdentifier);
    } else if req.email.Some? {
      var found := FindByEmail(users, req.email.value);
      if found.None? {
        return Err(LoginUserNotFound(req.email.value));
      }
      user := found.value;
      existsByEmail := true;
    } else {
      var found := FindByUsername(users, req.username.value);
      if found.None? {
        return Err(LoginUserNotFound(req.username.value));
      }
      user := found.value;
    }
    if !crypto.matches(req.password, user.password) {
      return Err(WrongPassword);
    }
    if existsByEmail {
      r := Ok(AuthResponse(user.id, req.email, None, crypto.generateToken(req.email.value)));
    } else {
      r := Ok(AuthResponse(user.id, None, req.username, crypto.generateToken(req.username.value)));
    }
  }

  /** After a registration, the new account logs in with its password by its
      email or, when no email is sent, by its username; the response carries
      the new id. The encoder is taken to accept a password against its own
      encoding, as a password encoder promises. */
  lemma RegisteredUserCanLogIn(users: seq<User>, id: int, crypto: Crypto, req: RegisterRequest, username: Option<string>)
    requires UsersValid(users)
    requires !Taken(users, req)
    requires forall u :: u in users ==> u.id != id
    requires crypto.matches(req.password, crypto.encode(req.password))
    ensures LoginOutcome(users + [NewUser(id, crypto, req)], crypto, LoginRequest(Some(req.email), username, req.password))
      == Ok(AuthResponse(id, Some(req.email), None, crypto.generateToken(req.email)))
    ensures LoginOutcome(users + [NewUser(id, crypto, req)], crypto, LoginRequest(None, Some(req.username), req.password))
      == Ok(AuthResponse(id, None, Some(req.username), crypto.generateToken(req.username)))
  {
    var u := NewUser(id, crypto, req);
    UsersValidAppend(users, u);
    LookupsAreExact(users + [u], u);
  }

  /** Whenever an email is sent, the username of the request plays no part. */
  lemma EmailTakesPrecedence(users: seq<User>, crypto: Crypto, email: string, u1: Option<string>, u2: Option<string>, password: string)
    ensures LoginOutcome(users, crypto, LoginRequest(Some(email), u1, password))
      == LoginOutcome(users, crypto, LoginRequest(Some(email), u2, password))
  {
  }
}
