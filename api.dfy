/**
 * `src/api.py`: sign-up, password login with bearer-token issue, and the
 * token check that guards the image endpoint, as early-exit sequences over
 * the user table. Foreign code enters as parameters: `hash` and `verify` for
 * bcrypt, `encode` and `decode` for the JWT library (signing, signature and
 * expiry checks), `render` for the Carbon client; `now` is the clock, in
 * seconds.
 */
module Api {
  import opened Wrappers
  import opened Db
  import opened ApiConfig
  import Images

  /** JSON values a token's claims can hold. */
  datatype ClaimValue = Str(s: string) | Int(i: int) | Null

  type Claims = map<string, ClaimValue>

  /** `jwt.encode(claims, key, algorithm=algorithm)`. */
  type Encoder = (Claims, string, string) -> string

  /** `jwt.decode(token, key, algorithms=[algorithm])` at a given time: `None`
      where the library raises JWTError (malformed, bad signature, expired, or
      a claims check failing: an `aud` claim when no audience is given, an
      `nbf` in the future, a non-integer `iat`, a non-string `sub` or `jti`). */
  type Decoder = (string, string, string, int) -> Option<Claims>

  /** `timedelta(minutes=15)`, the lifetime of a token issued without one. */
  const FALLBACK_EXPIRY: int := 15 * 60

  datatype HttpException = HttpException(statusCode: int, detail: string, headers: map<string, string>)

  const BEARER_CHALLENGE: map<string, string> := map["WWW-Authenticate" := "Bearer"]
  const CREDENTIALS_EXCEPTION := HttpException(401, "Could not validate credentials", BEARER_CHALLENGE)
  const INCORRECT_LOGIN := HttpException(401, "Incorrect username or password", BEARER_CHALLENGE)
  /** What the OAuth2 password-bearer dependency answers when no bearer
      token comes with the request. */
  const NOT_AUTHENTICATED := HttpException(401, "Not authenticated", BEARER_CHALLENGE)
  const USER_EXISTS := HttpException(400, "User already exists", map[])
  const PASSWORDS_DIFFER := HttpException(400, "The two passwords should match", map[])

  datatype ApiError =
    | Http(exception: HttpException)
    | DbFailure(dbError: DbError)                  // an exception the handlers do not catch
    | ImageFailure(imageError: Images.ImageError)

  datatype UserCreate = UserCreate(username: string, password: string, password2: string)

  /** The `User` response model: the username and nothing else. */
  datatype PublicUser = PublicUser(username: string)

  datatype LoginForm = LoginForm(username: string, password: string)

  datatype Token = Token(accessToken: string, tokenType: string)

  datatype CarbonPayload = CarbonPayload(code: string, parameters: map<string, string>)

  /**
   * `authenticate_user`: `Success(None)` stands for the `False` it returns
   * for an unknown user or a wrong password, `Success(Some(user))` for the
   * stored user.
   */
  function AuthenticateUser(users: seq<UserRecord>, username: string, password: string,
                            verify: (string, string) -> bool): (r: Result<Option<UserRecord>, DbError>)
    ensures r.Success? && r.value.Some? ==>
      && r.value.value in users
      && r.value.value.username == username
      && verify(password, r.value.value.password)
    ensures (forall u :: u in users ==> u.username != username) ==> r == Success(None)
  {
    match GetOrNone(users, username)
    case Failure(e) => Failure(e)
    case Success(None) => Success(None)
    case Success(Some(user)) =>
      if verify(password, user.password) then Success(Some(user)) else Success(None)
  }

  /** On a table with unique names, authentication never fails with a
      lookup error, and it returns a user exactly when a stored user has the
      name and the password verifies against that user's hash. */
  lemma AuthenticateOnUniqueTable(users: seq<UserRecord>, username: string, password: string,
                                  verify: (string, string) -> bool)
    requires UniqueNames(users)
    ensures AuthenticateUser(users, username, password, verify).Success?
    ensures AuthenticateUser(users, username, password, verify).value.Some? <==>
      exists u :: u in users && u.username == username && verify(password, u.password)
  {
    UniqueLookupSucceeds(users, username);
    forall u | u in users && u.username == username
      ensures GetOrNone(users, username) == Success(Some(u))
    {
      UniqueLookupFinds(users, u);
    }
  }

  /** The seconds a token lives when `create_access_token` is given
      `expiresDelta`: a missing or zero delta is falsy and gives 15 minutes. */
  function Lifetime(expiresDelta: Option<int>): (seconds: int)
    ensures expiresDelta.Some? && expiresDelta.value != 0 ==> seconds == expiresDelta.value
    ensures expiresDelta == None || expiresDelta == Some(0) ==> seconds == FALLBACK_EXPIRY
  {
    if expiresDelta.Some? && expiresDelta.value != 0 then expiresDelta.value else FALLBACK_EXPIRY
  }

  /** The claims `create_access_token` encodes: a copy of `data` with `exp`
      set to the expiry time. `data` itself is a value and stays as it is. */
  function TokenClaims(data: Claims, expiresDelta: Option<int>, now: int): (c: Claims)
    ensures c.Keys == data.Keys + {"exp"}
    ensures forall k :: k in data && k != "exp" ==> c[k] == data[k]
    ensures expiresDelta.Some? && expiresDelta.value != 0 ==> c["exp"] == Int(now + expiresDelta.value)
    ensures expiresDelta == None || expiresDelta == Some(0) ==> c["exp"] == Int(now + FALLBACK_EXPIRY)
  {
    data["exp" := Int(now + Lifetime(expiresDelta))]
  }

  /** `create_access_token(data, expires_delta)`: the input claims with `exp`
      set, signed with the configured secret and algorithm. */
  function CreateAccessToken(data: Claims, expiresDelta: Option<int>, now: int,
                             config: Config, encode: Encoder): (token: string)
    ensures expiresDelta.Some? && expiresDelta.value != 0 ==>
      token == encode(data["exp" := Int(now + expiresDelta.value)], config.secretKey, config.algorithm)
    ensures expiresDelta == None || expiresDelta == Some(0) ==>
      token == encode(data["exp" := Int(now + FALLBACK_EXPIRY)], config.secretKey, config.algorithm)
  {
    encode(TokenClaims(data, expiresDelta, now), config.secretKey, config.algorithm)
  }

  /** `timedelta(minutes=ACCESS_TOKEN_EXPIRE_MINUTES)` in seconds. */
  function LoginDelta(config: Config): int
  {
    60 * config.expireMinutes
  }

  /** `login_for_access_token`. */
  function Login(form: LoginForm, users: seq<UserRecord>, config: Config, now: int,
                 verify: (string, string) -> bool, encode: Encoder): (r: Result<Token, ApiError>)
    ensures r.Success? ==> r.value.tokenType == "bearer"
    ensures r.Success? ==>
      r.value.accessToken == encode(
        map["sub" := Str(form.username),
            "exp" := Int(now + if config.expireMinutes == 0 then FALLBACK_EXPIRY else 60 * config.expireMinutes)],
        config.secretKey, config.algorithm)
    ensures AuthenticateUser(users, form.username, form.password, verify) == Success(None) ==>
      r == Failure(Http(INCORRECT_LOGIN))
    ensures AuthenticateUser(users, form.username, form.password, verify).Success? && r.Failure? ==>
      r == Failure(Http(INCORRECT_LOGIN))
  {
    match AuthenticateUser(users, form.username, form.password, verify)
    case Failure(e) => Failure(DbFailure(e))
    case Success(None) => Failure(Http(INCORRECT_LOGIN))
    case Success(Some(user)) =>
      var token := CreateAccessToken(map["sub" := Str(user.username)], Some(LoginDelta(config)), now, config, encode);
      Success(Token(token, "bearer"))
  }

  /** On a table with unique names, login succeeds exactly when a stored user
      has the name and the password verifies; otherwise it is the 401 login
      error. */
  lemma LoginOnUniqueTable(form: LoginForm, users: seq<UserRecord>, config: Config, now: int,
                           verify: (string, string) -> bool, encode: Encoder)
    requires UniqueNames(users)
    ensures Login(form, users, config, now, verify, encode).Success? <==>
      exists u :: u in users && u.username == form.username && verify(form.password, u.password)
    ensures Login(form, users, config, now, verify, encode).Failure? ==>
      Login(form, users, config, now, verify, encode).error == Http(INCORRECT_LOGIN)
  {
    AuthenticateOnUniqueTable(users, form.username, form.password, verify);
  }

  /** `payload.get("sub")` as a username: `None` when the claim is absent or
      not a string. */
  function Subject(claims: Claims): (r: Option<string>)
    ensures r.Some? <==> "sub" in claims && claims["sub"].Str?
    ensures r.Some? ==> claims["sub"] == Str(r.value)
  {
    if "sub" in claims && claims["sub"].Str? then Some(claims["sub"].s) else None
  }

  /** `get_current_user`: the stored user the token names, or the 401
      credentials exception. */
  function GetCurrentUser(token: string, users: seq<UserRecord>, config: Config, now: int,
                          decode: Decoder): (r: Result<UserRecord, ApiError>)
    ensures var claims := decode(token, config.secretKey, config.algorithm, now);
      r.Success? ==>
        && claims.Some?
        && Subject(claims.value) == Some(r.value.username)
        && r.value in users
    ensures var claims := decode(token, config.secretKey, config.algorithm, now);
      (claims == None || Subject(claims.value) == None) ==> r == Failure(Http(CREDENTIALS_EXCEPTION))
    ensures var claims := decode(token, config.secretKey, config.algorithm, now);
      claims.Some? && Subject(claims.value).Some? &&
      (forall u :: u in users ==> u.username != Subject(claims.value).value) ==>
        r == Failure(Http(CREDENTIALS_EXCEPTION))
  {
    match decode(token, config.secretKey, config.algorithm, now)
    case None => Failure(Http(CREDENTIALS_EXCEPTION))
    case Some(claims) =>
      match Subject(claims)
      case None => Failure(Http(CREDENTIALS_EXCEPTION))
      case Some(username) =>
        match GetOrNone(users, username)
        case Failure(e) => Failure(DbFailure(e))
        case Success(None) => Failure(Http(CREDENTIALS_EXCEPTION))
        case Success(Some(user)) => Success(user)
  }

  /** On a table with unique names the credentials exception is raised
      exactly when the token does not decode, carries no `sub`, or names no
      stored user; otherwise the stored user is returned. */
  lemma CurrentUserOnUniqueTable(token: string, users: seq<UserRecord>, config: Config, now: int,
                                 decode: Decoder)
    requires UniqueNames(users)
    ensures var claims := decode(token, config.secretKey, config.algorithm, now);
      var r := GetCurrentUser(token, users, config, now, decode);
      && (r == Failure(Http(CREDENTIALS_EXCEPTION)) <==>
            || claims == None
            || Subject(claims.value) == None
            || forall u :: u in users ==> u.username != Subject(claims.value).value)
      && (r.Failure? ==> r.error == Http(CREDENTIALS_EXCEPTION))
  {
    var claims := decode(token, config.secretKey, config.algorithm, now);
    if claims.Some? && Subject(claims.value).Some? {
      UniqueLookupSucceeds(users, Subject(claims.value).value);
    }
  }

  /**
   * `signup` on a table, as a value: the name is looked up first, so a taken
   * name is reported even when the two passwords differ; only then are the
   * passwords compared; only then is `create_user` called.
   */
  function SignupStep(records: seq<UserRecord>, payload: UserCreate, now: int,
                      hash: string -> string): (s: Step<Result<PublicUser, ApiError>>)
    ensures s.result.Failure? ==> s.records == records
    ensures (exists u :: u in records && u.username == payload.username) ==> s.result.Failure?
    ensures s.result.Failure? && s.result.error.Http? ==>
      s.result.error == Http(USER_EXISTS) || s.result.error == Http(PASSWORDS_DIFFER)
    ensures (forall u :: u in records ==> u.username != payload.username) ==>
      if payload.password != payload.password2 then
        s.result == Failure(Http(PASSWORDS_DIFFER))
      else
        && s.result == Success(PublicUser(payload.username))
        && s.records == records + [UserRecord(payload.username, hash(payload.password), now)]
    ensures s.result.Failure? && s.result.error.DbFailure? ==> s.result.error.dbError == MultipleObjectsReturned
  {
    match GetOrNone(records, payload.username)
    case Failure(e) => Step(Failure(DbFailure(e)), records)
    case Success(Some(_)) => Step(Failure(Http(USER_EXISTS)), records)
    case Success(None) =>
      if payload.password != payload.password2 then
        Step(Failure(Http(PASSWORDS_DIFFER)), records)
      else
        var created := CreateUserStep(records, payload.username, payload.password, now, hash);
        match created.result
        case Success(user) => Step(Success(PublicUser(user.username)), created.records)
        case Failure(e) => Step(Failure(DbFailure(e)), created.records)
  }

  /** On a table with unique names a taken name is always reported as
      "User already exists", before the passwords are looked at, and the table
      is left as it was. */
  lemma SignupReportsTakenNameFirst(records: seq<UserRecord>, payload: UserCreate, now: int,
                                    hash: string -> string)
    requires UniqueNames(records)
    requires exists u :: u in records && u.username == payload.username
    ensures SignupStep(records, payload, now, hash) == Step(Failure(Http(USER_EXISTS)), records)
  {
    UniqueLookupSucceeds(records, payload.username);
  }

  /** `signup` against the mutable user table. */
  method Signup(table: UserTable, payload: UserCreate, now: int, hash: string -> string)
    returns (r: Result<PublicUser, ApiError>)
    modifies table
    ensures r == SignupStep(old(table.records), payload, now, hash).result
    ensures table.records == SignupStep(old(table.records), payload, now, hash).records
    ensures UniqueNames(old(table.records)) ==> UniqueNames(table.records)
  {
    var existing := GetOrNone(table.records, payload.username);
    match existing
    case Failure(e) =>
      r := Failure(DbFailure(e));
    case Success(Some(_)) =>
      r := Failure(Http(USER_EXISTS));
    case Success(None) =>
      if payload.password != payload.password2 {
        r := Failure(Http(PASSWORDS_DIFFER));
      } else {
        var created := table.CreateUser(payload.username, payload.password, now, hash);
        match created
        case Success(user) => r := Success(PublicUser(user.username));
        case Failure(e) => r := Failure(DbFailure(e));
      }
  }

  /**
   * `create_code_image`: the bearer token is checked before anything is
   * rendered. `token` is what the OAuth2 password-bearer dependency extracts
   * from the request, `None` when there is no bearer token.
   */
  method CreateCodeImage(token: Option<string>, payload: CarbonPayload, users: seq<UserRecord>,
                         config: Config, now: int, decode: Decoder,
                         render: (map<string, string>, string) -> Result<string, string>)
    returns (r: Result<string, ApiError>)
    ensures token == None ==> r == Failure(Http(NOT_AUTHENTICATED))
    ensures token.Some? && GetCurrentUser(token.value, users, config, now, decode).Failure? ==>
      r == Failure(GetCurrentUser(token.value, users, config, now, decode).error)
    ensures r.Success? ==> token.Some? && GetCurrentUser(token.value, users, config, now, decode).Success?
    ensures token.Some? && GetCurrentUser(token.value, users, config, now, decode).Success? ==>
      "code" in payload.parameters ==> r == Failure(ImageFailure(Images.MultipleValuesForCode))
    ensures token.Some? && GetCurrentUser(token.value, users, config, now, decode).Success? ==>
      "code" !in payload.parameters ==>
        var sent := Images.Payload(payload.code, payload.parameters - {"outfile"});
        var outfile := Images.GetOr(payload.parameters, "outfile", Images.DEFAULT_OUTPUT_IMAGE);
        && (render(sent, outfile).Success? ==> r == Success(render(sent, outfile).value))
        && (render(sent, outfile).Failure? ==>
              r == Failure(ImageFailure(Images.RenderFailed(render(sent, outfile).error))))
  {
    if token == None {
      return Failure(Http(NOT_AUTHENTICATED));
    }
    var current := GetCurrentUser(token.value, users, config, now, decode);
    if current.Failure? {
      return Failure(current.error);
    }
    var image := Images.CreateCarbonImage(payload.code, payload.parameters, render);
    match image
    case Success(file) => r := Success(file);
    case Failure(e) => r := Failure(ImageFailure(e));
  }

  /** `decode` reads back every claim set of the shape login issues, a string
      `sub` and an integer `exp` and nothing else, that `encode` signed with
      the same key and algorithm, up to and including the second of its `exp`
      claim. Other claim sets are left to the library. */
  ghost predicate DecodesOwnTokens(encode: Encoder, decode: Decoder, key: string, algorithm: string)
  {
    forall claims: Claims, t: int {:trigger decode(encode(claims, key, algorithm), key, algorithm, t)} ::
      && claims.Keys == {"sub", "exp"}
      && claims["sub"].Str? && claims["exp"].Int? && t <= claims["exp"].i
      ==>
        decode(encode(claims, key, algorithm), key, algorithm, t) == Some(claims)
  }

  /**
   * The whole flow for a new name: sign-up succeeds, a login with the same
   * password yields a bearer token, and until that token expires it
   * identifies exactly the newly stored user.
   */
  lemma SignupLoginIdentifiesUser(records: seq<UserRecord>, username: string, password: string,
                                  config: Config, signedUp: int, loggedIn: int, requested: int,
                                  hash: string -> string, verify: (string, string) -> bool,
                                  encode: Encoder, decode: Decoder)
    requires UniqueNames(records)
    requires forall u :: u in records ==> u.username != username
    requires verify(password, hash(password))
    requires DecodesOwnTokens(encode, decode, config.secretKey, config.algorithm)
    requires requested <= loggedIn + Lifetime(Some(LoginDelta(config)))
    ensures var s := SignupStep(records, UserCreate(username, password, password), signedUp, hash);
      var login := Login(LoginForm(username, password), s.records, config, loggedIn, verify, encode);
      && s.result == Success(PublicUser(username))
      && login.Success?
      && GetCurrentUser(login.value.accessToken, s.records, config, requested, decode)
         == Success(UserRecord(username, hash(password), signedUp))
  {
    var s := SignupStep(records, UserCreate(username, password, password), signedUp, hash);
    var user := UserRecord(username, hash(password), signedUp);
    CreateUserKeepsNamesUnique(records, username, password, signedUp, hash);
    assert s.records == CreateUserStep(records, username, password, signedUp, hash).records;
    assert user in s.records;
    UniqueLookupFinds(s.records, user);
    var login := Login(LoginForm(username, password), s.records, config, loggedIn, verify, encode);
    assert login.Success?;
    var claims := TokenClaims(map["sub" := Str(username)], Some(LoginDelta(config)), loggedIn);
    assert login.value.accessToken == encode(claims, config.secretKey, config.algorithm);
    assert decode(encode(claims, config.secretKey, config.algorithm), config.secretKey, config.algorithm, requested)
           == Some(claims);
    assert Subject(claims) == Some(username);
  }

  /** With `ACCESS_TOKEN_EXPIRE_MINUTES` set to `"0"` the login delta is
      zero, hence falsy, and a login token lives the 15 fallback minutes; an
      unset or empty setting gives 30 minutes. */
  lemma ExpirySettingReachesToken(env: map<string, string>, form: LoginForm, users: seq<UserRecord>,
                                  now: int, verify: (string, string) -> bool, encode: Encoder)
    requires LoadConfig(env).Success?
    ensures var config := LoadConfig(env).value;
      var login := Login(form, users, config, now, verify, encode);
      && (Lookup(env, "ACCESS_TOKEN_EXPIRE_MINUTES") == Some("0") && login.Success? ==>
            login.value.accessToken == encode(map["sub" := Str(form.username), "exp" := Int(now + FALLBACK_EXPIRY)],
                                              config.secretKey, config.algorithm))
      && (Lookup(env, "ACCESS_TOKEN_EXPIRE_MINUTES") in {None, Some("")} && login.Success? ==>
            login.value.accessToken == encode(map["sub" := Str(form.username), "exp" := Int(now + 30 * 60)],
                                              config.secretKey, config.algorithm))
  {
  }

  /** A wrong password right after sign-up is refused with the 401 login
      error, whatever the token machinery. */
  lemma WrongPasswordRefused(records: seq<UserRecord>, username: string, password: string, wrong: string,
                             config: Config, signedUp: int, loggedIn: int,
                             hash: string -> string, verify: (string, string) -> bool, encode: Encoder)
    requires UniqueNames(records)
    requires forall u :: u in records ==> u.username != username
    requires !verify(wrong, hash(password))
    ensures var s := SignupStep(records, UserCreate(username, password, password), signedUp, hash);
      Login(LoginForm(username, wrong), s.records, config, loggedIn, verify, encode) == Failure(Http(INCORRECT_LOGIN))
  {
    var s := SignupStep(records, UserCreate(username, password, password), signedUp, hash);
    var user := UserRecord(username, hash(password), signedUp);
    CreateUserKeepsNamesUnique(records, username, password, signedUp, hash);
    assert s.records == CreateUserStep(records, username, password, signedUp, hash).records;
    assert user in s.records;
    UniqueLookupFinds(s.records, user);
  }
}
