/** The in-memory user store and its token policy
    (repository/user_repository.go): registration with a unique username, a
    hashed password and the next id from a counter; login that checks the
    password against the stored hash and issues a signed token; and
    validation of such a token against the signing key and the clock. The
    store's mutex spans every method, so each method is one atomic step. */
module UserRepository {
  import opened Outcomes
  import opened Domain
  import opened Crypto
  import opened Seqs

  const ErrUsernameExists := "username already exists"
  const ErrInvalidCredentials := "invalid username or password"
  const ErrUserNotFound := "user not found"
  const ErrParsePrefix := "failed to parse token: "
  const ErrTokenNotValid := "token is not valid"
  const ErrTokenExpired := "token has expired"

  /** What the repository takes from its environment: the two libraries,
      config.SecretKey and config.TokenExpiration (in whole seconds). */
  datatype AuthService = AuthService(bcrypt: Bcrypt, jwt: Jwt, secretKey: string, tokenExpiration: int)

  // ---------------------------------------------------------------------
  // Tokens. `now` is time.Now() in Unix seconds.

  /** generateToken: signs, under the secret key, claims carrying the
      user's id and role and an expiry tokenExpiration after now. Parsed
      under the key at any earlier time than that expiry, a token it issues
      yields exactly those claims. */
  function GenerateToken(a: AuthService, user: User, now: int): (r: Result<string>)
    ensures JwtRoundTrip(a.jwt) && r.Ok? ==>
              forall t :: t < now + a.tokenExpiration ==>
                a.jwt.parse(a.secretKey, r.value, t) ==
                Ok(ParsedToken(Claims(user.id, user.role, now + a.tokenExpiration), true))
  {
    a.jwt.sign(a.secretKey, Claims(user.id, user.role, now + a.tokenExpiration))
  }

  /** ValidateToken: the claims of a token that parses under the secret key,
      is valid and has not expired. The parse (signature) check comes first,
      then token.Valid, and the expiry is looked at only after both pass; an
      expiry equal to now passes this explicit check. Both clock readings of
      the source are the one `now`. */
  function ValidateToken(a: AuthService, tokenString: string, now: int): (r: Result<Claims>)
    ensures r.Ok? ==> a.jwt.parse(a.secretKey, tokenString, now) == Ok(ParsedToken(r.value, true))
    ensures r.Ok? ==> now <= r.value.expiresAt
    ensures a.jwt.parse(a.secretKey, tokenString, now).Err? ==>
              r == Err(ErrParsePrefix + a.jwt.parse(a.secretKey, tokenString, now).error)
    ensures a.jwt.parse(a.secretKey, tokenString, now).Ok? ==>
              var token := a.jwt.parse(a.secretKey, tokenString, now).value;
              && (!token.valid ==> r == Err(ErrTokenNotValid))
              && (token.valid && token.claims.expiresAt < now ==> r == Err(ErrTokenExpired))
              && (token.valid && now <= token.claims.expiresAt ==> r == Ok(token.claims))
    ensures r == Err(ErrTokenExpired) ==>
              a.jwt.parse(a.secretKey, tokenString, now).Ok? && a.jwt.parse(a.secretKey, tokenString, now).value.valid &&
              a.jwt.parse(a.secretKey, tokenString, now).value.claims.expiresAt < now
  {
    match a.jwt.parse(a.secretKey, tokenString, now)
    case Err(e) => Err(ErrParsePrefix + e)
    case Ok(token) =>
      if !token.valid then Err(ErrTokenNotValid)
      else if token.claims.expiresAt < now then Err(ErrTokenExpired)
      else Ok(token.claims)
  }

  /** A token issued at time `issued` validates, to the claims it was issued
      with, at every time before its expiry. */
  lemma TokenValidBeforeExpiry(a: AuthService, user: User, issued: int, token: string, now: int)
    requires JwtRoundTrip(a.jwt)
    requires GenerateToken(a, user, issued) == Ok(token)
    requires now < issued + a.tokenExpiration
    ensures ValidateToken(a, token, now) == Ok(Claims(user.id, user.role, issued + a.tokenExpiration))
  {
  }

  /** After its expiry an issued token is refused by the parse itself, so the
      answer is the parse error and never "token has expired". */
  lemma TokenRefusedAfterExpiry(a: AuthService, user: User, issued: int, token: string, now: int)
    requires JwtRoundTrip(a.jwt) && JwtChecksExpiry(a.jwt)
    requires GenerateToken(a, user, issued) == Ok(token)
    requires issued + a.tokenExpiration != 0 && issued + a.tokenExpiration < now
    ensures a.jwt.parse(a.secretKey, token, now).Err?
    ensures ValidateToken(a, token, now) == Err(ErrParsePrefix + a.jwt.parse(a.secretKey, token, now).error)
  {
    var c := Claims(user.id, user.role, issued + a.tokenExpiration);
    assert a.jwt.sign(a.secretKey, c) == Ok(token);
    var p := a.jwt.parse(a.secretKey, token, now);
    if p.Ok? {
      assert false;
    }
  }

  /** With the library marking every token it parses without error as
      valid, the "token is not valid" branch is never taken. */
  lemma NotValidBranchUnreachable(a: AuthService, tokenString: string, now: int)
    requires JwtParseOkIsValid(a.jwt)
    ensures ValidateToken(a, tokenString, now) != Err(ErrTokenNotValid)
  {
    var p := a.jwt.parse(a.secretKey, tokenString, now);
    if p.Ok? {
      assert p.value.valid;
    } else {
      assert ValidateToken(a, tokenString, now).error[..|ErrParsePrefix|] == ErrParsePrefix;
      assert ErrTokenNotValid[0] != ErrParsePrefix[0];
    }
  }

  /** With the library checking expiry, the explicit "token has expired"
      branch is reached only by a token that carries no expiry (exp 0). */
  lemma ExplicitExpiryOnlyWithoutExp(a: AuthService, tokenString: string, now: int)
    requires JwtChecksExpiry(a.jwt)
    requires ValidateToken(a, tokenString, now) == Err(ErrTokenExpired)
    ensures a.jwt.parse(a.secretKey, tokenString, now).value.claims.expiresAt == 0
  {
    var p := a.jwt.parse(a.secretKey, tokenString, now);
    assert p.Ok? && p.value.valid;
  }

  // ---------------------------------------------------------------------
  // The stored users.

  predicate DistinctUsernames(us: seq<User>) {
    forall i, j :: 0 <= i < j < |us| ==> us[i].username != us[j].username
  }

  predicate IdsIncreasing(us: seq<User>) {
    forall i, j :: 0 <= i < j < |us| ==> us[i].id < us[j].id
  }

  /** Usernames are unique, ids strictly increase along the list, and every
      id lies between 1 and the counter. */
  predicate UsersInvariant(us: seq<User>, lastUserID: int) {
    && 0 <= lastUserID
    && DistinctUsernames(us)
    && IdsIncreasing(us)
    && forall i :: 0 <= i < |us| ==> 1 <= us[i].id <= lastUserID
  }

  /** The usernames of the stored users, in order. */
  function Usernames(us: seq<User>): (r: seq<string>)
    ensures |r| == |us| && forall i :: 0 <= i < |us| ==> r[i] == us[i].username
  {
    seq(|us|, i requires 0 <= i < |us| => us[i].username)
  }

  /** Index of the first user with the username, as the range loops find it. */
  function FirstWithUsername(us: seq<User>, username: string): (k: Option<nat>)
    ensures k.Some? ==> k.value < |us| && us[k.value].username == username
    ensures k.Some? ==> forall j :: 0 <= j < k.value ==> us[j].username != username
    ensures k.None? ==> forall j :: 0 <= j < |us| ==> us[j].username != username
  {
    FirstIndex(Usernames(us), username)
  }

  /** What AuthenticateUser answers for a store holding `us`: a token for
      the first user with the username when the password matches its hash.
      An unknown username and a wrong password get the same error. */
  function Authenticate(a: AuthService, us: seq<User>, username: string, password: string, now: int): (r: Result<string>)
    ensures FirstWithUsername(us, username).None? ==> r == Err(ErrInvalidCredentials)
    ensures FirstWithUsername(us, username).Some? &&
            !a.bcrypt.compare(us[FirstWithUsername(us, username).value].password, password) ==>
              r == Err(ErrInvalidCredentials)
    ensures FirstWithUsername(us, username).Some? &&
            a.bcrypt.compare(us[FirstWithUsername(us, username).value].password, password) ==>
              r == GenerateToken(a, us[FirstWithUsername(us, username).value], now)
    ensures r.Ok? ==>
              && FirstWithUsername(us, username).Some?
              && var u := us[FirstWithUsername(us, username).value];
              && a.bcrypt.compare(u.password, password)
              && r == GenerateToken(a, u, now)
  {
    match FirstWithUsername(us, username)
    case None => Err(ErrInvalidCredentials)
    case Some(k) =>
      if a.bcrypt.compare(us[k].password, password) then GenerateToken(a, us[k], now)
      else Err(ErrInvalidCredentials)
  }

  /** The user CreateUser stores: the hash in place of the password and the
      next id. */
  function Registered(user: User, hash: string, lastUserID: int): (u: User)
    ensures u.username == user.username && u.role == user.role
    ensures u.password == hash && u.id == lastUserID + 1
  {
    user.(password := hash, id := lastUserID + 1)
  }

  /** Registering a new username keeps the store's invariant. */
  lemma CreateUserKeepsInvariant(us: seq<User>, lastUserID: int, user: User, hash: string)
    requires UsersInvariant(us, lastUserID)
    requires forall i :: 0 <= i < |us| ==> us[i].username != user.username
    ensures UsersInvariant(us + [Registered(user, hash, lastUserID)], lastUserID + 1)
  {
    var r := us + [Registered(user, hash, lastUserID)];
    assert forall i :: 0 <= i < |us| ==> r[i] == us[i];
  }

  /** Registration followed by login with the same password succeeds as far
      as the credentials go: login issues the token of the stored user (a
      token that then validates to that user's id and role, see
      TokenValidBeforeExpiry). Only the bcrypt property is needed. */
  lemma RegisterThenAuthenticate(a: AuthService, us: seq<User>, lastUserID: int, user: User, hash: string, now: int)
    requires BcryptSound(a.bcrypt)
    requires forall i :: 0 <= i < |us| ==> us[i].username != user.username
    requires a.bcrypt.generate(user.password, DefaultCost) == Ok(hash)
    ensures Authenticate(a, us + [Registered(user, hash, lastUserID)], user.username, user.password, now)
            == GenerateToken(a, Registered(user, hash, lastUserID), now)
  {
    var stored := Registered(user, hash, lastUserID);
    var r := us + [stored];
    assert forall i :: 0 <= i < |us| ==> r[i] == us[i];
    FirstIndexAt(Usernames(r), user.username, |us|);
    assert a.bcrypt.compare(hash, user.password);
  }

  // ---------------------------------------------------------------------
  // The store.

  class InMemoryUserRepository {
    var users: seq<User>
    var lastUserID: int
    const auth: AuthService

    ghost predicate Valid()
      reads this
    {
      UsersInvariant(users, lastUserID)
    }

    /** NewInMemoryUserRepository: no users and the counter at 0. */
    constructor (auth: AuthService)
      ensures Valid() && users == [] && lastUserID == 0 && this.auth == auth
    {
      users := [];
      lastUserID := 0;
      this.auth := auth;
    }

    /** CreateUser. A taken username, or a failure of bcrypt, is reported
        before anything changes. Otherwise the counter goes up by one, the
        user gets it as id and the hash as password, and is appended. The
        second result is the caller's user after the call. */
    method CreateUser(user: User) returns (err: Outcome, user': User)
      requires Valid()
      modifies this
      ensures Valid()
      ensures (exists i :: 0 <= i < |old(users)| && old(users)[i].username == user.username) ==>
                && err == Fail(ErrUsernameExists) && user' == user
                && users == old(users) && lastUserID == old(lastUserID)
      ensures (forall i :: 0 <= i < |old(users)| ==> old(users)[i].username != user.username) ==>
                match auth.bcrypt.generate(user.password, DefaultCost)
                case Err(e) =>
                  err == Fail(e) && user' == user && users == old(users) && lastUserID == old(lastUserID)
                case Ok(hash) =>
                  && err == Pass && lastUserID == old(lastUserID) + 1
                  && user' == Registered(user, hash, old(lastUserID))
                  && users == old(users) + [user']
    {
      for i := 0 to |users|
        invariant forall j :: 0 <= j < i ==> users[j].username != user.username
      {
        if users[i].username == user.username {
          return Fail(ErrUsernameExists), user;
        }
      }
      var hashed := auth.bcrypt.generate(user.password, DefaultCost);
      if hashed.Err? {
        return Fail(hashed.error), user;
      }
      CreateUserKeepsInvariant(users, lastUserID, user, hashed.value);
      user' := user.(password := hashed.value);
      lastUserID := lastUserID + 1;
      user' := user'.(id := lastUserID);
      users := users + [user'];
      err := Pass;
    }

    /** AuthenticateUser: only the first user with the username is checked;
        the answer is Authenticate's. */
    method AuthenticateUser(username: string, password: string, now: int) returns (r: Result<string>)
      ensures r == Authenticate(auth, users, username, password, now)
    {
      var i := 0;
      while i < |users|
        invariant 0 <= i <= |users|
        invariant forall j :: 0 <= j < i ==> users[j].username != username
      {
        if users[i].username == username {
          FirstIndexAt(Usernames(users), username, i);
          if auth.bcrypt.compare(users[i].password, password) {
            return GenerateToken(auth, users[i], now);
          }
          break;
        }
        i := i + 1;
      }
      return Err(ErrInvalidCredentials);
    }

    /** GetUserByUsername: the first user with the username, or "user not found". */
    method GetUserByUsername(username: string) returns (r: Result<User>)
      ensures r.Ok? <==> exists i :: 0 <= i < |users| && users[i].username == username
      ensures r.Ok? ==> FirstWithUsername(users, username).Some? &&
                        r.value == users[FirstWithUsername(users, username).value]
      ensures r.Err? ==> r.error == ErrUserNotFound
    {
      for i := 0 to |users|
        invariant forall j :: 0 <= j < i ==> users[j].username != username
      {
        if users[i].username == username {
          return Ok(users[i]);
        }
      }
      return Err(ErrUserNotFound);
    }
  }
}
