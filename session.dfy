/** The session operations of AuthService (register, login, logout,
    refreshToken) as functions of the three pieces of state they touch: the
    user table, the username-keyed user cache and the token blacklist. Each
    operation runs its checks in the source's order, fails with one typed
    exception and a fixed message, and otherwise performs a fixed, small set
    of writes. Clock readings and bcrypt salts are parameters. */
module Session {
  import opened Common
  import opened Bcrypt
  import opened Jwt
  import opened Users
  import opened NodeCache
  import opened UserCache
  import opened Dtos

  /** The secrets and lifetimes (seconds) the service reads from its
      configuration. */
  datatype TokenConfig = TokenConfig(
    accessSecret: string,
    accessExpiresIn: int,
    refreshSecret: string,
    refreshExpiresIn: int)

  datatype Services = Services(repo: Repository, userCache: Store<User>, blacklist: set<Token>)

  /** What an operation returns, together with the state after it. */
  datatype Step<T> = Step(result: Result<T>, after: Services)

  datatype RegisterRes = RegisterRes(username: string, createdAt: nat)

  datatype LoginBody = LoginBody(username: string, password: string)

  datatype LoginRes = LoginRes(
    username: string,
    accessToken: Token,
    refreshToken: Token,
    createdAt: nat,
    updatedAt: nat)

  datatype RefreshTokenRes = RefreshTokenRes(accessToken: Token, refreshToken: Token)

  /** generateAccessToken: a token for the user, signed with the access secret. */
  function GenerateAccessToken(cfg: TokenConfig, userId: int, username: string, nowMs: nat): (t: Token)
    ensures t.Jws? && t.signingKey == cfg.accessSecret
    ensures Decode(t) == Some(Payload(Some(userId), Some(username), Some(nowMs / 1000), Some(nowMs / 1000 + cfg.accessExpiresIn)))
  {
    Sign(userId, username, cfg.accessSecret, cfg.accessExpiresIn, nowMs)
  }

  /** generateRefreshToken: a token for the user, signed with the refresh secret. */
  function GenerateRefreshToken(cfg: TokenConfig, userId: int, username: string, nowMs: nat): (t: Token)
    ensures t.Jws? && t.signingKey == cfg.refreshSecret
    ensures Decode(t) == Some(Payload(Some(userId), Some(username), Some(nowMs / 1000), Some(nowMs / 1000 + cfg.refreshExpiresIn)))
  {
    Sign(userId, username, cfg.refreshSecret, cfg.refreshExpiresIn, nowMs)
  }

  /** register: refuse a taken username; otherwise create the user (bcrypt
      digest, next id), cache the new row under its username and answer with
      its username and creation time. */
  function Register(s: Services, body: RegisterDto, salt: nat, nowMs: nat): (st: Step<RegisterRes>)
    ensures st.result.Err? <==> HasUsername(s.repo.rows, body.username)
    ensures st.result.Err? ==> st == Step(Err(Conflict(UsernameExistsMessage)), s)
    ensures st.result.Ok? ==>
      var user := User(s.repo.nextId, body.username, Hash(body.password, salt, SaltRounds), None, nowMs, nowMs);
      && st.after.repo == Repository(s.repo.rows + [user], s.repo.nextId + 1)
      && st.after.userCache == CacheUser(s.userCache, body.username, user, nowMs)
      && st.after.blacklist == s.blacklist
      && st.result.value == RegisterRes(body.username, nowMs)
  {
    if ByUsername(s.repo.rows, body.username).Some? then
      Step(Err(Conflict(UsernameExistsMessage)), s)
    else
      var created := Create(s.repo, body.username, body.password, salt, nowMs);
      var user := created.result.value;
      Step(Ok(RegisterRes(user.username, user.createdAt)),
           Services(created.repo, CacheUser(s.userCache, user.username, user, nowMs), s.blacklist))
  }

  /** The user login checks the password against: the cached snapshot while
      it is alive, otherwise the table's row. */
  function LoginCandidate(s: Services, username: string, nowMs: nat): (r: Option<User>)
    ensures CachedUser(s.userCache, username, nowMs).Some? ==> r == CachedUser(s.userCache, username, nowMs)
    ensures CachedUser(s.userCache, username, nowMs).None? ==> r == ByUsername(s.repo.rows, username)
  {
    var cached := CachedUser(s.userCache, username, nowMs);
    if cached.Some? then cached else ByUsername(s.repo.rows, username)
  }

  /** login: an unknown username and a wrong password fail alike, with
      Unauthorized("Invalid credentials") and no write; on success the
      user's row stores the new refresh token, the cache is left alone, and
      the answer echoes the candidate's username and timestamps. */
  function Login(s: Services, cfg: TokenConfig, body: LoginBody, nowMs: nat): (st: Step<LoginRes>)
    ensures st.result.Err? ==> st == Step(Err(Unauthorized(InvalidCredentialsMessage)), s)
    ensures st.result.Ok? <==>
      var c := LoginCandidate(s, body.username, nowMs);
      c.Some? && Compare(body.password, c.value.password)
    ensures st.result.Ok? ==>
      var u := LoginCandidate(s, body.username, nowMs).value;
      var refreshToken := GenerateRefreshToken(cfg, u.id, u.username, nowMs);
      && st.after == s.(repo := WithRefreshToken(s.repo, u.id, Some(refreshToken), nowMs))
      && st.result.value == LoginRes(u.username, GenerateAccessToken(cfg, u.id, u.username, nowMs), refreshToken, u.createdAt, u.updatedAt)
  {
    var user := LoginCandidate(s, body.username, nowMs);
    if user.None? || !Compare(body.password, user.value.password) then
      Step(Err(Unauthorized(InvalidCredentialsMessage)), s)
    else
      var u := user.value;
      var accessToken := GenerateAccessToken(cfg, u.id, u.username, nowMs);
      var refreshToken := GenerateRefreshToken(cfg, u.id, u.username, nowMs);
      Step(Ok(LoginRes(u.username, accessToken, refreshToken, u.createdAt, u.updatedAt)),
           s.(repo := WithRefreshToken(s.repo, u.id, Some(refreshToken), nowMs)))
  }

  /** The two tokens logout regenerates for the user at the clock nowMs. */
  function LogoutTokens(cfg: TokenConfig, u: User, nowMs: nat): (tokens: seq<Token>)
    ensures |tokens| == 2
    ensures tokens[0] == GenerateAccessToken(cfg, u.id, u.username, nowMs)
    ensures tokens[1] == GenerateRefreshToken(cfg, u.id, u.username, nowMs)
  {
    [GenerateAccessToken(cfg, u.id, u.username, nowMs), GenerateRefreshToken(cfg, u.id, u.username, nowMs)]
  }

  /** logout: an unknown id changes nothing; otherwise the row's refresh
      token is cleared, the cache entry under its username is removed, and
      the two tokens regenerated now are blacklisted. */
  function Logout(s: Services, cfg: TokenConfig, userId: int, nowMs: nat): (after: Services)
    ensures !HasId(s.repo.rows, userId) ==> after == s
    ensures HasId(s.repo.rows, userId) ==>
      var u := ById(s.repo.rows, userId).value;
      && after.repo == WithRefreshToken(s.repo, userId, None, nowMs)
      && after.userCache == EvictUser(s.userCache, u.username)
      && after.blacklist == s.blacklist + {GenerateAccessToken(cfg, u.id, u.username, nowMs), GenerateRefreshToken(cfg, u.id, u.username, nowMs)}
  {
    match ById(s.repo.rows, userId)
    case None => s
    case Some(u) =>
      var tokens := LogoutTokens(cfg, u, nowMs);
      Services(WithRefreshToken(s.repo, userId, None, nowMs), EvictUser(s.userCache, u.username), s.blacklist + {tokens[0], tokens[1]})
  }

  /** The username claim refreshToken resolves a token by, when the token
      decodes and the claim is truthy. */
  function UsernameClaim(token: Token): (r: Option<string>)
    ensures r.Some? <==> Decode(token).Some? && Truthy(Decode(token).value.username)
    ensures r.Some? ==> r.value != "" && Some(r.value) == Decode(token).value.username
  {
    match Decode(token)
    case None => None
    case Some(payload) => if Truthy(payload.username) then payload.username else None
  }

  /** refreshToken: a token that does not decode, whose username claim is
      missing or empty, or whose claim names no stored user fails with
      Unauthorized("Invalid refresh token") and no write. Otherwise the
      claimed user's row stores a new refresh token, the cache entry under
      its username becomes that row with the new token and the current time,
      and the new pair is returned. Neither the stored token nor the
      blacklist is consulted. */
  function RefreshToken(s: Services, cfg: TokenConfig, token: Token, nowMs: nat): (st: Step<RefreshTokenRes>)
    ensures st.result.Err? ==> st == Step(Err(Unauthorized(InvalidRefreshTokenMessage)), s)
    ensures st.result.Ok? <==> UsernameClaim(token).Some? && HasUsername(s.repo.rows, UsernameClaim(token).value)
    ensures st.result.Ok? ==>
      var u := ByUsername(s.repo.rows, UsernameClaim(token).value).value;
      var newRefreshToken := GenerateRefreshToken(cfg, u.id, u.username, nowMs);
      && u.username == UsernameClaim(token).value
      && st.after.repo == WithRefreshToken(s.repo, u.id, Some(newRefreshToken), nowMs)
      && st.after.userCache == CacheUser(s.userCache, u.username, u.(refreshToken := Some(newRefreshToken), updatedAt := nowMs), nowMs)
      && st.after.blacklist == s.blacklist
      && st.result.value == RefreshTokenRes(GenerateAccessToken(cfg, u.id, u.username, nowMs), newRefreshToken)
  {
    var claim := UsernameClaim(token);
    if claim.None? then
      Step(Err(Unauthorized(InvalidRefreshTokenMessage)), s)
    else
      match ByUsername(s.repo.rows, claim.value)
      case None => Step(Err(Unauthorized(InvalidRefreshTokenMessage)), s)
      case Some(u) =>
        var accessToken := GenerateAccessToken(cfg, u.id, u.username, nowMs);
        var newRefreshToken := GenerateRefreshToken(cfg, u.id, u.username, nowMs);
        var cached := u.(refreshToken := Some(newRefreshToken), updatedAt := nowMs);
        Step(Ok(RefreshTokenRes(accessToken, newRefreshToken)),
             Services(WithRefreshToken(s.repo, u.id, Some(newRefreshToken), nowMs),
                      CacheUser(s.userCache, u.username, cached, nowMs),
                      s.blacklist))
  }
}
