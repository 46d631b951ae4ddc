/** AuthService: the session operations as methods over the three services
    it is wired to. Each method performs the source's lookups and writes in
    order, and is proved to leave the services in exactly the state, and to
    answer exactly what, the corresponding Session function describes; the
    consistency invariant of SessionProps is kept by every method. */
module Auth {
  import opened Common
  import opened Bcrypt
  import opened Jwt
  import opened Users
  import opened UserCache
  import opened Blacklist
  import opened Dtos
  import opened Session
  import opened SessionProps

  class AuthService {
    const usersService: UsersService
    const userCacheService: UserCacheService
    const blacklistedTokensService: BlacklistedTokensService
    const config: TokenConfig

    /** The three services' state, seen as one value. */
    ghost function State(): Services
      reads usersService, userCacheService, blacklistedTokensService
    {
      Services(usersService.usersRepository, userCacheService.cache, blacklistedTokensService.blacklistedTokens)
    }

    ghost predicate Valid()
      reads usersService, userCacheService, blacklistedTokensService
    {
      usersService.Valid() && Consistent(State(), config)
    }

    /** The services handed in must already be consistent with each other
        under the configuration (as the empty ones are, by
        InitialConsistent); the new service then starts out Valid. */
    constructor (usersService: UsersService, config: TokenConfig, blacklistedTokensService: BlacklistedTokensService, userCacheService: UserCacheService)
      requires usersService.Valid()
      requires Consistent(Services(usersService.usersRepository, userCacheService.cache, blacklistedTokensService.blacklistedTokens), config)
      ensures Valid()
      ensures this.usersService == usersService && this.config == config
      ensures this.blacklistedTokensService == blacklistedTokensService && this.userCacheService == userCacheService
    {
      this.usersService := usersService;
      this.config := config;
      this.blacklistedTokensService := blacklistedTokensService;
      this.userCacheService := userCacheService;
    }

    method Register(body: RegisterDto, salt: nat, nowMs: nat) returns (r: Result<RegisterRes>)
      requires Valid()
      modifies usersService, userCacheService
      ensures Valid()
      ensures Step(r, State()) == Session.Register(old(State()), body, salt, nowMs)
    {
      RegisterKeepsConsistent(State(), config, body, salt, nowMs);
      var existingUser := usersService.FindUserByUsername(body.username);
      if existingUser.Some? {
        return Err(Conflict(UsernameExistsMessage));
      }
      var created := usersService.CreateUser(body.username, body.password, salt, nowMs);
      var user := created.value;
      userCacheService.SetUserCache(user.username, user, nowMs);
      r := Ok(RegisterRes(user.username, user.createdAt));
    }

    method Login(body: LoginBody, nowMs: nat) returns (r: Result<LoginRes>)
      requires Valid()
      modifies usersService
      ensures Valid()
      ensures Step(r, State()) == Session.Login(old(State()), config, body, nowMs)
    {
      LoginKeepsConsistent(State(), config, body, nowMs);
      var user := userCacheService.GetUserCache(body.username, nowMs);
      if user.None? {
        user := usersService.FindUserByUsername(body.username);
      }
      if user.None? {
        return Err(Unauthorized(InvalidCredentialsMessage));
      }
      var isPasswordValid := Compare(body.password, user.value.password);
      if !isPasswordValid {
        return Err(Unauthorized(InvalidCredentialsMessage));
      }
      var u := user.value;
      var accessToken := GenerateAccessToken(config, u.id, u.username, nowMs);
      var refreshToken := GenerateRefreshToken(config, u.id, u.username, nowMs);
      usersService.SetRefreshToken(u.id, refreshToken, nowMs);
      r := Ok(LoginRes(u.username, accessToken, refreshToken, u.createdAt, u.updatedAt));
    }

    method Logout(userId: int, nowMs: nat)
      requires Valid()
      modifies usersService, userCacheService, blacklistedTokensService
      ensures Valid()
      ensures State() == Session.Logout(old(State()), config, userId, nowMs)
    {
      LogoutKeepsConsistent(State(), config, userId, nowMs);
      var user := usersService.FindUserById(userId);
      if user.None? {
        return;
      }
      var u := user.value;
      usersService.RemoveRefreshToken(userId, nowMs);
      userCacheService.InvalidateUserCache(u.username);
      var tokens := LogoutTokens(config, u, nowMs);
      ghost var before := blacklistedTokensService.blacklistedTokens;
      for i := 0 to |tokens|
        modifies blacklistedTokensService
        invariant blacklistedTokensService.blacklistedTokens == before + set j | 0 <= j < i :: tokens[j]
      {
        blacklistedTokensService.AddToken(tokens[i]);
      }
      assert (set j | 0 <= j < 2 :: tokens[j]) == {tokens[0], tokens[1]};
    }

    method RefreshToken(token: Token, nowMs: nat) returns (r: Result<RefreshTokenRes>)
      requires Valid()
      modifies usersService, userCacheService
      ensures Valid()
      ensures Step(r, State()) == Session.RefreshToken(old(State()), config, token, nowMs)
    {
      RefreshTokenKeepsConsistent(State(), config, token, nowMs);
      var decodedToken := Decode(token);
      if decodedToken.None? || !Truthy(decodedToken.value.username) {
        return Err(Unauthorized(InvalidRefreshTokenMessage));
      }
      var user := usersService.FindUserByUsername(decodedToken.value.username.value);
      if user.None? {
        return Err(Unauthorized(InvalidRefreshTokenMessage));
      }
      var u := user.value;
      var accessToken := GenerateAccessToken(config, u.id, u.username, nowMs);
      var newRefreshToken := GenerateRefreshToken(config, u.id, u.username, nowMs);
      usersService.SetRefreshToken(u.id, newRefreshToken, nowMs);
      userCacheService.SetUserCache(u.username, u.(refreshToken := Some(newRefreshToken), updatedAt := nowMs), nowMs);
      r := Ok(RefreshTokenRes(accessToken, newRefreshToken));
    }
  }
}
