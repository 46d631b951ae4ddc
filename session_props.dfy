/** What the session operations keep true of the state they share with
    UsersMeService, and what a client of the service can rely on from that. */
module SessionProps {
  import opened Common
  import opened Bcrypt
  import opened Jwt
  import opened Users
  import opened NodeCache
  import opened UserCache
  import opened Dtos
  import opened UsersMe
  import opened Session

  /** Every stored refresh token was signed with the refresh secret for the
      row that stores it: its userId claim is that row's id. */
  ghost predicate TokensBound(repo: Repository, cfg: TokenConfig) {
    forall i :: 0 <= i < |repo.rows| && repo.rows[i].refreshToken.Some? ==>
      && repo.rows[i].refreshToken.value.Jws?
      && repo.rows[i].refreshToken.value.signingKey == cfg.refreshSecret
      && repo.rows[i].refreshToken.value.payload.userId == Some(repo.rows[i].id)
  }

  /** Every cache entry sits under the key made from the username of the
      snapshot it holds. */
  ghost predicate CacheKeyedByUsername(cache: Store<User>) {
    forall k :: k in cache ==> k == GenerateCacheKey(cache[k].value.username)
  }

  /** Every cached snapshot is a snapshot of a stored row (same id), however
      stale its other columns may be. */
  ghost predicate CachedRowsExist(s: Services) {
    forall k :: k in s.userCache ==> HasId(s.repo.rows, s.userCache[k].value.id)
  }

  ghost predicate Consistent(s: Services, cfg: TokenConfig) {
    && WellFormed(s.repo)
    && TokensBound(s.repo, cfg)
    && CacheKeyedByUsername(s.userCache)
    && CachedRowsExist(s)
  }

  /** The empty state the services start from is consistent. */
  lemma InitialConsistent(cfg: TokenConfig)
    ensures Consistent(Services(EmptyRepository, map[], {}), cfg)
  {
  }

  /** A token write keeps the ids of all rows, and binds tokens to rows when
      the token written names the row's id. */
  lemma WithRefreshTokenKeepsBound(repo: Repository, cfg: TokenConfig, id: int, token: Option<Token>, nowMs: nat)
    requires TokensBound(repo, cfg)
    requires token.Some? ==> token.value.Jws? && token.value.signingKey == cfg.refreshSecret && token.value.payload.userId == Some(id)
    ensures TokensBound(WithRefreshToken(repo, id, token, nowMs), cfg)
    ensures forall n :: HasId(repo.rows, n) ==> HasId(WithRefreshToken(repo, id, token, nowMs).rows, n)
  {
    var r := WithRefreshToken(repo, id, token, nowMs);
    forall n | HasId(repo.rows, n) ensures HasId(r.rows, n) {
      var i :| 0 <= i < |repo.rows| && repo.rows[i].id == n;
      assert r.rows[i].id == n;
    }
  }

  /** register keeps the state consistent. */
  lemma RegisterKeepsConsistent(s: Services, cfg: TokenConfig, body: RegisterDto, salt: nat, nowMs: nat)
    requires Consistent(s, cfg)
    ensures Consistent(Register(s, body, salt, nowMs).after, cfg)
  {
    var st := Register(s, body, salt, nowMs);
    if st.result.Ok? {
      CreateKeepsWellFormed(s.repo, body.username, body.password, salt, nowMs);
      var user := User(s.repo.nextId, body.username, Hash(body.password, salt, SaltRounds), None, nowMs, nowMs);
      var rows := st.after.repo.rows;
      assert rows[|s.repo.rows|] == user;
      forall k | k in st.after.userCache ensures HasId(rows, st.after.userCache[k].value.id) {
        if k != GenerateCacheKey(body.username) {
          var i :| 0 <= i < |s.repo.rows| && s.repo.rows[i].id == s.userCache[k].value.id;
          assert rows[i] == s.repo.rows[i];
        }
      }
    }
  }

  /** login keeps the state consistent: the refresh token it stores names
      the id of the row it is stored in. */
  lemma LoginKeepsConsistent(s: Services, cfg: TokenConfig, body: LoginBody, nowMs: nat)
    requires Consistent(s, cfg)
    ensures Consistent(Login(s, cfg, body, nowMs).after, cfg)
  {
    var st := Login(s, cfg, body, nowMs);
    if st.result.Ok? {
      var u := LoginCandidate(s, body.username, nowMs).value;
      var token := GenerateRefreshToken(cfg, u.id, u.username, nowMs);
      WithRefreshTokenKeepsWellFormed(s.repo, u.id, Some(token), nowMs);
      WithRefreshTokenKeepsBound(s.repo, cfg, u.id, Some(token), nowMs);
    }
  }

  /** logout keeps the state consistent. */
  lemma LogoutKeepsConsistent(s: Services, cfg: TokenConfig, userId: int, nowMs: nat)
    requires Consistent(s, cfg)
    ensures Consistent(Logout(s, cfg, userId, nowMs), cfg)
  {
    if HasId(s.repo.rows, userId) {
      WithRefreshTokenKeepsWellFormed(s.repo, userId, None, nowMs);
      WithRefreshTokenKeepsBound(s.repo, cfg, userId, None, nowMs);
    }
  }

  /** refreshToken keeps the state consistent: the snapshot it caches is the
      claimed user's row, under that row's username. */
  lemma RefreshTokenKeepsConsistent(s: Services, cfg: TokenConfig, token: Token, nowMs: nat)
    requires Consistent(s, cfg)
    ensures Consistent(RefreshToken(s, cfg, token, nowMs).after, cfg)
  {
    var st := RefreshToken(s, cfg, token, nowMs);
    if st.result.Ok? {
      var u := ByUsername(s.repo.rows, UsernameClaim(token).value).value;
      var rotated := GenerateRefreshToken(cfg, u.id, u.username, nowMs);
      WithRefreshTokenKeepsWellFormed(s.repo, u.id, Some(rotated), nowMs);
      WithRefreshTokenKeepsBound(s.repo, cfg, u.id, Some(rotated), nowMs);
      assert HasId(s.repo.rows, u.id);
    }
  }

  /** updateUserMe keeps the state consistent: it writes at most the one row
      with the caller's id, keeping that row's id and stored token. */
  lemma UpdateMeKeepsConsistent(s: Services, cfg: TokenConfig, id: int, dto: UserMeUpdateDto, salt: nat, nowMs: nat)
    requires Consistent(s, cfg)
    ensures Consistent(s.(repo := UpdateMe(s.repo, id, dto, salt, nowMs).repo), cfg)
  {
    UpdateMeKeepsWellFormed(s.repo, id, dto, salt, nowMs);
    var u := UpdateMe(s.repo, id, dto, salt, nowMs);
    if u.result.Ok? {
      var rows := s.repo.rows;
      assert HasId(rows, id);
      var k :| 0 <= k < |rows| && rows[k].id == id;
      if Truthy(dto.newUsername) && HeldByOther(rows, dto.newUsername.value, id) {
        UpdateMeUsernameInUse(s.repo, id, dto, salt, nowMs);
      } else if ChangesPassword(dto) && !Compare(dto.oldPassword.value, rows[k].password) {
        UpdateMeWrongOldPassword(s.repo, id, dto, salt, nowMs, k);
      } else {
        UpdateMeSucceeds(s.repo, id, dto, salt, nowMs, k);
        assert u.repo.rows[k].id == id && u.repo.rows[k].refreshToken == rows[k].refreshToken;
        forall n | HasId(rows, n) ensures HasId(u.repo.rows, n) {
          var i :| 0 <= i < |rows| && rows[i].id == n;
          assert u.repo.rows[i].id == n;
        }
      }
    }
  }

  /** After a successful refreshToken, the snapshot it caches is the row as
      stored: the token write also moves the row's update time to the clock,
      so at that moment the cache and the table agree on the user. */
  lemma RefreshTokenCachesStoredRow(s: Services, cfg: TokenConfig, token: Token, nowMs: nat)
    requires WellFormed(s.repo)
    requires RefreshToken(s, cfg, token, nowMs).result.Ok?
    ensures var after := RefreshToken(s, cfg, token, nowMs).after;
      var u := ByUsername(s.repo.rows, UsernameClaim(token).value).value;
      && ById(after.repo.rows, u.id).Some?
      && CachedUser(after.userCache, u.username, nowMs) == ById(after.repo.rows, u.id)
  {
    var u := ByUsername(s.repo.rows, UsernameClaim(token).value).value;
    var rotated := GenerateRefreshToken(cfg, u.id, u.username, nowMs);
    var i :| 0 <= i < |s.repo.rows| && s.repo.rows[i] == u;
    assert ById(s.repo.rows, u.id) == Some(u);
    WithRefreshTokenThenById(s.repo, u.id, Some(rotated), nowMs);
    GetUserCacheAfterSet(s.userCache, u.username, u.(refreshToken := Some(rotated), updatedAt := nowMs), nowMs, nowMs);
  }

  /** A stored refresh token has exactly one owner, the row its userId claim
      names, so a lookup by stored token cannot confuse two accounts. */
  lemma StoredRefreshTokenHasOneOwner(repo: Repository, cfg: TokenConfig, token: Token)
    requires WellFormed(repo) && TokensBound(repo, cfg)
    ensures forall i, j ::
      (0 <= i < |repo.rows| && 0 <= j < |repo.rows| &&
       repo.rows[i].refreshToken == Some(token) && repo.rows[j].refreshToken == Some(token)) ==> i == j
    ensures ByRefreshToken(repo.rows, token).Some? ==>
      Decode(token).value.userId == Some(ByRefreshToken(repo.rows, token).value.id)
  {
    var rows := repo.rows;
    forall i, j | 0 <= i < |rows| && 0 <= j < |rows| && rows[i].refreshToken == Some(token) && rows[j].refreshToken == Some(token)
      ensures i == j
    {
      assert rows[i].id == rows[j].id;
    }
  }

  /** In a consistent state, the user login resolves (from the cache or the
      table) is named by the login's username and has a stored row, so the
      answer echoes the username given and the token lands in a row. */
  lemma LoginAnswersForItsUsername(s: Services, cfg: TokenConfig, body: LoginBody, nowMs: nat)
    requires Consistent(s, cfg)
    ensures var c := LoginCandidate(s, body.username, nowMs);
      c.Some? ==> c.value.username == body.username && HasId(s.repo.rows, c.value.id)
    ensures var st := Login(s, cfg, body, nowMs);
      st.result.Ok? ==> st.result.value.username == body.username
  {
    var key := GenerateCacheKey(body.username);
    var cached := CachedUser(s.userCache, body.username, nowMs);
    if cached.Some? {
      assert key in s.userCache;
      GenerateCacheKeyInjective(body.username, cached.value.username);
    }
  }

  /** Logout blacklists only the tokens it generates itself: a token issued
      in another second (for instance the caller's own access token) is not
      revoked by it. */
  lemma LogoutMissesEarlierTokens(s: Services, cfg: TokenConfig, userId: int, nowMs: nat, issued: Token)
    requires issued.Jws? && issued.payload.iat != Some(nowMs / 1000)
    ensures issued in Logout(s, cfg, userId, nowMs).blacklist <==> issued in s.blacklist
  {
    if HasId(s.repo.rows, userId) {
      var u := ById(s.repo.rows, userId).value;
      assert Decode(GenerateAccessToken(cfg, u.id, u.username, nowMs)).value.iat == Some(nowMs / 1000);
      assert Decode(GenerateRefreshToken(cfg, u.id, u.username, nowMs)).value.iat == Some(nowMs / 1000);
    }
  }

  /** No operation removes a token from the blacklist. */
  lemma BlacklistOnlyGrows(s: Services, cfg: TokenConfig, body: RegisterDto, login: LoginBody, userId: int, token: Token, salt: nat, nowMs: nat)
    ensures s.blacklist <= Register(s, body, salt, nowMs).after.blacklist
    ensures s.blacklist <= Login(s, cfg, login, nowMs).after.blacklist
    ensures s.blacklist <= Logout(s, cfg, userId, nowMs).blacklist
    ensures s.blacklist <= RefreshToken(s, cfg, token, nowMs).after.blacklist
  {
  }
}
