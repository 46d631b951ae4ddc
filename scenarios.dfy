/** Sequences of session operations, and what the services as written do
    over them: the answers a client sees, including the ones that follow from
    the cache serving a snapshot for a day and from refreshToken resolving a
    token by its username claim. */
module Scenarios {
  import opened Common
  import opened Bcrypt
  import opened Jwt
  import opened Users
  import opened NodeCache
  import opened UserCache
  import opened Dtos
  import opened UsersMe
  import opened Session
  import opened SessionProps

  /** A username can be registered once; the second attempt is a Conflict
      that changes nothing. */
  lemma RegisterTwiceConflicts(s: Services, first: RegisterDto, second: RegisterDto, salt: nat, salt2: nat, t0: nat, t1: nat)
    requires Register(s, first, salt, t0).result.Ok?
    requires second.username == first.username
    ensures var s1 := Register(s, first, salt, t0).after;
      Register(s1, second, salt2, t1) == Step(Err(Conflict(UsernameExistsMessage)), s1)
  {
    var rows := Register(s, first, salt, t0).after.repo.rows;
    assert rows[|s.repo.rows|].username == first.username;
  }

  /** Right after registering, login accepts exactly the registered password,
      at any later time: from the cached snapshot during its day, from the
      table afterwards. "Exactly" rests on the model's collision-free digests:
      bcryptjs reads only the first 72 UTF-8 bytes, so a longer password
      sharing those bytes with the registered one is accepted as well. */
  lemma LoginAfterRegister(s: Services, cfg: TokenConfig, dto: RegisterDto, salt: nat, t0: nat, password: string, t1: nat)
    requires Register(s, dto, salt, t0).result.Ok?
    ensures var st := Login(Register(s, dto, salt, t0).after, cfg, LoginBody(dto.username, password), t1);
      && (st.result.Ok? <==> password == dto.password)
      && (st.result.Ok? ==> st.result.value.username == dto.username && st.result.value.createdAt == t0)
  {
    var s1 := Register(s, dto, salt, t0).after;
    var user := User(s.repo.nextId, dto.username, Hash(dto.password, salt, SaltRounds), None, t0, t0);
    GetUserCacheAfterSet(s.userCache, dto.username, user, t0, t1);
    if CachedUser(s1.userCache, dto.username, t1).None? {
      var rows := s1.repo.rows;
      assert rows[|s.repo.rows|] == user;
      var found := ByUsername(rows, dto.username).value;
      var i :| 0 <= i < |rows| && rows[i] == found;
      assert !HasUsername(s.repo.rows, dto.username);
      assert i == |s.repo.rows|;
    }
  }

  /** updateUserMe does not touch the cache, so for the rest of the cached
      snapshot's day login still takes the old password and refuses the new
      one; once the snapshot expires the table's new digest decides. The
      refusals rest on the model's collision-free digests: bcryptjs reads only
      the first 72 UTF-8 bytes, so two passwords agreeing on those bytes would
      not be told apart. */
  lemma StaleCacheKeepsOldPassword(
    s: Services, cfg: TokenConfig, name: string, oldPassword: string, newPassword: string,
    salt: nat, salt2: nat, t0: nat, t1: nat, t2: nat)
    requires WellFormed(s.repo)
    requires Register(s, RegisterDto(name, oldPassword), salt, t0).result.Ok?
    requires oldPassword != "" && newPassword != "" && oldPassword != newPassword
    ensures var s1 := Register(s, RegisterDto(name, oldPassword), salt, t0).after;
      var upd := UpdateMe(s1.repo, s.repo.nextId, UserMeUpdateDto(None, Some(oldPassword), Some(newPassword)), salt2, t1);
      var s2 := s1.(repo := upd.repo);
      && upd.result.Ok?
      && (t2 <= t0 + StdTtlMs ==>
            Login(s2, cfg, LoginBody(name, oldPassword), t2).result.Ok? &&
            Login(s2, cfg, LoginBody(name, newPassword), t2).result.Err?)
      && (t2 > t0 + StdTtlMs ==>
            Login(s2, cfg, LoginBody(name, oldPassword), t2).result.Err? &&
            Login(s2, cfg, LoginBody(name, newPassword), t2).result.Ok?)
  {
    var dto := RegisterDto(name, oldPassword);
    var s1 := Register(s, dto, salt, t0).after;
    var id := s.repo.nextId;
    var change := UserMeUpdateDto(None, Some(oldPassword), Some(newPassword));
    var k := |s.repo.rows|;
    var user := User(id, name, Hash(oldPassword, salt, SaltRounds), None, t0, t0);
    CreateKeepsWellFormed(s.repo, name, oldPassword, salt, t0);
    assert s1.repo.rows[k] == user;
    UpdateMeSucceeds(s1.repo, id, change, salt2, t1, k);
    UpdateMeKeepsWellFormed(s1.repo, id, change, salt2, t1);
    var upd := UpdateMe(s1.repo, id, change, salt2, t1);
    var s2 := s1.(repo := upd.repo);
    assert upd.repo.rows[k].username == name;
    assert upd.repo.rows[k].password == Hash(newPassword, salt2, SaltRounds);
    GetUserCacheAfterSet(s.userCache, name, user, t0, t2);
    if t2 > t0 + StdTtlMs {
      assert LoginCandidate(s2, name, t2) == Some(upd.repo.rows[k]);
    }
  }

  /** refreshToken as written: a token that has just been rotated away is
      accepted again, because the user is found by the token's username
      claim and the stored token is never compared. */
  lemma RotatedRefreshTokenStillAccepted(s: Services, cfg: TokenConfig, token: Token, t1: nat, t2: nat)
    requires UniqueUsernames(s.repo.rows)
    requires RefreshToken(s, cfg, token, t1).result.Ok?
    ensures RefreshToken(RefreshToken(s, cfg, token, t1).after, cfg, token, t2).result.Ok?
  {
    var name := UsernameClaim(token).value;
    var u := ByUsername(s.repo.rows, name).value;
    var rotated := GenerateRefreshToken(cfg, u.id, u.username, t1);
    WithRefreshTokenThenByUsername(s.repo, u.id, Some(rotated), t1, name);
  }

  /** Logout clears the stored token and blacklists tokens it generates
      itself, but refreshToken reads neither, so a refresh token that was
      accepted before a logout (of any user) is accepted after it. */
  lemma LogoutDoesNotStopRefresh(s: Services, cfg: TokenConfig, token: Token, userId: int, t1: nat, t2: nat)
    requires UniqueUsernames(s.repo.rows)
    requires RefreshToken(s, cfg, token, t1).result.Ok?
    ensures RefreshToken(Logout(s, cfg, userId, t1), cfg, token, t2).result.Ok?
  {
    if HasId(s.repo.rows, userId) {
      WithRefreshTokenThenByUsername(s.repo, userId, None, t1, UsernameClaim(token).value);
    }
  }

  /** A login followed by a refresh in a later second: the refresh rotates
      the stored token, after which no row stores the login's refresh token
      (so a lookup by stored token, findUserByRefreshToken, would refuse it),
      yet refreshToken as written accepts it again. */
  lemma RefreshReplayAfterRotation(s: Services, cfg: TokenConfig, body: LoginBody, t1: nat, t2: nat, t3: nat)
    requires Consistent(s, cfg)
    requires body.username != ""
    requires CachedUser(s.userCache, body.username, t1).None?
    requires Login(s, cfg, body, t1).result.Ok?
    requires t1 / 1000 != t2 / 1000
    ensures var s1 := Login(s, cfg, body, t1).after;
      var issued := Login(s, cfg, body, t1).result.value.refreshToken;
      var st := RefreshToken(s1, cfg, issued, t2);
      && st.result.Ok?
      && st.result.value.refreshToken != issued
      && ByRefreshToken(st.after.repo.rows, issued).None?
      && RefreshToken(st.after, cfg, issued, t3).result.Ok?
  {
    var u := ByUsername(s.repo.rows, body.username).value;
    var s1 := Login(s, cfg, body, t1).after;
    var issued := GenerateRefreshToken(cfg, u.id, u.username, t1);
    LoginKeepsConsistent(s, cfg, body, t1);
    WithRefreshTokenThenByUsername(s.repo, u.id, Some(issued), t1, body.username);
    assert UsernameClaim(issued) == Some(body.username);
    var st := RefreshToken(s1, cfg, issued, t2);
    var rotated := GenerateRefreshToken(cfg, u.id, u.username, t2);
    assert rotated.payload.iat != issued.payload.iat;
    RefreshTokenKeepsConsistent(s1, cfg, issued, t2);
    var rows := st.after.repo.rows;
    forall i | 0 <= i < |rows| ensures rows[i].refreshToken != Some(issued) {
      assert rows[i].id == u.id ==> rows[i].refreshToken == Some(rotated);
    }
    RotatedRefreshTokenStillAccepted(s1, cfg, issued, t2, t3);
  }
}
