/** The user store (UsersService over the `user` table). The table is its rows
    in scan order plus the next value of the id sequence; every query the
    service builds is a WHERE on one column, and `getOne()` returns the first
    row the scan meets. The unique index on `username` makes the database
    reject a write that would duplicate a username. */
module Users {
  import opened Common
  import opened Bcrypt
  import opened Jwt

  /** A row of the `user` table; timestamps are milliseconds of the clock. */
  datatype User = User(
    id: int,
    username: string,
    password: Digest,
    refreshToken: Option<Token>,
    createdAt: nat,
    updatedAt: nat)

  datatype Repository = Repository(rows: seq<User>, nextId: int)

  /** What a write returns, together with the table after it. */
  datatype Saved = Saved(result: Result<User>, repo: Repository)

  /** An empty table whose id sequence starts at 1. */
  const EmptyRepository := Repository([], 1)

  ghost predicate UniqueUsernames(rows: seq<User>) {
    forall i, j :: 0 <= i < j < |rows| ==> rows[i].username != rows[j].username
  }

  ghost predicate UniqueIds(rows: seq<User>) {
    forall i, j :: 0 <= i < j < |rows| ==> rows[i].id != rows[j].id
  }

  /** The table's constraints: a unique username index, a primary key, and an
      id sequence that is ahead of every stored id. */
  ghost predicate WellFormed(repo: Repository) {
    && UniqueUsernames(repo.rows)
    && UniqueIds(repo.rows)
    && forall i :: 0 <= i < |repo.rows| ==> repo.rows[i].id < repo.nextId
  }

  ghost predicate HasUsername(rows: seq<User>, username: string) {
    exists i :: 0 <= i < |rows| && rows[i].username == username
  }

  ghost predicate HasId(rows: seq<User>, id: int) {
    exists i :: 0 <= i < |rows| && rows[i].id == id
  }

  /** The position of the first row that satisfies `matches`. */
  function FindFirst(rows: seq<User>, matches: User -> bool): (r: Option<nat>)
    ensures r.Some? ==> r.value < |rows| && matches(rows[r.value])
    ensures r.Some? ==> forall j :: 0 <= j < r.value ==> !matches(rows[j])
    ensures r.None? ==> forall j :: 0 <= j < |rows| ==> !matches(rows[j])
  {
    if |rows| == 0 then None
    else if matches(rows[0]) then Some(0)
    else match FindFirst(rows[1..], matches)
      case None => None
      case Some(k) => Some(k + 1)
  }

  /** `getOne()` for a query with WHERE clause `matches`. */
  function GetOne(rows: seq<User>, matches: User -> bool): (r: Option<User>)
    ensures r.Some? ==> r.value in rows && matches(r.value)
    ensures r.None? <==> forall j :: 0 <= j < |rows| ==> !matches(rows[j])
  {
    match FindFirst(rows, matches)
    case None => None
    case Some(k) => Some(rows[k])
  }

  /** `WHERE user.username = :username`. Under the unique index the row found
      is the one row holding that username. */
  function ByUsername(rows: seq<User>, username: string): (r: Option<User>)
    ensures r.Some? ==> r.value in rows && r.value.username == username
    ensures r.None? <==> !HasUsername(rows, username)
    ensures UniqueUsernames(rows) ==>
      forall i :: 0 <= i < |rows| && rows[i].username == username ==> r == Some(rows[i])
  {
    var r := GetOne(rows, (u: User) => u.username == username);
    assert r.None? ==> forall j :: 0 <= j < |rows| ==> rows[j].username != username;
    r
  }

  /** `WHERE user.id = :id`. */
  function ById(rows: seq<User>, id: int): (r: Option<User>)
    ensures r.Some? ==> r.value in rows && r.value.id == id
    ensures r.None? <==> !HasId(rows, id)
    ensures UniqueIds(rows) ==>
      forall i :: 0 <= i < |rows| && rows[i].id == id ==> r == Some(rows[i])
  {
    var r := GetOne(rows, (u: User) => u.id == id);
    assert r.None? ==> forall j :: 0 <= j < |rows| ==> rows[j].id != id;
    r
  }

  /** `WHERE user.refreshToken = :refreshToken`; a NULL column matches no token. */
  function ByRefreshToken(rows: seq<User>, token: Token): (r: Option<User>)
    ensures r.Some? ==> r.value in rows && r.value.refreshToken == Some(token)
    ensures r.None? <==> forall i :: 0 <= i < |rows| ==> rows[i].refreshToken != Some(token)
  {
    var r := GetOne(rows, (u: User) => u.refreshToken == Some(token));
    assert r.None? ==> forall j :: 0 <= j < |rows| ==> rows[j].refreshToken != Some(token);
    r
  }

  /** createUser: refuse a taken username; otherwise insert one row with the
      next id and the bcrypt digest (cost 10) of the password. */
  function Create(repo: Repository, username: string, password: string, salt: nat, nowMs: nat): (s: Saved)
    ensures s.result.Err? <==> HasUsername(repo.rows, username)
    ensures s.result.Err? ==> s.result.error == Conflict(UsernameExistsMessage) && s.repo == repo
    ensures s.result.Ok? ==>
      && s.repo == Repository(repo.rows + [s.result.value], repo.nextId + 1)
      && s.result.value == User(repo.nextId, username, Hash(password, salt, SaltRounds), None, nowMs, nowMs)
  {
    if ByUsername(repo.rows, username).Some? then
      Saved(Err(Conflict(UsernameExistsMessage)), repo)
    else
      var user := User(repo.nextId, username, Hash(password, salt, SaltRounds), None, nowMs, nowMs);
      Saved(Ok(user), Repository(repo.rows + [user], repo.nextId + 1))
  }

  /** `repository.save(user)`: the unique index rejects a username held by
      another row; a row with the same id is replaced, and its `updatedAt`
      moves to the clock only when something changed; an unknown id is
      inserted with fresh timestamps. */
  function Save(repo: Repository, user: User, nowMs: nat): (s: Saved)
    ensures s.result.Err? <==>
      exists i :: 0 <= i < |repo.rows| && repo.rows[i].username == user.username && repo.rows[i].id != user.id
    ensures s.result.Err? ==> s.result.error == QueryFailed(UniqueViolationMessage) && s.repo == repo
    ensures s.result.Ok? ==> s.result.value.(createdAt := user.createdAt, updatedAt := user.updatedAt) == user
    ensures s.result.Ok? && UniqueIds(repo.rows) && HasId(repo.rows, user.id) ==>
      && s.repo.nextId == repo.nextId
      && |s.repo.rows| == |repo.rows|
      && forall i :: 0 <= i < |repo.rows| ==>
           if repo.rows[i].id != user.id then s.repo.rows[i] == repo.rows[i]
           else
             && s.repo.rows[i] == s.result.value
             && s.result.value.createdAt == user.createdAt
             && s.result.value.updatedAt == (if repo.rows[i] == user then user.updatedAt else nowMs)
    ensures s.result.Ok? && !HasId(repo.rows, user.id) ==>
      && s.repo.rows == repo.rows + [s.result.value]
      && s.result.value.createdAt == nowMs == s.result.value.updatedAt
      && s.repo.nextId > user.id && s.repo.nextId >= repo.nextId
  {
    match FindFirst(repo.rows, (u: User) => u.username == user.username && u.id != user.id)
    case Some(_) => Saved(Err(QueryFailed(UniqueViolationMessage)), repo)
    case None =>
      match FindFirst(repo.rows, (u: User) => u.id == user.id)
      case Some(k) =>
        if repo.rows[k] == user then Saved(Ok(user), repo)
        else
          var stamped := user.(updatedAt := nowMs);
          Saved(Ok(stamped), repo.(rows := repo.rows[k := stamped]))
      case None =>
        var stamped := user.(createdAt := nowMs, updatedAt := nowMs);
        var next := if user.id < repo.nextId then repo.nextId else user.id + 1;
        Saved(Ok(stamped), Repository(repo.rows + [stamped], next))
  }

  /** `UPDATE user SET refreshToken = :token WHERE id = :id`, with NULL as
      None. The ORM adds the entity's update-date column to every query-builder
      UPDATE, so a matched row's updatedAt moves to the clock as well. */
  function WithRefreshToken(repo: Repository, id: int, token: Option<Token>, nowMs: nat): (r: Repository)
    ensures r.nextId == repo.nextId && |r.rows| == |repo.rows|
    ensures forall i :: 0 <= i < |repo.rows| ==>
      r.rows[i] == if repo.rows[i].id == id then repo.rows[i].(refreshToken := token, updatedAt := nowMs) else repo.rows[i]
  {
    var rows := repo.rows;
    repo.(rows := seq(|rows|, i requires 0 <= i < |rows| =>
      if rows[i].id == id then rows[i].(refreshToken := token, updatedAt := nowMs) else rows[i]))
  }

  lemma CreateKeepsWellFormed(repo: Repository, username: string, password: string, salt: nat, nowMs: nat)
    requires WellFormed(repo)
    ensures WellFormed(Create(repo, username, password, salt, nowMs).repo)
  {
    var s := Create(repo, username, password, salt, nowMs);
    if s.result.Ok? {
      var rows := s.repo.rows;
      forall i, j | 0 <= i < j < |rows|
        ensures rows[i].username != rows[j].username && rows[i].id != rows[j].id
      {
        if j == |repo.rows| {
          assert rows[i] == repo.rows[i];
        }
      }
    }
  }

  lemma SaveKeepsWellFormed(repo: Repository, user: User, nowMs: nat)
    requires WellFormed(repo)
    ensures WellFormed(Save(repo, user, nowMs).repo)
  {
    var s := Save(repo, user, nowMs);
    if s.result.Ok? && s.repo != repo {
      var k := FindFirst(repo.rows, (u: User) => u.id == user.id);
      var rows := s.repo.rows;
      if k.Some? {
        forall i, j | 0 <= i < j < |rows|
          ensures rows[i].username != rows[j].username && rows[i].id != rows[j].id
        {
          if i != k.value && j != k.value {
            assert rows[i] == repo.rows[i] && rows[j] == repo.rows[j];
          }
        }
      } else {
        forall i, j | 0 <= i < j < |rows|
          ensures rows[i].username != rows[j].username && rows[i].id != rows[j].id
        {
          if j < |repo.rows| {
            assert rows[i] == repo.rows[i] && rows[j] == repo.rows[j];
          } else {
            assert rows[i] == repo.rows[i];
          }
        }
      }
    }
  }

  lemma WithRefreshTokenKeepsWellFormed(repo: Repository, id: int, token: Option<Token>, nowMs: nat)
    requires WellFormed(repo)
    ensures WellFormed(WithRefreshToken(repo, id, token, nowMs))
  {
    var r := WithRefreshToken(repo, id, token, nowMs);
    forall i, j | 0 <= i < j < |r.rows|
      ensures r.rows[i].username != r.rows[j].username && r.rows[i].id != r.rows[j].id
    {
      assert r.rows[i].username == repo.rows[i].username && r.rows[j].username == repo.rows[j].username;
    }
  }

  /** After `setRefreshToken(id, t)` the row with that id holds t and the
      clock as its update time, and is otherwise unchanged. */
  lemma WithRefreshTokenThenById(repo: Repository, id: int, token: Option<Token>, nowMs: nat)
    requires UniqueIds(repo.rows)
    ensures ById(WithRefreshToken(repo, id, token, nowMs).rows, id) ==
      match ById(repo.rows, id)
      case None => None
      case Some(u) => Some(u.(refreshToken := token, updatedAt := nowMs))
  {
    var r := WithRefreshToken(repo, id, token, nowMs);
    assert UniqueIds(r.rows) by {
      forall i, j | 0 <= i < j < |r.rows| ensures r.rows[i].id != r.rows[j].id {
        assert r.rows[i].id == repo.rows[i].id && r.rows[j].id == repo.rows[j].id;
      }
    }
    match ById(repo.rows, id)
    case None =>
      forall i | 0 <= i < |r.rows| ensures r.rows[i].id != id {
        assert r.rows[i].id == repo.rows[i].id;
      }
    case Some(u) =>
      var i :| 0 <= i < |repo.rows| && repo.rows[i] == u;
      assert r.rows[i] == u.(refreshToken := token, updatedAt := nowMs);
  }

  /** Token writes do not move usernames: a lookup by username finds the same
      row as before, with its token and update time written when its id was
      the target. */
  lemma WithRefreshTokenThenByUsername(repo: Repository, id: int, token: Option<Token>, nowMs: nat, username: string)
    requires UniqueUsernames(repo.rows)
    ensures var found := ByUsername(WithRefreshToken(repo, id, token, nowMs).rows, username);
      match ByUsername(repo.rows, username)
      case None => found.None?
      case Some(u) => found == Some(if u.id == id then u.(refreshToken := token, updatedAt := nowMs) else u)
  {
    var r := WithRefreshToken(repo, id, token, nowMs);
    assert UniqueUsernames(r.rows) by {
      forall i, j | 0 <= i < j < |r.rows| ensures r.rows[i].username != r.rows[j].username {
        assert r.rows[i].username == repo.rows[i].username && r.rows[j].username == repo.rows[j].username;
      }
    }
    match ByUsername(repo.rows, username)
    case None =>
      forall i | 0 <= i < |r.rows| ensures r.rows[i].username != username {
        assert r.rows[i].username == repo.rows[i].username;
      }
    case Some(u) =>
      var i :| 0 <= i < |repo.rows| && repo.rows[i] == u;
      assert r.rows[i].username == username;
  }

  /** `removeRefreshToken` is idempotent: a second removal leaves the table
      as a single removal at the later clock would. */
  lemma RemoveRefreshTokenIdempotent(repo: Repository, id: int, t1: nat, t2: nat)
    ensures WithRefreshToken(WithRefreshToken(repo, id, None, t1), id, None, t2) == WithRefreshToken(repo, id, None, t2)
  {
    var once := WithRefreshToken(repo, id, None, t2);
    var twice := WithRefreshToken(WithRefreshToken(repo, id, None, t1), id, None, t2);
    assert twice.rows == once.rows;
  }

  /** UsersService: the table is a field the writes reassign; the reads are
      functions of it. */
  class UsersService {
    var usersRepository: Repository

    ghost predicate Valid()
      reads this
    {
      WellFormed(usersRepository)
    }

    constructor ()
      ensures Valid() && usersRepository == EmptyRepository
    {
      usersRepository := EmptyRepository;
    }

    method CreateUser(username: string, password: string, salt: nat, nowMs: nat) returns (r: Result<User>)
      requires Valid()
      modifies this
      ensures Valid()
      ensures Saved(r, usersRepository) == Create(old(usersRepository), username, password, salt, nowMs)
    {
      var existingUser := FindUserByUsername(username);
      if existingUser.Some? {
        return Err(Conflict(UsernameExistsMessage));
      }
      var hashedPassword := Hash(password, salt, SaltRounds);
      var user := User(usersRepository.nextId, username, hashedPassword, None, nowMs, nowMs);
      CreateKeepsWellFormed(usersRepository, username, password, salt, nowMs);
      usersRepository := Repository(usersRepository.rows + [user], usersRepository.nextId + 1);
      r := Ok(user);
    }

    function FindUserByUsername(username: string): (r: Option<User>)
      reads this
      ensures r == ByUsername(usersRepository.rows, username)
    {
      ByUsername(usersRepository.rows, username)
    }

    function FindUserById(id: int): (r: Option<User>)
      reads this
      ensures r == ById(usersRepository.rows, id)
    {
      ById(usersRepository.rows, id)
    }

    function FindUserByRefreshToken(token: Token): (r: Option<User>)
      reads this
      ensures r == ByRefreshToken(usersRepository.rows, token)
    {
      ByRefreshToken(usersRepository.rows, token)
    }

    method SaveUser(user: User, nowMs: nat) returns (r: Result<User>)
      requires Valid()
      modifies this
      ensures Valid()
      ensures Saved(r, usersRepository) == Save(old(usersRepository), user, nowMs)
    {
      var s := Save(usersRepository, user, nowMs);
      SaveKeepsWellFormed(usersRepository, user, nowMs);
      usersRepository := s.repo;
      r := s.result;
    }

    method SetRefreshToken(userId: int, refreshToken: Token, nowMs: nat)
      requires Valid()
      modifies this
      ensures Valid()
      ensures usersRepository == WithRefreshToken(old(usersRepository), userId, Some(refreshToken), nowMs)
    {
      WithRefreshTokenKeepsWellFormed(usersRepository, userId, Some(refreshToken), nowMs);
      usersRepository := WithRefreshToken(usersRepository, userId, Some(refreshToken), nowMs);
    }

    method RemoveRefreshToken(userId: int, nowMs: nat)
      requires Valid()
      modifies this
      ensures Valid()
      ensures usersRepository == WithRefreshToken(old(usersRepository), userId, None, nowMs)
    {
      WithRefreshTokenKeepsWellFormed(usersRepository, userId, None, nowMs);
      usersRepository := WithRefreshToken(usersRepository, userId, None, nowMs);
    }
  }
}
