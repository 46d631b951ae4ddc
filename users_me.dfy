/** UsersMeService: a user reads and edits their own profile. Every check runs
    before the single save at the end, so a failed check writes nothing. The
    service reads the table only; it never touches the user cache. */
module UsersMe {
  import opened Common
  import opened Bcrypt
  import opened Users

  datatype UserMeRes = UserMeRes(username: string, createdAt: nat, updatedAt: nat)

  /** The field is spelled `updateAt` in the response. */
  datatype UserUpdateMeRes = UserUpdateMeRes(username: string, updateAt: nat)

  /** The body the service reads; its username field is `newUsername`. */
  datatype UserMeUpdateDto = UserMeUpdateDto(newUsername: Option<string>, oldPassword: Option<string>, newPassword: Option<string>)

  datatype Updated = Updated(result: Result<UserUpdateMeRes>, repo: Repository)

  /** Another account already holds `username`. */
  ghost predicate HeldByOther(rows: seq<User>, username: string, id: int) {
    exists i :: 0 <= i < |rows| && rows[i].username == username && rows[i].id != id
  }

  predicate ChangesPassword(dto: UserMeUpdateDto) {
    Truthy(dto.oldPassword) && Truthy(dto.newPassword)
  }

  /** updateUserMe: look the user up by id, check a truthy newUsername against
      the other accounts, check the old password when both passwords are
      given, then save the edited row. */
  function UpdateMe(repo: Repository, id: int, dto: UserMeUpdateDto, salt: nat, nowMs: nat): (u: Updated)
    ensures !HasId(repo.rows, id) ==> u.result == Err(NotFound(UserNotFoundMessage))
    ensures u.result.Err? ==> u.repo == repo
  {
    match ById(repo.rows, id)
    case None => Updated(Err(NotFound(UserNotFoundMessage)), repo)
    case Some(user) =>
      var existing := if Truthy(dto.newUsername) then ByUsername(repo.rows, dto.newUsername.value) else None;
      if existing.Some? && existing.value.id != id then
        Updated(Err(Conflict(UsernameInUseMessage)), repo)
      else
        if ChangesPassword(dto) && !Compare(dto.oldPassword.value, user.password) then
          Updated(Err(Conflict(OldPasswordIncorrectMessage)), repo)
        else
          var edited := Edited(user, dto, salt);
          var s := Save(repo, edited, nowMs);
          match s.result
          case Err(e) => Updated(Err(e), s.repo)
          case Ok(saved) => Updated(Ok(UserUpdateMeRes(saved.username, saved.updatedAt)), s.repo)
  }

  /** The row updateUserMe saves once every check has passed. */
  function Edited(user: User, dto: UserMeUpdateDto, salt: nat): (e: User)
    ensures e.(username := user.username, password := user.password) == user
    ensures e.username == if Truthy(dto.newUsername) then dto.newUsername.value else user.username
    ensures e.password == if ChangesPassword(dto) then Hash(dto.newPassword.value, salt, SaltRounds) else user.password
  {
    var renamed := if Truthy(dto.newUsername) then user.(username := dto.newUsername.value) else user;
    if ChangesPassword(dto) then renamed.(password := Hash(dto.newPassword.value, salt, SaltRounds)) else renamed
  }

  /** A truthy newUsername held by another account is refused with Conflict
      and nothing is written. */
  lemma UpdateMeUsernameInUse(repo: Repository, id: int, dto: UserMeUpdateDto, salt: nat, nowMs: nat)
    requires UniqueUsernames(repo.rows) && HasId(repo.rows, id)
    requires Truthy(dto.newUsername) && HeldByOther(repo.rows, dto.newUsername.value, id)
    ensures UpdateMe(repo, id, dto, salt, nowMs) == Updated(Err(Conflict(UsernameInUseMessage)), repo)
  {
    var n := dto.newUsername.value;
    var i :| 0 <= i < |repo.rows| && repo.rows[i].username == n && repo.rows[i].id != id;
    assert ByUsername(repo.rows, n) == Some(repo.rows[i]);
  }

  /** When both passwords are given and the old one does not verify against
      the stored digest, the update is refused with Conflict and nothing is
      written (unless the username check refused it first). */
  lemma UpdateMeWrongOldPassword(repo: Repository, id: int, dto: UserMeUpdateDto, salt: nat, nowMs: nat, k: nat)
    requires UniqueIds(repo.rows) && k < |repo.rows| && repo.rows[k].id == id
    requires !(Truthy(dto.newUsername) && HeldByOther(repo.rows, dto.newUsername.value, id))
    requires ChangesPassword(dto) && !Compare(dto.oldPassword.value, repo.rows[k].password)
    ensures UpdateMe(repo, id, dto, salt, nowMs) == Updated(Err(Conflict(OldPasswordIncorrectMessage)), repo)
  {
    assert ById(repo.rows, id) == Some(repo.rows[k]);
  }

  /** Otherwise the update succeeds: the row with that id becomes the edited
      row (its save timestamp aside), every other row is untouched, and the
      response carries the saved username and timestamp. A newUsername equal
      to the caller's own username is accepted. */
  lemma UpdateMeSucceeds(repo: Repository, id: int, dto: UserMeUpdateDto, salt: nat, nowMs: nat, k: nat)
    requires WellFormed(repo) && k < |repo.rows| && repo.rows[k].id == id
    requires !(Truthy(dto.newUsername) && HeldByOther(repo.rows, dto.newUsername.value, id))
    requires !(ChangesPassword(dto) && !Compare(dto.oldPassword.value, repo.rows[k].password))
    ensures var u := UpdateMe(repo, id, dto, salt, nowMs);
      && u.result.Ok?
      && u.repo.nextId == repo.nextId
      && |u.repo.rows| == |repo.rows|
      && (forall i :: 0 <= i < |repo.rows| && i != k ==> u.repo.rows[i] == repo.rows[i])
      && u.repo.rows[k].(updatedAt := repo.rows[k].updatedAt) == Edited(repo.rows[k], dto, salt)
      && u.result.value == UserUpdateMeRes(u.repo.rows[k].username, u.repo.rows[k].updatedAt)
  {
    var rows := repo.rows;
    assert ById(rows, id) == Some(rows[k]);
    var edited := Edited(rows[k], dto, salt);
    if Truthy(dto.newUsername) {
      var n := dto.newUsername.value;
      var existing := ByUsername(rows, n);
      assert existing.Some? ==> existing.value.id == id;
    }
    assert !exists i :: 0 <= i < |rows| && rows[i].username == edited.username && rows[i].id != edited.id;
    assert HasId(rows, edited.id);
  }

  /** updateUserMe keeps usernames unique and the id sequence ahead. */
  lemma UpdateMeKeepsWellFormed(repo: Repository, id: int, dto: UserMeUpdateDto, salt: nat, nowMs: nat)
    requires WellFormed(repo)
    ensures WellFormed(UpdateMe(repo, id, dto, salt, nowMs).repo)
  {
    match ById(repo.rows, id)
    case None =>
    case Some(user) =>
      SaveKeepsWellFormed(repo, Edited(user, dto, salt), nowMs);
  }

  class UsersMeService {
    const usersService: UsersService

    constructor (usersService: UsersService)
      ensures this.usersService == usersService
    {
      this.usersService := usersService;
    }

    /** getUserMe: NotFound for an unknown id, otherwise the row's username
        and timestamps; nothing is written. */
    function GetUserMe(id: int): (r: Result<UserMeRes>)
      reads usersService
      ensures r.Err? <==> !HasId(usersService.usersRepository.rows, id)
      ensures r.Err? ==> r.error == NotFound(UserNotFoundMessage)
      ensures r.Ok? ==> exists i :: (0 <= i < |usersService.usersRepository.rows| &&
        var row := usersService.usersRepository.rows[i];
        row.id == id && r.value == UserMeRes(row.username, row.createdAt, row.updatedAt))
    {
      match usersService.FindUserById(id)
      case None => Err(NotFound(UserNotFoundMessage))
      case Some(existingUser) => Ok(UserMeRes(existingUser.username, existingUser.createdAt, existingUser.updatedAt))
    }

    method UpdateUserMe(id: int, dto: UserMeUpdateDto, salt: nat, nowMs: nat) returns (r: Result<UserUpdateMeRes>)
      requires usersService.Valid()
      modifies usersService
      ensures usersService.Valid()
      ensures Updated(r, usersService.usersRepository) == UpdateMe(old(usersService.usersRepository), id, dto, salt, nowMs)
    {
      var found := usersService.FindUserById(id);
      if found.None? {
        return Err(NotFound(UserNotFoundMessage));
      }
      var user := found.value;
      if Truthy(dto.newUsername) {
        var existingUserWithNewUsername := usersService.FindUserByUsername(dto.newUsername.value);
        if existingUserWithNewUsername.Some? && existingUserWithNewUsername.value.id != id {
          return Err(Conflict(UsernameInUseMessage));
        }
        user := user.(username := dto.newUsername.value);
      }
      if ChangesPassword(dto) {
        var isPasswordValid := Compare(dto.oldPassword.value, user.password);
        if !isPasswordValid {
          return Err(Conflict(OldPasswordIncorrectMessage));
        }
        user := user.(password := Hash(dto.newPassword.value, salt, SaltRounds));
      }
      var saved := usersService.SaveUser(user, nowMs);
      match saved
      case Err(e) => r := Err(e);
      case Ok(updatedUser) => r := Ok(UserUpdateMeRes(updatedUser.username, updatedUser.updatedAt));
    }
  }
}
