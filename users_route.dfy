/**
 * app/api/users/route.ts: registration (`POST`) and lookup by username (`GET`).
 */
module UsersRoute {
  import opened Wrappers
  import opened Tokens
  import opened Auth
  import opened Store

  /** The JSON body `{ username, password, is_master? }`. */
  datatype CreateUserRequest = CreateUserRequest(username: Option<string>, password: Option<string>, isMaster: Option<bool>)

  /** The `user` object of a successful `POST`. */
  datatype CreatedUser = CreatedUser(id: nat, username: string, isMaster: bool)

  /** The `user` object of a successful `GET`. */
  datatype UserInfo = UserInfo(id: nat, username: string, isMaster: bool, createdAt: nat)

  const MissingCredentials := "Username e password são obrigatórios"
  const UsernameTooShort := "Username deve ter pelo menos 3 caracteres"
  const PasswordTooShort := "Password deve ter pelo menos 6 caracteres"
  const UsernameTaken := "Username já existe"
  const UsernameRequired := "username é obrigatório"
  const UserNotFound := "Usuário não encontrado"

  /**
   * `POST /api/users`: 400 for a missing field, a username under 3 or a
   * password under 6 characters (in that order), 409 for a taken username,
   * else one new user holding `hashPassword(password)` and `is_master` as 1 or 0.
   * The new user can be read back by `GET`, and usernames stay unique.
   */
  method Post(db: Database, request: CreateUserRequest, saltRandom: seq<byte>, kdf: Kdf)
    returns (response: Response<CreatedUser>)
    requires db.Valid()
    requires |saltRandom| == 16 && IsHexDigestFunction(kdf)
    modifies db
    ensures db.Valid()
    ensures Missing(request.username) || Missing(request.password) ==>
      response == Error(400, MissingCredentials) && unchanged(db)
    ensures !Missing(request.username) && !Missing(request.password) ==>
      var username, password := request.username.value, request.password.value;
      if |username| < 3 then response == Error(400, UsernameTooShort) && unchanged(db)
      else if |password| < 6 then response == Error(400, PasswordTooShort) && unchanged(db)
      else if FindUser(old(db.users), username).Some? then response == Error(409, UsernameTaken) && unchanged(db)
      else
        var user := User(|old(db.users)| + 1, username, HashPassword(password, saltRandom, kdf),
                         if request.isMaster == Some(true) then 1 else 0, old(db.clock));
        && db.users == old(db.users) + [user]
        && db.tables == old(db.tables) && db.characters == old(db.characters) && db.npcs == old(db.npcs)
        && db.clock == old(db.clock) + 1
        && response == Ok(CreatedUser(user.id, username, request.isMaster.GetOr(false)))
        && Get(db, Some(username)) == Ok(UserInfo(user.id, username, request.isMaster.GetOr(false), user.createdAt))
  {
    if Missing(request.username) || Missing(request.password) {
      return Error(400, MissingCredentials);
    }
    var username, password := request.username.value, request.password.value;
    if |username| < 3 {
      return Error(400, UsernameTooShort);
    }
    if |password| < 6 {
      return Error(400, PasswordTooShort);
    }
    if FindUser(db.users, username).Some? {
      return Error(409, UsernameTaken);
    }
    var passwordHash := HashPassword(password, saltRandom, kdf);
    var user := db.InsertUser(username, passwordHash, if request.isMaster == Some(true) then 1 else 0);
    FirstAppend(old(db.users), user, (u: User) => u.username == username);
    response := Ok(CreatedUser(user.id, username, request.isMaster.GetOr(false)));
  }

  /**
   * `GET /api/users?username=`: 400 without a username, 404 when no user has
   * it, else that user with `is_master` reported as `stored == 1`.
   */
  function Get(db: Database, username: Option<string>): (response: Response<UserInfo>)
    reads db
    ensures Missing(username) ==> response == Error(400, UsernameRequired)
    ensures !Missing(username) ==>
      (response.Ok? <==> exists i :: 0 <= i < |db.users| && db.users[i].username == username.value)
    ensures !Missing(username) && response.Error? ==> response == Error(404, UserNotFound)
    ensures response.Ok? ==>
      exists i :: 0 <= i < |db.users| && db.users[i].username == username.value &&
        response.body == UserInfo(db.users[i].id, db.users[i].username, db.users[i].isMaster == 1, db.users[i].createdAt)
  {
    if Missing(username) then Error(400, UsernameRequired)
    else match FindUser(db.users, username.value)
      case None => Error(404, UserNotFound)
      case Some(user) => Ok(UserInfo(user.id, user.username, user.isMaster == 1, user.createdAt))
  }
}
