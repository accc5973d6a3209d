/** The user table of `UserServiceImpl`: accounts are kept by id, usernames
    and emails are unique, and a password is stored only as the encoder's
    hash of it. The encoder is a parameter `encode`. */
module UserService {
  import opened Common

  datatype UserRole = Admin | Reader
  datatype UserStatus = Active | Inactive

  /** A stored account; `password` holds the encoded password. */
  datatype User = User(
    username: string,
    password: string,
    name: string,
    email: string,
    phone: string,
    role: UserRole,
    status: UserStatus)

  /** The account an administrator submits to `updateUser`: the password may
      be null, meaning "keep the current one". */
  datatype UserForm = UserForm(
    username: string,
    password: Option<string>,
    name: string,
    email: string,
    phone: string,
    role: UserRole,
    status: UserStatus)

  type Users = map<Id, User>

  /** `existsByUsername`. */
  predicate UsernameTaken(users: Users, username: string) {
    exists id :: id in users && users[id].username == username
  }

  /** `existsByEmail`. */
  predicate EmailTaken(users: Users, email: string) {
    exists id :: id in users && users[id].email == email
  }

  predicate UsernamesUnique(users: Users) {
    forall i, j :: i in users && j in users && users[i].username == users[j].username ==> i == j
  }

  predicate EmailsUnique(users: Users) {
    forall i, j :: i in users && j in users && users[i].email == users[j].email ==> i == j
  }

  /** What the user table always satisfies. */
  predicate Accounts(users: Users) {
    UsernamesUnique(users) && EmailsUnique(users)
  }

  /** `createUser`: the username is checked first, the email second; the
      account is stored with its password encoded. */
  function CreateUser(users: Users, u: User, encode: string -> string, newId: Id): (s: Step<User, Users>)
    requires newId !in users
    ensures s.result.Ok? <==> !UsernameTaken(users, u.username) && !EmailTaken(users, u.email)
    ensures UsernameTaken(users, u.username) ==> s.result == Err(UsernameExists)
    ensures !UsernameTaken(users, u.username) && EmailTaken(users, u.email) ==> s.result == Err(EmailExists)
    ensures s.result.Err? ==> s.after == users
    ensures s.result.Ok? ==>
      && s.result.value == u.(password := encode(u.password))
      && s.after == users[newId := s.result.value]
  {
    if UsernameTaken(users, u.username) then Step(Err(UsernameExists), users)
    else if EmailTaken(users, u.email) then Step(Err(EmailExists), users)
    else
      var saved := u.(password := encode(u.password));
      Step(Ok(saved), users[newId := saved])
  }

  /** The password `updateUser` leaves stored: a new non-empty password is
      encoded, a null or empty one keeps the current hash. */
  function NewPassword(current: string, given: Option<string>, encode: string -> string): (p: string)
    ensures given.Some? && given.value != "" ==> p == encode(given.value)
    ensures given.None? || given.value == "" ==> p == current
  {
    match given
    case Some(raw) => if raw != "" then encode(raw) else current
    case None => current
  }

  /** `updateUser`: the id must exist; changing the username or the email to
      one another account holds is refused (username first); every other
      column is overwritten. */
  function UpdateUser(users: Users, id: Id, f: UserForm, encode: string -> string): (s: Step<User, Users>)
    ensures s.result.Ok? <==>
      && id in users
      && (users[id].username == f.username || !UsernameTaken(users, f.username))
      && (users[id].email == f.email || !EmailTaken(users, f.email))
    ensures id !in users ==> s.result == Err(UserNotFound)
    ensures id in users && users[id].username != f.username && UsernameTaken(users, f.username) ==>
      s.result == Err(UsernameExists)
    ensures (&& id in users && (users[id].username == f.username || !UsernameTaken(users, f.username))
             && users[id].email != f.email && EmailTaken(users, f.email)) ==> s.result == Err(EmailExists)
    ensures s.result.Err? ==> s.after == users
    ensures s.result.Ok? ==>
      && s.result.value == User(f.username, NewPassword(users[id].password, f.password, encode),
                                f.name, f.email, f.phone, f.role, f.status)
      && s.after == users[id := s.result.value]
  {
    if id !in users then Step(Err(UserNotFound), users)
    else
      var existing := users[id];
      if existing.username != f.username && UsernameTaken(users, f.username) then Step(Err(UsernameExists), users)
      else if existing.email != f.email && EmailTaken(users, f.email) then Step(Err(EmailExists), users)
      else
        var saved := existing.(username := f.username, name := f.name, email := f.email, phone := f.phone,
                               role := f.role, status := f.status,
                               password := NewPassword(existing.password, f.password, encode));
        Step(Ok(saved), users[id := saved])
  }

  /** `deleteUser`: a missing id is refused by the service; an account that a
      borrow record, reservation or review still refers to (`inUse`) is
      refused by the database's foreign keys. */
  function DeleteUser(users: Users, inUse: set<Id>, id: Id): (s: Step<(), Users>)
    ensures s.result.Ok? <==> id in users && id !in inUse
    ensures id !in users ==> s.result == Err(UserNotFound)
    ensures id in users && id in inUse ==> s.result == Err(StillReferenced)
    ensures s.result.Err? ==> s.after == users
    ensures s.result.Ok? ==> s.after.Keys == users.Keys - {id}
    ensures s.result.Ok? ==> forall k :: k in s.after ==> s.after[k] == users[k]
  {
    if id !in users then Step(Err(UserNotFound), users)
    else if id in inUse then Step(Err(StillReferenced), users)
    else Step(Ok(()), users - {id})
  }

  /** `getUserById`. */
  function GetUserById(users: Users, id: Id): (r: Result<User>)
    ensures r.Ok? <==> id in users
    ensures r.Ok? ==> r.value == users[id]
    ensures r.Err? ==> r.error == UserNotFound
  {
    if id in users then Ok(users[id]) else Err(UserNotFound)
  }

  /** `findByUsername`: the one account with this username, if any. */
  function FindByUsername(users: Users, username: string): (r: Option<Id>)
    requires UsernamesUnique(users)
    ensures r.Some? <==> UsernameTaken(users, username)
    ensures r.Some? ==> r.value in users && users[r.value].username == username
  {
    if UsernameTaken(users, username) then
      var id :| id in users && users[id].username == username;
      Some(id)
    else None
  }

  /** `getUserByUsername`: fails when no account has that username. */
  function GetUserByUsername(users: Users, username: string): (r: Result<User>)
    requires UsernamesUnique(users)
    ensures r.Ok? <==> UsernameTaken(users, username)
    ensures r.Ok? ==> r.value.username == username && exists id :: id in users && users[id] == r.value
    ensures r.Err? ==> r.error == UserNotFound
  {
    match FindByUsername(users, username)
    case Some(id) => Ok(users[id])
    case None => Err(UserNotFound)
  }

  // ----- Usernames and emails stay unique -----

  lemma OperationsKeepAccounts(users: Users, u: User, f: UserForm, encode: string -> string,
                               inUse: set<Id>, id: Id, newId: Id)
    requires Accounts(users) && newId !in users
    ensures Accounts(CreateUser(users, u, encode, newId).after)
    ensures Accounts(UpdateUser(users, id, f, encode).after)
    ensures Accounts(DeleteUser(users, inUse, id).after)
  {
  }

  /** A created account is found by its username, holding the encoded
      password and nothing else changed. */
  lemma CreatedUserIsFoundByUsername(users: Users, u: User, encode: string -> string, newId: Id)
    requires Accounts(users) && newId !in users
    requires CreateUser(users, u, encode, newId).result.Ok?
    ensures var after := CreateUser(users, u, encode, newId).after;
      && Accounts(after)
      && GetUserByUsername(after, u.username) == Ok(u.(password := encode(u.password)))
  {
    OperationsKeepAccounts(users, u, UserForm("", None, "", "", "", Reader, Active), encode, {}, newId, newId);
    var after := CreateUser(users, u, encode, newId).after;
    assert after[newId].username == u.username;
  }
}
