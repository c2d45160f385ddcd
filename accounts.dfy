/**
 * Users, the login session and the credential lookup shared by both
 * versions. Password hashing is a foreign call: the salted hash of a new
 * password reaches the model as a value, and `check_password_hash` as a
 * function parameter.
 */
module Accounts {
  import opened Wrappers
  import opened Tables

  /** A row of the `users` table; `username` is UNIQUE. */
  datatype User = User(id: int, username: string, passwordHash: string)

  /** The signed-in identity kept in the session. */
  datatype Session = Session(userId: int, username: string)

  /** `SELECT * FROM users WHERE username=?` with `fetchone()`: the first row
      with that name. */
  function FindUser(users: seq<User>, username: string): (r: Option<User>)
    ensures r.Some? ==> r.value in users && r.value.username == username
    ensures r.None? <==> forall k :: 0 <= k < |users| ==> users[k].username != username
  {
    Find(users, (u: User) => u.username == username)
  }

  /** The session a login establishes: the user must exist and the password
      must check against the stored hash; otherwise there is none. */
  function LoginSession(users: seq<User>, username: string, password: string,
                        checkHash: (string, string) -> bool): (s: Option<Session>)
    ensures s.Some? <==> FindUser(users, username).Some?
                         && checkHash(FindUser(users, username).value.passwordHash, password)
    ensures s.Some? ==> s.value.username == username
                        && exists u :: u in users && u.username == username && u.id == s.value.userId
  {
    match FindUser(users, username)
    case None => None
    case Some(u) => if checkHash(u.passwordHash, password) then Some(Session(u.id, u.username)) else None
  }

  /** Usernames are unique and ids strictly increase in table order, all below
      the next AUTOINCREMENT value. */
  ghost predicate UsersValid(users: seq<User>, nextId: int) {
    && IdsBelow(users, (u: User) => u.id, nextId)
    && (forall i, j :: 0 <= i < j < |users| ==> users[i].username != users[j].username)
  }

  /** Registering a name no user has, under the next id, keeps the table valid. */
  lemma RegisterValid(users: seq<User>, nextId: int, username: string, passwordHash: string)
    requires UsersValid(users, nextId)
    requires FindUser(users, username).None?
    ensures UsersValid(users + [User(nextId, username, passwordHash)], nextId + 1)
  {
    AppendIdsBelow(users, User(nextId, username, passwordHash), (u: User) => u.id, nextId);
  }
}
