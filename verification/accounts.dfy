/** Accounts and the validation that `/api/signup` applies before creating
    one. */
module Accounts {
  import opened Api
  import opened JsString

  datatype User = User(
    id: string,
    username: string,
    passwordHash: string,
    profilePic: Option<string>)

  /** Some account's username equals `name` once both are lower-cased. */
  predicate Taken(users: seq<User>, name: string) {
    exists i :: 0 <= i < |users| && AsciiLower(users[i].username) == AsciiLower(name)
  }

  /** No two accounts share a username up to letter case. */
  predicate NamesUnique(users: seq<User>) {
    forall i, j :: 0 <= i < j < |users| ==>
      AsciiLower(users[i].username) != AsciiLower(users[j].username)
  }

  const MinUsernameLength: nat := 3
  const MaxUsernameLength: nat := 32
  const MinPasswordLength: nat := 6

  /** The first rule a signup breaks, in the order the handler checks them
      (a missing field is the empty string): both fields given, username of
      3 to 32 characters, password of at least 6, username not taken. */
  function SignupError(users: seq<User>, username: string, password: string): (e: Option<Error>)
    ensures e.None? <==>
              && MinUsernameLength <= |username| <= MaxUsernameLength
              && MinPasswordLength <= |password|
              && !Taken(users, username)
    ensures e.Some? ==> StatusCode(e.value) == 400 || StatusCode(e.value) == 409
    ensures (e.Some? && StatusCode(e.value) == 409) <==>
              && MinUsernameLength <= |username| <= MaxUsernameLength
              && MinPasswordLength <= |password|
              && Taken(users, username)
  {
    if username == "" || password == "" then
      Some(BadRequest("Username and password are required"))
    else if |username| < MinUsernameLength || |username| > MaxUsernameLength then
      Some(BadRequest("Username must be 3-32 characters"))
    else if |password| < MinPasswordLength then
      Some(BadRequest("Password must be at least 6 characters"))
    else if Taken(users, username) then
      Some(Conflict("Username already exists"))
    else None
  }

  /** An accepted signup keeps usernames unique up to letter case. */
  lemma SignupKeepsNamesUnique(users: seq<User>, username: string, password: string, user: User)
    requires NamesUnique(users)
    requires SignupError(users, username, password).None? && user.username == username
    ensures NamesUnique(users + [user])
  {
    var all := users + [user];
    forall i, j | 0 <= i < j < |all|
      ensures AsciiLower(all[i].username) != AsciiLower(all[j].username)
    {
      if j == |users| {
        assert all[i] == users[i];
      } else {
        assert all[i] == users[i] && all[j] == users[j];
      }
    }
  }
}
