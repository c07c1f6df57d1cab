/**
 * The `users` table's uniqueness of usernames, the field checks of registration, and the
 * decision the login handler takes.
 */
module Accounts {
  import opened Wrappers
  import opened JsString
  import opened Records

  const MinUsernameLength: nat := 3
  const MaxUsernameLength: nat := 20

  /**
   * `index` is the UNIQUE index on `users.username`: it names, for each username in use,
   * the one row that holds it.
   */
  ghost predicate IndexedUsers(users: map<int, User>, index: map<string, int>) {
    (forall name :: name in index ==> index[name] in users && users[index[name]].username == name) &&
    (forall id :: id in users ==> users[id].username in index && index[users[id].username] == id)
  }

  /** No two users share a username. */
  lemma UsernamesUnique(users: map<int, User>, index: map<string, int>, i: int, j: int)
    requires IndexedUsers(users, index)
    requires i in users && j in users && users[i].username == users[j].username
    ensures i == j
  {
    assert index[users[i].username] == i;
  }

  /** Adding a row with a fresh id and an unused username keeps the index right. */
  lemma AddUserKeepsIndex(users: map<int, User>, index: map<string, int>, id: int, u: User)
    requires IndexedUsers(users, index) && id !in users && u.username !in index
    ensures IndexedUsers(users[id := u], index[u.username := id])
  {
  }

  /** Rewriting a row without touching its username keeps the index right. */
  lemma UpdateUserKeepsIndex(users: map<int, User>, index: map<string, int>, id: int, u: User)
    requires IndexedUsers(users, index) && id in users && u.username == users[id].username
    ensures IndexedUsers(users[id := u], index)
  {
  }

  /** The username rule as intended: 3 to 20 characters, each an ASCII letter or digit. */
  predicate ValidUsername(name: string) {
    MinUsernameLength <= |name| <= MaxUsernameLength && MatchesAlnumPattern(name)
  }

  /** A valid username has no white space to trim, so the login lookup finds it as stored. */
  lemma ValidUsernameIsTrimmed(name: string)
    requires ValidUsername(name)
    ensures Trim(name) == name && Trim(name) != []
  {
    assert IsAsciiAlnum(name[0]) && IsAsciiAlnum(name[|name| - 1]);
    assert TrimStart(name) == name;
  }

  /**
   * The password-length test of registration, as written: it fires only when the length is 1,
   * 2, 3 and 4 at the same time, so it never fires and no minimum length is enforced.
   */
  function PasswordLengthCheck(password: string): (fires: bool)
    ensures !fires
  {
    var n := JsLength(password);
    n == 1 && n == 2 && n == 3 && n == 4
  }

  /** The fields registration stores: the trimmed email and the trimmed username. */
  datatype Fields = Fields(email: string, username: string)

  /**
   * The checks of the registration handler before it touches the store, in their order: each
   * field non-blank; then, on the trimmed username, a length of 1 or 2 is too short, over 20 is too
   * long, and only ASCII letters and digits may appear; then the (inert) password length.
   * Accepted input is exactly a non-blank email, a non-blank password and a username whose
   * trimmed form obeys the username rule; the password itself is kept untrimmed.
   */
  function CheckRegistration(email: string, username: string, password: string): (r: Result<Fields, Message>)
    ensures r.Success? <==> Trim(email) != [] && Trim(password) != [] && ValidUsername(Trim(username))
    ensures r.Success? ==> r.value == Fields(Trim(email), Trim(username))
    ensures Trim(email) == [] ==> r == Failure(MissingEmail)
    ensures r.Failure? ==> r.error != PasswordTooShort
  {
    if Trim(email) == [] then Failure(MissingEmail)
    else if Trim(username) == [] then Failure(MissingUsername)
    else if Trim(password) == [] then Failure(MissingPassword)
    else
      var name := Trim(username);
      var n := JsLength(name);
      if n == 1 || n == 2 then Failure(UsernameTooShort)
      else if n > MaxUsernameLength then Failure(UsernameTooLong)
      else if !MatchesAlnumPattern(name) then Failure(UsernameNotAlphanumeric)
      else if PasswordLengthCheck(password) then Failure(PasswordTooShort)
      else Success(Fields(Trim(email), name))
  }

  /**
   * The login handler's decision: both fields non-blank, a user with exactly the given
   * (untrimmed) username, and a password that matches that user's hash. On success the session
   * names that user's row.
   */
  function Login(users: map<int, User>, index: map<string, int>, username: string, password: string): (r: Result<Session, Message>)
    requires IndexedUsers(users, index)
    ensures r.Success? <==>
      Trim(username) != [] && Trim(password) != [] && username in index && Matches(password, users[index[username]].password)
    ensures r.Success? ==>
      r.value.username == username && r.value.userid in users && users[r.value.userid].username == username
  {
    if Trim(username) == [] then Failure(MissingUsername)
    else if Trim(password) == [] then Failure(MissingPassword)
    else if username !in index then Failure(UnknownUsername)
    else
      var id := index[username];
      if !Matches(password, users[id].password) then Failure(WrongPassword)
      else Success(Session(id, users[id].username))
  }

  /**
   * After a registration went through, logging in with the stored (trimmed) username and the same
   * password gives the very session registration issued.
   */
  lemma LoginAfterRegister(users: map<int, User>, index: map<string, int>, id: int,
                           email: string, username: string, password: string, salt: Salt)
    requires IndexedUsers(users, index) && id !in users
    requires CheckRegistration(email, username, password).Success?
    requires Trim(username) !in index
    ensures var f := CheckRegistration(email, username, password).value;
      IndexedUsers(users[id := User(f.email, f.username, Hash(password, salt))], index[f.username := id])
    ensures var f := CheckRegistration(email, username, password).value;
      Login(users[id := User(f.email, f.username, Hash(password, salt))], index[f.username := id], f.username, password)
        == Success(Session(id, f.username))
  {
    var f := CheckRegistration(email, username, password).value;
    AddUserKeepsIndex(users, index, id, User(f.email, f.username, Hash(password, salt)));
    TrimIdempotent(username);
  }

  /**
   * After a change of password, the new password logs the user in and the old one, if different,
   * no longer does.
   */
  lemma LoginAfterPasswordChange(users: map<int, User>, index: map<string, int>, id: int,
                                 oldPassword: string, newPassword: string, salt: Salt)
    requires IndexedUsers(users, index) && id in users
    requires Trim(users[id].username) != [] && Trim(newPassword) != []
    ensures IndexedUsers(users[id := users[id].(password := Hash(newPassword, salt))], index)
    ensures Login(users[id := users[id].(password := Hash(newPassword, salt))], index, users[id].username, newPassword)
      == Success(Session(id, users[id].username))
    ensures oldPassword != newPassword ==>
      Login(users[id := users[id].(password := Hash(newPassword, salt))], index, users[id].username, oldPassword).Failure?
  {
    UpdateUserKeepsIndex(users, index, id, users[id].(password := Hash(newPassword, salt)));
  }

  /**
   * Changing the password refuses only the empty string, so a password of white space alone is
   * stored. Login trims the password before its blank test, so from then on no password at all
   * logs that user in, and the stored one itself is answered with the missing-password message.
   */
  lemma LockedOutByBlankPassword(users: map<int, User>, index: map<string, int>, id: int,
                                 newPassword: string, salt: Salt, password: string)
    requires IndexedUsers(users, index) && id in users
    requires newPassword != [] && Trim(newPassword) == []
    ensures IndexedUsers(users[id := users[id].(password := Hash(newPassword, salt))], index)
    ensures Login(users[id := users[id].(password := Hash(newPassword, salt))], index, users[id].username, password).Failure?
    ensures Trim(users[id].username) != [] ==>
      Login(users[id := users[id].(password := Hash(newPassword, salt))], index, users[id].username, newPassword)
        == Failure(MissingPassword)
  {
    var updated := users[id := users[id].(password := Hash(newPassword, salt))];
    UpdateUserKeepsIndex(users, index, id, updated[id]);
    var name := users[id].username;
    if Trim(name) != [] && Trim(password) != [] && name in index {
      assert updated[index[name]].username == name;
      assert index[name] == id;
      assert password != newPassword;
    }
  }
}
