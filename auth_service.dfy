/**
 * Login and registration (src/service/authService.ts) over the users table.
 *
 * The HMAC of src/utils/hashPassword.ts is the function parameter `hash`:
 * nothing is assumed of it, and `comparePassword` is equality of hashes.
 */
module AuthService {
  import opened Wrappers
  import opened Roles
  import opened Text
  import opened UserModel

  const LoginFailedMessage := "Tên đăng nhập hoặc mật khẩu không đúng"
  const UsernameTakenMessage := "Tên đăng nhập đã tồn tại"
  const PasswordTooShortMessage := "Mật khẩu phải có ít nhất 6 ký tự"
  const InvalidEmailMessage := "Email không hợp lệ"
  const FullNameTooShortMessage := "Tên đầy đủ phải có ít nhất 3 ký tự"

  /** `LoginResult` / `RegisterResult`: success with the public user, or a message. */
  datatype AuthResult = Authenticated(user: PublicUser) | Rejected(message: string)

  /** `comparePassword`: the stored hash is the hash of the given password. */
  predicate ComparePassword(hash: string -> string, password: string, hashedPassword: string) {
    hash(password) == hashedPassword
  }

  /** A string is truthy when present and not empty. */
  predicate Truthy(s: Option<string>) {
    s.Some? && s.value != ""
  }

  /**
   * `loginUser`: the public view of the user when the name is known and the
   * password hashes to the stored hash; one and the same message otherwise.
   */
  function LoginUser(rows: seq<User>, hash: string -> string, username: string, password: string): (r: AuthResult)
    ensures r.Rejected? ==> r.message == LoginFailedMessage
    ensures FindByUsername(rows, username).None? ==> r == Rejected(LoginFailedMessage)
    ensures r.Authenticated? <==>
      FindByUsername(rows, username).Some? && hash(password) == FindByUsername(rows, username).value.password
    ensures r.Authenticated? ==>
      r.user == WithoutPassword(FindByUsername(rows, username).value) && r.user.username == username
  {
    var user := FindByUsername(rows, username);
    if user.None? || !ComparePassword(hash, password, user.value.password) then
      Rejected(LoginFailedMessage)
    else
      Authenticated(WithoutPassword(user.value))
  }

  /** An unknown name and a wrong password give the same answer, so a caller cannot tell them apart. */
  lemma LoginFailuresIndistinguishable(rows: seq<User>, hash: string -> string, unknown: string, password: string, known: string, wrong: string)
    requires FindByUsername(rows, unknown).None?
    requires FindByUsername(rows, known).Some? && hash(wrong) != FindByUsername(rows, known).value.password
    ensures LoginUser(rows, hash, unknown, password) == LoginUser(rows, hash, known, wrong)
  {
  }

  /**
   * The ordered validation of `registerUser`: the first failing check's
   * message, or none. A taken name wins over every other check; an absent or
   * empty email and an absent or empty full name are not checked.
   */
  function RegistrationError(rows: seq<User>, username: string, password: string, email: Option<string>, fullName: Option<string>): (e: Option<string>)
    ensures FindByUsername(rows, username).Some? ==> e == Some(UsernameTakenMessage)
    ensures e.None? <==>
      && FindByUsername(rows, username).None?
      && Utf16Length(password) >= 6
      && (Truthy(email) ==> Includes(email.value, "@"))
      && (Truthy(fullName) ==> Utf16Length(fullName.value) >= 3)
    ensures FindByUsername(rows, username).None? && Utf16Length(password) < 6 ==> e == Some(PasswordTooShortMessage)
    ensures (&& FindByUsername(rows, username).None? && Utf16Length(password) >= 6
             && Truthy(email) && !Includes(email.value, "@"))
      ==> e == Some(InvalidEmailMessage)
    ensures (&& FindByUsername(rows, username).None? && Utf16Length(password) >= 6
             && (Truthy(email) ==> Includes(email.value, "@"))
             && Truthy(fullName) && Utf16Length(fullName.value) < 3)
      ==> e == Some(FullNameTooShortMessage)
    ensures e == Some(InvalidEmailMessage) ==> Truthy(email) && !Includes(email.value, "@")
    ensures e == Some(FullNameTooShortMessage) ==> Truthy(fullName) && |fullName.value| < 3
    ensures !Truthy(email) ==> e != Some(InvalidEmailMessage)
  {
    if FindByUsername(rows, username).Some? then Some(UsernameTakenMessage)
    else if Utf16Length(password) < 6 then Some(PasswordTooShortMessage)
    else if Truthy(email) && !Includes(email.value, "@") then Some(InvalidEmailMessage)
    else if Truthy(fullName) && Utf16Length(fullName.value) < 3 then Some(FullNameTooShortMessage)
    else None
  }

  /** The row a successful registration stores: hashed password, role left to its default. */
  function RegisteredUser(id: int, hash: string -> string, username: string, password: string, email: Option<string>, fullName: Option<string>): (u: User)
    ensures u.id == id && u.username == username && u.password == hash(password)
    ensures u.email == email && u.fullName == fullName && u.role == UserRole.User
  {
    StoredUser(id, UserCreationAttributes(username, hash(password), email, fullName, None))
  }

  /** Whoever registers can then log in with the same name and password. */
  lemma RegisterThenLogin(rows: seq<User>, id: int, hash: string -> string, username: string, password: string, email: Option<string>, fullName: Option<string>)
    requires RegistrationError(rows, username, password, email, fullName).None?
    ensures var u := RegisteredUser(id, hash, username, password, email, fullName);
      LoginUser(rows + [u], hash, username, password) == Authenticated(WithoutPassword(u))
  {
    var u := RegisteredUser(id, hash, username, password, email, fullName);
    assert u in rows + [u];
    var found := FindByUsername(rows + [u], username);
    assert found.value in rows || found.value == u;
  }

  /** `registerUser`: the checks in order, then the row with the hashed password. */
  method RegisterUser(store: UserStore, hash: string -> string, username: string, password: string, email: Option<string>, fullName: Option<string>)
    returns (r: AuthResult)
    requires store.Valid()
    modifies store
    ensures store.Valid()
    ensures var e := RegistrationError(old(store.rows), username, password, email, fullName);
      e.Some? ==> r == Rejected(e.value) && store.rows == old(store.rows) && store.nextId == old(store.nextId)
    ensures var e := RegistrationError(old(store.rows), username, password, email, fullName);
      var u := RegisteredUser(old(store.nextId), hash, username, password, email, fullName);
      e.None? ==> r == Authenticated(WithoutPassword(u)) && store.rows == old(store.rows) + [u] && store.nextId == old(store.nextId) + 1
  {
    if FindByUsername(store.rows, username).Some? {
      return Rejected(UsernameTakenMessage);
    }
    if Utf16Length(password) < 6 {
      return Rejected(PasswordTooShortMessage);
    }
    if email.Some? && email.value != "" && !Includes(email.value, "@") {
      return Rejected(InvalidEmailMessage);
    }
    if fullName.Some? && fullName.value != "" && Utf16Length(fullName.value) < 3 {
      return Rejected(FullNameTooShortMessage);
    }
    var hashedPassword := hash(password);
    var user := store.Create(UserCreationAttributes(username, hashedPassword, email, fullName, None));
    r := Authenticated(WithoutPassword(user));
  }

  /** `createUser`: stores the user with the hashed password and no validation. */
  method CreateUser(store: UserStore, hash: string -> string, username: string, password: string, email: Option<string>, fullName: Option<string>)
    returns (u: User)
    requires store.Valid()
    modifies store
    ensures store.Valid()
    ensures u == RegisteredUser(old(store.nextId), hash, username, password, email, fullName)
    ensures store.rows == old(store.rows) + [u] && store.nextId == old(store.nextId) + 1
  {
    var hashedPassword := hash(password);
    u := store.Create(UserCreationAttributes(username, hashedPassword, email, fullName, None));
  }
}
