/**
 * The `users` table and the checks made against it: `validar_login`
 * (src-tauri/src/main.rs:280-354), `validar_admin_password` (128-146), its command wrapper
 * `validar_password_admin` (148-151), and the day-closure authorization step of
 * `generar_recibo_ventas` (468-476). The table is a sequence of rows; failures to open the
 * database or to prepare a statement are not modelled.
 */
module Credentials {
  import opened Wrappers
  import opened RustText

  /** A row of `users`. `admin` is `None` when the `Admin` column holds no integer. */
  datatype User = User(name: string, password: string, admin: Option<int>)

  const I32Min: int := -0x8000_0000
  const I32Max: int := 0x7FFF_FFFF

  const AdminPasswordWrong: string := "Clave de administrador incorrecta"
  const AdminPasswordMissing: string := "Se requiere clave de administrador"
  const LoginOk: string := "Login exitoso"
  const PasswordWrong: string := "Contraseña incorrecta"
  const UserMissing: string := "Usuario no encontrado"

  /** The row matches `Admin = 1 AND password = ?1`. */
  predicate IsAdminWith(u: User, password: string) {
    u.admin == Some(1) && u.password == password
  }

  /** `SELECT COUNT(1) FROM users WHERE Admin = 1 AND password = ?1`. */
  function AdminMatches(users: seq<User>, password: string): (count: nat)
    ensures count <= |users|
    ensures count > 0 <==> exists u :: u in users && IsAdminWith(u, password)
  {
    if users == [] then 0
    else
      var rest := AdminMatches(users[1..], password);
      assert forall u :: u in users <==> u == users[0] || u in users[1..];
      (if IsAdminWith(users[0], password) then 1 else 0) + rest
  }

  /** `validar_admin_password`: some administrator has exactly this password. */
  function ValidateAdminPassword(users: seq<User>, password: string): (r: Outcome)
    ensures r == Pass <==> exists u :: u in users && IsAdminWith(u, password)
    ensures r != Pass ==> r == Fail(AdminPasswordWrong)
  {
    if AdminMatches(users, password) > 0 then Pass else Fail(AdminPasswordWrong)
  }

  /** `validar_password_admin`: the command trims the password before checking it. */
  function ValidatePasswordCommand(users: seq<User>, password: string): (r: Outcome)
    ensures r == Pass <==> exists u :: u in users && IsAdminWith(u, Trim(password))
  {
    ValidateAdminPassword(users, Trim(password))
  }

  /**
   * The authorization step of `generar_recibo_ventas`. A day closure asked for outside an
   * administrator session needs a password, which is checked as given; anything else passes.
   * `session` is what was read from the session flag file, a missing or unreadable one
   * counting as no administrator session.
   */
  function AuthorizeClosure(isClosure: bool, session: Option<bool>, password: Option<string>,
                            users: seq<User>): (r: Outcome)
    ensures r == Pass <==>
      !isClosure || session == Some(true)
      || (password.Some? && exists u :: u in users && IsAdminWith(u, password.value))
    ensures r == Fail(AdminPasswordMissing) <==> isClosure && session != Some(true) && password.None?
    ensures r.Fail? && password.Some? ==> r == Fail(AdminPasswordWrong)
  {
    if isClosure && !session.GetOr(false) then
      match password
      case None => Fail(AdminPasswordMissing)
      case Some(p) => ValidateAdminPassword(users, p)
    else
      Pass
  }

  /**
   * The day-closure check does not trim: an administrator's password typed with trailing
   * blanks is accepted by the command that trims and refused by the day-closure check.
   */
  lemma ClosureDoesNotTrim(name: string, password: string, tail: string)
    requires password != [] && !IsWhitespace(password[0]) && !IsWhitespace(password[|password| - 1])
    requires tail != [] && Blank(tail)
    ensures var users := [User(name, password, Some(1))];
      && ValidatePasswordCommand(users, password + tail) == Pass
      && AuthorizeClosure(true, None, Some(password + tail), users) == Fail(AdminPasswordWrong)
  {
    var users := [User(name, password, Some(1))];
    TrailingBlanksTrimmed(password, tail);
    assert IsAdminWith(users[0], password);
    assert |password + tail| > |password|;
    assert forall u :: u in users ==> !IsAdminWith(u, password + tail);
  }

  /** Trailing blanks after a text with no whitespace at its ends trim away. */
  lemma TrailingBlanksTrimmed(password: string, tail: string)
    requires password != [] && !IsWhitespace(password[0]) && !IsWhitespace(password[|password| - 1])
    requires Blank(tail)
    ensures Trim(password + tail) == password
  {
    assert (password + tail)[0] == password[0];
    assert TrimStart(password + tail) == password + tail;
    TrimEndBlankTail(password, tail);
    TrimEndKeeps(password);
  }

  /** The first row with the name: `query_row` reads only one row. */
  function FindUser(users: seq<User>, name: string): (r: Option<nat>)
    ensures r.None? <==> forall u :: u in users ==> u.name != name
    ensures r.Some? ==> r.value < |users| && users[r.value].name == name
    ensures r.Some? ==> forall j :: 0 <= j < r.value ==> users[j].name != name
  {
    if users == [] then None
    else if users[0].name == name then Some(0)
    else
      var rest := FindUser(users[1..], name);
      assert forall u :: u in users <==> u == users[0] || u in users[1..];
      match rest
      case None => None
      case Some(i) =>
        assert forall j :: 1 <= j < i + 1 ==> users[j] == users[1..][j - 1];
        Some(i + 1)
  }

  /** `row.get::<_, i32>(1)`: the `Admin` column read as a 32-bit integer. */
  function AdminColumn(u: User): (r: Option<int>)
    ensures r.Some? <==> u.admin.Some? && I32Min <= u.admin.value <= I32Max
    ensures r.Some? ==> r.value == u.admin.value
  {
    match u.admin
    case Some(a) => if I32Min <= a <= I32Max then Some(a) else None
    case None => None
  }

  /** What the login command answers. */
  datatype LoginResponse = LoginResponse(success: bool, message: string, isAdmin: bool)

  /**
   * `validar_login`: the first row with the name decides. A row whose `Admin` value cannot be
   * read as an `i32` fails the query like a missing row; otherwise the password must be equal
   * as typed, and the session is an administrator's when `Admin` is 1.
   */
  function Login(users: seq<User>, name: string, password: string): (r: LoginResponse)
    ensures r.success <==>
      FindUser(users, name).Some?
      && AdminColumn(users[FindUser(users, name).value]).Some?
      && users[FindUser(users, name).value].password == password
    ensures r.isAdmin <==> r.success && users[FindUser(users, name).value].admin == Some(1)
    ensures r.message == (if r.success then LoginOk
                          else if FindUser(users, name).Some?
                                  && AdminColumn(users[FindUser(users, name).value]).Some?
                               then PasswordWrong
                          else UserMissing)
  {
    match FindUser(users, name)
    case None => LoginResponse(false, UserMissing, false)
    case Some(i) =>
      match AdminColumn(users[i])
      case None => LoginResponse(false, UserMissing, false)
      case Some(a) =>
        if password == users[i].password then LoginResponse(true, LoginOk, a == 1)
        else LoginResponse(false, PasswordWrong, false)
  }

  /** Only the first row with a name can log in: a later row with the same name and another password is never reached. */
  lemma {:induction false} LoginUsesFirstRow(users: seq<User>, name: string, password: string)
    requires Login(users, name, password).success
    ensures exists i :: 0 <= i < |users| && users[i].name == name && users[i].password == password
              && forall j :: 0 <= j < i ==> users[j].name != name
  {
    var i := FindUser(users, name).value;
    assert users[i].name == name && users[i].password == password;
  }

  /** A failed login never reports an administrator. */
  lemma FailedLoginIsNotAdmin(users: seq<User>, name: string, password: string)
    requires !Login(users, name, password).success
    ensures !Login(users, name, password).isAdmin
    ensures Login(users, name, password).message != LoginOk
  {
  }

  /** A duplicated name: the second row's password is refused. */
  lemma ShadowedRowRefused(name: string)
    ensures Login([User(name, "a", Some(0)), User(name, "b", Some(1))], name, "b")
            == LoginResponse(false, PasswordWrong, false)
  {
  }
}
