/**
 * The single-administrator login of app.py: USER_CREDENTIALS built from the
 * environment, the password check of `login` and the session's `load_user`.
 */
module Auth {
  import opened Wrappers

  /** A logged-in user, identified by user name. */
  datatype User = User(id: string)

  /** `os.getenv(name, default)` over an environment given as a map. */
  function GetEnv(env: map<string, string>, name: string, default: string): string
  {
    if name in env then env[name] else default
  }

  function AdminUsername(env: map<string, string>): string
  {
    GetEnv(env, "ADMIN_USERNAME", "admin")
  }

  function AdminPassword(env: map<string, string>): string
  {
    GetEnv(env, "ADMIN_PASSWORD", "password")
  }

  /** USER_CREDENTIALS: the one administrator and their password. */
  function Credentials(env: map<string, string>): (creds: map<string, string>)
    ensures creds.Keys == {AdminUsername(env)}
  {
    map[AdminUsername(env) := AdminPassword(env)]
  }

  /** `load_user`: a user for a known id, `None` otherwise. */
  function LoadUser(creds: map<string, string>, userId: string): (r: Option<User>)
    ensures r.Some? <==> userId in creds
    ensures r.Some? ==> r.value.id == userId
  {
    if userId in creds then Some(User(userId)) else None
  }

  /** The POST of `login` once the form validates: the user to log in, or `None`. */
  function Login(creds: map<string, string>, username: string, password: string): Option<User>
  {
    if username in creds && password == creds[username] then Some(User(username)) else None
  }

  /** With the configured credentials, exactly the administrator's name and password log in. */
  lemma LoginIff(env: map<string, string>, username: string, password: string)
    ensures Login(Credentials(env), username, password).Some? <==>
      username == AdminUsername(env) && password == AdminPassword(env)
    ensures Login(Credentials(env), username, password).Some? ==>
      Login(Credentials(env), username, password).value == User(username)
  {
  }

  /** Without ADMIN_USERNAME and ADMIN_PASSWORD, only "admin" with "password" is accepted. */
  lemma DefaultLogin(env: map<string, string>, username: string, password: string)
    requires "ADMIN_USERNAME" !in env && "ADMIN_PASSWORD" !in env
    ensures Login(Credentials(env), username, password).Some? <==> username == "admin" && password == "password"
  {
  }

  /** A user who has logged in is found again by `load_user` on later requests. */
  lemma LoginThenLoad(creds: map<string, string>, username: string, password: string)
    requires Login(creds, username, password).Some?
    ensures LoadUser(creds, Login(creds, username, password).value.id) == Login(creds, username, password)
  {
  }

  /** `load_user` rejects every id other than the administrator's. */
  lemma LoadUserOnlyAdmin(env: map<string, string>, userId: string)
    ensures LoadUser(Credentials(env), userId).Some? <==> userId == AdminUsername(env)
  {
  }
}
