/**
 * Login, `POST` of `src/app/api/login/route.ts`: a pure function of the user
 * table and the request, so it cannot change the table. An unknown email and
 * a wrong password get the same 401 answer; on success the response carries
 * a JWT (RFC 7519) signed over the user's id, email and username, with
 * `jwt.sign` a parameter.
 */
module LoginRoute {
  import opened Optional
  import opened JsString
  import opened Auth
  import opened UserDb
  import RegisterRoute

  datatype LoginRequest = LoginRequest(email: Option<string>, password: Option<string>)

  datatype Body = Error(message: string) | LoggedIn(message: string, token: string)

  datatype Response = Response(status: int, body: Body)

  /** `jwt.sign({ userId, email, username }, JWT_SECRET)`. */
  type JwtSign = (int, string, string) -> string

  const FieldsRequired := Response(400, Error("Email and password are required."))
  const InvalidCredentials := Response(401, Error("Invalid email or password."))
  const SuccessMessage := "Login successful."

  function Post(users: map<string, User>, req: LoginRequest, scrypt: Scrypt, sign: JwtSign): (r: Response)
    ensures r.status == 400 <==> !(Truthy(req.email) && Truthy(req.password))
    ensures r.status == 400 ==> r == FieldsRequired
    ensures r.status == 200 <==>
              && Truthy(req.email) && Truthy(req.password)
              && req.email.value in users
              && VerifyPassword(req.password.value, users[req.email.value].password, scrypt)
    ensures r.status == 200 ==>
              var user := users[req.email.value];
              r == Response(200, LoggedIn(SuccessMessage, sign(user.id, user.email, user.username)))
    ensures r.status != 200 && r.status != 400 ==> r == InvalidCredentials
  {
    if !Truthy(req.email) || !Truthy(req.password) then FieldsRequired
    else if req.email.value !in users then InvalidCredentials
    else
      var user := users[req.email.value];
      if !VerifyPassword(req.password.value, user.password, scrypt) then InvalidCredentials
      else Response(200, LoggedIn(SuccessMessage, sign(user.id, user.email, user.username)))
  }

  /** Whether the email is unknown or the password wrong, the caller sees the same answer. */
  lemma FailuresIndistinguishable(users: map<string, User>, unknown: LoginRequest, wrong: LoginRequest,
                                  scrypt: Scrypt, sign: JwtSign)
    requires Truthy(unknown.email) && Truthy(unknown.password) && unknown.email.value !in users
    requires Truthy(wrong.email) && Truthy(wrong.password) && wrong.email.value in users
    requires !VerifyPassword(wrong.password.value, users[wrong.email.value].password, scrypt)
    ensures Post(users, unknown, scrypt, sign) == Post(users, wrong, scrypt, sign) == InvalidCredentials
  {
  }

  /** End to end: the account registration stores accepts its own email and password. */
  lemma LoginAfterRegister(users: map<string, User>, id: int, email: string, username: string, password: string,
                           salt: Salt, scrypt: Scrypt, sign: JwtSign)
    requires email != "" && password != ""
    ensures var stored := users[email := RegisterRoute.NewUser(id, email, username, password, salt, scrypt)];
            Post(stored, LoginRequest(Some(email), Some(password)), scrypt, sign)
            == Response(200, LoggedIn(SuccessMessage, sign(id, email, username)))
  {
  }

  /** Registering a new account and then logging in with the same credentials succeeds. */
  method RegisterThenLogin(table: UserTable, email: string, username: string, password: string,
                           salt: Salt, scrypt: Scrypt, sign: JwtSign)
    returns (registered: RegisterRoute.Response, loggedIn: Response)
    requires table.Valid()
    requires email != "" && password != "" && username != "" && email !in table.users
    modifies table
    ensures table.Valid()
    ensures registered.status == 201 && registered.body.Registered?
    ensures loggedIn == Response(200, LoggedIn(SuccessMessage, sign(registered.body.user.id, email, username)))
  {
    registered := RegisterRoute.Post(table, RegisterRoute.RegisterRequest(Some(email), Some(password), Some(username)), salt, scrypt);
    loggedIn := Post(table.users, LoginRequest(Some(email), Some(password)), scrypt, sign);
  }
}
