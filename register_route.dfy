/**
 * Account registration, `POST` of `src/app/api/register/route.ts`: all three
 * fields must be present and non-empty, the email must be new, and the
 * stored password is the credential record `hashPassword` builds. The
 * random salt and scrypt are parameters (see module Auth).
 */
module RegisterRoute {
  import opened Optional
  import opened JsString
  import opened Auth
  import opened UserDb

  datatype RegisterRequest = RegisterRequest(email: Option<string>, password: Option<string>, username: Option<string>)

  /** The user as the success response shows it: there is no password field. */
  datatype PublicUser = PublicUser(id: int, email: string, username: string)

  datatype Body = Error(message: string) | Registered(message: string, user: PublicUser)

  datatype Response = Response(status: int, body: Body)

  const FieldsRequired := Response(400, Error("All fields are required."))
  const AlreadyExists := Response(400, Error("User already exists."))
  const SuccessMessage := "User registered successfully."

  predicate Complete(req: RegisterRequest) {
    Truthy(req.email) && Truthy(req.password) && Truthy(req.username)
  }

  /** The record `prisma.user.create` stores for a new account. */
  function NewUser(id: int, email: string, username: string, password: string, salt: Salt, scrypt: Scrypt): (u: User)
    ensures u.id == id && u.email == email && u.username == username
    ensures IsCredentialRecord(u.password)
    ensures VerifyPassword(password, u.password, scrypt)
  {
    VerifyHashRoundTrip(password, salt, scrypt);
    User(id, email, username, HashPassword(password, salt, scrypt))
  }

  method Post(table: UserTable, req: RegisterRequest, salt: Salt, scrypt: Scrypt) returns (r: Response)
    requires table.Valid()
    modifies table
    ensures table.Valid()
    ensures !Complete(req) ==>
              r == FieldsRequired && table.users == old(table.users) && table.nextId == old(table.nextId)
    ensures Complete(req) && req.email.value in old(table.users) ==>
              r == AlreadyExists && table.users == old(table.users) && table.nextId == old(table.nextId)
    ensures Complete(req) && req.email.value !in old(table.users) ==>
              var user := NewUser(old(table.nextId), req.email.value, req.username.value, req.password.value, salt, scrypt);
              && table.users == old(table.users)[req.email.value := user]
              && table.nextId == old(table.nextId) + 1
              && r == Response(201, Registered(SuccessMessage, PublicUser(user.id, user.email, user.username)))
  {
    if !Complete(req) {
      return FieldsRequired;
    }
    var email, password, username := req.email.value, req.password.value, req.username.value;
    if email in table.users {
      return AlreadyExists;
    }
    var user := NewUser(table.nextId, email, username, password, salt, scrypt);
    table.users := table.users[email := user];
    table.nextId := table.nextId + 1;
    r := Response(201, Registered(SuccessMessage, PublicUser(user.id, user.email, user.username)));
  }
}
