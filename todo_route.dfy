/**
 * The todo API of `src/app/api/todo/route.ts`. The caller is identified by
 * the JWT in an `Authorization: Bearer <token>` header (RFC 6750 section
 * 2.1); GET lists the caller's todos, POST creates one, PUT edits and DELETE
 * removes one, the last two only for the todo's owner. The database table is
 * a map from id to record inside a TodoStore object; `jwt.verify` is a
 * parameter, a partial function from token to user id.
 */
module TodoRoute {
  import opened Optional
  import opened JsString

  datatype Todo = Todo(id: int, title: string, content: string, isCompleted: bool, userId: int)

  datatype Body =
    | Error(message: string)
    | TodoList(todos: map<int, Todo>)
    | TodoRecord(todo: Todo)
    | Message(text: string)

  datatype Response = Response(status: int, body: Body)

  const Unauthorized := Response(401, Error("Unauthorized"))
  const Forbidden := Response(403, Error("Unauthorized or Todo not found"))
  const DeletedMessage := "Todo deleted successfully"

  /** `jwt.verify(token, JWT_SECRET).userId`, None where `jwt.verify` throws. */
  type JwtVerify = string -> Option<int>

  const BearerPrefix := "Bearer "

  /** The token part of the header: the second space-separated field after a `Bearer ` prefix. */
  function BearerToken(authHeader: Option<string>): (token: Option<string>)
    ensures token.Some? <==> authHeader.Some? && StartsWith(authHeader.value, BearerPrefix)
    ensures token.Some? ==> token.value == Split(authHeader.value[|BearerPrefix|..], ' ')[0]
    ensures token.Some? ==> ' ' !in token.value
  {
    if !Truthy(authHeader) || !StartsWith(authHeader.value, BearerPrefix) then None
    else
      var header := authHeader.value;
      assert header == "Bearer" + [' '] + header[|BearerPrefix|..];
      SplitAtFirst("Bearer", ' ', header[|BearerPrefix|..]);
      Some(Split(header, ' ')[1])
  }

  /** `getUserIdFromToken(req)`: null without a bearer token or when verification fails. */
  function UserIdFromToken(authHeader: Option<string>, verify: JwtVerify): (userId: Option<int>)
    ensures userId.Some? ==> authHeader.Some? && StartsWith(authHeader.value, BearerPrefix)
    ensures BearerToken(authHeader).Some? ==> userId == verify(BearerToken(authHeader).value)
  {
    match BearerToken(authHeader)
    case None => None
    case Some(token) => verify(token)
  }

  /** A bearer header built from a token without spaces hands exactly that token to verification. */
  lemma BearerHeaderRoundTrip(token: string, verify: JwtVerify)
    requires ' ' !in token
    ensures BearerToken(Some(BearerPrefix + token)) == Some(token)
    ensures UserIdFromToken(Some(BearerPrefix + token), verify) == verify(token)
  {
    var header := BearerPrefix + token;
    assert header[..|BearerPrefix|] == BearerPrefix;
    assert header[|BearerPrefix|..] == token;
    SplitWithoutSeparator(token, ' ');
  }

  /** `if (!userId)` is false: a user id is present and is not 0. */
  predicate Authenticated(userId: Option<int>) {
    userId.Some? && userId.value != 0
  }

  /** The ownership guard of PUT and DELETE: the todo exists and the caller owns it. */
  predicate OwnedBy(todos: map<int, Todo>, id: int, userId: int) {
    id in todos && todos[id].userId == userId
  }

  /** `prisma.todo.update({ data: { title, content } })`: an undefined field is left as it was. */
  function Edited(todo: Todo, title: Option<string>, content: Option<string>): (r: Todo)
    ensures r.id == todo.id && r.isCompleted == todo.isCompleted && r.userId == todo.userId
    ensures r.title == (if title.Some? then title.value else todo.title)
    ensures r.content == (if content.Some? then content.value else todo.content)
  {
    todo.(title := if title.Some? then title.value else todo.title,
          content := if content.Some? then content.value else todo.content)
  }

  /**
   * A PUT that carries neither title nor content, which is what the
   * dashboard's completion toggle sends, changes nothing: `isCompleted`
   * is never written by the server.
   */
  lemma EditWithoutFieldsIsIdentity(todo: Todo)
    ensures Edited(todo, None, None) == todo
  {
  }

  class TodoStore {
    var todos: map<int, Todo>
    /** The next value of the table's autoincrement id. */
    var nextId: int

    ghost predicate Valid()
      reads this
    {
      nextId >= 1 && forall id :: id in todos ==> todos[id].id == id && 1 <= id < nextId
    }

    constructor ()
      ensures Valid() && todos == map[]
    {
      todos := map[];
      nextId := 1;
    }

    /** GET: exactly the caller's todos, or 401. */
    function Get(authHeader: Option<string>, verify: JwtVerify): (r: Response)
      reads this
      ensures r.status == 401 <==> !Authenticated(UserIdFromToken(authHeader, verify))
      ensures r.status == 401 ==> r == Unauthorized
      ensures r.status != 401 ==>
                r.status == 200 && r.body.TodoList?
                && (forall id :: id in r.body.todos <==> OwnedBy(todos, id, UserIdFromToken(authHeader, verify).value))
                && (forall id :: id in r.body.todos ==> r.body.todos[id] == todos[id])
    {
      var userId := UserIdFromToken(authHeader, verify);
      if !Authenticated(userId) then Unauthorized
      else Response(200, TodoList(map id | id in todos && todos[id].userId == userId.value :: todos[id]))
    }

    /** POST: one new todo owned by the caller, nothing else changes. */
    method Post(authHeader: Option<string>, verify: JwtVerify, title: string, content: string)
      returns (r: Response)
      requires Valid()
      modifies this
      ensures Valid()
      ensures !Authenticated(UserIdFromToken(authHeader, verify)) ==>
                r == Unauthorized && todos == old(todos) && nextId == old(nextId)
      ensures Authenticated(UserIdFromToken(authHeader, verify)) ==>
                var created := Todo(old(nextId), title, content, false, UserIdFromToken(authHeader, verify).value);
                && old(nextId) !in old(todos)
                && todos == old(todos)[old(nextId) := created]
                && nextId == old(nextId) + 1
                && r == Response(201, TodoRecord(created))
    {
      var userId := UserIdFromToken(authHeader, verify);
      if !Authenticated(userId) {
        return Unauthorized;
      }
      var created := Todo(nextId, title, content, false, userId.value);
      todos := todos[nextId := created];
      nextId := nextId + 1;
      r := Response(201, TodoRecord(created));
    }

    /** PUT: the owner's todo gets the given title and content; owner and completion stay. */
    method Put(authHeader: Option<string>, verify: JwtVerify, id: int, title: Option<string>, content: Option<string>)
      returns (r: Response)
      requires Valid()
      modifies this
      ensures Valid() && nextId == old(nextId)
      ensures !Authenticated(UserIdFromToken(authHeader, verify)) ==>
                r == Unauthorized && todos == old(todos)
      ensures Authenticated(UserIdFromToken(authHeader, verify))
              && !OwnedBy(old(todos), id, UserIdFromToken(authHeader, verify).value) ==>
                r == Forbidden && todos == old(todos)
      ensures Authenticated(UserIdFromToken(authHeader, verify))
              && OwnedBy(old(todos), id, UserIdFromToken(authHeader, verify).value) ==>
                todos == old(todos)[id := Edited(old(todos)[id], title, content)]
                && r == Response(200, TodoRecord(todos[id]))
    {
      var userId := UserIdFromToken(authHeader, verify);
      if !Authenticated(userId) {
        return Unauthorized;
      }
      if !OwnedBy(todos, id, userId.value) {
        return Forbidden;
      }
      var updated := Edited(todos[id], title, content);
      todos := todos[id := updated];
      r := Response(200, TodoRecord(updated));
    }

    /** DELETE: the owner's todo, and only it, leaves the table. */
    method Delete(authHeader: Option<string>, verify: JwtVerify, id: int) returns (r: Response)
      requires Valid()
      modifies this
      ensures Valid() && nextId == old(nextId)
      ensures !Authenticated(UserIdFromToken(authHeader, verify)) ==>
                r == Unauthorized && todos == old(todos)
      ensures Authenticated(UserIdFromToken(authHeader, verify))
              && !OwnedBy(old(todos), id, UserIdFromToken(authHeader, verify).value) ==>
                r == Forbidden && todos == old(todos)
      ensures Authenticated(UserIdFromToken(authHeader, verify))
              && OwnedBy(old(todos), id, UserIdFromToken(authHeader, verify).value) ==>
                todos == old(todos) - {id} && r == Response(200, Message(DeletedMessage))
    {
      var userId := UserIdFromToken(authHeader, verify);
      if !Authenticated(userId) {
        return Unauthorized;
      }
      if !OwnedBy(todos, id, userId.value) {
        return Forbidden;
      }
      todos := todos - {id};
      r := Response(200, Message(DeletedMessage));
    }
  }
}
