/**
 * The client logic of `src/app/dashboard/page.tsx`: reading the `token`
 * cookie, the request interceptor that turns it into a bearer header, and
 * the page state (`todos`, the `newTodo` draft, `editingTodo`) that each
 * action replaces with a spread, `map`, `filter` or `reverse` of the old
 * list. The outcome of each API call is a parameter: None where the request
 * threw and the handler only shows an error toast.
 */
module Dashboard {
  import opened Optional
  import opened JsString
  import TodoRoute

  /** The client's `Todo`: the id is optional (`id?: number`). */
  datatype ClientTodo = ClientTodo(id: Option<int>, title: string, content: string, isCompleted: bool)

  const EmptyDraft := ClientTodo(None, "", "", false)

  const TokenKey := "token="

  /** `!s.trim()`. */
  predicate Blank(s: string) {
    Trim(s) == ""
  }

  predicate IsTokenPiece(piece: string) {
    StartsWith(Trim(piece), TokenKey)
  }

  /** A piece whose trimmed text starts with `token=` contains `=`, so its split has a second part. */
  lemma TokenPieceHasValue(piece: string)
    requires IsTokenPiece(piece)
    ensures '=' in piece
  {
    var start := TrimStart(piece);
    var trimmed := TrimEnd(start);
    assert trimmed[5] == '=' == start[5];
    assert piece[|piece| - |start| + 5] == '=';
  }

  lemma TokenPiecesHoldValues()
    ensures forall piece :: IsTokenPiece(piece) ==> '=' in piece
  {
    forall piece | IsTokenPiece(piece) {
      TokenPieceHasValue(piece);
    }
  }

  /**
   * `getToken()` over the cookie string: `find` the first `;`-separated piece
   * that is a token piece, then take the text between its first and second
   * `=`; null when no piece is a token piece.
   */
  function GetToken(cookie: string): (token: Option<string>)
    ensures token.None? <==> FindIndex(Split(cookie, ';'), IsTokenPiece).None?
    ensures token.Some? ==> '=' !in token.value
    ensures token.Some? ==>
              var piece := Split(cookie, ';')[FindIndex(Split(cookie, ';'), IsTokenPiece).value];
              |Split(piece, '=')| >= 2 && token.value == Split(piece, '=')[1]
  {
    TokenPiecesHoldValues();
    FieldOfFound(Split(cookie, ';'), IsTokenPiece, '=')
  }

  /** A piece that starts with `token=` is a token piece: trimming leaves that prefix alone. */
  lemma TokenPrefixIsTokenPiece(piece: string)
    requires StartsWith(piece, TokenKey)
    ensures IsTokenPiece(piece)
  {
    assert piece[0] == 't' && !IsWhiteSpace('t');
    assert TrimStart(piece) == piece;
    TrimEndDropsWhiteSpace(piece);
    assert piece[5] == '=' && !IsWhiteSpace('=');
    var trimmed := TrimEnd(piece);
    assert |trimmed| > 5;
    assert trimmed[..|TokenKey|] == piece[..|TokenKey|];
  }

  /** `token=<t>` without `;` is a single `;`-piece. */
  lemma SingleCookieIsOnePiece(t: string)
    requires ';' !in t
    ensures Split(TokenKey + t, ';') == [TokenKey + t]
  {
    assert ';' !in TokenKey + t;
    SplitWithoutSeparator(TokenKey + t, ';');
  }

  /** The value field of `token=<t>` is `t` when `t` has no `=`. */
  lemma SingleCookieValue(t: string)
    requires '=' !in t
    ensures Split(TokenKey + t, '=')[1] == t
  {
    assert TokenKey + t == "token" + ['='] + t;
    SplitAtFirst("token", '=', t);
    SplitWithoutSeparator(t, '=');
  }

  /** A lone `token=<t>` cookie yields `t`. */
  lemma GetTokenOfSingleCookie(t: string)
    requires ';' !in t && '=' !in t
    ensures GetToken(TokenKey + t) == Some(t)
  {
    var cookie := TokenKey + t;
    SingleCookieIsOnePiece(t);
    SingleCookieValue(t);
    assert cookie[..|TokenKey|] == TokenKey;
    TokenPrefixIsTokenPiece(cookie);
    TokenPiecesHoldValues();
    assert [cookie] == [cookie] + [];
    FieldOfFoundFirst(cookie, [], IsTokenPiece, '=');
  }

  /** A leading cookie piece that is not the token piece is skipped. */
  lemma GetTokenSkipsOtherPiece(other: string, rest: string)
    requires ';' !in other && !IsTokenPiece(other)
    ensures GetToken(other + ";" + rest) == GetToken(rest)
  {
    TokenPiecesHoldValues();
    calc {
      GetToken(other + ";" + rest);
      FieldOfFound(Split(other + ";" + rest, ';'), IsTokenPiece, '=');
      { assert other + ";" + rest == other + [';'] + rest;
        SplitAtFirst(other, ';', rest); }
      FieldOfFound([other] + Split(rest, ';'), IsTokenPiece, '=');
      { FieldOfFoundSkips(other, Split(rest, ';'), IsTokenPiece, '='); }
      FieldOfFound(Split(rest, ';'), IsTokenPiece, '=');
    }
  }

  /** The request interceptor: `Authorization: Bearer <token>` only for a non-empty token. */
  function AuthorizationHeader(cookie: string): (header: Option<string>)
    ensures header.Some? <==> GetToken(cookie).Some? && GetToken(cookie).value != ""
    ensures header.Some? ==> header.value == TodoRoute.BearerPrefix + GetToken(cookie).value
  {
    var token := GetToken(cookie);
    if token.Some? && token.value != "" then Some(TodoRoute.BearerPrefix + token.value) else None
  }

  /**
   * The header the client sends is the one the server accepts: a cookie token
   * without spaces reaches `jwt.verify` unchanged, and no token means no
   * user id, hence 401.
   */
  lemma InterceptorMatchesServer(cookie: string, verify: TodoRoute.JwtVerify)
    ensures GetToken(cookie).Some? && GetToken(cookie).value != "" && ' ' !in GetToken(cookie).value ==>
              TodoRoute.UserIdFromToken(AuthorizationHeader(cookie), verify) == verify(GetToken(cookie).value)
    ensures GetToken(cookie).None? || GetToken(cookie).value == "" ==>
              TodoRoute.UserIdFromToken(AuthorizationHeader(cookie), verify) == None
  {
    var token := GetToken(cookie);
    if token.Some? && token.value != "" && ' ' !in token.value {
      TodoRoute.BearerHeaderRoundTrip(token.value, verify);
    }
  }

  /** `todos.map((todo) => todo.id === todoId ? { ...todo, isCompleted } : todo)`. */
  function WithCompletion(todos: seq<ClientTodo>, todoId: int, isCompleted: bool): (r: seq<ClientTodo>)
    ensures |r| == |todos|
    ensures forall i :: 0 <= i < |todos| && todos[i].id == Some(todoId) ==> r[i] == todos[i].(isCompleted := isCompleted)
    ensures forall i :: 0 <= i < |todos| && todos[i].id != Some(todoId) ==> r[i] == todos[i]
  {
    if todos == [] then []
    else
      var head := if todos[0].id == Some(todoId) then todos[0].(isCompleted := isCompleted) else todos[0];
      [head] + WithCompletion(todos[1..], todoId, isCompleted)
  }

  /** Toggling twice, each time with the flag the list then shows, restores the list. */
  lemma ToggleTwiceRestores(todos: seq<ClientTodo>, todoId: int, isCompleted: bool)
    requires forall i :: 0 <= i < |todos| && todos[i].id == Some(todoId) ==> todos[i].isCompleted == isCompleted
    ensures WithCompletion(WithCompletion(todos, todoId, !isCompleted), todoId, isCompleted) == todos
  {
    var back := WithCompletion(WithCompletion(todos, todoId, !isCompleted), todoId, isCompleted);
    assert forall i :: 0 <= i < |todos| ==> back[i] == todos[i];
  }

  /** `todos.map((todo) => todo.id === id ? updated : todo)`; an undefined id matches undefined ids. */
  function Replaced(todos: seq<ClientTodo>, id: Option<int>, updated: ClientTodo): (r: seq<ClientTodo>)
    ensures |r| == |todos|
    ensures forall i :: 0 <= i < |todos| ==> r[i] == (if todos[i].id == id then updated else todos[i])
  {
    if todos == [] then []
    else [if todos[0].id == id then updated else todos[0]] + Replaced(todos[1..], id, updated)
  }

  /** `todos.filter((todo) => todo.id !== todoId)`. */
  function Without(todos: seq<ClientTodo>, todoId: int): (r: seq<ClientTodo>)
    ensures |r| <= |todos|
    ensures forall i :: 0 <= i < |r| ==> r[i].id != Some(todoId)
    ensures forall t :: t in todos && t.id != Some(todoId) ==> t in r
    ensures forall t :: t in r ==> t in todos
  {
    if todos == [] then []
    else if todos[0].id == Some(todoId) then Without(todos[1..], todoId)
    else [todos[0]] + Without(todos[1..], todoId)
  }

  /** Filtering keeps the original order: it distributes over concatenation. */
  lemma {:induction false} WithoutAppend(a: seq<ClientTodo>, b: seq<ClientTodo>, todoId: int)
    ensures Without(a + b, todoId) == Without(a, todoId) + Without(b, todoId)
  {
    if a == [] {
      assert a + b == b;
    } else {
      assert (a + b)[0] == a[0] && (a + b)[1..] == a[1..] + b;
      WithoutAppend(a[1..], b, todoId);
      if a[0].id != Some(todoId) {
        assert [a[0]] + (Without(a[1..], todoId) + Without(b, todoId))
               == ([a[0]] + Without(a[1..], todoId)) + Without(b, todoId);
      }
    }
  }

  /** A list without that id is left as it is. */
  lemma {:induction false} WithoutAbsentId(todos: seq<ClientTodo>, todoId: int)
    requires forall i :: 0 <= i < |todos| ==> todos[i].id != Some(todoId)
    ensures Without(todos, todoId) == todos
  {
    if todos != [] {
      WithoutAbsentId(todos[1..], todoId);
    }
  }

  /** Deleting the todo just added, by its fresh id, gives back the list before the add. */
  lemma DeleteUndoesAdd(todos: seq<ClientTodo>, created: ClientTodo, todoId: int)
    requires created.id == Some(todoId)
    requires forall i :: 0 <= i < |todos| ==> todos[i].id != Some(todoId)
    ensures Without([created] + todos, todoId) == todos
  {
    WithoutAppend([created], todos, todoId);
    WithoutAbsentId(todos, todoId);
  }

  /** `response.data.reverse()`. */
  function Reversed(s: seq<ClientTodo>): (r: seq<ClientTodo>)
    ensures |r| == |s|
    ensures forall i :: 0 <= i < |s| ==> r[i] == s[|s| - 1 - i]
  {
    if s == [] then [] else Reversed(s[1..]) + [s[0]]
  }

  /** `todos.filter((todo) => todo.isCompleted).length`. */
  function CompletedCount(todos: seq<ClientTodo>): nat {
    if todos == [] then 0 else (if todos[0].isCompleted then 1 else 0) + CompletedCount(todos[1..])
  }

  /** `todos.filter((todo) => !todo.isCompleted).length`. */
  function PendingCount(todos: seq<ClientTodo>): nat {
    if todos == [] then 0 else (if todos[0].isCompleted then 0 else 1) + PendingCount(todos[1..])
  }

  /** The completed and pending counts add up to the total. */
  lemma {:induction false} CountsAddUp(todos: seq<ClientTodo>)
    ensures CompletedCount(todos) + PendingCount(todos) == |todos|
  {
    if todos != [] {
      CountsAddUp(todos[1..]);
    }
  }

  /** The component state of the dashboard page. */
  class Page {
    var todos: seq<ClientTodo>
    var newTodo: ClientTodo
    var editingTodo: Option<ClientTodo>

    constructor ()
      ensures todos == [] && newTodo == EmptyDraft && editingTodo == None
    {
      todos := [];
      newTodo := EmptyDraft;
      editingTodo := None;
    }

    /** The statistics cards: total, completed and pending. */
    function Stats(): (r: (nat, nat, nat))
      reads this
      ensures r.0 == |todos| && r.1 + r.2 == r.0
      ensures r.1 == CompletedCount(todos) && r.2 == PendingCount(todos)
      ensures r.1 == 0 <==> forall i :: 0 <= i < |todos| ==> !todos[i].isCompleted
    {
      CountsAddUp(todos);
      CompletedNone(todos);
      (|todos|, CompletedCount(todos), PendingCount(todos))
    }

    /** `fetchTodos` on mount, with the list the GET answered. */
    method FetchTodos(response: Option<seq<ClientTodo>>)
      modifies this
      ensures todos == (if response.Some? then Reversed(response.value) else old(todos))
      ensures newTodo == old(newTodo) && editingTodo == old(editingTodo)
    {
      if response.Some? {
        todos := Reversed(response.value);
      }
    }

    /** `handleAddTodo`, with the todo the POST answered. */
    method AddTodo(response: Option<ClientTodo>)
      modifies this
      ensures editingTodo == old(editingTodo)
      ensures Blank(old(newTodo).title) || Blank(old(newTodo).content) || response.None? ==>
                todos == old(todos) && newTodo == old(newTodo)
      ensures !Blank(old(newTodo).title) && !Blank(old(newTodo).content) && response.Some? ==>
                todos == [response.value] + old(todos) && newTodo == EmptyDraft
    {
      if Blank(newTodo.title) || Blank(newTodo.content) {
        return;
      }
      if response.Some? {
        todos := [response.value] + todos;
        newTodo := EmptyDraft;
      }
    }

    /** `handleToggleComplete(todoId, isCompleted)`; `ok` says whether the PUT succeeded. */
    method ToggleComplete(todoId: int, isCompleted: bool, ok: bool)
      modifies this
      ensures todos == (if ok then WithCompletion(old(todos), todoId, !isCompleted) else old(todos))
      ensures newTodo == old(newTodo) && editingTodo == old(editingTodo)
    {
      if ok {
        todos := WithCompletion(todos, todoId, !isCompleted);
      }
    }

    /** The Edit menu item: `setEditingTodo(todo)`. */
    method StartEditing(todo: ClientTodo)
      modifies this
      ensures editingTodo == Some(todo) && todos == old(todos) && newTodo == old(newTodo)
    {
      editingTodo := Some(todo);
    }

    /** `handleEditTodo`, with the todo the PUT answered. */
    method EditTodo(response: Option<ClientTodo>)
      modifies this
      ensures newTodo == old(newTodo)
      ensures old(editingTodo).None? || Blank(old(editingTodo).value.title)
              || Blank(old(editingTodo).value.content) || response.None? ==>
                todos == old(todos) && editingTodo == old(editingTodo)
      ensures old(editingTodo).Some? && !Blank(old(editingTodo).value.title)
              && !Blank(old(editingTodo).value.content) && response.Some? ==>
                todos == Replaced(old(todos), old(editingTodo).value.id, response.value) && editingTodo == None
    {
      if editingTodo.None? || Blank(editingTodo.value.title) || Blank(editingTodo.value.content) {
        return;
      }
      if response.Some? {
        todos := Replaced(todos, editingTodo.value.id, response.value);
        editingTodo := None;
      }
    }

    /** `handleDeleteTodo(todoId)`; `ok` says whether the DELETE succeeded. */
    method DeleteTodo(todoId: int, ok: bool)
      modifies this
      ensures todos == (if ok then Without(old(todos), todoId) else old(todos))
      ensures newTodo == old(newTodo) && editingTodo == old(editingTodo)
    {
      if ok {
        todos := Without(todos, todoId);
      }
    }
  }

  /** No completed todo means a completed count of zero, and conversely. */
  lemma {:induction false} CompletedNone(todos: seq<ClientTodo>)
    ensures CompletedCount(todos) == 0 <==> forall i :: 0 <= i < |todos| ==> !todos[i].isCompleted
  {
    if todos != [] {
      CompletedNone(todos[1..]);
      assert forall i :: 1 <= i < |todos| ==> todos[i] == todos[1..][i - 1];
    }
  }
}
