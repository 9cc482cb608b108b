/**
 * The todo routes: each handler makes one call on the store and turns its
 * result into a status code and a body.
 */
module Routes {
  import opened Wrappers
  import opened Http
  import opened Models
  import opened Schemas
  import opened Crud

  /**
   * A response body: one todo, a list of todos, a JSON error `detail`, or
   * the plain-text body of the server's default error response.
   */
  datatype Body = One(todo: TodoResponse) | Many(todos: seq<TodoResponse>) | Detail(detail: string) | Text(text: string)

  datatype Response = Response(statusCode: int, body: Body)

  /** The server's default response to an unhandled exception: plain text, not a JSON `detail`. */
  const InternalError := Response(INTERNAL_SERVER_ERROR, Text("Internal Server Error"))

  /** A store result that may be missing becomes 200 with the row, or 404 "Todo not found". */
  function FoundOr404(found: Option<Todo>): (resp: Response)
    ensures resp.statusCode == NOT_FOUND <==> found.None?
    ensures found.None? ==> resp.body == Detail("Todo not found")
    ensures found.Some? ==> resp.statusCode == OK && resp.body.One? && FromResponse(resp.body.todo) == found.value
  {
    match found
    case None => Response(NOT_FOUND, Detail("Todo not found"))
    case Some(t) => Response(OK, One(ToResponse(t)))
  }

  /** `GET /`: 200 with every stored row, newest first, as the store lists them. */
  method ReadTodos(store: TodoStore) returns (resp: Response)
    requires store.Valid()
    ensures resp.statusCode == OK && resp.body.Many?
    ensures multiset(FromResponses(resp.body.todos)) == multiset(store.rows.Values)
    ensures NewestFirst(FromResponses(resp.body.todos))
  {
    var todos := store.GetTodos();
    resp := Response(OK, Many(ToResponses(todos)));
  }

  /** `GET /{todo_id}`: 200 with the stored row, or 404 when there is none. */
  function ReadTodo(store: TodoStore, todoId: int): (resp: Response)
    reads store
    requires store.Valid()
    ensures resp.statusCode == NOT_FOUND <==> todoId !in store.rows
    ensures todoId !in store.rows ==> resp.body == Detail("Todo not found")
    ensures todoId in store.rows ==> resp == Response(OK, One(ToResponse(store.rows[todoId])))
  {
    FoundOr404(store.GetTodoById(todoId))
  }

  /**
   * `POST /`: 201 with the created row, its title cut to the column width.
   * A title the column refuses is an unhandled database error, answered
   * with 500.
   */
  method CreateTodo(store: TodoStore, todo: TodoCreate) returns (resp: Response)
    requires store.Valid()
    modifies store
    ensures store.Valid()
    ensures !TitleAccepted(todo.title) ==>
      resp == InternalError && store.rows == old(store.rows)
      && store.nextId == old(store.nextId) && store.clock == old(store.clock)
    ensures TitleAccepted(todo.title) ==>
      && resp.statusCode == CREATED && resp.body.One?
      && var t := FromResponse(resp.body.todo);
         && t.title == StoredTitle(todo.title) && t.description == todo.description && !t.isCompleted
         && t.id == old(store.nextId) && t.id !in old(store.rows)
         && t.createdAt == old(store.clock)
         && (forall x :: x in old(store.rows).Values ==> x.createdAt < t.createdAt)
         && store.rows == old(store.rows)[t.id := t]
         && store.nextId == old(store.nextId) + 1 && store.clock == old(store.clock) + 1
  {
    var created := store.CreateTodo(todo);
    match created
    case Success(t) =>
      resp := Response(CREATED, One(ToResponse(t)));
    case Failure(_) =>
      resp := InternalError;
  }

  /**
   * `PUT /{todo_id}`: 200 with the updated row, 404 when the id is not
   * stored; a title the column refuses is answered with 500.
   */
  method UpdateTodo(store: TodoStore, todoId: int, todo: TodoUpdate) returns (resp: Response)
    requires store.Valid()
    modifies store
    ensures store.Valid()
    ensures store.nextId == old(store.nextId) && store.clock == old(store.clock)
    ensures resp.statusCode == NOT_FOUND <==> todoId !in old(store.rows)
    ensures todoId !in old(store.rows) ==> resp.body == Detail("Todo not found") && store.rows == old(store.rows)
    ensures todoId in old(store.rows) && !TitleAccepted(Merged(old(store.rows)[todoId], todo).title) ==>
      resp == InternalError && store.rows == old(store.rows)
    ensures todoId in old(store.rows) && TitleAccepted(Merged(old(store.rows)[todoId], todo).title) ==>
      && resp == Response(OK, One(ToResponse(Committed(Merged(old(store.rows)[todoId], todo)))))
      && store.rows == old(store.rows)[todoId := Committed(Merged(old(store.rows)[todoId], todo))]
  {
    var updated := store.UpdateTodo(todoId, todo);
    match updated
    case Success(found) =>
      resp := FoundOr404(found);
    case Failure(_) =>
      resp := InternalError;
  }

  /** `DELETE /{todo_id}`: 200 with the row as it was before deletion, or 404. */
  method DeleteTodo(store: TodoStore, todoId: int) returns (resp: Response)
    requires store.Valid()
    modifies store
    ensures store.Valid()
    ensures store.nextId == old(store.nextId) && store.clock == old(store.clock)
    ensures resp.statusCode == NOT_FOUND <==> todoId !in old(store.rows)
    ensures todoId !in old(store.rows) ==> resp.body == Detail("Todo not found") && store.rows == old(store.rows)
    ensures todoId in old(store.rows) ==>
      resp == Response(OK, One(ToResponse(old(store.rows)[todoId])))
      && store.rows == old(store.rows) - {todoId}
  {
    var deleted := store.DeleteTodo(todoId);
    resp := FoundOr404(deleted);
  }

  /**
   * A client of the handlers: after `POST /` succeeds, `GET /` lists the
   * new todo first, since it is newer than every other stored row.
   */
  method CreateThenList(store: TodoStore, todo: TodoCreate) returns (created: Response, listed: Response)
    requires store.Valid()
    modifies store
    ensures store.Valid()
    ensures TitleAccepted(todo.title) ==>
      && created.statusCode == CREATED && created.body.One?
      && listed.statusCode == OK && listed.body.Many?
      && |listed.body.todos| > 0 && listed.body.todos[0] == created.body.todo
  {
    created := CreateTodo(store, todo);
    listed := ReadTodos(store);
    if TitleAccepted(todo.title) {
      var t := FromResponse(created.body.todo);
      var rows := FromResponses(listed.body.todos);
      assert store.rows[t.id] == t;
      assert t in store.rows.Values;
      assert t in multiset(rows);
      forall x | x in rows && x != t ensures x.createdAt < t.createdAt {
        assert x in multiset(store.rows.Values);
      }
      NewestRowListedFirst(rows, t);
    }
  }
}
