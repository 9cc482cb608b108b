/** Request and response bodies of the todo routes. */
module Schemas {
  import opened Wrappers
  import opened Models

  /** Body of a create request: `title` is required, `description` defaults to `None`. */
  datatype TodoCreate = TodoCreate(title: string, description: Option<string> := None)

  /** Body of an update request: every field is optional and defaults to `None`. */
  datatype TodoUpdate = TodoUpdate(
    title: Option<string> := None,
    description: Option<string> := None,
    isCompleted: Option<bool> := None)

  /** Body of every todo response. */
  datatype TodoResponse = TodoResponse(
    id: int,
    title: string,
    description: Option<string>,
    isCompleted: bool,
    createdAt: int)

  /** The row a response was read from. */
  function FromResponse(r: TodoResponse): Todo {
    Todo(r.id, r.title, r.description, r.isCompleted, r.createdAt)
  }

  /**
   * Serialisation of a stored row (`from_attributes`): a response carries
   * every column, so the stored row can be read back from it.
   */
  function ToResponse(t: Todo): (r: TodoResponse)
    ensures FromResponse(r) == t
  {
    TodoResponse(t.id, t.title, t.description, t.isCompleted, t.createdAt)
  }

  /** The rows read back from a list of responses. */
  function FromResponses(rs: seq<TodoResponse>): seq<Todo> {
    seq(|rs|, i requires 0 <= i < |rs| => FromResponse(rs[i]))
  }

  /** Serialisation of a list: it reads back as the same rows in the same order. */
  function ToResponses(ts: seq<Todo>): (rs: seq<TodoResponse>)
    ensures FromResponses(rs) == ts
  {
    seq(|ts|, i requires 0 <= i < |ts| => ToResponse(ts[i]))
  }

}
