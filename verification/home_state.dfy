/**
  The view state of the home page: the four `useState` slots `todos`, `error`,
  `loading` and `newTodo`, and how each handler moves them once its HTTP call
  settles. The call itself is an input: a `Reply` that is either the server's
  payload or a failure (any rejected promise: network error, non-2xx status).
 */
module HomeState {

  import opened Wrappers
  import opened TodoList

  /** How a remote call settled: the useful part of `response.data`, or a thrown error. */
  datatype Reply<T> = Ok(body: T) | Failed

  /** The component's state slots. `error` is `null` or a message. */
  datatype PageState = PageState(todos: seq<Todo>, error: Option<string>, loading: bool, newTodo: string)

  /** The body of the create request: `{text, completed: false}`. */
  datatype Draft = Draft(text: string, completed: bool)

  /** What the render ternary shows in place of the list. */
  datatype View = Spinner | Message(text: string) | Rows(items: seq<Todo>)

  const FetchFailed: string := "Failed to fetch todos"
  const CreateFailed: string := "Failed to create todo"
  const UpdateFailed: string := "Failed to update todo"
  const DeleteFailed: string := "Failed to Delete Todo"

  /** The `useState` initial values. */
  const Initial: PageState := PageState([], None, false, "")

  /** JavaScript truthiness of the error slot: `null` and `""` are falsy. */
  predicate ErrorShown(error: Option<string>) {
    error.Some? && error.value != ""
  }

  // ---------------------------------------------------------------- fetch

  /** `setLoading(true)`, the first step of `fetchtodos`, before the request is awaited. */
  function StartFetch(s: PageState): (r: PageState)
    ensures r.loading
    ensures r.todos == s.todos && r.error == s.error && r.newTodo == s.newTodo
  {
    s.(loading := true)
  }

  /**
    `fetchtodos`, run on mount: after `setLoading(true)` and the awaited call,
    success replaces the list wholesale and clears the error, failure sets the
    fetch message and keeps the list; the `finally` clears the loading flag
    either way.
   */
  function Fetch(s: PageState, reply: Reply<seq<Todo>>): (r: PageState)
    ensures !r.loading && r.newTodo == s.newTodo
    ensures reply.Ok? ==> r.todos == reply.body && r.error == None
    ensures reply.Failed? ==> r.todos == s.todos && r.error == Some(FetchFailed)
  {
    var pending := StartFetch(s);
    match reply
    case Ok(list) => pending.(todos := list, error := None, loading := false)
    case Failed => pending.(error := Some(FetchFailed), loading := false)
  }

  // ---------------------------------------------------------------- create

  /** The create request, or `None` when `!newTodo` returns before any call. */
  function CreateRequest(s: PageState): (req: Option<Draft>)
    ensures req.None? <==> s.newTodo == ""
    ensures req.Some? ==> req.value.text == s.newTodo && !req.value.completed
  {
    if s.newTodo == "" then None else Some(Draft(s.newTodo, false))
  }

  /**
    `todoCreate`: an empty input changes nothing; success appends the server's
    `newTodo` at the end and clears the input; failure sets the create message.
   */
  function Create(s: PageState, reply: Reply<Todo>): (r: PageState)
    ensures s.newTodo == "" ==> r == s
    ensures s.newTodo != "" && reply.Ok? ==>
      && |r.todos| == |s.todos| + 1
      && r.todos[..|s.todos|] == s.todos
      && r.todos[|s.todos|] == reply.body
      && r.newTodo == ""
      && r.error == s.error && r.loading == s.loading
    ensures s.newTodo != "" && reply.Failed? ==>
      r.todos == s.todos && r.loading == s.loading && r.newTodo == s.newTodo && r.error == Some(CreateFailed)
  {
    if s.newTodo == "" then s
    else
      match reply
      case Ok(created) =>
        assert Append(s.todos, created)[..|s.todos|] == s.todos;
        s.(todos := Append(s.todos, created), newTodo := "")
      case Failed => s.(error := Some(CreateFailed))
  }

  // ---------------------------------------------------------------- toggle

  /**
    `{...todo, completed: !todo.completed}`: the update request body. When
    `find` gave `undefined`, reading `todo.completed` throws, so there is no body.
   */
  function Flipped(found: Option<Todo>): (body: Option<Todo>)
    ensures body.Some? <==> found.Some?
    ensures body.Some? ==>
      body.value.id == found.value.id && body.value.text == found.value.text
      && body.value.completed == !found.value.completed
  {
    match found
    case None => None
    case Some(todo) => Some(todo.(completed := !todo.completed))
  }

  /** The update request `todoStatus(id)` sends, if it gets as far as sending one. */
  function ToggleRequest(s: PageState, id: Id): (body: Option<Todo>)
    ensures body.None? <==> IdAbsent(s.todos, id)
    ensures body.Some? ==> body.value.id == id
  {
    Flipped(FindById(s.todos, id))
  }

  /**
    `todoStatus(id)`: success puts the server's `todo` in place of every record
    with that id, leaving length and all other records as they were; failure,
    and an id that is not in the list, set the update message.
   */
  function Toggle(s: PageState, id: Id, reply: Reply<Todo>): (r: PageState)
    ensures r.loading == s.loading && r.newTodo == s.newTodo
    ensures IdAbsent(s.todos, id) || reply.Failed? ==>
      r.todos == s.todos && r.error == Some(UpdateFailed)
    ensures !IdAbsent(s.todos, id) && reply.Ok? ==>
      && |r.todos| == |s.todos|
      && (forall i :: 0 <= i < |s.todos| ==>
            r.todos[i] == if s.todos[i].id == id then reply.body else s.todos[i])
      && r.error == s.error
  {
    match ToggleRequest(s, id)
    case None => s.(error := Some(UpdateFailed))
    case Some(_) =>
      match reply
      case Ok(updated) => s.(todos := ReplaceById(s.todos, id, updated))
      case Failed => s.(error := Some(UpdateFailed))
  }

  // ---------------------------------------------------------------- delete

  /**
    `todoDelete(id)`: success drops every record with that id and keeps the
    order of the rest; failure sets the delete message.
   */
  function Delete(s: PageState, id: Id, reply: Reply<()>): (r: PageState)
    ensures r.loading == s.loading && r.newTodo == s.newTodo
    ensures reply.Ok? ==>
      && IdAbsent(r.todos, id)
      && (forall t :: t in r.todos <==> t in s.todos && t.id != id)
      && r.error == s.error
    ensures reply.Failed? ==> r.todos == s.todos && r.error == Some(DeleteFailed)
  {
    match reply
    case Ok(_) => s.(todos := RemoveById(s.todos, id))
    case Failed => s.(error := Some(DeleteFailed))
  }

  // ---------------------------------------------------------------- render

  /** `loading ? … : error ? … : <ul>`: loading wins, then a truthy error, then the list. */
  function SelectView(s: PageState): (v: View)
    ensures v.Spinner? <==> s.loading
    ensures v.Message? <==> !s.loading && ErrorShown(s.error)
    ensures v.Message? ==> v.text == s.error.value
    ensures v.Rows? ==> v.items == s.todos
  {
    if s.loading then Spinner
    else if ErrorShown(s.error) then Message(s.error.value)
    else Rows(s.todos)
  }
}
