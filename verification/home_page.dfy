/**
  The `Home` component as an object: its four state slots are fields, and each
  handler updates them with the same setter calls, in the same order, as the
  component does once its remote call has settled. Every handler is specified
  by the matching transition of `HomeState`, so the laws proved there apply.
 */
module HomePage {

  import opened Wrappers
  import opened TodoList
  import opened HomeState
  import opened HomeLaws

  class Home {
    var todos: seq<Todo>
    var error: Option<string>
    var loading: bool
    var newTodo: string

    /** The slots as one value. */
    function State(): (s: PageState)
      reads this
    {
      PageState(todos, error, loading, newTodo)
    }

    /** The error slot only ever holds `null` or one of the handlers' messages. */
    ghost predicate Valid()
      reads this
    {
      ErrorSlotValid(State())
    }

    /** The `useState` initial values. */
    constructor ()
      ensures Valid() && State() == Initial
    {
      todos, error, loading, newTodo := [], None, false, "";
    }

    /** `fetchtodos`, run once on mount. */
    method FetchTodos(reply: Reply<seq<Todo>>)
      requires Valid()
      modifies this
      ensures Valid()
      ensures State() == Fetch(old(State()), reply)
    {
      loading := true;
      assert State() == StartFetch(old(State()));
      match reply {
        case Ok(list) =>
          todos := list;
          error := None;
        case Failed =>
          error := Some(FetchFailed);
      }
      loading := false;
    }

    /** The input's `onChange`: `setNewTodo(e.target.value)`. */
    method TypeText(text: string)
      requires Valid()
      modifies this
      ensures Valid()
      ensures State() == old(State()).(newTodo := text)
    {
      newTodo := text;
    }

    /** `todoCreate`; returns the request it sends, `None` when it returns early. */
    method TodoCreate(reply: Reply<Todo>) returns (request: Option<Draft>)
      requires Valid()
      modifies this
      ensures Valid()
      ensures request == CreateRequest(old(State()))
      ensures State() == Create(old(State()), reply)
    {
      if newTodo == "" {
        return None;
      }
      request := Some(Draft(newTodo, false));
      match reply {
        case Ok(created) =>
          todos := Append(todos, created);
          newTodo := "";
        case Failed =>
          error := Some(CreateFailed);
      }
    }

    /**
      `todoStatus(id)`; returns the update request it sends. When no record has
      `id`, building the body throws inside the `try`, nothing is sent and the
      update message is set.
     */
    method TodoStatus(id: Id, reply: Reply<Todo>) returns (request: Option<Todo>)
      requires Valid()
      modifies this
      ensures Valid()
      ensures request == ToggleRequest(old(State()), id)
      ensures State() == Toggle(old(State()), id, reply)
    {
      var todo := FindById(todos, id);
      if todo.None? {
        request := None;
        error := Some(UpdateFailed);
        return;
      }
      request := Some(todo.value.(completed := !todo.value.completed));
      match reply {
        case Ok(updated) =>
          todos := ReplaceById(todos, id, updated);
        case Failed =>
          error := Some(UpdateFailed);
      }
    }

    /** `todoDelete(id)`. */
    method TodoDelete(id: Id, reply: Reply<()>)
      requires Valid()
      modifies this
      ensures Valid()
      ensures State() == Delete(old(State()), id, reply)
    {
      match reply {
        case Ok(_) =>
          todos := RemoveById(todos, id);
        case Failed =>
          error := Some(DeleteFailed);
      }
    }

    /** `remainingTodos`, as the page computes it on every render. */
    function RemainingTodos(): (n: nat)
      reads this
      ensures n <= |todos|
    {
      Remaining(todos)
    }

    /**
      The part of the page the render ternary selects. Since the error slot only
      holds `null` or a non-empty message, truthiness is the same as non-null here.
     */
    function CurrentView(): (v: View)
      requires Valid()
      reads this
      ensures v == if loading then Spinner else if error.Some? then Message(error.value) else Rows(todos)
    {
      ErrorShownIffSet(State());
      SelectView(State())
    }
  }

  /**
    A session against a server that answers every call: load one task, add a
    second, complete the first, then delete it.
   */
  method AddCompleteDeleteSession() {
    var page := new Home();
    var milk := Todo("1", "buy milk", false);
    page.FetchTodos(Ok([milk]));
    assert page.todos == [milk];
    assert page.RemainingTodos() == 1;
    assert page.CurrentView() == Rows([milk]);

    page.TypeText("write report");
    var report := Todo("2", "write report", false);
    var sent := page.TodoCreate(Ok(report));
    assert sent == Some(Draft("write report", false));
    assert page.todos == [milk] + [report] && page.newTodo == "";
    RemainingCons(milk, [report]);
    assert page.RemainingTodos() == 2;

    var done := milk.(completed := true);
    var body := page.TodoStatus("1", Ok(done));
    assert [milk, report][0] == milk;
    assert body == Some(done);
    assert page.todos == [done, report];
    RemainingCons(done, [report]);
    assert page.RemainingTodos() == 1;

    page.TodoDelete("1", Ok(()));
    RemoveByIdCons(done, [report], "1");
    assert page.todos == [report];
  }

  /** A session whose initial load fails, then an add with an empty input and a toggle of an unknown id. */
  method FailedLoadSession() {
    var page := new Home();
    page.FetchTodos(Failed);
    assert !page.loading && page.error == Some(FetchFailed);
    assert page.CurrentView() == Message(FetchFailed);

    var sent := page.TodoCreate(Ok(Todo("3", "never sent", false)));
    assert sent == None && page.todos == [];

    var body := page.TodoStatus("9", Ok(Todo("9", "unknown", true)));
    assert body == None && page.error == Some(UpdateFailed);
  }
}
