/**
  Properties that relate several handler runs of the home page: what the view
  shows while and after a fetch, repeated fetches and deletes, a toggle undone
  by a second toggle, and two invariants that hold along any run of events.
 */
module HomeLaws {

  import opened Wrappers
  import opened TodoList
  import opened HomeState

  /** One user action or lifecycle trigger, with the way its remote call settled. */
  datatype Event =
    | Mounted(list: Reply<seq<Todo>>)
    | Typed(text: string)
    | Added(created: Reply<Todo>)
    | Toggled(id: Id, updated: Reply<Todo>)
    | Deleted(id: Id, done: Reply<()>)

  /** The state after one event; `Typed` is the input's `onChange`. */
  function Step(s: PageState, e: Event): (r: PageState) {
    match e
    case Mounted(list) => Fetch(s, list)
    case Typed(text) => s.(newTodo := text)
    case Added(created) => Create(s, created)
    case Toggled(id, updated) => Toggle(s, id, updated)
    case Deleted(id, done) => Delete(s, id, done)
  }

  /** The state after a sequence of events, applied one after the other. */
  function Run(s: PageState, events: seq<Event>): (r: PageState)
    decreases |events|
  {
    if events == [] then s else Run(Step(s, events[0]), events[1..])
  }

  /** A server that answers an update with the very record it was sent. */
  function Echo(s: PageState, id: Id): (reply: Reply<Todo>)
    ensures reply.Ok? <==> !IdAbsent(s.todos, id)
  {
    match ToggleRequest(s, id)
    case Some(body) => Ok(body)
    case None => Failed
  }

  // ---------------------------------------------------------------- fetch

  /** While the fetch is awaited, the page shows the loading text whatever else it holds. */
  lemma SpinnerWhileFetching(s: PageState)
    ensures SelectView(StartFetch(s)) == Spinner
  {
  }

  /** A failed fetch leaves the page showing the fetch message, with loading off. */
  lemma FetchFailureShowsMessage(s: PageState)
    ensures !Fetch(s, Failed).loading
    ensures SelectView(Fetch(s, Failed)) == Message(FetchFailed)
  {
  }

  /** A successful fetch shows exactly the server's list. */
  lemma FetchSuccessShowsList(s: PageState, list: seq<Todo>)
    ensures SelectView(Fetch(s, Ok(list))) == Rows(list)
  {
  }

  /** Fetching an unchanged collection again yields the same state. */
  lemma FetchIdempotent(s: PageState, list: seq<Todo>)
    ensures Fetch(Fetch(s, Ok(list)), Ok(list)) == Fetch(s, Ok(list))
  {
  }

  // ---------------------------------------------------------------- delete

  /** Deleting an id twice leaves the same state as deleting it once. */
  lemma DeleteTwiceIsDeleteOnce(s: PageState, id: Id)
    ensures Delete(Delete(s, id, Ok(())), id, Ok(())) == Delete(s, id, Ok(()))
  {
    RemoveByIdIdempotent(s.todos, id);
  }

  /** Deleting an id that is not in the list leaves the state unchanged. */
  lemma DeleteAbsentIsNoOp(s: PageState, id: Id)
    requires IdAbsent(s.todos, id)
    ensures Delete(s, id, Ok(())) == s
  {
  }

  /** With unique ids, deleting the record at `k` removes it and only it. */
  lemma DeletePresent(s: PageState, k: nat)
    requires UniqueIds(s.todos) && k < |s.todos|
    ensures Delete(s, s.todos[k].id, Ok(())).todos == s.todos[..k] + s.todos[k + 1..]
  {
    RemoveByIdPresent(s.todos, k);
  }

  // ---------------------------------------------------------------- toggle

  /** Toggling an id that is not in the list sends nothing and reports the update failure. */
  lemma ToggleAbsentFails(s: PageState, id: Id, reply: Reply<Todo>)
    requires IdAbsent(s.todos, id)
    ensures ToggleRequest(s, id) == None
    ensures Toggle(s, id, reply) == s.(error := Some(UpdateFailed))
  {
  }

  /** With unique ids, the update request is the record at `k` with `completed` negated. */
  lemma ToggleRequestFlips(s: PageState, k: nat)
    requires UniqueIds(s.todos) && k < |s.todos|
    ensures ToggleRequest(s, s.todos[k].id) == Some(s.todos[k].(completed := !s.todos[k].completed))
  {
    FindByIdUnique(s.todos, k);
  }

  /**
    With unique ids and a server that echoes the request, toggling the same
    record twice gives back the original list.
   */
  lemma ToggleTwiceRestores(s: PageState, k: nat)
    requires UniqueIds(s.todos) && k < |s.todos|
    ensures
      var id := s.todos[k].id;
      var once := Toggle(s, id, Echo(s, id));
      Toggle(once, id, Echo(once, id)).todos == s.todos
  {
  }

  /** With unique ids and an echoing server, one toggle moves the remaining count by one. */
  lemma ToggleMovesRemaining(s: PageState, k: nat)
    requires UniqueIds(s.todos) && k < |s.todos|
    ensures
      var id := s.todos[k].id;
      Remaining(Toggle(s, id, Echo(s, id)).todos)
        == if s.todos[k].completed then Remaining(s.todos) + 1 else Remaining(s.todos) - 1
  {
    var x := s.todos[k];
    ToggleRequestFlips(s, k);
    RemainingAfterFlip(s.todos, k, x.(completed := !x.completed));
  }

  // ---------------------------------------------------------------- invariants

  /** The error slot is `null` or one of the four fixed messages. */
  predicate ErrorSlotValid(s: PageState) {
    s.error.None? || s.error.value in {FetchFailed, CreateFailed, UpdateFailed, DeleteFailed}
  }

  /** On a state whose error slot is valid, the message is shown exactly when the slot is non-null. */
  lemma ErrorShownIffSet(s: PageState)
    requires ErrorSlotValid(s)
    ensures ErrorShown(s.error) <==> s.error.Some?
    ensures !s.loading && s.error.Some? ==> SelectView(s) == Message(s.error.value)
  {
  }

  /** Every run of events from a valid error slot ends with a valid error slot. */
  lemma {:induction false} RunKeepsErrorSlotValid(s: PageState, events: seq<Event>)
    requires ErrorSlotValid(s)
    ensures ErrorSlotValid(Run(s, events))
    decreases |events|
  {
    if events != [] {
      RunKeepsErrorSlotValid(Step(s, events[0]), events[1..]);
    }
  }

  /**
    The server keeps its side of the contract for this event: a fetched list
    has unique ids, a created record has an id not yet in the list, and an
    updated record keeps the id it was requested for.
   */
  predicate Honest(s: PageState, e: Event) {
    match e
    case Mounted(Ok(list)) => UniqueIds(list)
    case Added(Ok(created)) => IdAbsent(s.todos, created.id)
    case Toggled(id, Ok(updated)) => updated.id == id
    case _ => true
  }

  /** Every event of the run meets `Honest` in the state it is applied to. */
  predicate HonestRun(s: PageState, events: seq<Event>)
    decreases |events|
  {
    events == [] || (Honest(s, events[0]) && HonestRun(Step(s, events[0]), events[1..]))
  }

  /** One honest event keeps the ids of the list unique. */
  lemma StepKeepsUniqueIds(s: PageState, e: Event)
    requires UniqueIds(s.todos) && Honest(s, e)
    ensures UniqueIds(Step(s, e).todos)
  {
    match e
    case Mounted(_) =>
    case Typed(_) =>
    case Added(created) =>
      if s.newTodo != "" && created.Ok? {
        AppendUnique(s.todos, created.body);
      }
    case Toggled(id, updated) =>
      if updated.Ok? {
        ReplaceByIdUnique(s.todos, id, updated.body);
      }
    case Deleted(id, _) =>
      RemoveByIdUnique(s.todos, id);
  }

  /** Along an honest run, the list never holds two records with the same id. */
  lemma {:induction false} RunKeepsUniqueIds(s: PageState, events: seq<Event>)
    requires UniqueIds(s.todos) && HonestRun(s, events)
    ensures UniqueIds(Run(s, events).todos)
    decreases |events|
  {
    if events != [] {
      StepKeepsUniqueIds(s, events[0]);
      RunKeepsUniqueIds(Step(s, events[0]), events[1..]);
    }
  }
}
