# Todo list home page: view-state model

This project models the home page of a single-page todo-list client
(`frontend/src/components/Home.jsx`). The page holds four pieces of view
state: the task list `todos`, the `error` slot, the `loading` flag and the
text of the `newTodo` input. It changes them in four handlers, each of which
makes one HTTP call to the task service:

- `fetchtodos` loads the list on mount.
- `todoCreate` adds a task.
- `todoStatus` flips a task's `completed` flag.
- `todoDelete` removes a task.

The render step derives the remaining count. It then picks one of three
things to show: the loading text, the error message or the list.

Each HTTP call is an input to the model, a `Reply<T>`. It is either
`Ok(body)`, the part of `response.data` the handler reads, or `Failed`, for
any rejected promise. With that input, every handler is a deterministic
transition on the state.

Modules:

- `Wrappers` (wrappers.dfy): `Option`, which stands for `null` / `undefined`.
- `TodoList` (todo_list.dfy): the record `{_id, text, completed}` and the
  list expressions the handlers use. These are the spread-append, the `map`
  that swaps in an updated record, the `filter` that drops a deleted one, the
  `find` that picks the record to toggle and the `filter(...).length`
  behind the remaining count. Beside them sit lemmas on order, id uniqueness
  and counts.
- `HomeState` (home_state.dfy): the state record and one pure transition per
  handler. It also holds the request bodies the handlers build and the
  render selection.
- `HomeLaws` (home_laws.dfy): properties that relate several transitions.
  These cover idempotence, a toggle undone by a second toggle, what is shown
  during and after a fetch, and two invariants over any run of events.
- `HomePage` (home_page.dfy): the component as a class. Its fields are the
  four state slots. Its methods make the setter calls in the handlers' order
  and are specified by the `HomeState` transitions. Two client methods replay
  sample sessions.

Points where the code behaves differently from what one might expect, and
which the model keeps as written:

- The code does not check that the id is in the list before toggling:
  `find` returns `undefined`, and reading `todo.completed` then throws inside
  the `try`. So an absent id sends no request and sets "Failed to update
  todo". `Toggle`, `ToggleRequest` and `ToggleAbsentFails` model that path.
- The code keeps four independent slots rather than one combined
  loading/error/list value, and so does the model. `StartFetch` on a state
  with an error gives `loading` and `error` at once, and the view shows the
  loading text.
- The code tests the error's JavaScript truthiness, under which `""` is
  falsy. `SelectView` uses truthiness. `ErrorShownIffSet` shows that
  truthiness and non-null agree on every state whose error slot is null or
  one of the four fixed messages, `RunKeepsErrorSlotValid` shows that every
  run keeps the slot that way, and `HomePage.Home.CurrentView` states the
  view in terms of non-null under the class invariant.
- Only a successful fetch clears the error. Mutation successes leave a stale
  error in place. The model keeps this asymmetry.

## Model

| member | source | states |
|---|---|---|
| TodoList.Append | frontend/src/components/Home.jsx:46 | the new list is one longer, keeps every earlier record at its position and ends with the created record |
| TodoList.ReplaceById | frontend/src/components/Home.jsx:66 | same length; each record with the id becomes the server's record, every other record stays in place; an absent id leaves the list as it is |
| TodoList.RemoveById | frontend/src/components/Home.jsx:77 | no record with the id remains; a record is kept exactly when it was there and has another id; the list is unchanged exactly when the id was absent |
| TodoList.FindById | frontend/src/components/Home.jsx:54 | `undefined` exactly when no record has the id; otherwise the first record that has it |
| TodoList.Incomplete | frontend/src/components/Home.jsx:97 | keeps exactly the records not completed; all kept exactly when none is completed, none kept exactly when all are |
| TodoList.Remaining | frontend/src/components/Home.jsx:97 | the count never exceeds the list length; it is 0 exactly when every record is completed and equals the length exactly when none is |
| TodoList.RemainingEmpty | frontend/src/components/Home.jsx:97 | the empty list has 0 remaining tasks |
| TodoList.RemainingConcat | frontend/src/components/Home.jsx:97 | the remaining count is additive over concatenation |
| TodoList.RemainingAfterFlip | frontend/src/components/Home.jsx:97 | with unique ids, replacing one record by itself with `completed` negated moves the count by exactly one, in the right direction |
| TodoList.RemoveByIdConcat | frontend/src/components/Home.jsx:77 | the filter distributes over concatenation, so the relative order of the kept records is preserved |
| TodoList.RemoveByIdIdempotent | frontend/src/components/Home.jsx:77 | filtering an id out twice equals filtering it out once |
| TodoList.RemoveByIdPresent | frontend/src/components/Home.jsx:77 | with unique ids, deleting the id at position k yields the list without position k, one shorter |
| TodoList.RemoveByIdUnique | frontend/src/components/Home.jsx:77 | deleting never creates a duplicate id |
| TodoList.ReplaceByIdUnique | frontend/src/components/Home.jsx:66 | a replacement record that keeps the id keeps ids unique |
| TodoList.AppendUnique | frontend/src/components/Home.jsx:46 | appending a record with a new id keeps ids unique |
| TodoList.FindByIdUnique | frontend/src/components/Home.jsx:54 | with unique ids, `find` returns the one record with that id |
| HomeState.StartFetch | frontend/src/components/Home.jsx:15 | while the fetch is awaited, loading is on and nothing else has changed |
| HomeState.Fetch | frontend/src/components/Home.jsx:13-29 | success replaces the list and clears the error; failure sets "Failed to fetch todos" and keeps the list; loading ends false and the input is untouched |
| HomeState.CreateRequest | frontend/src/components/Home.jsx:34-41 | no request when the input is empty; otherwise the input text with `completed` false |
| HomeState.Create | frontend/src/components/Home.jsx:33-51 | an empty input changes nothing; success appends the server's record at the end, clears the input and leaves error and loading alone; failure sets "Failed to create todo" and keeps list, input and loading |
| HomeState.Flipped | frontend/src/components/Home.jsx:58-61 | the body is the found record with `completed` negated and the same id and text; no body when nothing was found |
| HomeState.ToggleRequest | frontend/src/components/Home.jsx:54-61 | a request is sent exactly when the id is in the list, and it carries that id |
| HomeState.Toggle | frontend/src/components/Home.jsx:53-70 | success keeps the length and puts the server's record at every position with the id, all others unchanged; failure or an absent id sets "Failed to update todo" and keeps the list; loading and input untouched |
| HomeState.Delete | frontend/src/components/Home.jsx:72-81 | success removes every record with the id and keeps exactly the others; failure sets "Failed to Delete Todo" and keeps the list; loading and input untouched |
| HomeState.SelectView | frontend/src/components/Home.jsx:122-128 | the loading text exactly when loading; otherwise the message exactly when the error is truthy; otherwise the list itself |
| HomeLaws.SpinnerWhileFetching | frontend/src/components/Home.jsx:15 | while a fetch is awaited, the loading text is shown whatever the error slot holds |
| HomeLaws.FetchFailureShowsMessage | frontend/src/components/Home.jsx:24-28 | after a failed fetch loading is off and the fetch message replaces the list |
| HomeLaws.FetchSuccessShowsList | frontend/src/components/Home.jsx:22-27 | after a successful fetch the server's list is shown |
| HomeLaws.FetchIdempotent | frontend/src/components/Home.jsx:13-29 | fetching an unchanged collection twice gives the same state as once |
| HomeLaws.DeleteTwiceIsDeleteOnce | frontend/src/components/Home.jsx:72-81 | two successful deletes of one id equal one |
| HomeLaws.DeleteAbsentIsNoOp | frontend/src/components/Home.jsx:77 | a successful delete of an absent id leaves the whole state unchanged |
| HomeLaws.DeletePresent | frontend/src/components/Home.jsx:77 | with unique ids, deleting the record at k leaves the list without exactly that record |
| HomeLaws.ToggleAbsentFails | frontend/src/components/Home.jsx:54-69 | toggling an absent id sends nothing and only sets "Failed to update todo", whatever the server would answer |
| HomeLaws.ToggleRequestFlips | frontend/src/components/Home.jsx:54-61 | with unique ids, the update body is the current record with `completed` negated |
| HomeLaws.ToggleTwiceRestores | frontend/src/components/Home.jsx:53-70 | with unique ids and a server that echoes the body, two toggles of one record restore the original list |
| HomeLaws.ToggleMovesRemaining | frontend/src/components/Home.jsx:53-70 | with unique ids and an echoing server, one toggle moves the remaining count by exactly one |
| HomeLaws.ErrorShownIffSet | frontend/src/components/Home.jsx:126-127 | when the error slot is null or a fixed message, the message is shown exactly when the slot is non-null and loading is off |
| HomeLaws.RunKeepsErrorSlotValid | frontend/src/components/Home.jsx:12-81 | along any run of handler calls, the error slot stays null or one of the four fixed messages |
| HomeLaws.StepKeepsUniqueIds | frontend/src/components/Home.jsx:12-81 | one handler call keeps ids unique when the server keeps its contract |
| HomeLaws.RunKeepsUniqueIds | frontend/src/components/Home.jsx:12-81 | along any run where the server keeps its contract, the list never holds two records with one id |
| HomePage.Home.constructor | frontend/src/components/Home.jsx:7-10 | the initial slots: empty list, null error, not loading, empty input |
| HomePage.Home.FetchTodos | frontend/src/components/Home.jsx:13-29 | the fields end as `Fetch` of the old state, and the error slot stays valid |
| HomePage.Home.TypeText | frontend/src/components/Home.jsx:110 | only the input text changes |
| HomePage.Home.TodoCreate | frontend/src/components/Home.jsx:33-51 | returns the request `CreateRequest` describes; the fields end as `Create` of the old state |
| HomePage.Home.TodoStatus | frontend/src/components/Home.jsx:53-70 | returns the request `ToggleRequest` describes; the fields end as `Toggle` of the old state |
| HomePage.Home.TodoDelete | frontend/src/components/Home.jsx:72-81 | the fields end as `Delete` of the old state |
| HomePage.Home.CurrentView | frontend/src/components/Home.jsx:122-128 | under the class invariant, the loading text when loading, otherwise the message when the error slot is non-null, otherwise the list |
| HomePage.Home.RemainingTodos | frontend/src/components/Home.jsx:97 | the remaining count shown never exceeds the number of tasks |

## Left out

- The HTTP calls themselves: URLs, `withCredentials`, headers and response parsing. Each call is the `Reply` input. A malformed success body, such as one without `todos`, is not modelled.
- `logout`: it is made only of side effects (the HTTP call, a toast, navigation and removing the `jwt` item from `localStorage`), with no list or view state to reason about.
- React mechanics: `useEffect` scheduling, batching of state updates, and handlers that interleave while their calls are in flight. Each handler closes over the `todos` of its render, so two overlapping calls can overwrite each other. The model applies each handler to the latest state, one at a time.
- The JSX markup, styling, the list `key` and the `onKeyPress` wiring. The `onChange` of the input appears only as `TypeText`, so that the sample sessions can fill the input.
- `HomePage.Home.RemainingTodos`: its contract gives only the bound; the exact count is what `TodoList.Remaining` and its lemmas state.
