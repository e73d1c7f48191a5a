# To-do widget: store, persistence and re-render model

A Dafny model of the logic inside a small browser to-do list. The model keeps three things:

- an ordered list of task records `{id, title, date, selected}`;
- the local-storage slot that holds a copy of the list;
- the rendered rows of the task container.

Every mutation follows the same rule: change the list in place, write the whole list to
storage, then empty the container and rebuild one row per task, in list order. The model
also covers the per-row inline editor (Viewing to Editing and back) and the main input's
text buffer and Enter handler.

Modules:

- `Tasks` (`tasks.dfy`): the `Task` record, `CreateTodo`, and `Splice`, the `splice(index, 1)`
  that deletion uses.
- `View` (`view.dfy`): the rendered row, as a record holding its `data-id`, `data-index`,
  checkbox state, title text and visibility, date stamp, optional edit field and action mode.
  Also the row built for a task, the full re-render `Render`, the document-order lookup
  `FindRow`, the two edit transitions of a row, and the lemmas about them.
- `Page` (`page.dfy`): the class `TodoPage`. Its fields are the page-wide state that
  `src/index.js` exports (the `todos` array and the `todoSection` container) plus the storage
  slot. Its methods are the state-changing operations of `src/utils/functions.js` and
  `src/components/TodoSingle/TodoSingle.js`. Those two files import each other, and Dafny
  modules cannot, so both files' operations live in this one class. `Valid()` is the
  consistency that the persist-then-re-render rule keeps between events.
- `MainInput` (`main_input.dfy`): the class `Input`, holding the `todoContent` buffer and the
  field's value, with its `input` and `keydown` handlers. Two client methods,
  `EditSession` and `DeleteSession`, walk through the add / tick / edit / delete scenario and
  check each step from the contracts alone.

Inputs from the environment become parameters:

- the current instant (`new Date()`) is `now: nat`, in milliseconds;
- "the key was Enter" is `isEnter: bool`, because the constant it is compared with is defined
  in `src/utils/constants.js`, which is not part of this model;
- the text of an `input` event is `value`;
- what the storage slot held at start-up is `saved: Option<seq<Task>>`.

Edge cases, as the code has them:

- The Enter handler has no emptiness check, so an Enter on an empty buffer appends a task
  titled `""` (`OnKeyDown`, `DeleteSession`).
- `todos[index]` on an out-of-range index throws, so `UpdateCheckedState` and `UpdateTodo`
  require `index < |todos|`. `splice` with an index past the end does nothing, and
  `DeleteFromTodos` models that.
- `updateTodo` stores whatever the clock says, so no ordering of dates is stated.
- Ids are creation instants, so two tasks created in the same millisecond share an id. The
  lookup by id then always finds the earlier row, so the later row's edit and delete buttons
  act on the earlier task (`FindRenderedFirst`).

## Model

| member | source | states |
|---|---|---|
| Tasks.CreateTodo | src/components/TodoSingle/TodoSingle.js:8-17 | the new task's id and date are both the creation instant, its title is the given text, and it is not selected |
| Tasks.Splice | src/utils/functions.js:26-27 | an index inside the list removes exactly one element: the length drops by one, earlier elements keep their places, later ones move down by one, and the multiset loses just that element; an index past the end leaves the list as it was |
| View.RowOf | src/components/TodoSingle/TodoSingle.js:45-96 | covers `renderSingleTodo` and `createActionsBlock` (the default action mode, `CreateActionsBlock`): the built row shows the task's id, its position as data-index, its selected flag as the checkbox, its title and date, and is in Viewing mode with the edit/delete actions |
| View.Render | src/utils/functions.js:14-15 | the re-render has exactly one row per task; row k is the row built for task k at index k, so it shows task k's fields with data-index k and is Viewing |
| View.FindRow | src/utils/functions.js:7-9 | the lookup by data-id returns the first row in document order with that id, and returns None exactly when no row has it |
| View.Started | src/components/TodoSingle/TodoSingle.js:127-159 | starting an edit puts the row in Editing: edit field pre-filled with the current title text, title hidden, save/cancel actions; the row's task data is unchanged |
| View.Cancelled | src/components/TodoSingle/TodoSingle.js:184-196 | cancelling returns the row to Viewing with its title text and task data unchanged and the edit/delete actions restored |
| View.RenderAppend | src/components/TodoSingle/TodoSingle.js:77 | rendering one more task appends its row after all previously rendered rows, with the next index |
| View.RenderToggle | src/components/TodoSingle/TodoSingle.js:98-101 | after toggling task i, the re-render differs from the old rows only in row i's checkbox |
| View.RenderRetitle | src/components/TodoSingle/TodoSingle.js:177-182 | after retitling task i, the re-render differs from the old rows only in row i's title text and date |
| View.RenderSplice | src/utils/functions.js:26-29 | after deleting task i, the rows before i are unchanged, and each later row moves up one place and is renumbered to its new position |
| View.FindRenderedUnique | src/components/TodoSingle/TodoSingle.js:103-106 | when ids are unique, looking up a task's id in the rendered rows finds that task's own position |
| View.FindRenderedFirst | src/utils/functions.js:7-9 | over rendered rows, the lookup by id succeeds exactly when some task has that id, and finds the earliest such task, so duplicate ids resolve to the first one |
| View.FindRowById | src/utils/functions.js:7-9 | the lookup's result depends only on the rows' data-id attributes, not on mode, title or checkbox |
| View.CancelUndoesStart | src/components/TodoSingle/TodoSingle.js:127-196 | starting an edit on a Viewing row and then cancelling it finds the same row both times and gives back exactly the original rows |
| Page.TodoPage.constructor | src/index.js:8-18 | at start-up the list is the stored list or empty, storage keeps what it held, and the rows are its full render (none when it is empty) |
| Page.TodoPage.RenderSingleTodo | src/components/TodoSingle/TodoSingle.js:45-79 | the container gains exactly the task's row, after every row already there |
| Page.TodoPage.UpdateTodos | src/utils/functions.js:11-16 | the list is unchanged, storage holds a copy of it, and the rows are its full render with no earlier row surviving; the page invariant holds |
| Page.TodoPage.DeleteFromTodos | src/utils/functions.js:26-29 | the list becomes the splice at index, storage holds it and the rows are its full render |
| Page.TodoPage.UpdateCheckedState | src/components/TodoSingle/TodoSingle.js:98-101 | only the selected flag of task index changes, to the given value; then persisted and re-rendered |
| Page.TodoPage.UpdateTodo | src/components/TodoSingle/TodoSingle.js:177-182 | only the title and date of task index change, to the given text and instant; id, selected and every other task unchanged; then persisted and re-rendered |
| Page.TodoPage.RemoveTodo | src/components/TodoSingle/TodoSingle.js:103-106 | deletes the list position held in the data-index of the first row with that data-id, which under the page invariant is that row's own position; the list shrinks by one, then persisted and re-rendered |
| Page.TodoPage.StartEditTodo | src/components/TodoSingle/TodoSingle.js:127-159 | only the first row with that id changes, into its Started form; the list and storage are untouched |
| Page.TodoPage.TypeInEditField | src/components/TodoSingle/TodoSingle.js:135-139 | typing replaces only the edit field's text of that row; nothing else changes |
| Page.TodoPage.ConfirmEditTodo | src/components/TodoSingle/TodoSingle.js:161-175 | the edit field's text becomes the title (and now the date) of the task at the row's position; storage and the full re-render follow, and every row is then Viewing |
| Page.TodoPage.CancelEditTodo | src/components/TodoSingle/TodoSingle.js:184-196 | only the first row with that id changes, into its Cancelled form; the list and storage are untouched |
| MainInput.Input.constructor | src/components/MainInput/MainInput.js:7 | the buffer starts empty |
| MainInput.Input.OnInput | src/components/MainInput/MainInput.js:9-11 | the buffer takes the field's current text |
| MainInput.Input.OnKeyDown | src/components/MainInput/MainInput.js:13-30 | Enter appends exactly one task built from the buffered text (empty text included), with id = date = now and not selected, leaving earlier tasks as they were; then the list is persisted and re-rendered and the buffer and field are cleared; any other key changes nothing |

## Left out

- JSON serialisation and the browser's local storage (`getLocalTodos`, `updateLocalTodos`):
  storage is a field that receives a copy of the sequence. Malformed stored text, which makes
  `JSON.parse` throw, and a write that fails on quota are not modelled. Dates that come back
  from storage as text are not modelled either.
- `formatRelative` from date-fns: it is a library call on clock values. A row holds the
  stored timestamp instead of the relative-time text.
- DOM mechanics: element creation, classes, `style.display`, `focus()`, listener
  registration, and the root container set-up in `src/index.js`. Rows are records and
  handlers are method calls. The Enter key in the edit field and the save icon both call
  `ConfirmEditTodo`. Blur and the cancel icon both call `CancelEditTodo`.
- The order in which browser events interleave, for example a blur that fires around a
  click on the save icon: events are discrete sequential calls. A blur that reaches
  `cancelEditTodo` after the row was re-rendered would throw in the code. This is why
  `ConfirmEditTodo` and `CancelEditTodo` require a row in Editing.
- StartEditTodo: requires the row it finds to be Viewing. In the code, an edit click can
  reach a row that is already Editing only when ids repeat, because the lookup then finds the
  earlier row. The second edit field that this would insert is not modelled.
- The checkbox's change handler passes the index captured when its row was rendered. The
  model calls `UpdateCheckedState` with that index directly. Every mutation re-renders, so
  under `Valid()` the captured index is the row's current position.
- `data-index` is read back with `getAttribute` as a string. Indexing with the string `"3"`
  reaches the same element as `3`, and `splice` converts it to an integer. The model keeps it
  as a `nat`.
- The wall clock: `now` is a parameter, and nothing is said about one instant relative to
  another.
