/** The page's shared state and the operations that change it: the module-level `todos`
    array and `todoSection` container exported by src/index.js, plus the local-storage slot.
    Every mutation of the task list ends in `UpdateTodos`, which persists the list and
    rebuilds all rows. */
module Page {
  import opened Tasks
  import opened View

  class TodoPage {
    /** The in-memory task list, the only source of truth during a session. */
    var todos: seq<Task>
    /** The local-storage slot; None while nothing has been written to it. */
    var storage: Option<seq<Task>>
    /** The rows of the task container, in document order. */
    var rows: seq<Row>

    /** The consistency the persist-then-re-render rule keeps between events: storage holds
        the list (or is still absent with nothing in the list), there is one row per task,
        row k shows task k with `data-index` k, and every row is Viewing or Editing. */
    ghost predicate Valid()
      reads this
    {
      (storage == Some(todos) || (storage == None && todos == [])) &&
      |rows| == |todos| &&
      (forall k :: 0 <= k < |rows| ==> Shows(rows[k], todos[k], k)) &&
      (forall k :: 0 <= k < |rows| ==> IsViewing(rows[k]) || IsEditing(rows[k]))
    }

    /** Page start-up: the list is whatever storage held (`getLocalTodos() || []`), and it is
        rendered only when it is non-empty. */
    constructor (saved: Option<seq<Task>>)
      ensures Valid()
      ensures todos == (if saved.Some? then saved.value else [])
      ensures storage == saved
      ensures rows == Render(todos)
    {
      todos := if saved.Some? then saved.value else [];
      storage := saved;
      rows := [];
      new;
      if |todos| > 0 {
        UpdateTodos();
      }
    }

    /** `renderSingleTodo`: appends the row for task `t` at position `index` after every row
        already in the container. */
    method RenderSingleTodo(t: Task, index: nat)
      modifies this`rows
      ensures rows == old(rows) + [RowOf(t, index)]
    {
      rows := rows + [RowOf(t, index)];
    }

    /** `updateTodos`: writes the whole list to storage, empties the container and renders
        one row per task in list order. */
    method UpdateTodos()
      modifies this
      ensures todos == old(todos)
      ensures storage == Some(todos)
      ensures rows == Render(todos)
      ensures Valid()
    {
      storage := Some(todos);
      rows := [];
      var i := 0;
      while i < |todos|
        invariant 0 <= i <= |todos|
        invariant todos == old(todos) && storage == Some(todos)
        invariant rows == Render(todos[..i])
      {
        assert todos[..i + 1][..i] == todos[..i];
        RenderSingleTodo(todos[i], i);
        i := i + 1;
      }
      assert todos[..i] == todos;
    }

    /** `deleteFromTodos`: splices out the task at `index` (nothing when `index` is past the
        end), then persists and re-renders. */
    method DeleteFromTodos(index: nat)
      modifies this
      ensures todos == Splice(old(todos), index)
      ensures storage == Some(todos)
      ensures rows == Render(todos)
      ensures Valid()
    {
      if index < |todos| {
        todos := todos[..index] + todos[index + 1..];
      }
      UpdateTodos();
    }

    /** `updateCheckedState`: sets the completion flag of task `index` alone, then persists
        and re-renders. */
    method UpdateCheckedState(index: nat, selected: bool)
      requires index < |todos|
      modifies this
      ensures todos == old(todos)[index := old(todos)[index].(selected := selected)]
      ensures storage == Some(todos)
      ensures rows == Render(todos)
      ensures Valid()
    {
      todos := todos[index := todos[index].(selected := selected)];
      UpdateTodos();
    }

    /** `updateTodo`: sets the title of task `index` and stamps it with `now`, then persists
        and re-renders. */
    method UpdateTodo(index: nat, title: string, now: nat)
      requires index < |todos|
      modifies this
      ensures todos == old(todos)[index := old(todos)[index].(title := title, date := now)]
      ensures storage == Some(todos)
      ensures rows == Render(todos)
      ensures Valid()
    {
      todos := todos[index := todos[index].(title := title)];
      todos := todos[index := todos[index].(date := now)];
      UpdateTodos();
    }

    /** `removeTodo`: deletes the list position held in the `data-index` of the first row
        whose `data-id` is `id`. */
    method RemoveTodo(id: nat)
      requires Valid()
      requires FindRow(rows, id).Some?
      modifies this
      ensures todos == Splice(old(todos), old(rows)[FindRow(old(rows), id).value].index)
      ensures todos == Splice(old(todos), FindRow(old(rows), id).value)
      ensures |todos| == |old(todos)| - 1
      ensures storage == Some(todos)
      ensures rows == Render(todos)
      ensures Valid()
    {
      var todo := FindRow(rows, id).value;
      var indexTodoToDelete := rows[todo].index;
      DeleteFromTodos(indexTodoToDelete);
    }

    /** `startEditTodo`: on the first row with `data-id` `id`, hides the title, inserts an edit
        field holding the title text and swaps the actions for save/cancel. The task list and
        storage are not touched. */
    method StartEditTodo(id: nat)
      requires Valid()
      requires FindRow(rows, id).Some?
      requires IsViewing(rows[FindRow(rows, id).value])
      modifies this`rows
      ensures var pos := FindRow(old(rows), id).value;
              rows == old(rows)[pos := Started(old(rows)[pos])]
      ensures todos == old(todos) && storage == old(storage)
      ensures Valid()
    {
      var todo := FindRow(rows, id).value;
      var row := rows[todo];
      row := row.(titleVisible := false);
      row := row.(editField := Some(row.title));
      row := row.(actions := SaveCancel);
      rows := rows[todo := row];
    }

    /** The user's typing into the edit field of row `pos`: the browser replaces the field's
        value, nothing else changes. */
    method TypeInEditField(pos: nat, text: string)
      requires Valid()
      requires pos < |rows| && IsEditing(rows[pos])
      modifies this`rows
      ensures rows == old(rows)[pos := old(rows)[pos].(editField := Some(text))]
      ensures todos == old(todos) && storage == old(storage)
      ensures Valid()
    {
      rows := rows[pos := rows[pos].(editField := Some(text))];
    }

    /** `confirmEditTodo`: commits the edit field's text as the title of the task at the row's
        `data-index` through `updateTodo`; the re-render leaves every row Viewing. */
    method ConfirmEditTodo(id: nat, now: nat)
      requires Valid()
      requires FindRow(rows, id).Some?
      requires IsEditing(rows[FindRow(rows, id).value])
      modifies this
      ensures var pos := FindRow(old(rows), id).value;
              todos == old(todos)[pos := old(todos)[pos].(title := old(rows)[pos].editField.value, date := now)]
      ensures storage == Some(todos)
      ensures rows == Render(todos)
      ensures forall k :: 0 <= k < |rows| ==> IsViewing(rows[k])
      ensures Valid()
    {
      var todo := FindRow(rows, id).value;
      var row := rows[todo];
      var value := row.editField.value;
      row := row.(title := value, titleVisible := true);
      row := row.(actions := CreateActionsBlock());
      rows := rows[todo := row];
      UpdateTodo(row.index, value, now);
    }

    /** `cancelEditTodo`: removes the edit field, shows the unchanged title again and restores
        the edit/delete actions. The task list and storage are not touched. */
    method CancelEditTodo(id: nat)
      requires Valid()
      requires FindRow(rows, id).Some?
      requires IsEditing(rows[FindRow(rows, id).value])
      modifies this`rows
      ensures var pos := FindRow(old(rows), id).value;
              rows == old(rows)[pos := Cancelled(old(rows)[pos])]
      ensures todos == old(todos) && storage == old(storage)
      ensures Valid()
    {
      var todo := FindRow(rows, id).value;
      var row := rows[todo];
      row := row.(editField := None);
      row := row.(titleVisible := true);
      row := row.(actions := CreateActionsBlock());
      rows := rows[todo := row];
    }
  }
}
