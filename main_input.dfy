/** The main text input: the module-level `todoContent` buffer, the `input` handler that keeps
    it in step with the field, and the Enter `keydown` handler that appends a task. */
module MainInput {
  import opened Tasks
  import opened View
  import opened Page

  class Input {
    /** The buffered text (`todoContent`). */
    var todoContent: string
    /** The text shown in the input element (`input.value`). */
    var inputValue: string

    constructor ()
      ensures todoContent == "" && inputValue == ""
    {
      todoContent := "";
      inputValue := "";
    }

    /** An `input` event: the field now holds `value`, and the handler copies it into the
        buffer. */
    method OnInput(value: string)
      modifies this
      ensures inputValue == value && todoContent == value
    {
      inputValue := value;
      todoContent := inputValue;
    }

    /** A `keydown` event at instant `now`. Enter pushes a new task holding the buffered text
        (empty text included), persists and re-renders the list, then clears the buffer and
        the field; any other key does nothing. */
    method OnKeyDown(isEnter: bool, now: nat, page: TodoPage)
      modifies this, page
      ensures isEnter ==> page.todos == old(page.todos) + [CreateTodo(old(todoContent), now)]
      ensures isEnter ==> page.storage == Some(page.todos) && page.rows == Render(page.todos)
      ensures isEnter ==> page.Valid()
      ensures isEnter ==> todoContent == "" && inputValue == ""
      ensures !isEnter ==> unchanged(this) && unchanged(page)
    {
      if isEnter {
        var todoItem := CreateTodo(todoContent, now);
        page.todos := page.todos + [todoItem];
        page.UpdateTodos();
        todoContent := "";
        inputValue := "";
      }
    }
  }

  /** A session from an empty page: a key other than Enter adds nothing, Enter adds
      "Buy milk", the checkbox ticks it and the inline editor retitles it. */
  method EditSession(t0: nat, t1: nat)
  {
    var page := new TodoPage(None);
    var input := new Input();
    input.OnInput("Buy milk");
    input.OnKeyDown(false, t0, page);
    assert page.todos == [];
    input.OnKeyDown(true, t0, page);
    assert page.todos == [Task(t0, "Buy milk", t0, false)];
    assert input.todoContent == "";

    page.UpdateCheckedState(0, true);
    assert page.todos == [Task(t0, "Buy milk", t0, true)];

    assert page.rows[0].id == t0;
    page.StartEditTodo(t0);
    assert page.rows[0].editField == Some("Buy milk");
    page.TypeInEditField(0, "Buy oat milk");
    page.ConfirmEditTodo(t0, t1);
    assert page.todos == [Task(t0, "Buy oat milk", t1, true)];
  }

  /** A session from a page that loads one stored task: a bare Enter still adds a task with
      the empty title, and deleting both tasks leaves an empty list in storage. */
  method DeleteSession(t: Task, now: nat)
    requires t.id != now
  {
    var page := new TodoPage(Some([t]));
    var input := new Input();
    input.OnKeyDown(true, now, page);
    assert page.todos == [t, Task(now, "", now, false)];

    assert page.rows[1].id == now;
    page.RemoveTodo(now);
    assert page.todos == [t];
    assert page.rows[0].id == t.id;
    page.RemoveTodo(t.id);
    assert page.todos == [] && page.storage == Some([]) && page.rows == [];
  }
}
