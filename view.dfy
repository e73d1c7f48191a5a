/** The rendered task rows: what `renderSingleTodo` builds for a task, the full re-render
    of the list, the document-order lookup by `data-id`, and the per-row inline-edit states. */
module View {
  import opened Tasks

  /** The `.actions` block of a row: edit and delete icons (the default built by
      `createActionsBlock`), or save and cancel icons while the row is being edited. */
  datatype Actions = EditDelete | SaveCancel

  /** One `.single` element of the task container.
      `id` and `index` are its `data-id` and `data-index` attributes, `checked` its checkbox,
      `title` and `titleVisible` the `.title` paragraph's text and display, `date` the stamp
      its `.date` paragraph shows, `editField` the `.edit-field` input if there is one. */
  datatype Row = Row(id: nat, index: nat, checked: bool, title: string, titleVisible: bool,
                     date: nat, editField: Option<string>, actions: Actions)

  /** The action mode `createActionsBlock` produces. */
  function CreateActionsBlock(): Actions
  {
    EditDelete
  }

  /** Viewing: no edit field, title shown, edit/delete actions. */
  predicate IsViewing(r: Row)
  {
    r.editField.None? && r.titleVisible && r.actions == EditDelete
  }

  /** Editing: an edit field, title hidden, save/cancel actions. */
  predicate IsEditing(r: Row)
  {
    r.editField.Some? && !r.titleVisible && r.actions == SaveCancel
  }

  /** Row `r` displays task `t` as the task at list position `index`. */
  predicate Shows(r: Row, t: Task, index: nat)
  {
    r.id == t.id && r.index == index && r.checked == t.selected && r.title == t.title && r.date == t.date
  }

  /** `a` and `b` display the same task data at the same position (they may differ in mode). */
  predicate SameData(a: Row, b: Row)
  {
    a.id == b.id && a.index == b.index && a.checked == b.checked && a.title == b.title && a.date == b.date
  }

  /** The row `renderSingleTodo` builds for task `t` at position `index`. */
  function RowOf(t: Task, index: nat): (r: Row)
    ensures Shows(r, t, index)
    ensures IsViewing(r)
  {
    Row(t.id, index, t.selected, t.title, true, t.date, None, CreateActionsBlock())
  }

  /** The rows `updateTodos` leaves in the emptied container: `renderSingleTodo` appended once
      per task, in list order, each with its position as `data-index`. */
  function Render(ts: seq<Task>): (rows: seq<Row>)
    ensures |rows| == |ts|
    ensures forall k :: 0 <= k < |ts| ==> rows[k] == RowOf(ts[k], k)
    ensures forall k :: 0 <= k < |ts| ==> Shows(rows[k], ts[k], k) && IsViewing(rows[k])
  {
    if |ts| == 0 then []
    else Render(ts[..|ts| - 1]) + [RowOf(ts[|ts| - 1], |ts| - 1)]
  }

  /** `getByDataAttribute("id", id)`: the position of the first row, in document order,
      whose `data-id` is `id`, or None when there is none. */
  function FindRow(rows: seq<Row>, id: nat): (r: Option<nat>)
    ensures r.Some? ==> r.value < |rows| && rows[r.value].id == id
    ensures r.Some? ==> forall j :: 0 <= j < r.value ==> rows[j].id != id
    ensures r.None? <==> forall j :: 0 <= j < |rows| ==> rows[j].id != id
  {
    if |rows| == 0 then None
    else if rows[0].id == id then Some(0)
    else
      match FindRow(rows[1..], id)
      case None => None
      case Some(j) => Some(j + 1)
  }

  /** The row after `startEditTodo`'s steps: title hidden, an edit field holding the title
      text, save/cancel actions. */
  function Started(r: Row): (e: Row)
    ensures IsEditing(e) && SameData(e, r)
    ensures e.editField == Some(r.title)
  {
    r.(titleVisible := false, editField := Some(r.title), actions := SaveCancel)
  }

  /** The row after `cancelEditTodo`'s steps: edit field removed, title shown again,
      default actions. */
  function Cancelled(r: Row): (v: Row)
    ensures IsViewing(v) && SameData(v, r)
  {
    r.(editField := None, titleVisible := true, actions := CreateActionsBlock())
  }

  /** Rendering one more task appends exactly one row after all earlier rows. */
  lemma RenderAppend(ts: seq<Task>, t: Task)
    ensures Render(ts + [t]) == Render(ts) + [RowOf(t, |ts|)]
  {
    assert (ts + [t])[..|ts|] == ts;
  }

  /** Toggling task `i` changes only the checkbox of rendered row `i`. */
  lemma RenderToggle(ts: seq<Task>, i: nat, s: bool)
    requires i < |ts|
    ensures Render(ts[i := ts[i].(selected := s)]) == Render(ts)[i := Render(ts)[i].(checked := s)]
  {
    var a, b := Render(ts[i := ts[i].(selected := s)]), Render(ts)[i := Render(ts)[i].(checked := s)];
    assert |a| == |b|;
    forall k | 0 <= k < |a| ensures a[k] == b[k] {
      if k == i {
        assert a[k] == RowOf(ts[i].(selected := s), i);
      } else {
        assert a[k] == RowOf(ts[k], k);
      }
    }
  }

  /** Editing task `i` changes only the title text and date of rendered row `i`. */
  lemma RenderRetitle(ts: seq<Task>, i: nat, title: string, now: nat)
    requires i < |ts|
    ensures Render(ts[i := ts[i].(title := title, date := now)])
         == Render(ts)[i := Render(ts)[i].(title := title, date := now)]
  {
    var a, b := Render(ts[i := ts[i].(title := title, date := now)]),
                Render(ts)[i := Render(ts)[i].(title := title, date := now)];
    assert |a| == |b|;
    forall k | 0 <= k < |a| ensures a[k] == b[k] {
      if k == i {
        assert a[k] == RowOf(ts[i].(title := title, date := now), i);
      } else {
        assert a[k] == RowOf(ts[k], k);
      }
    }
  }

  /** After deleting task `i`, the rows before `i` are as they were and every later row
      moves up one place and is renumbered to its new position. */
  lemma RenderSplice(ts: seq<Task>, i: nat)
    requires i < |ts|
    ensures |Render(Splice(ts, i))| == |Render(ts)| - 1
    ensures forall k :: 0 <= k < i ==> Render(Splice(ts, i))[k] == Render(ts)[k]
    ensures forall k :: i <= k < |ts| - 1 ==> Render(Splice(ts, i))[k] == Render(ts)[k + 1].(index := k)
  {
  }

  /** With ids unique, the lookup by a task's id finds that task's own row. */
  lemma FindRenderedUnique(ts: seq<Task>, k: nat)
    requires k < |ts|
    requires forall j :: 0 <= j < |ts| && j != k ==> ts[j].id != ts[k].id
    ensures FindRow(Render(ts), ts[k].id) == Some(k)
  {
    var rows := Render(ts);
    assert rows[k].id == ts[k].id;
  }

  /** The lookup by an id finds the row of the FIRST task carrying that id. Two tasks created
      in the same millisecond share an id, so the edit, save, cancel and delete handlers of the
      later row act on the earlier row. */
  lemma FindRenderedFirst(ts: seq<Task>, id: nat)
    ensures FindRow(Render(ts), id).Some? <==> exists j :: 0 <= j < |ts| && ts[j].id == id
    ensures FindRow(Render(ts), id).Some? ==> ts[FindRow(Render(ts), id).value].id == id
    ensures forall j :: 0 <= j < |ts| && ts[j].id == id ==> FindRow(Render(ts), id).value <= j
  {
    var rows := Render(ts);
    if j :| 0 <= j < |ts| && ts[j].id == id {
      assert rows[j].id == id;
    }
  }

  /** The lookup depends on the `data-id` attributes alone. */
  lemma {:induction false} FindRowById(rows: seq<Row>, other: seq<Row>, id: nat)
    requires |rows| == |other|
    requires forall k :: 0 <= k < |rows| ==> rows[k].id == other[k].id
    ensures FindRow(rows, id) == FindRow(other, id)
  {
    if |rows| > 0 && rows[0].id != id {
      FindRowById(rows[1..], other[1..], id);
    }
  }

  /** Starting an edit on a row in Viewing and then cancelling it gives back exactly the rows
      there were, and the cancel finds the same row the start did. */
  lemma CancelUndoesStart(rows: seq<Row>, id: nat)
    requires FindRow(rows, id).Some?
    requires IsViewing(rows[FindRow(rows, id).value])
    ensures var pos := FindRow(rows, id).value;
            var started := rows[pos := Started(rows[pos])];
            FindRow(started, id) == Some(pos) && started[pos := Cancelled(started[pos])] == rows
  {
    var pos := FindRow(rows, id).value;
    var started := rows[pos := Started(rows[pos])];
    FindRowById(rows, started, id);
  }
}
