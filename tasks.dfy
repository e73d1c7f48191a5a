/** Task records and the pure operations on the ordered task list. */
module Tasks {

  datatype Option<T> = None | Some(value: T)

  /** One to-do entry. `id` and `date` are instants in milliseconds since the epoch:
      `id` is fixed at creation, `date` is the last-edit stamp. */
  datatype Task = Task(id: nat, title: string, date: nat, selected: bool)

  /** The record `createTodo` builds at instant `now`; the Enter handler of the main
      input pushes the same literal. */
  function CreateTodo(content: string, now: nat): (t: Task)
    ensures t.id == now && t.date == now
    ensures t.title == content
    ensures !t.selected
  {
    Task(now, content, now, false)
  }

  /** `todos.splice(index, 1)`: removes the element at `index` and shifts the later ones
      down by one; an index at or past the end removes nothing. */
  function Splice(s: seq<Task>, index: nat): (r: seq<Task>)
    ensures index < |s| ==> |r| == |s| - 1
    ensures index >= |s| ==> r == s
    ensures forall k :: 0 <= k < index && k < |r| ==> r[k] == s[k]
    ensures forall k :: index <= k < |r| ==> r[k] == s[k + 1]
    ensures index < |s| ==> multiset(r) + multiset{s[index]} == multiset(s)
  {
    if index < |s| then
      assert s == s[..index] + [s[index]] + s[index + 1..];
      s[..index] + s[index + 1..]
    else
      s
  }
}
