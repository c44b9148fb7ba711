/** The to-do list demo host: marking a to-do done or not done, and deleting one. */
module TodoListHost {
  import opened Lists
  import opened Todos

  /** `handleCompletedChange(id, completed)`: `todos.map(...)` replacing `completed` in
      every to-do whose id is `id`. */
  function HandleCompletedChange(todos: seq<Todo>, id: int, completed: bool): (r: seq<Todo>)
    ensures |r| == |todos|
  {
    if todos == [] then []
    else [if todos[0].id == id then todos[0].(completed := completed) else todos[0]]
         + HandleCompletedChange(todos[1..], id, completed)
  }

  /** Position by position: every to-do keeps its id and title, those with the id get
      the new flag, all others stay as they were; length and order are kept. */
  lemma {:induction false} CompletedChangeSpec(todos: seq<Todo>, id: int, completed: bool)
    ensures var r := HandleCompletedChange(todos, id, completed);
      && |r| == |todos|
      && forall i | 0 <= i < |todos| ::
           && r[i].id == todos[i].id && r[i].title == todos[i].title
           && r[i].completed == (if todos[i].id == id then completed else todos[i].completed)
  {
    if todos != [] {
      CompletedChangeSpec(todos[1..], id, completed);
      var r := HandleCompletedChange(todos, id, completed);
      forall i | 1 <= i < |todos| ensures r[i] == HandleCompletedChange(todos[1..], id, completed)[i - 1] {
      }
    }
  }

  /** Setting the same flag twice is setting it once. */
  lemma CompletedChangeIdempotent(todos: seq<Todo>, id: int, completed: bool)
    ensures var once := HandleCompletedChange(todos, id, completed);
      HandleCompletedChange(once, id, completed) == once
  {
    var once := HandleCompletedChange(todos, id, completed);
    var twice := HandleCompletedChange(once, id, completed);
    CompletedChangeSpec(todos, id, completed);
    CompletedChangeSpec(once, id, completed);
    assert forall i | 0 <= i < |once| :: twice[i] == once[i];
  }

  function HasId(id: int): Todo -> bool
  {
    (t: Todo) => t.id == id
  }

  /** The `filter(todo => todo.id !== id)` predicate. */
  function NotId(id: int): Todo -> bool
  {
    (t: Todo) => t.id != id
  }

  /** `handleDelete(id)`: the list passed to `setTodos`. */
  function HandleDelete(todos: seq<Todo>, id: int): (r: seq<Todo>)
    ensures |r| <= |todos| && forall i | 0 <= i < |r| :: r[i].id != id && r[i] in todos
  {
    Filter(todos, NotId(id))
  }

  /** After deleting, no to-do with the id is left; every other to-do keeps all its
      copies and its relative order; the length drops by the number of matches, so an
      absent id changes nothing. */
  lemma DeleteSpec(todos: seq<Todo>, id: int)
    ensures var r := HandleDelete(todos, id);
      && (forall i | 0 <= i < |r| :: r[i].id != id)
      && (forall t: Todo :: multiset(r)[t] == if t.id == id then 0 else multiset(todos)[t])
      && IsSubsequence(r, todos)
      && |r| == |todos| - Count(todos, HasId(id))
      && ((forall i | 0 <= i < |todos| :: todos[i].id != id) ==> r == todos)
  {
    var r := HandleDelete(todos, id);
    forall t: Todo ensures multiset(r)[t] == if t.id == id then 0 else multiset(todos)[t] {
      FilterMultiset(todos, NotId(id), t);
    }
    FilterIsSubsequence(todos, NotId(id));
    FilterLength(todos, NotId(id));
    CountComplement(todos, HasId(id), NotId(id));
    if forall i | 0 <= i < |todos| :: todos[i].id != id {
      FilterKeepsAll(todos, NotId(id));
    }
  }
}
