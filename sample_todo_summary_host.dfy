/** The sample to-do summary demo host, a copy of the summary host over the sample
    summary component: its one handler clears the completed to-dos. */
module SampleTodoSummaryHost {
  import opened Lists
  import opened Todos

  /** `handleDeleteAllCompleted`: the list passed to `setTodos`. */
  function HandleDeleteAllCompleted(todos: seq<Todo>): (r: seq<Todo>)
    ensures |r| <= |todos| && forall i | 0 <= i < |r| :: !r[i].completed && r[i] in todos
  {
    Filter(todos, Incomplete())
  }

  /** After clearing, no completed to-do is left; every incomplete one is kept, in
      order, with as many copies as before; the length is the number of incomplete
      to-dos; clearing twice is clearing once. */
  lemma DeleteAllCompletedSpec(todos: seq<Todo>)
    ensures var r := HandleDeleteAllCompleted(todos);
      && (forall i | 0 <= i < |r| :: !r[i].completed)
      && (forall t: Todo :: multiset(r)[t] == if t.completed then 0 else multiset(todos)[t])
      && IsSubsequence(r, todos)
      && |r| == Count(todos, Incomplete())
      && ((forall i | 0 <= i < |todos| :: !todos[i].completed) ==> r == todos)
      && HandleDeleteAllCompleted(r) == r
  {
    DropCompletedSpec(todos);
  }

  /** On the host's starting list, clearing leaves the first and third to-do. */
  lemma DeleteAllCompletedInitial()
    ensures HandleDeleteAllCompleted(InitialTodos) == [InitialTodos[0], InitialTodos[2]]
  {
    var s := InitialTodos;
    assert s[1..][1..][1..] == [];
    assert Filter(s[1..][1..], Incomplete()) == [s[2]];
  }
}
