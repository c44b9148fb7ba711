/** The to-do record shared by the demo hosts, and the list transforms their
    handlers hand to the state setter. */
module Todos {
  import opened Lists

  /** A to-do item; ids are JavaScript numbers compared with `===`, modelled as
      integers. */
  datatype Todo = Todo(id: int, title: string, completed: bool)

  /** The list each list host starts with. */
  const InitialTodos := [
    Todo(1, "Learn React", false),
    Todo(2, "Build awesome apps", true),
    Todo(3, "Master TypeScript", false)
  ]

  /** The `filter(todo => !todo.completed)` predicate. */
  function Incomplete(): Todo -> bool
  {
    (t: Todo) => !t.completed
  }

  function Completed(): Todo -> bool
  {
    (t: Todo) => t.completed
  }

  /** Dropping the completed to-dos keeps exactly the incomplete ones: none that is
      left is completed, each incomplete one keeps all its copies, the survivors keep
      their relative order, their number is the number of incomplete to-dos, a list
      with nothing completed comes back unchanged, and a second pass changes nothing. */
  lemma {:induction false} DropCompletedSpec(s: seq<Todo>)
    ensures var r := Filter(s, Incomplete());
      && (forall i | 0 <= i < |r| :: !r[i].completed)
      && (forall t: Todo :: multiset(r)[t] == if t.completed then 0 else multiset(s)[t])
      && IsSubsequence(r, s)
      && |r| == Count(s, Incomplete()) == |s| - Count(s, Completed())
      && ((forall i | 0 <= i < |s| :: !s[i].completed) ==> r == s)
      && Filter(r, Incomplete()) == r
  {
    var r := Filter(s, Incomplete());
    forall t: Todo ensures multiset(r)[t] == if t.completed then 0 else multiset(s)[t] {
      FilterMultiset(s, Incomplete(), t);
    }
    FilterIsSubsequence(s, Incomplete());
    FilterLength(s, Incomplete());
    CountComplement(s, Incomplete(), Completed());
    if forall i | 0 <= i < |s| :: !s[i].completed {
      FilterKeepsAll(s, Incomplete());
    }
    FilterIdempotent(s, Incomplete());
  }
}
