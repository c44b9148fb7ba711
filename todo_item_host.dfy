/** The single to-do demo host: toggling its one to-do, and a delete button that only
    raises an alert. */
module TodoItemHost {
  import opened Todos

  /** `handleCompletedChange(id, completed)`: the functional update handed to `setTodo`. */
  function HandleCompletedChange(prev: Todo, id: int, completed: bool): (r: Todo)
    ensures r.completed == completed
    ensures r.id == prev.id && r.title == prev.title
  {
    prev.(completed := completed)
  }

  /** The `id` argument plays no part: any id updates the one to-do alike. */
  lemma CompletedChangeIgnoresId(prev: Todo, a: int, b: int, completed: bool)
    ensures HandleCompletedChange(prev, a, completed) == HandleCompletedChange(prev, b, completed)
    ensures HandleCompletedChange(HandleCompletedChange(prev, a, completed), b, prev.completed) == prev
  {
  }

  /** A side effect a handler asks the browser for. */
  datatype Effect = Alert(message: string)

  const DeleteMessage := "Delete clicked! In a real app, this would delete the todo."

  /** `handleDelete(id)`: the to-do state is left alone and one alert is raised. */
  function HandleDelete(todo: Todo, id: int): (r: (Todo, seq<Effect>))
    ensures r.0 == todo
    ensures r.1 == [Alert(DeleteMessage)]
  {
    (todo, [Alert(DeleteMessage)])
  }
}
