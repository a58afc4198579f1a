/** The todo store of todo-app/context/TodoContext.tsx: the provider's `todos`
    state cell and the four operations that replace it. The store is an object
    whose `todos` field each method reassigns; what each new list is is given
    by the functions of module TodoList. The clock and random suffix that make
    ids are not modelled: each method receives the fresh id(s) to use. */
module TodoContext {
  import opened Text
  import opened TodoList

  class TodoStore {
    /** The current list, in insertion order. */
    var todos: seq<Todo>

    /** Every stored text is trimmed and not empty. */
    ghost predicate Valid()
      reads this
    {
      AllWellFormed(todos)
    }

    /** `useState<Todo[]>([])`: the list starts empty. */
    constructor ()
      ensures Valid() && todos == []
    {
      todos := [];
    }

    /** `addTodo(text, source = 'manual')`, with `id` the fresh id. */
    method AddTodo(text: string, id: string, source: Source := Manual)
      requires Valid()
      modifies this
      ensures Valid()
      ensures todos == Add(old(todos), text, id, source)
      ensures old(DistinctIds(todos) && !HasId(todos, id)) ==> DistinctIds(todos)
    {
      AddPreservesWellFormed(todos, text, id, source);
      if DistinctIds(todos) && !HasId(todos, id) {
        AddPreservesDistinctIds(todos, text, id, source);
      }
      todos := Add(todos, text, id, source);
    }

    /** `addMultipleTodos(texts, source = 'ai')`; `mint(index)` is the fresh
        id of the entry at `index` of the filtered list. */
    method AddMultipleTodos(texts: seq<string>, mint: nat -> string, source: Source := Ai)
      requires Valid()
      modifies this
      ensures Valid()
      ensures todos == AddMultiple(old(todos), texts, source, mint)
      ensures old(DistinctIds(todos) && FreshIds(todos, texts, mint)) ==> DistinctIds(todos)
    {
      AddMultiplePreservesWellFormed(todos, texts, source, mint);
      if DistinctIds(todos) && FreshIds(todos, texts, mint) {
        AddMultiplePreservesDistinctIds(todos, texts, source, mint);
      }
      var newTodos := NewTodos(texts, source, mint);
      todos := todos + newTodos;
    }

    /** `toggleTodo(id)`. */
    method ToggleTodo(id: string)
      requires Valid()
      modifies this
      ensures Valid()
      ensures todos == Toggle(old(todos), id)
      ensures old(DistinctIds(todos)) ==> DistinctIds(todos)
    {
      TogglePreservesInvariants(todos, id);
      todos := Toggle(todos, id);
    }

    /** `deleteTodo(id)`. */
    method DeleteTodo(id: string)
      requires Valid()
      modifies this
      ensures Valid()
      ensures todos == Delete(old(todos), id)
      ensures old(DistinctIds(todos)) ==> DistinctIds(todos)
    {
      DeletePreservesWellFormed(todos, id);
      if DistinctIds(todos) {
        DeletePreservesDistinctIds(todos, id);
      }
      todos := Delete(todos, id);
    }
  }

}
