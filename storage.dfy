/** The browser's local storage as the app uses it: one slot, `"todoArray"`,
    holding the whole list. Serialisation to and from JSON is taken as the
    identity, so a slot holds the list itself. */
module Storage {
  import opened Todos

  const TODO_ARRAY_KEY: string := "todoArray"

  class Store {
    var items: map<string, seq<Todo>>

    /** The list a load returns: the stored one, or empty when the slot is
        absent. */
    function Stored(): seq<Todo>
      reads this
    {
      if TODO_ARRAY_KEY in items then items[TODO_ARRAY_KEY] else []
    }

    /** A storage with nothing in it. */
    constructor ()
      ensures items == map[]
    {
      items := map[];
    }

    /** `setLocalStorageWithTodoArray`: overwrite the slot with the whole list;
        no other slot changes. */
    method SetTodoArray(todos: seq<Todo>)
      modifies this
      ensures items == old(items)[TODO_ARRAY_KEY := todos]
      ensures Stored() == todos
    {
      items := items[TODO_ARRAY_KEY := todos];
    }

    /** `getTodoArrayFromLocalStorage`: the empty list when the slot is absent,
        otherwise what the slot holds. (The program also answers empty for a
        slot holding the empty string, which a save never writes.) */
    method GetTodoArray() returns (r: seq<Todo>)
      ensures r == Stored()
    {
      if TODO_ARRAY_KEY !in items {
        return [];
      }
      r := items[TODO_ARRAY_KEY];
    }
  }

  /** A save followed by a load gives back the saved list. */
  method SaveThenLoad(store: Store, todos: seq<Todo>) returns (r: seq<Todo>)
    modifies store
    ensures r == todos
  {
    store.SetTodoArray(todos);
    r := store.GetTodoArray();
  }
}
