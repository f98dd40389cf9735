/** The `App` component's state logic: the seed list, the first-load effect and
    the three handlers, each followed by an explicit save of the whole list
    (the program saves from an effect that runs whenever the list changes). */
module App {
  import opened Todos
  import opened Ordering
  import opened Mutations
  import opened Storage

  /** `initialData`: three to-dos, two active and one completed. The ids
      (from `uuid()`) and instants (from `new Date()`) are parameters. */
  function InitialData(id0: string, id1: string, id2: string,
                       t0: int, t1: int, t2: int, t3: int): (r: seq<Todo>)
    ensures |r| == 3
    ensures r[0].id == id0 && r[1].id == id1 && r[2].id == id2
    ensures r[0].createdAt == t0 && r[1].createdAt == t1 && r[2].createdAt == t2
    ensures r[2].completedAt == Some(t3)
    ensures r[0].text == "Buy groceries" && r[1].text == "Reboot computer"
    ensures r[2].text == "Ace CoderPad interview"
    ensures !r[0].checked && IsActive(r[0]) && !r[1].checked && IsActive(r[1])
    ensures r[2].checked && !IsActive(r[2])
    ensures WellFormed(r)
    ensures id0 != id1 && id0 != id2 && id1 != id2 ==> UniqueIds(r)
  {
    [ Todo(id0, "Buy groceries", false, t0, None),
      Todo(id1, "Reboot computer", false, t1, None),
      Todo(id2, "Ace CoderPad interview", true, t2, Some(t3)) ]
  }

  class TodoApp {
    var todos: seq<Todo>
    const store: Store
    const initialData: seq<Todo>

    /** The slot holds exactly the list on screen. */
    ghost predicate Persisted()
      reads this, store
    {
      TODO_ARRAY_KEY in store.items && store.items[TODO_ARRAY_KEY] == todos
    }

    constructor (store: Store, initialData: seq<Todo>)
      ensures this.store == store && this.initialData == initialData
      ensures todos == []
    {
      this.store := store;
      this.initialData := initialData;
      todos := [];
    }

    /** The first effect: when the stored list is empty, save the seed list;
        then load the slot into state, unsorted. */
    method Mount()
      modifies this, store
      ensures old(store.Stored()) == [] ==>
        todos == initialData && store.items == old(store.items)[TODO_ARRAY_KEY := initialData]
      ensures old(store.Stored()) != [] ==>
        todos == old(store.Stored()) && store.items == old(store.items)
      ensures Persisted()
    {
      var loaded := store.GetTodoArray();
      if |loaded| == 0 {
        store.SetTodoArray(initialData);
      }
      todos := store.GetTodoArray();
    }

    /** `addTodo`, then save. */
    method Add(text: string, id: string, now: int)
      requires !HasId(todos, id)
      modifies this, store
      ensures multiset(todos) == multiset(old(todos)) + multiset{NewTodo(id, text, now)}
      ensures Sorted(todos)
      ensures store.items == old(store.items)[TODO_ARRAY_KEY := todos] && Persisted()
      ensures WellFormed(old(todos)) ==> WellFormed(todos)
      ensures UniqueIds(old(todos)) ==> UniqueIds(todos)
    {
      var r := AddTodo(todos, text, id, now);
      todos := r;
      store.SetTodoArray(r);
    }

    /** `handleChange`, then save. */
    method Change(checked: bool, id: string, now: int)
      requires HasId(todos, id)
      modifies this, store
      ensures var k := FirstIndexOf(old(todos), id);
        0 <= k < |old(todos)| &&
        multiset(todos) ==
          multiset(old(todos)) - multiset{old(todos)[k]} + multiset{SetChecked(old(todos)[k], checked, now)}
      ensures Sorted(todos)
      ensures store.items == old(store.items)[TODO_ARRAY_KEY := todos] && Persisted()
      ensures WellFormed(old(todos)) ==> WellFormed(todos)
      ensures UniqueIds(old(todos)) ==> UniqueIds(todos)
    {
      var r := HandleChange(todos, checked, id, now);
      todos := r;
      store.SetTodoArray(r);
    }

    /** `handleDelete`, then save. */
    method Delete(index: int)
      modifies this, store
      ensures var k := SpliceStart(|old(todos)|, index);
        todos == if k < |old(todos)| then old(todos)[..k] + old(todos)[k + 1..] else old(todos)
      ensures store.items == old(store.items)[TODO_ARRAY_KEY := todos] && Persisted()
      ensures Sorted(old(todos)) ==> Sorted(todos)
      ensures WellFormed(old(todos)) ==> WellFormed(todos)
      ensures UniqueIds(old(todos)) ==> UniqueIds(todos)
    {
      var r := HandleDelete(todos, index);
      todos := r;
      store.SetTodoArray(r);
    }
  }

  /** A fresh app over an empty storage shows the seed list after the first
      load, and that list is what the storage now holds. */
  method FirstRun(id0: string, id1: string, id2: string,
                  t0: int, t1: int, t2: int, t3: int) returns (app: TodoApp)
    ensures app.todos == InitialData(id0, id1, id2, t0, t1, t2, t3)
    ensures app.Persisted()
  {
    var store := new Store();
    app := new TodoApp(store, InitialData(id0, id1, id2, t0, t1, t2, t3));
    app.Mount();
  }
}
