# A verified model of the to-do list's state logic

The app keeps a to-do list as an array of `Todo` records in React state and
persists it to the browser's local storage. This project models the part of
`src/App.tsx` that holds logic:

- the **ordering** `todoSortCallback` and the sort it drives: active to-dos
  (empty `completed_at`) first, newest-created first; then completed to-dos,
  earliest-completed first;
- the **mutations** `addTodo`, `handleChange` and `handleDelete`, each of which
  copies the list with `slice()` and changes the copy in place;
- the **store**: the single `"todoArray"` slot written by
  `setLocalStorageWithTodoArray` and read by `getTodoArrayFromLocalStorage`;
- the **first load**: seed the slot with `initialData` when it is empty, then
  load it into state.

Modules, one per component: `Todos` (the record, the invariants "checked iff
completion stamp" and "ids unique", and their preservation under
reordering), `Ordering` (comparator, the key order `InOrder`/`Sorted`, an
insertion sort over an `array`), `Mutations`, `Storage` (a `Store` class over
a `map` field) and `App` (the seed list and a `TodoApp` class whose handlers
save explicitly after each mutation).

Modelling choices:

- Timestamps are `int`. The program stores fixed-format UTC ISO-8601 strings
  and compares them with `>=`/`<=`; such strings order as their instants do.
- The empty-string `completed_at` is `Option.None`; a stamp is `Some(t)`.
- `uuid()` and `new Date()` are parameters (`id`, `now`, and for the seed
  list three ids and four instants). A new id is required not to occur in
  the list, as a fresh UUID does not.
- JSON serialisation is the identity: the slot holds the list itself.
- The record field `label` is called `text` (`label` is a Dafny keyword).
- The sort is an insertion sort; what is proved is that the result is a
  permutation of its input and sorted on the keys (`Sorted`).

Behaviour of the program that the model keeps:

- A to-do is active when `completed_at` is empty (src/App.tsx:87), not when
  `checked` is false; the two agree on well-formed lists (`WellFormed`).
- The comparator never returns 0; on equal stamps it returns -1 both ways
  (`CompareTies`), so the order of tied to-dos is up to the sort.
- `handleDelete` removes by position with `splice` semantics and never
  reports an error.
- `handleChange` with an absent id throws (it indexes the copy with the -1 of
  a failed `findIndex`), so the model requires the id to be present.
- Load does not turn a parse failure into an empty list: the program logs and
  rethrows it. Seeding happens in the component's first effect, not inside
  load.
- A new to-do is sorted into place among the active ones by creation time
  (newest first), whatever the comment above `addTodo` says.

## Model

| member | source | states |
|---|---|---|
| Ordering.Compare | src/App.tsx:83-111 | never 0; active before completed (-1 one way, 1 the other); two active: -1 iff `a.created_at >= b.created_at`; two completed: -1 iff `a.completed_at <= b.completed_at`; -1 exactly when the pair is in list order `InOrder` |
| Ordering.CompareTotal | src/App.tsx:83-111 | for any two to-dos the comparator puts at least one of them first |
| Ordering.CompareTies | src/App.tsx:94-110 | the comparator answers -1 in both directions exactly when both to-dos are in the same group with equal stamps |
| Ordering.SortedIffNeighboursAccepted | src/App.tsx:73-111 | a list is sorted in the stated order (every pair of positions, not only neighbours) iff the comparator returns -1 on each neighbouring pair |
| Ordering.Sort | src/App.tsx:153 | the in-place sort leaves the array a permutation of its old contents in which every active to-do precedes every completed one, active ones by non-increasing creation stamp, completed ones by non-decreasing completion stamp |
| Ordering.Insert | src/App.tsx:153 | one insertion step: given a sorted prefix of length `i`, the prefix of length `i + 1` ends sorted and is a rearrangement of the old one; the slots after `i` are unchanged |
| Ordering.SwapLeft | src/App.tsx:153 | exchanges two neighbouring slots inside the prefix `a[..i + 1]`; every other slot is unchanged and the prefix keeps its multiset of to-dos |
| Mutations.NewTodo | src/App.tsx:138-145 | the added to-do has the given id, label and creation instant, is unchecked and has no completion stamp |
| Mutations.SetChecked | src/App.tsx:183-191 | the changed to-do has `checked` as asked and a completion stamp (the given instant) exactly when checked; id, label and creation stamp are unchanged |
| Mutations.SetCheckedTwice | src/App.tsx:186-188 | changing twice to the same value keeps only the second instant |
| Mutations.FirstIndexOf | src/App.tsx:182 | -1 exactly when no to-do has the id; otherwise the first position holding it |
| Mutations.FindIndex | src/App.tsx:182 | the linear search returns the position `FirstIndexOf` specifies |
| Mutations.Copy | src/App.tsx:149 | the copy is a fresh array holding the list |
| Mutations.AddTodo | src/App.tsx:137-159 | length grows by one; the result holds the old to-dos plus exactly the new one (as a multiset); it is sorted; well-formedness and unique ids are kept |
| Mutations.HandleChange | src/App.tsx:174-199 | with the id present: same length; the result is the old list with the first to-do of that id replaced by its changed version (as a multiset), so every other to-do is unchanged; sorted; well-formedness and unique ids are kept |
| Mutations.SpliceStart | src/App.tsx:167 | `splice`'s start position: in-range index as is, negative index counted from the end and floored at 0, too large an index clamped to the length |
| Mutations.HandleDelete | src/App.tsx:161-171 | the result is the list without the to-do at the splice position (unchanged when that position is the end); for `0 <= index < length` it is `todos[..index] + todos[index+1..]`; no re-sort, a sorted list stays sorted; well-formedness and unique ids are kept |
| Mutations.ShiftLeft | src/App.tsx:167 | the elements after position `k` move one place left, those before stay: the first `length - 1` slots hold the array without position `k` |
| Mutations.RemovalKeepsSorted | src/App.tsx:166-168 | removing one position from a sorted list leaves it sorted |
| Storage.Store.SetTodoArray | src/App.tsx:48-56 | the `"todoArray"` slot holds the saved list afterwards and no other slot changes |
| Storage.Store.GetTodoArray | src/App.tsx:58-69 | the load returns `Stored()`: the empty list for an absent slot, otherwise the slot's list |
| Storage.SaveThenLoad | src/App.tsx:48-69 | a load after a save returns the saved list |
| App.InitialData | src/App.tsx:24-46 | three to-dos with the given ids, the three labels and the given creation instants; the first two unchecked with no completion stamp, the third checked with completion instant `t3`; well-formed; ids unique when the three ids differ |
| App.TodoApp.Mount | src/App.tsx:119-125 | when the stored list is empty, the seed list is saved and becomes the state; otherwise the stored list becomes the state as it is (unsorted) and storage is unchanged; afterwards the slot holds the state |
| App.TodoApp.Add | src/App.tsx:137-159 | the state becomes `addTodo`'s result (old to-dos plus the new one, sorted) and is saved |
| App.TodoApp.Change | src/App.tsx:174-199 | the state becomes `handleChange`'s result (one to-do changed, sorted) and is saved |
| App.TodoApp.Delete | src/App.tsx:161-171 | the state becomes `handleDelete`'s result (one position spliced out, order kept) and is saved |
| App.FirstRun | src/App.tsx:115-125 | on an empty storage the first load shows exactly the seed list, and storage holds it |

## Left out

- React plumbing (`useState`, `useCallback`, effect ordering) and the
  persist-on-change effect: saving is an explicit step after each handler.
- The view components, hover state, and the reset button
  (`localStorage.clear()`, `location.reload()`): presentation and browser I/O.
- `TodoItem` passes the to-do's id where `handleDelete` expects a position;
  `splice` then coerces the id to 0 and removes the first to-do. The model
  takes a position, as `handleDelete` is written; the miswired call is not
  modelled.
- Non-integer and non-numeric `splice` arguments: the position is an integer.
- `JSON.stringify`/`JSON.parse` are the identity, so parse errors (logged and
  rethrown by the load) and a slot holding the empty string are not modelled.
- Storage write failures such as an exceeded quota (logged and rethrown by
  the save).
- Ordering.Sort: the algorithm and the tie order of `Array.prototype.sort`
  are not modelled; the model proves only a key-sorted permutation, which
  engines deliver here but the language does not promise. Engines may order
  tied to-dos differently from the model's insertion sort, which leaves them
  in place. The comparator answers -1 both ways on equal stamps, so it is not
  a consistent comparator, and for such a comparator ECMAScript leaves the
  whole resulting order to the implementation, not only the order of ties.
  Ties are common: the seed list's creation stamps are taken at the same
  instant (src/App.tsx:29,36,43). The model uses its own insertion sort and
  proves a key-sorted permutation.
- Object aliasing: `handleChange` writes through a shallow copy into a record
  shared with the previous state; the model replaces the record by value.
- The seed list's ids and instants come from `uuid()` and `new Date()` at
  start-up; they are parameters.
