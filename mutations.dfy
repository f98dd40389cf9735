/** The three list mutations of the app: `addTodo`, `handleChange` and
    `handleDelete`. Each copies the current list into a fresh array (the
    program's `slice()`), changes that copy in place and returns it; the
    previous list is never touched. */
module Mutations {
  import opened Todos
  import opened Ordering

  /** The to-do `addTodo` creates: unchecked, stamped with its creation
      instant and with no completion stamp. */
  function NewTodo(id: string, text: string, now: int): (t: Todo)
    ensures t.id == id && t.text == text && t.createdAt == now
    ensures !t.checked && IsActive(t) && Consistent(t)
  {
    Todo(id, text, false, now, None)
  }

  /** The to-do `handleChange` leaves behind: `checked` as asked, a completion
      stamp exactly when checked, identity, text and creation stamp kept. */
  function SetChecked(t: Todo, checked: bool, now: int): (u: Todo)
    ensures u.checked == checked && Consistent(u)
    ensures checked ==> u.completedAt == Some(now)
    ensures u.id == t.id && u.text == t.text && u.createdAt == t.createdAt
  {
    t.(checked := checked, completedAt := if checked then Some(now) else None)
  }

  /** Checking twice keeps only the second stamp: the program overwrites
      `completed_at` on every change, even of an already checked to-do. */
  lemma SetCheckedTwice(t: Todo, checked: bool, first: int, second: int)
    ensures SetChecked(SetChecked(t, checked, first), checked, second) == SetChecked(t, checked, second)
  {
  }

  /** The position `findIndex` reports for `id`: the first match, or -1. */
  function FirstIndexOf(s: seq<Todo>, id: string): (k: int)
    ensures -1 <= k < |s|
    ensures k == -1 <==> !HasId(s, id)
    ensures 0 <= k ==> s[k].id == id && forall j :: 0 <= j < k ==> s[j].id != id
  {
    if |s| == 0 then -1
    else if s[0].id == id then 0
    else
      var k := FirstIndexOf(s[1..], id);
      if k == -1 then -1 else k + 1
  }

  /** `findIndex((todo) => todo.id == id)` over the copied array. */
  method FindIndex(a: array<Todo>, id: string) returns (k: int)
    ensures k == FirstIndexOf(a[..], id)
  {
    k := 0;
    while k < a.Length
      invariant 0 <= k <= a.Length
      invariant forall j :: 0 <= j < k ==> a[j].id != id
    {
      if a[k].id == id {
        return;
      }
      k := k + 1;
    }
    k := -1;
  }

  /** The copy `slice()` makes of a list. */
  method Copy(s: seq<Todo>) returns (a: array<Todo>)
    ensures fresh(a) && a[..] == s
  {
    a := new Todo[|s|](i requires 0 <= i < |s| => s[i]);
  }

  /** `addTodo`: copy, push the new to-do, sort. The result is the old list
      plus exactly the new to-do, sorted. */
  method AddTodo(todos: seq<Todo>, text: string, id: string, now: int) returns (r: seq<Todo>)
    requires !HasId(todos, id)
    ensures |r| == |todos| + 1
    ensures multiset(r) == multiset(todos) + multiset{NewTodo(id, text, now)}
    ensures Sorted(r)
    ensures WellFormed(todos) ==> WellFormed(r)
    ensures UniqueIds(todos) ==> UniqueIds(r)
  {
    var t := NewTodo(id, text, now);
    // slice() followed by push(t)
    var a := new Todo[|todos| + 1](i requires 0 <= i <= |todos| => if i < |todos| then todos[i] else t);
    assert a[..] == todos + [t];
    Sort(a);
    r := a[..];
    if WellFormed(todos) {
      PermutationKeepsWellFormed(todos + [t], r);
    }
    if UniqueIds(todos) {
      AppendKeepsUniqueIds(todos, t);
      PermutationKeepsUniqueIds(todos + [t], r);
    }
  }

  /** `handleChange`: copy, find the to-do with `id`, set its `checked` and
      completion stamp, sort. The id must be present: the program indexes the
      copy with the -1 of a failed `findIndex` and throws. */
  method HandleChange(todos: seq<Todo>, checked: bool, id: string, now: int) returns (r: seq<Todo>)
    requires HasId(todos, id)
    ensures |r| == |todos|
    ensures var k := FirstIndexOf(todos, id);
      0 <= k < |todos| &&
      multiset(r) == multiset(todos) - multiset{todos[k]} + multiset{SetChecked(todos[k], checked, now)}
    ensures Sorted(r)
    ensures WellFormed(todos) ==> WellFormed(r)
    ensures UniqueIds(todos) ==> UniqueIds(r)
  {
    var a := Copy(todos);
    var k := FindIndex(a, id);
    var changed := SetChecked(a[k], checked, now);
    a[k] := changed;
    ghost var before := a[..];
    assert before == todos[k := changed];
    ReplaceKeepsInvariants(todos, k, changed);
    Sort(a);
    r := a[..];
    if WellFormed(todos) {
      PermutationKeepsWellFormed(before, r);
    }
    if UniqueIds(todos) {
      PermutationKeepsUniqueIds(before, r);
    }
  }

  /** Replacing one to-do by a consistent one with the same id changes the
      multiset by exactly that to-do and keeps the invariants. */
  lemma ReplaceKeepsInvariants(s: seq<Todo>, k: nat, x: Todo)
    requires k < |s|
    requires Consistent(x) && x.id == s[k].id
    ensures multiset(s[k := x]) == multiset(s) - multiset{s[k]} + multiset{x}
    ensures WellFormed(s) ==> WellFormed(s[k := x])
    ensures UniqueIds(s) ==> UniqueIds(s[k := x])
  {
    ReplaceMultiset(s, k, x);
    if UniqueIds(s) {
      var u := s[k := x];
      forall i, j | 0 <= i < |u| && 0 <= j < |u| && i != j ensures u[i].id != u[j].id {
        assert u[i].id == s[i].id && u[j].id == s[j].id;
      }
    }
  }

  lemma ReplaceMultiset(s: seq<Todo>, k: nat, x: Todo)
    requires k < |s|
    ensures multiset(s[k := x]) == multiset(s) - multiset{s[k]} + multiset{x}
  {
    assert s == s[..k] + [s[k]] + s[k + 1..];
    assert s[k := x] == s[..k] + [x] + s[k + 1..];
  }

  /** The position `splice(index, 1)` starts at: a negative index counts from
      the end (floored at 0), a large one is clamped to the length. */
  function SpliceStart(len: nat, index: int): (start: nat)
    ensures start <= len
    ensures 0 <= index <= len ==> start == index
    ensures index < 0 <= len + index ==> start == len + index
    ensures len + index < 0 ==> start == 0
    ensures len < index ==> start == len
  {
    if index < 0 then (if len + index < 0 then 0 else len + index)
    else if index > len then len
    else index
  }

  /** `handleDelete`: copy, `splice(index, 1)`, no sort. At most one to-do is
      removed and the rest keep their relative order. */
  method HandleDelete(todos: seq<Todo>, index: int) returns (r: seq<Todo>)
    ensures var k := SpliceStart(|todos|, index);
      r == if k < |todos| then todos[..k] + todos[k + 1..] else todos
    ensures 0 <= index < |todos| ==> r == todos[..index] + todos[index + 1..]
    ensures Sorted(todos) ==> Sorted(r)
    ensures WellFormed(todos) ==> WellFormed(r)
    ensures UniqueIds(todos) ==> UniqueIds(r)
  {
    var a := Copy(todos);
    var k := SpliceStart(a.Length, index);
    if k == a.Length {
      r := a[..];
      return;
    }
    ShiftLeft(a, k);
    r := a[..a.Length - 1];
    assert r == todos[..k] + todos[k + 1..];
    RemovalKeepsInvariants(todos, k);
  }

  /** The in-place part of `splice(k, 1)`: every element after position `k`
      moves one place left; the last slot is then dropped by the caller. */
  method ShiftLeft(a: array<Todo>, k: nat)
    requires k < a.Length
    modifies a
    ensures a[..a.Length - 1] == old(a[..k]) + old(a[k + 1..])
  {
    var j := k;
    while j < a.Length - 1
      invariant k <= j <= a.Length - 1
      invariant forall m :: 0 <= m < k ==> a[m] == old(a[m])
      invariant forall m :: k <= m < j ==> a[m] == old(a[m + 1])
      invariant forall m :: j <= m < a.Length ==> a[m] == old(a[m])
    {
      a[j] := a[j + 1];
      j := j + 1;
    }
  }

  /** Removing one position keeps the order and the invariants of a list. */
  lemma RemovalKeepsInvariants(s: seq<Todo>, p: nat)
    requires p < |s|
    ensures Sorted(s) ==> Sorted(s[..p] + s[p + 1..])
    ensures WellFormed(s) ==> WellFormed(s[..p] + s[p + 1..])
    ensures UniqueIds(s) ==> UniqueIds(s[..p] + s[p + 1..])
  {
    if Sorted(s) {
      RemovalKeepsSorted(s, p);
    }
    if UniqueIds(s) {
      RemovalKeepsUniqueIds(s, p);
    }
  }

  /** Removing one position keeps a sorted list sorted. */
  lemma RemovalKeepsSorted(s: seq<Todo>, p: nat)
    requires p < |s|
    requires Sorted(s)
    ensures Sorted(s[..p] + s[p + 1..])
  {
    var d := s[..p] + s[p + 1..];
    assert forall i :: 0 <= i < |d| ==> d[i] == s[if i < p then i else i + 1];
  }
}
