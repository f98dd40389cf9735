/** The to-do record of the list and the invariants a well-kept list satisfies. */
module Todos {

  datatype Option<T> = None | Some(value: T)

  /** One entry of the list. Timestamps are instants as integers (the program
      keeps fixed-format UTC ISO-8601 strings, which compare in the same order
      as the instants they denote). `completedAt` is `None` where the program
      stores the empty string. */
  datatype Todo = Todo(
    id: string,
    text: string,  // the `label` field (`label` is a Dafny keyword)
    checked: bool,
    createdAt: int,
    completedAt: Option<int>)

  /** A to-do is active when it has no completion stamp: the ordering tests
      this field, not `checked`. */
  predicate IsActive(t: Todo)
  {
    t.completedAt.None?
  }

  /** `checked` and a completion stamp go together. */
  predicate Consistent(t: Todo)
  {
    t.checked <==> t.completedAt.Some?
  }

  predicate WellFormed(s: seq<Todo>)
  {
    forall i :: 0 <= i < |s| ==> Consistent(s[i])
  }

  /** No two positions of the list carry the same id. */
  predicate UniqueIds(s: seq<Todo>)
  {
    forall i, j :: 0 <= i < |s| && 0 <= j < |s| && i != j ==> s[i].id != s[j].id
  }

  predicate HasId(s: seq<Todo>, id: string)
  {
    exists i :: 0 <= i < |s| && s[i].id == id
  }

  /** Reordering a list keeps every entry consistent. */
  lemma PermutationKeepsWellFormed(s: seq<Todo>, r: seq<Todo>)
    requires multiset(s) == multiset(r)
    requires WellFormed(s)
    ensures WellFormed(r)
  {
    forall i | 0 <= i < |r| ensures Consistent(r[i]) {
      assert r[i] in multiset(r);
      assert r[i] in s;
      var j :| 0 <= j < |s| && s[j] == r[i];
    }
  }

  /** Removing one position keeps ids unique. */
  lemma RemovalKeepsUniqueIds(s: seq<Todo>, p: nat)
    requires p < |s|
    requires UniqueIds(s)
    ensures UniqueIds(s[..p] + s[p + 1..])
    ensures forall t :: t in s[..p] + s[p + 1..] ==> t.id != s[p].id
  {
    var d := s[..p] + s[p + 1..];
    assert forall i :: 0 <= i < |d| ==> d[i] == s[if i < p then i else i + 1];
  }

  /** Reordering a list keeps ids unique. */
  lemma {:induction false} PermutationKeepsUniqueIds(s: seq<Todo>, r: seq<Todo>)
    requires multiset(s) == multiset(r)
    requires UniqueIds(s)
    ensures UniqueIds(r)
  {
    if r != [] {
      var n := |r| - 1;
      var x := r[n];
      var front := r[..n];
      MultisetWithout(r, n);
      assert r == front + [x];
      assert x in multiset(s);
      var p :| 0 <= p < |s| && s[p] == x;
      var d := s[..p] + s[p + 1..];
      MultisetWithout(s, p);
      RemovalKeepsUniqueIds(s, p);
      PermutationKeepsUniqueIds(d, front);
      forall i | 0 <= i < n ensures front[i].id != x.id {
        assert front[i] in multiset(d);
      }
      AppendKeepsUniqueIds(front, x);
    }
  }

  lemma MultisetWithout(s: seq<Todo>, p: nat)
    requires p < |s|
    ensures multiset(s[..p] + s[p + 1..]) == multiset(s) - multiset{s[p]}
  {
    assert s == s[..p] + [s[p]] + s[p + 1..];
  }

  lemma AppendKeepsUniqueIds(s: seq<Todo>, x: Todo)
    requires UniqueIds(s)
    requires forall i :: 0 <= i < |s| ==> s[i].id != x.id
    ensures UniqueIds(s + [x])
  {
  }
}
