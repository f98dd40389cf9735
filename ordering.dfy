/** The display order of the list: the comparator `todoSortCallback` and an
    in-place sort driven by it. */
module Ordering {
  import opened Todos

  /** `a` may stand before `b` in the list: active to-dos come before
      completed ones, active ones newest-created first, completed ones
      earliest-completed first. */
  predicate InOrder(a: Todo, b: Todo)
  {
    (IsActive(b) ==> IsActive(a)) &&
    (IsActive(a) && IsActive(b) ==> a.createdAt >= b.createdAt) &&
    (!IsActive(a) && !IsActive(b) ==> a.completedAt.value <= b.completedAt.value)
  }

  /** Every pair of positions is in order. */
  predicate Sorted(s: seq<Todo>)
  {
    forall i, j :: 0 <= i < j < |s| ==> InOrder(s[i], s[j])
  }

  /** The comparator: -1 puts `a` first, 1 puts `b` first; it never answers 0. */
  function Compare(a: Todo, b: Todo): (r: int)
    ensures r == -1 || r == 1
    ensures IsActive(a) && !IsActive(b) ==> r == -1
    ensures !IsActive(a) && IsActive(b) ==> r == 1
    ensures IsActive(a) && IsActive(b) ==> (r == -1 <==> a.createdAt >= b.createdAt)
    ensures !IsActive(a) && !IsActive(b) ==> (r == -1 <==> a.completedAt.value <= b.completedAt.value)
    ensures r == -1 <==> InOrder(a, b)
  {
    if IsActive(a) && !IsActive(b) then -1
    else if !IsActive(a) && IsActive(b) then 1
    else if IsActive(a) && IsActive(b) then
      if a.createdAt >= b.createdAt then -1 else 1
    else
      if a.completedAt.value <= b.completedAt.value then -1 else 1
  }

  /** Of any two to-dos, the comparator puts at least one first. */
  lemma CompareTotal(a: Todo, b: Todo)
    ensures Compare(a, b) == -1 || Compare(b, a) == -1
  {
  }

  lemma InOrderTransitive(a: Todo, b: Todo, c: Todo)
    requires InOrder(a, b) && InOrder(b, c)
    ensures InOrder(a, c)
  {
  }

  /** The comparator answers -1 both ways exactly when the two to-dos are in
      the same group with equal stamps: it is not antisymmetric on ties. */
  lemma CompareTies(a: Todo, b: Todo)
    ensures Compare(a, b) == -1 && Compare(b, a) == -1 <==>
      IsActive(a) == IsActive(b) &&
      (IsActive(a) ==> a.createdAt == b.createdAt) &&
      (!IsActive(a) ==> a.completedAt == b.completedAt)
  {
  }

  /** A list is sorted exactly when the comparator accepts every neighbouring
      pair. */
  lemma {:induction false} SortedIffNeighboursAccepted(s: seq<Todo>)
    ensures Sorted(s) <==> forall i :: 0 < i < |s| ==> Compare(s[i - 1], s[i]) == -1
  {
    if |s| >= 2 && forall i :: 0 < i < |s| ==> Compare(s[i - 1], s[i]) == -1 {
      var t := s[1..];
      forall i | 0 < i < |t| ensures Compare(t[i - 1], t[i]) == -1 {
        assert t[i - 1] == s[i] && t[i] == s[i + 1];
      }
      SortedIffNeighboursAccepted(t);
      forall i, j | 0 <= i < j < |s| ensures InOrder(s[i], s[j]) {
        if 0 < i {
          assert InOrder(t[i - 1], t[j - 1]);
        } else if 1 < j {
          assert InOrder(t[0], t[j - 1]);
          InOrderTransitive(s[0], s[1], s[j]);
        }
      }
    }
  }

  /** `Array.prototype.sort` with the comparator, as an insertion sort: the
      array ends sorted and holds the same to-dos. */
  method Sort(a: array<Todo>)
    modifies a
    ensures Sorted(a[..])
    ensures multiset(a[..]) == multiset(old(a[..]))
  {
    var i := 0;
    while i < a.Length
      invariant 0 <= i <= a.Length
      invariant forall p, q :: 0 <= p < q < i ==> InOrder(a[p], a[q])
      invariant multiset(a[..]) == multiset(old(a[..]))
    {
      Insert(a, i);
      i := i + 1;
    }
  }

  /** One insertion step: `a[i]` is swapped leftwards while the comparator
      puts it before its left neighbour, so that `a[..i + 1]` ends sorted. */
  method Insert(a: array<Todo>, i: nat)
    requires i < a.Length
    requires forall p, q :: 0 <= p < q < i ==> InOrder(a[p], a[q])
    modifies a
    ensures forall p, q :: 0 <= p < q <= i ==> InOrder(a[p], a[q])
    ensures multiset(a[..i + 1]) == multiset(old(a[..i + 1]))
    ensures a[i + 1..] == old(a[i + 1..])
    ensures multiset(a[..]) == multiset(old(a[..]))
  {
    var j := i;
    while 0 < j && Compare(a[j - 1], a[j]) == 1
      invariant 0 <= j <= i
      invariant forall p, q :: 0 <= p < q <= i && p != j && q != j ==> InOrder(a[p], a[q])
      invariant forall q :: j < q <= i ==> InOrder(a[j], a[q])
      invariant multiset(a[..i + 1]) == multiset(old(a[..i + 1]))
      invariant a[i + 1..] == old(a[i + 1..])
    {
      SwapLeft(a, j, i);
      j := j - 1;
    }
    forall p | 0 <= p < j ensures InOrder(a[p], a[j]) {
      InOrderTransitive(a[p], a[j - 1], a[j]);
    }
    assert a[..] == a[..i + 1] + a[i + 1..];
    assert old(a[..]) == old(a[..i + 1]) + old(a[i + 1..]);
  }

  /** Swaps `a[j - 1]` and `a[j]` inside the prefix `a[..i + 1]`. */
  method SwapLeft(a: array<Todo>, j: nat, i: nat)
    requires 0 < j <= i < a.Length
    modifies a
    ensures a[j - 1] == old(a[j]) && a[j] == old(a[j - 1])
    ensures forall m :: 0 <= m < a.Length && m != j - 1 && m != j ==> a[m] == old(a[m])
    ensures multiset(a[..i + 1]) == multiset(old(a[..i + 1]))
    ensures a[i + 1..] == old(a[i + 1..])
  {
    a[j - 1], a[j] := a[j], a[j - 1];
  }
}
