// Circular doubly linked lists with a head, as two maps: what inserting and
// deleting an element does to the sequence the list stands for.
module CircularList {
  import opened Sequences

  // The element at index i; the head stands before the first and after the last.
  ghost function Nth<X>(head: X, s: seq<X>, i: int): X {
    if 0 <= i < |s| then s[i] else head
  }

  // The link between the elements at i and i + 1, in both directions.
  ghost predicate Adjacent<X>(next: map<X, X>, prev: map<X, X>, head: X, s: seq<X>, i: int) {
    && Nth(head, s, i) in next && Nth(head, s, i + 1) in prev
    && next[Nth(head, s, i)] == Nth(head, s, i + 1)
    && prev[Nth(head, s, i + 1)] == Nth(head, s, i)
  }

  ghost predicate Circular<X>(next: map<X, X>, prev: map<X, X>, head: X, s: seq<X>) {
    && NoDuplicates(s) && head !in s
    && forall i :: -1 <= i < |s| ==> Adjacent(next, prev, head, s, i)
  }

  // Elements at different indices differ, the head counting as index -1.
  lemma NthDiffer<X>(head: X, s: seq<X>, i: int, j: int)
    requires NoDuplicates(s) && head !in s && -1 <= i < |s| && -1 <= j < |s| && i != j
    ensures Nth(head, s, i) != Nth(head, s, j)
  {
    Indices(s);
  }

  // Closing the gap around the element at k takes it out of the list.
  lemma Deleted<X>(next: map<X, X>, prev: map<X, X>, next': map<X, X>, prev': map<X, X>, head: X, s: seq<X>, k: nat)
    requires Circular(next, prev, head, s) && k < |s|
    requires var a, b := Nth(head, s, k - 1), Nth(head, s, k + 1);
             forall x :: x == head || x in Without(s, k) ==>
               && x in next && x in prev && x in next' && x in prev'
               && next'[x] == (if x == a then b else next[x])
               && prev'[x] == (if x == b then a else prev[x])
    ensures Circular(next', prev', head, Without(s, k))
  {
    var t := Without(s, k);
    WithoutKeepsDifference(s, k);
    forall i | -1 <= i < |t|
      ensures Adjacent(next', prev', head, t, i)
    {
      var j := if i < k then i else i + 1;
      assert Adjacent(next, prev, head, s, j);
      if j + 1 != k {
        if j != k - 1 { NthDiffer(head, s, j, k - 1); }
        if j + 1 < |s| && k + 1 < |s| { NthDiffer(head, s, j + 1, k + 1); }
      }
    }
  }

  // Linking x between the head and the first element.
  lemma AddedFirst<X>(next: map<X, X>, prev: map<X, X>, next': map<X, X>, prev': map<X, X>, head: X, s: seq<X>, x: X)
    requires Circular(next, prev, head, s) && x !in s && x != head
    requires x in next' && x in prev' && next'[x] == Nth(head, s, 0) && prev'[x] == head
    requires forall y :: y == head || y in s ==>
               && y in next && y in prev && y in next' && y in prev'
               && next'[y] == (if y == head then x else next[y])
               && prev'[y] == (if y == Nth(head, s, 0) then x else prev[y])
    ensures Circular(next', prev', head, [x] + s)
  {
    var t := [x] + s;
    AddedDiffers(s, x);
    forall i | -1 <= i < |t|
      ensures Adjacent(next', prev', head, t, i)
    {
      assert Nth(head, t, i + 1) == if i == -1 then x else Nth(head, s, i);
      if i > 0 {
        assert Adjacent(next, prev, head, s, i - 1);
        if i < |s| { NthDiffer(head, s, 0, i); }
      }
    }
  }

  // Linking x between the last element and the head.
  lemma AddedLast<X>(next: map<X, X>, prev: map<X, X>, next': map<X, X>, prev': map<X, X>, head: X, s: seq<X>, x: X)
    requires Circular(next, prev, head, s) && x !in s && x != head
    requires x in next' && x in prev' && next'[x] == head && prev'[x] == Nth(head, s, |s| - 1)
    requires forall y :: y == head || y in s ==>
               && y in next && y in prev && y in next' && y in prev'
               && next'[y] == (if y == Nth(head, s, |s| - 1) then x else next[y])
               && prev'[y] == (if y == head then x else prev[y])
    ensures Circular(next', prev', head, s + [x])
  {
    var t := s + [x];
    AddedDiffers(s, x);
    forall i | -1 <= i < |t|
      ensures Adjacent(next', prev', head, t, i)
    {
      assert Nth(head, t, i) == if i == |s| then x else Nth(head, s, i);
      if i < |s| - 1 {
        assert Adjacent(next, prev, head, s, i);
        NthDiffer(head, s, i, |s| - 1);
      }
    }
  }
}
