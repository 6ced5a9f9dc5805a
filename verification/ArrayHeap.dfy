// The value-level specification of the heap: a complete binary tree laid out in
// level order in a sequence, position i (1-based) having children 2i and 2i+1.
// clib/heap_interface.c relinks nodes instead; PointerHeap proves that it
// realises exactly these functions.
module ArrayHeap {

  // The element at level-order position i.
  function At<X>(s: seq<X>, i: int): X
    requires 1 <= i <= |s|
  {
    s[i - 1]
  }

  function Swap<X>(s: seq<X>, i: int, j: int): (t: seq<X>)
    requires 1 <= i <= |s| && 1 <= j <= |s|
    ensures |t| == |s|
    ensures At(t, i) == At(s, j) && At(t, j) == At(s, i)
    ensures forall k {:trigger At(t, k)} :: 1 <= k <= |s| && k != i && k != j ==> At(t, k) == At(s, k)
  {
    s[i - 1 := s[j - 1]][j - 1 := s[i - 1]]
  }

  ghost predicate Apart<X>(s: seq<X>, i: int, j: int)
    requires 1 <= i <= |s| && 1 <= j <= |s|
  {
    At(s, i) != At(s, j)
  }

  ghost predicate Distinct<X>(s: seq<X>) {
    forall i, j {:trigger Apart(s, i, j)} :: 1 <= i < j <= |s| ==> Apart(s, i, j)
  }

  // The last position that holds x, or 0.
  ghost function Position<X>(s: seq<X>, x: X): (i: nat)
    ensures i <= |s|
  {
    if s == [] then 0
    else if s[|s| - 1] == x then |s|
    else Position(s[..|s| - 1], x)
  }

  lemma {:induction false} PositionOf<X>(s: seq<X>, i: int)
    requires Distinct(s) && 1 <= i <= |s|
    ensures Position(s, At(s, i)) == i
  {
    var t := s[..|s| - 1];
    if i < |s| {
      assert Apart(s, i, |s|);
      assert forall j, k {:trigger Apart(t, j, k)} :: 1 <= j < k <= |t| ==> Apart(s, j, k);
      PositionOf(t, i);
      assert At(t, i) == At(s, i);
    }
  }

  lemma Positions<X>(s: seq<X>)
    requires Distinct(s)
    ensures forall i {:trigger At(s, i)} :: 1 <= i <= |s| ==> Position(s, At(s, i)) == i
  {
    forall i | 1 <= i <= |s|
      ensures Position(s, At(s, i)) == i
    {
      PositionOf(s, i);
    }
  }

  lemma SwapKeepsDistinct<X>(s: seq<X>, i: int, j: int)
    requires 1 <= i <= |s| && 1 <= j <= |s| && Distinct(s)
    ensures Distinct(Swap(s, i, j))
  {
    Positions(s);
    var t := Swap(s, i, j);
    assert forall a, b {:trigger Apart(t, a, b)} :: 1 <= a < b <= |t| ==> At(t, a) != At(t, b);
  }

  // cmp orders the elements of s totally; nothing is asked of other elements.
  ghost predicate Preorder<X>(cmp: (X, X) -> int, s: seq<X>) {
    && (forall a, b :: a in s && b in s ==> cmp(a, b) >= 0 || cmp(b, a) >= 0)
    && (forall a, b, c :: a in s && b in s && c in s && cmp(a, b) >= 0 && cmp(b, c) >= 0 ==> cmp(a, c) >= 0)
  }

  // Every element is at least as large as its children.
  ghost predicate Heap<X>(cmp: (X, X) -> int, s: seq<X>) {
    forall i {:trigger At(s, i)} :: 2 <= i <= |s| ==> cmp(At(s, i / 2), At(s, i)) >= 0
  }

  // The heap with one hole at i: order may fail only between i and its parent.
  ghost predicate HeapExceptUp<X>(cmp: (X, X) -> int, s: seq<X>, i: int) {
    && (forall j {:trigger At(s, j)} :: 2 <= j <= |s| && j != i ==> cmp(At(s, j / 2), At(s, j)) >= 0)
    && (forall j {:trigger At(s, j)} :: 4 <= j <= |s| && j / 2 == i ==> cmp(At(s, i / 2), At(s, j)) >= 0)
  }

  // The heap with one hole at i: order may fail only between i and its children.
  ghost predicate HeapExceptDown<X>(cmp: (X, X) -> int, s: seq<X>, i: int) {
    && (forall j {:trigger At(s, j)} :: 2 <= j <= |s| && j / 2 != i ==> cmp(At(s, j / 2), At(s, j)) >= 0)
    && (forall j {:trigger At(s, j)} :: 4 <= j <= |s| && j / 2 == i ==> cmp(At(s, i / 2), At(s, j)) >= 0)
  }

  function SiftUp<X>(cmp: (X, X) -> int, s: seq<X>, i: int): (t: seq<X>)
    requires 1 <= i <= |s|
    ensures |t| == |s|
    decreases i
  {
    if i == 1 || cmp(At(s, i / 2), At(s, i)) >= 0 then s
    else SiftUp(cmp, Swap(s, i / 2, i), i / 2)
  }

  // The child that position i must change places with, or 0 for none.
  function SinkChild<X>(cmp: (X, X) -> int, s: seq<X>, i: int): (c: int)
    requires 1 <= i <= |s|
    ensures c == 0 || (c / 2 == i && c <= |s|)
  {
    var l, r := 2 * i, 2 * i + 1;
    if r <= |s| then
      if cmp(At(s, i), At(s, l)) >= 0 && cmp(At(s, i), At(s, r)) >= 0 then 0
      else if cmp(At(s, i), At(s, l)) >= 0 then r
      else if cmp(At(s, i), At(s, r)) >= 0 then l
      else if cmp(At(s, l), At(s, r)) >= 0 then l else r
    else if l <= |s| && cmp(At(s, i), At(s, l)) < 0 then l
    else 0
  }

  function SiftDown<X>(cmp: (X, X) -> int, s: seq<X>, i: int): (t: seq<X>)
    requires 1 <= i <= |s|
    ensures |t| == |s|
    decreases |s| - i
  {
    var c := SinkChild(cmp, s, i);
    if c == 0 then s else SiftDown(cmp, Swap(s, i, c), c)
  }

  function Insert<X>(cmp: (X, X) -> int, s: seq<X>, x: X): (t: seq<X>)
    ensures |t| == |s| + 1
  {
    SiftUp(cmp, s + [x], |s| + 1)
  }

  // The last element takes the root's place and sinks.
  function RemoveRoot<X>(cmp: (X, X) -> int, s: seq<X>): (t: seq<X>)
    requires s != []
    ensures |t| == |s| - 1
  {
    if |s| == 1 then [] else SiftDown(cmp, [s[|s| - 1]] + s[1..|s| - 1], 1)
  }

  // All elements in the order repeated removals of the root deliver them.
  function Drain<X>(cmp: (X, X) -> int, s: seq<X>): (t: seq<X>)
    ensures |t| == |s|
    decreases |s|
  {
    if s == [] then [] else [s[0]] + Drain(cmp, RemoveRoot(cmp, s))
  }

  lemma DrainStep<X>(cmp: (X, X) -> int, s: seq<X>, before: seq<X>)
    requires s != []
    ensures before + Drain(cmp, s) == before + [s[0]] + Drain(cmp, RemoveRoot(cmp, s))
  {
  }

  lemma SwapKeepsElements<X>(s: seq<X>, i: int, j: int)
    requires 1 <= i <= |s| && 1 <= j <= |s|
    ensures multiset(Swap(s, i, j)) == multiset(s)
    ensures forall x :: x in Swap(s, i, j) <==> x in s
  {
    assert forall x :: x in Swap(s, i, j) <==> x in multiset(Swap(s, i, j));
  }

  lemma {:induction false} SiftUpKeepsElements<X>(cmp: (X, X) -> int, s: seq<X>, i: int)
    requires 1 <= i <= |s|
    ensures multiset(SiftUp(cmp, s, i)) == multiset(s)
    decreases i
  {
    if i > 1 && cmp(At(s, i / 2), At(s, i)) < 0 {
      SwapKeepsElements(s, i / 2, i);
      SiftUpKeepsElements(cmp, Swap(s, i / 2, i), i / 2);
    }
  }

  lemma {:induction false} SiftDownKeepsElements<X>(cmp: (X, X) -> int, s: seq<X>, i: int)
    requires 1 <= i <= |s|
    ensures multiset(SiftDown(cmp, s, i)) == multiset(s)
    decreases |s| - i
  {
    var c := SinkChild(cmp, s, i);
    if c != 0 {
      SwapKeepsElements(s, i, c);
      SiftDownKeepsElements(cmp, Swap(s, i, c), c);
    }
  }

  lemma SameElements<X>(s: seq<X>, t: seq<X>)
    requires multiset(s) == multiset(t)
    ensures forall x :: x in t ==> x in s
  {
    forall x | x in t
      ensures x in s
    {
      assert x in multiset(t);
    }
  }

  lemma {:induction false} SiftUpRestores<X>(cmp: (X, X) -> int, s: seq<X>, i: int)
    requires 1 <= i <= |s| && HeapExceptUp(cmp, s, i) && Preorder(cmp, s)
    ensures Heap(cmp, SiftUp(cmp, s, i))
    decreases i
  {
    if i > 1 && cmp(At(s, i / 2), At(s, i)) < 0 {
      SiftUpRestores(cmp, Swap(s, i / 2, i), i / 2);
    }
  }

  // The chosen child is at least as large as its parent and its sibling.
  lemma SinkChildIsLargest<X>(cmp: (X, X) -> int, s: seq<X>, i: int)
    requires 1 <= i <= |s| && Preorder(cmp, s)
    ensures var c := SinkChild(cmp, s, i);
            if c == 0 then forall j {:trigger At(s, j)} :: 2 <= j <= |s| && j / 2 == i ==> cmp(At(s, i), At(s, j)) >= 0
            else cmp(At(s, c), At(s, i)) >= 0 &&
                 forall j {:trigger At(s, j)} :: 2 <= j <= |s| && j / 2 == i ==> cmp(At(s, c), At(s, j)) >= 0
  {
  }

  lemma SwapDownStep<X>(cmp: (X, X) -> int, s: seq<X>, i: int, c: int)
    requires 1 <= i <= |s| && HeapExceptDown(cmp, s, i) && Preorder(cmp, s)
    requires c == SinkChild(cmp, s, i) && c != 0
    ensures HeapExceptDown(cmp, Swap(s, i, c), c) && Preorder(cmp, Swap(s, i, c))
  {
    var t := Swap(s, i, c);
    SwapKeepsElements(s, i, c);
    SinkChildIsLargest(cmp, s, i);
    forall j | 2 <= j <= |t| && j / 2 != c
      ensures cmp(At(t, j / 2), At(t, j)) >= 0
    {
      assert cmp(At(s, j / 2), At(s, j)) >= 0 || j / 2 == i;
      if j == i {
        assert cmp(At(s, i / 2), At(s, c)) >= 0;
      }
    }
    forall j | 4 <= j <= |t| && j / 2 == c
      ensures cmp(At(t, c / 2), At(t, j)) >= 0
    {
      assert cmp(At(s, j / 2), At(s, j)) >= 0;
    }
  }

  lemma {:induction false} SiftDownRestores<X>(cmp: (X, X) -> int, s: seq<X>, i: int)
    requires 1 <= i <= |s| && HeapExceptDown(cmp, s, i) && Preorder(cmp, s)
    ensures Heap(cmp, SiftDown(cmp, s, i))
    decreases |s| - i
  {
    var c := SinkChild(cmp, s, i);
    if c == 0 {
      SinkChildIsLargest(cmp, s, i);
    } else {
      SwapDownStep(cmp, s, i, c);
      SiftDownRestores(cmp, Swap(s, i, c), c);
    }
  }

  // Insertion keeps the heap and adds exactly the new element.
  lemma InsertCorrect<X>(cmp: (X, X) -> int, s: seq<X>, x: X)
    requires Heap(cmp, s) && Preorder(cmp, s + [x])
    ensures Heap(cmp, Insert(cmp, s, x))
    ensures multiset(Insert(cmp, s, x)) == multiset(s) + multiset{x}
  {
    var t := s + [x];
    assert forall j {:trigger At(t, j)} :: 1 <= j <= |s| ==> At(t, j) == At(s, j);
    SiftUpRestores(cmp, t, |t|);
    SiftUpKeepsElements(cmp, t, |t|);
  }

  // Putting the last element in the root's place leaves one hole, at the root.
  lemma LastToRoot<X>(cmp: (X, X) -> int, s: seq<X>, t: seq<X>)
    requires |s| > 1 && Heap(cmp, s) && t == [s[|s| - 1]] + s[1..|s| - 1]
    ensures HeapExceptDown(cmp, t, 1)
    ensures multiset(t) + multiset{s[0]} == multiset(s)
  {
    assert s == [s[0]] + s[1..|s| - 1] + [s[|s| - 1]];
    forall j | 2 <= j <= |t| && j / 2 != 1
      ensures cmp(At(t, j / 2), At(t, j)) >= 0
    {
      assert At(t, j) == At(s, j) && At(t, j / 2) == At(s, j / 2);
      assert cmp(At(s, j / 2), At(s, j)) >= 0;
    }
  }

  // Removal keeps the heap and removes exactly the root.
  lemma RemoveRootCorrect<X>(cmp: (X, X) -> int, s: seq<X>)
    requires s != [] && Heap(cmp, s) && Preorder(cmp, s)
    ensures Heap(cmp, RemoveRoot(cmp, s))
    ensures multiset(RemoveRoot(cmp, s)) + multiset{s[0]} == multiset(s)
  {
    if |s| == 1 {
      assert s == [s[0]];
    } else {
      var t := [s[|s| - 1]] + s[1..|s| - 1];
      LastToRoot(cmp, s, t);
      ElementsOfPart(s, t);
      SiftDownRestores(cmp, t, 1);
      SiftDownKeepsElements(cmp, t, 1);
    }
  }

  // The root of a heap is a largest element.
  lemma {:induction false} RootIsLargest<X>(cmp: (X, X) -> int, s: seq<X>, i: int)
    requires Heap(cmp, s) && Preorder(cmp, s) && 1 <= i <= |s|
    ensures cmp(At(s, 1), At(s, i)) >= 0
    decreases i
  {
    assert At(s, 1) in s && At(s, i) in s;
    if i > 1 {
      RootIsLargest(cmp, s, i / 2);
      assert At(s, i / 2) in s;
    }
  }

  ghost predicate Nonincreasing<X>(cmp: (X, X) -> int, d: seq<X>) {
    forall i, j :: 0 <= i < j < |d| ==> cmp(d[i], d[j]) >= 0
  }

  // Repeated removal delivers a nonincreasing permutation of the contents.
  lemma {:induction false} DrainSorts<X>(cmp: (X, X) -> int, s: seq<X>)
    requires Heap(cmp, s) && Preorder(cmp, s)
    ensures multiset(Drain(cmp, s)) == multiset(s)
    ensures Nonincreasing(cmp, Drain(cmp, s))
    decreases |s|
  {
    if s != [] {
      var t := RemoveRoot(cmp, s);
      var d := Drain(cmp, t);
      RemoveRootCorrect(cmp, s);
      ElementsOfPart(s, t);
      DrainSorts(cmp, t);
      assert multiset([s[0]] + d) == multiset{s[0]} + multiset(d);
      HeadDominates(cmp, s, t, d);
    }
  }

  lemma HeadDominates<X>(cmp: (X, X) -> int, s: seq<X>, t: seq<X>, d: seq<X>)
    requires s != [] && Heap(cmp, s) && Preorder(cmp, s)
    requires multiset(t) + multiset{s[0]} == multiset(s) && multiset(d) == multiset(t)
    ensures forall j :: 0 <= j < |d| ==> cmp(s[0], d[j]) >= 0
  {
    forall j | 0 <= j < |d|
      ensures cmp(s[0], d[j]) >= 0
    {
      assert d[j] in multiset(d);
      RootDominates(cmp, s, d[j]);
    }
  }

  lemma RootDominates<X>(cmp: (X, X) -> int, s: seq<X>, x: X)
    requires Heap(cmp, s) && Preorder(cmp, s) && x in multiset(s)
    ensures cmp(s[0], x) >= 0
  {
    var k :| 0 <= k < |s| && s[k] == x;
    RootIsLargest(cmp, s, k + 1);
  }

  lemma ElementsOfPart<X>(s: seq<X>, t: seq<X>)
    requires s != [] && multiset(t) + multiset{s[0]} == multiset(s)
    ensures forall x :: x in t ==> x in s
  {
    forall x | x in t
      ensures x in s
    {
      assert x in multiset(t);
      assert x in multiset(s);
    }
  }

  // A history of calls on one heap.
  datatype Call<X> = AddCall(x: X) | GetCall

  function Added<X>(calls: seq<Call<X>>): seq<X> {
    if calls == [] then []
    else (if calls[0].AddCall? then [calls[0].x] else []) + Added(calls[1..])
  }

  function Step<X>(cmp: (X, X) -> int, s: seq<X>, call: Call<X>): seq<X> {
    if call.AddCall? then Insert(cmp, s, call.x)
    else if s == [] then s
    else RemoveRoot(cmp, s)
  }

  function After<X>(cmp: (X, X) -> int, s: seq<X>, calls: seq<Call<X>>): seq<X>
    decreases |calls|
  {
    if calls == [] then s else After(cmp, Step(cmp, s, calls[0]), calls[1..])
  }

  // What the successful gets of the history deliver.
  function Delivered<X>(cmp: (X, X) -> int, s: seq<X>, calls: seq<Call<X>>): seq<X>
    decreases |calls|
  {
    if calls == [] then []
    else (if calls[0].GetCall? && s != [] then [s[0]] else []) + Delivered(cmp, Step(cmp, s, calls[0]), calls[1..])
  }

  lemma {:induction false} StepCorrect<X>(cmp: (X, X) -> int, s: seq<X>, calls: seq<Call<X>>)
    requires calls != [] && Heap(cmp, s) && Preorder(cmp, s + Added(calls))
    ensures var t := Step(cmp, s, calls[0]);
            && Heap(cmp, t) && Preorder(cmp, t + Added(calls[1..]))
            && multiset(t) + multiset(if calls[0].GetCall? && s != [] then [s[0]] else [])
               == multiset(s) + multiset(if calls[0].AddCall? then [calls[0].x] else [])
  {
    var u := s + Added(calls);
    var t := Step(cmp, s, calls[0]);
    if calls[0].AddCall? {
      assert forall x :: x in s + [calls[0].x] ==> x in u;
      InsertCorrect(cmp, s, calls[0].x);
      SameElements(s + [calls[0].x], t);
    } else {
      assert forall x :: x in s ==> x in u;
      if s != [] {
        RemoveRootCorrect(cmp, s);
        ElementsOfPart(s, t);
      }
    }
    assert forall x :: x in t + Added(calls[1..]) ==> x in u;
  }

  lemma Balance<X>(a: multiset<X>, d: multiset<X>, t: multiset<X>, r: multiset<X>, g: multiset<X>,
                   s: multiset<X>, n: multiset<X>)
    requires a + d == t + r && t + g == s + n
    ensures a + (g + d) == s + (n + r)
  {
    assert a + (g + d) == (a + d) + g;
    assert (t + r) + g == (t + g) + r;
  }

  // After any history the heap is ordered, and what was delivered together with
  // what is left is exactly what was there and what was added.
  lemma {:induction false} HistoryConserves<X>(cmp: (X, X) -> int, s: seq<X>, calls: seq<Call<X>>)
    requires Heap(cmp, s) && Preorder(cmp, s + Added(calls))
    ensures Heap(cmp, After(cmp, s, calls))
    ensures multiset(After(cmp, s, calls)) + multiset(Delivered(cmp, s, calls)) == multiset(s) + multiset(Added(calls))
    decreases |calls|
  {
    if calls != [] {
      var t, rest := Step(cmp, s, calls[0]), calls[1..];
      var got := if calls[0].GetCall? && s != [] then [s[0]] else [];
      var put := if calls[0].AddCall? then [calls[0].x] else [];
      StepCorrect(cmp, s, calls);
      HistoryConserves(cmp, t, rest);
      Balance(multiset(After(cmp, t, rest)), multiset(Delivered(cmp, t, rest)), multiset(t), multiset(Added(rest)),
              multiset(got), multiset(s), multiset(put));
    }
  }
}
