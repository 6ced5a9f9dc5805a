// Ascending sequences, the library's sort, and ranks: how many elements are
// below a value and how many are not above it.
module Sorting {
  import opened Sequences

  ghost predicate InOrder(s: seq<int>, i: int, j: int)
    requires 0 <= i < |s| && 0 <= j < |s|
  {
    s[i] <= s[j]
  }

  ghost predicate Ascending(s: seq<int>) {
    forall i, j {:trigger InOrder(s, i, j)} :: 0 <= i < j < |s| ==> InOrder(s, i, j)
  }

  lemma Ordered(s: seq<int>, i: int, j: int)
    requires Ascending(s) && 0 <= i <= j < |s|
    ensures s[i] <= s[j]
  {
    assert i < j ==> InOrder(s, i, j);
  }

  lemma TailAscends(s: seq<int>)
    requires Ascending(s) && s != []
    ensures Ascending(s[1..]) && forall i :: 1 <= i < |s| ==> s[0] <= s[i]
  {
    var t := s[1..];
    forall i, j | 0 <= i < j < |t|
      ensures InOrder(t, i, j)
    {
      assert InOrder(s, i + 1, j + 1);
    }
    forall i | 1 <= i < |s|
      ensures s[0] <= s[i]
    {
      assert InOrder(s, 0, i);
    }
  }

  lemma Prepend(x: int, s: seq<int>)
    requires Ascending(s) && forall i :: 0 <= i < |s| ==> x <= s[i]
    ensures Ascending([x] + s)
  {
    var t := [x] + s;
    forall i, j | 0 <= i < j < |t|
      ensures InOrder(t, i, j)
    {
      assert i > 0 ==> InOrder(s, i - 1, j - 1);
    }
  }

  function Insert(s: seq<int>, x: int): (t: seq<int>)
    ensures |t| == |s| + 1
  {
    if s == [] then [x]
    else if x <= s[0] then [x] + s
    else [s[0]] + Insert(s[1..], x)
  }

  lemma {:induction false} InsertSorts(s: seq<int>, x: int)
    requires Ascending(s)
    ensures multiset(Insert(s, x)) == multiset(s) + multiset{x} && Ascending(Insert(s, x))
  {
    if s != [] {
      TailAscends(s);
      assert s == [s[0]] + s[1..];
      if x <= s[0] {
        Prepend(x, s);
      } else {
        var u := Insert(s[1..], x);
        InsertSorts(s[1..], x);
        AllAbove(s, x, u);
        Prepend(s[0], u);
      }
    }
  }

  lemma AllAbove(s: seq<int>, x: int, u: seq<int>)
    requires s != [] && (forall i :: 1 <= i < |s| ==> s[0] <= s[i]) && s[0] < x
    requires multiset(u) == multiset(s[1..]) + multiset{x}
    ensures forall i :: 0 <= i < |u| ==> s[0] <= u[i]
  {
    forall i | 0 <= i < |u|
      ensures s[0] <= u[i]
    {
      assert u[i] in multiset(u);
      if u[i] != x {
        assert u[i] in s[1..];
      }
    }
  }

  // std::sort
  function Sort(s: seq<int>): (t: seq<int>)
    ensures |t| == |s|
  {
    if s == [] then [] else Insert(Sort(s[1..]), s[0])
  }

  lemma {:induction false} SortSorts(s: seq<int>)
    ensures multiset(Sort(s)) == multiset(s) && Ascending(Sort(s))
  {
    if s != [] {
      SortSorts(s[1..]);
      InsertSorts(Sort(s[1..]), s[0]);
      assert s == [s[0]] + s[1..];
    }
  }

  // std::sort of a whole vector
  method SortInPlace(numbers: array<int>)
    modifies numbers
    ensures numbers[..] == Sort(old(numbers[..]))
  {
    var a := Sort(numbers[..]);
    SortSorts(numbers[..]);
    forall k | 0 <= k < numbers.Length {
      numbers[k] := a[k];
    }
  }

  // How many elements of s are below v; at most v with orEqual.
  ghost function Count(s: seq<int>, v: int, orEqual: bool): (n: nat)
    ensures n <= |s|
  {
    if s == [] then 0
    else (if s[0] < v || (orEqual && s[0] == v) then 1 else 0) + Count(s[1..], v, orEqual)
  }

  // The places of s that Count counts, and the others.
  ghost function Counted(s: seq<int>, v: int, orEqual: bool): set<int> {
    set i | 0 <= i < |s| && (s[i] < v || (orEqual && s[i] == v))
  }

  ghost function Uncounted(s: seq<int>, v: int, orEqual: bool): set<int> {
    set i | 0 <= i < |s| && (s[i] > v || (!orEqual && s[i] == v))
  }

  lemma {:induction false} CountIsNumber(s: seq<int>, v: int, orEqual: bool)
    ensures Count(s, v, orEqual) == |Counted(s, v, orEqual)|
    decreases |s|
  {
    if s == [] {
      assert Counted(s, v, orEqual) == {};
    } else {
      var k := |s| - 1;
      CountInit(s, v, orEqual);
      CountIsNumber(s[..k], v, orEqual);
      if s[k] < v || (orEqual && s[k] == v) {
        assert Counted(s, v, orEqual) == Counted(s[..k], v, orEqual) + {k};
      } else {
        assert Counted(s, v, orEqual) == Counted(s[..k], v, orEqual);
      }
    }
  }

  lemma {:induction false} UncountedIsNumber(s: seq<int>, v: int, orEqual: bool)
    ensures |s| - Count(s, v, orEqual) == |Uncounted(s, v, orEqual)|
    decreases |s|
  {
    if s == [] {
      assert Uncounted(s, v, orEqual) == {};
    } else {
      var k := |s| - 1;
      CountInit(s, v, orEqual);
      UncountedIsNumber(s[..k], v, orEqual);
      if s[k] < v || (orEqual && s[k] == v) {
        assert Uncounted(s, v, orEqual) == Uncounted(s[..k], v, orEqual);
      } else {
        assert Uncounted(s, v, orEqual) == Uncounted(s[..k], v, orEqual) + {k};
      }
    }
  }

  lemma CountInit(s: seq<int>, v: int, orEqual: bool)
    requires s != []
    ensures Count(s, v, orEqual) == Count(s[..|s| - 1], v, orEqual) +
                                    if s[|s| - 1] < v || (orEqual && s[|s| - 1] == v) then 1 else 0
  {
    var k := |s| - 1;
    assert s == s[..k] + [s[k]];
    CountConcat(s[..k], [s[k]], v, orEqual);
  }

  lemma {:induction false} CountConcat(s: seq<int>, t: seq<int>, v: int, orEqual: bool)
    ensures Count(s + t, v, orEqual) == Count(s, v, orEqual) + Count(t, v, orEqual)
  {
    if s == [] {
      assert s + t == t;
    } else {
      assert (s + t)[1..] == s[1..] + t;
      CountConcat(s[1..], t, v, orEqual);
    }
  }

  lemma {:induction false} CountAll(s: seq<int>, v: int, orEqual: bool)
    requires forall i :: 0 <= i < |s| ==> s[i] < v || (orEqual && s[i] == v)
    ensures Count(s, v, orEqual) == |s|
  {
    if s != [] {
      CountAll(s[1..], v, orEqual);
    }
  }

  lemma {:induction false} CountNone(s: seq<int>, v: int, orEqual: bool)
    requires forall i :: 0 <= i < |s| ==> s[i] > v || (!orEqual && s[i] == v)
    ensures Count(s, v, orEqual) == 0
  {
    if s != [] {
      CountNone(s[1..], v, orEqual);
    }
  }

  lemma CountWithout(s: seq<int>, k: nat, v: int, orEqual: bool)
    requires k < |s|
    ensures Count(s, v, orEqual) == Count([s[k]], v, orEqual) + Count(Without(s, k), v, orEqual)
  {
    var a, b := s[..k], s[k + 1..];
    assert s == (a + [s[k]]) + b;
    CountConcat(a + [s[k]], b, v, orEqual);
    CountConcat(a, [s[k]], v, orEqual);
    CountConcat(a, b, v, orEqual);
  }

  lemma MultisetWithout(s: seq<int>, k: nat)
    requires k < |s|
    ensures multiset(Without(s, k)) == multiset(s) - multiset{s[k]}
  {
    assert s == s[..k] + [s[k]] + s[k + 1..];
  }

  // Counting does not depend on the order.
  lemma {:induction false} CountPermutation(s: seq<int>, t: seq<int>, v: int, orEqual: bool)
    requires multiset(s) == multiset(t)
    ensures Count(s, v, orEqual) == Count(t, v, orEqual)
    decreases |s|
  {
    if s == [] {
      assert |multiset(t)| == |t|;
    } else {
      assert s[0] in multiset(t);
      var k :| 0 <= k < |t| && t[k] == s[0];
      MultisetWithout(s, 0);
      MultisetWithout(t, k);
      CountPermutation(Without(s, 0), Without(t, k), v, orEqual);
      CountWithout(s, 0, v, orEqual);
      CountWithout(t, k, v, orEqual);
    }
  }

  // In an ascending sequence the element at k bounds the counts.
  lemma CountAround(m: seq<int>, k: nat, v: int)
    requires Ascending(m) && k < |m|
    ensures m[k] >= v ==> Count(m, v, false) <= k
    ensures m[k] <= v ==> Count(m, v, true) > k
    ensures m[k] > v ==> Count(m, v, true) <= k
    ensures m[k] < v ==> Count(m, v, false) > k
  {
    CountBefore(m, k, v, false);
    CountBefore(m, k, v, true);
  }

  lemma CountBefore(m: seq<int>, k: nat, v: int, orEqual: bool)
    requires Ascending(m) && k < |m|
    ensures if m[k] < v || (orEqual && m[k] == v) then Count(m, v, orEqual) > k else Count(m, v, orEqual) <= k
  {
    var low := m[k] < v || (orEqual && m[k] == v);
    var c := if low then k + 1 else k;
    forall i | 0 <= i < |m|
      ensures i < k ==> m[i] <= m[k]
      ensures i > k ==> m[k] <= m[i]
    {
      assert i < k ==> InOrder(m, i, k);
      assert i > k ==> InOrder(m, k, i);
    }
    assert m == m[..c] + m[c..];
    CountConcat(m[..c], m[c..], v, orEqual);
    if low {
      CountAll(m[..c], v, orEqual);
    } else {
      CountNone(m[c..], v, orEqual);
    }
  }

  // v has place k (from 1) when s is sorted.
  ghost predicate HasRank(s: seq<int>, k: int, v: int) {
    Count(s, v, false) < k <= Count(s, v, true)
  }

  lemma AscendingRank(m: seq<int>, k: int, v: int)
    requires Ascending(m) && HasRank(m, k, v)
    ensures 1 <= k <= |m| && m[k - 1] == v
  {
    CountAround(m, k - 1, v);
  }

  lemma RankIsSortedPlace(s: seq<int>, k: int, v: int)
    requires HasRank(s, k, v)
    ensures 1 <= k <= |s| && Sort(s)[k - 1] == v
  {
    SortSorts(s);
    CountPermutation(s, Sort(s), v, false);
    CountPermutation(s, Sort(s), v, true);
    AscendingRank(Sort(s), k, v);
  }
}
