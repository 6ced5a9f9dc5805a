// Sequences without duplicates, and taking one element out.
module Sequences {

  ghost predicate Differ<X>(s: seq<X>, i: int, j: int)
    requires 0 <= i < |s| && 0 <= j < |s|
  {
    s[i] != s[j]
  }

  ghost predicate NoDuplicates<X>(s: seq<X>) {
    forall i, j {:trigger Differ(s, i, j)} :: 0 <= i < j < |s| ==> Differ(s, i, j)
  }

  // An index at which s holds x, or -1.
  ghost function IndexOf<X>(s: seq<X>, x: X): (i: int)
    ensures x in s ==> 0 <= i < |s| && s[i] == x
  {
    if x in s then var i :| 0 <= i < |s| && s[i] == x; i else -1
  }

  // In a sequence without duplicates every element has one index.
  lemma Indices<X>(s: seq<X>)
    requires NoDuplicates(s)
    ensures forall i {:trigger s[i]} :: 0 <= i < |s| ==> IndexOf(s, s[i]) == i
  {
    forall i | 0 <= i < |s|
      ensures IndexOf(s, s[i]) == i
    {
      var j := IndexOf(s, s[i]);
      assert j < i ==> Differ(s, j, i);
      assert i < j ==> Differ(s, i, j);
    }
  }

  // x stands somewhere before y.
  ghost predicate Before<X>(s: seq<X>, x: X, y: X) {
    exists i, j :: 0 <= i < j < |s| && s[i] == x && s[j] == y
  }

  lemma BeforeIn<X>(a: seq<X>, s: seq<X>, b: seq<X>, x: X, y: X)
    requires Before(s, x, y)
    ensures Before(a + s + b, x, y)
  {
    var i, j :| 0 <= i < j < |s| && s[i] == x && s[j] == y;
    var u := a + s + b;
    assert u[|a| + i] == x && u[|a| + j] == y;
  }

  lemma BeforeAcross<X>(a: seq<X>, s: seq<X>, b: seq<X>, x: X, y: X)
    requires (x in a && (y in s || y in b)) || (x in s && y in b)
    ensures Before(a + s + b, x, y)
  {
    var u := a + s + b;
    if x in a {
      var i :| 0 <= i < |a| && a[i] == x;
      assert u[i] == x && u[|a|..] == s + b && y in u[|a|..];
    } else {
      var i :| 0 <= i < |s| && s[i] == x;
      assert u[|a| + i] == x && u[|a| + |s|..] == b && y in u[|a| + |s|..];
    }
  }

  function Init<X>(s: seq<X>): (t: seq<X>)
    requires s != []
    ensures |t| == |s| - 1
  {
    s[..|s| - 1]
  }

  function Last<X>(s: seq<X>): X
    requires s != []
  {
    s[|s| - 1]
  }

  lemma Prefixes<X>(s: seq<X>, i: nat)
    requires 1 <= i <= |s|
    ensures Init(s[..i]) == s[..i - 1] && Last(s[..i]) == s[i - 1]
  {
  }

  lemma Regroup<X>(s: seq<X>, x: X, u: seq<X>)
    ensures s + ([x] + u) == s + [x] + u
  {
  }

  ghost function Reversed<X>(s: seq<X>): (r: seq<X>)
    ensures |r| == |s| && forall k :: 0 <= k < |s| ==> r[k] == s[|s| - 1 - k]
  {
    seq(|s|, k requires 0 <= k < |s| => s[|s| - 1 - k])
  }

  // s without its element at index k
  ghost function Without<X>(s: seq<X>, k: nat): (t: seq<X>)
    requires k < |s|
    ensures |t| == |s| - 1 && forall i :: 0 <= i < |t| ==> t[i] == if i < k then s[i] else s[i + 1]
  {
    s[..k] + s[k + 1..]
  }

  lemma WithoutKeepsDifference<X>(s: seq<X>, k: nat)
    requires k < |s| && NoDuplicates(s)
    ensures NoDuplicates(Without(s, k)) && s[k] !in Without(s, k)
    ensures forall x :: x in Without(s, k) ==> x in s
  {
    Indices(s);
    var t := Without(s, k);
    assert forall i, j {:trigger Differ(t, i, j)} :: 0 <= i < j < |t| ==> t[i] != t[j];
  }

  lemma AddedDiffers<X>(s: seq<X>, x: X)
    requires NoDuplicates(s) && x !in s
    ensures NoDuplicates([x] + s) && NoDuplicates(s + [x])
  {
    var t, u := [x] + s, s + [x];
    assert forall i, j {:trigger Differ(t, i, j)} :: 0 < i < j < |t| ==> Differ(s, i - 1, j - 1);
    assert forall i, j {:trigger Differ(u, i, j)} :: 0 <= i < j < |s| ==> Differ(s, i, j);
  }

  lemma JoinedDiffers<X>(s: seq<X>, t: seq<X>)
    requires NoDuplicates(s) && NoDuplicates(t) && forall x :: x in s ==> x !in t
    ensures NoDuplicates(s + t)
  {
    var u := s + t;
    forall i, j | 0 <= i < j < |u|
      ensures Differ(u, i, j)
    {
      if j < |s| {
        assert Differ(s, i, j);
      } else if i >= |s| {
        assert Differ(t, i - |s|, j - |s|);
      } else {
        assert u[i] in s && u[j] in t;
      }
    }
  }

  // Moving one element to the front loses and gains none.
  lemma MovedKeepsElements<X>(s: seq<X>, k: nat)
    requires k < |s|
    ensures forall x :: x in [s[k]] + Without(s, k) <==> x in s
  {
  }
}
