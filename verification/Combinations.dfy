// combinationSum (lintcode/permutation_and_combination.md:76-108): every way to
// make a target as a sum of candidates, each usable any number of times.
module Combinations {
  import opened Sequences
  import opened Sorting

  function Total(c: seq<int>): int {
    if c == [] then 0 else c[0] + Total(c[1..])
  }

  lemma {:induction false} TotalSplits(c: seq<int>, d: seq<int>, x: int)
    ensures Total(c + [x] + d) == Total(c) + x + Total(d)
  {
    if c == [] {
      assert [] + [x] + d == [x] + d;
      assert ([x] + d)[1..] == d;
    } else {
      TotalSplits(c[1..], d, x);
      assert (c + [x] + d)[1..] == c[1..] + [x] + d;
    }
  }

  // Numbers in order, each among s, that add up to rest.
  ghost predicate IsSum(s: seq<int>, c: seq<int>, rest: int) {
    Ascending(c) && (forall x :: x in c ==> x in s) && Total(c) == rest
  }

  ghost predicate AllPositive(s: seq<int>) {
    forall i :: 0 <= i < |s| ==> s[i] > 0
  }

  lemma {:induction false} PositiveTotal(c: seq<int>)
    requires AllPositive(c)
    ensures if c == [] then Total(c) == 0 else Total(c) > 0
  {
    if c != [] {
      PositiveTotal(c[1..]);
    }
  }

  // one is put before each of cs.
  ghost function Prefixed(one: seq<int>, cs: seq<seq<int>>): (r: seq<seq<int>>)
    ensures |r| == |cs|
  {
    seq(|cs|, k requires 0 <= k < |cs| => one + cs[k])
  }

  // cs lists the sums of what lies at begin or later, each once.
  ghost predicate Lists(s: seq<int>, begin: nat, rest: int, cs: seq<seq<int>>)
    requires begin <= |s|
  {
    NoDuplicates(cs) && forall c :: c in cs <==> IsSum(s[begin..], c, rest)
  }

  // The same for those whose first number lies before i.
  ghost predicate ListsBefore(s: seq<int>, begin: nat, i: nat, rest: int, cs: seq<seq<int>>)
    requires begin <= i <= |s|
  {
    NoDuplicates(cs) && forall c :: c in cs <==> c != [] && c[0] in s[begin..i] && IsSum(s[begin..], c, rest)
  }

  lemma Picked(s: seq<int>, i: nat, j: nat, x: int) returns (y: nat)
    requires i <= j <= |s| && x in s[i..j]
    ensures i <= y < j && s[y] == x
  {
    var k :| 0 <= k < |s[i..j]| && s[i..j][k] == x;
    y := i + k;
  }

  // Only the empty sum makes 0, and none makes less.
  lemma RestSign(s: seq<int>, begin: nat, c: seq<int>, rest: int)
    requires AllPositive(s) && begin <= |s| && IsSum(s[begin..], c, rest)
    ensures rest >= 0 && (rest == 0 <==> c == [])
  {
    forall k | 0 <= k < |c|
      ensures c[k] > 0
    {
      assert s[begin..] == s[begin..|s|] && c[k] in c;
      var y := Picked(s, begin, |s|, c[k]);
    }
    PositiveTotal(c);
  }

  // The sums whose first number is s[i], at the first place of its value, are
  // s[i] and the sums of what lies at i or later.
  lemma FirstNumber(s: seq<int>, begin: nat, i: nat, c: seq<int>, rest: int)
    requires Ascending(s) && begin <= i < |s| && (i > begin ==> s[i - 1] != s[i])
    requires c != [] && c[0] == s[i]
    ensures IsSum(s[begin..], c, rest) <==> IsSum(s[i..], c[1..], rest - s[i])
  {
    var d := c[1..];
    assert s[begin..] == s[begin..|s|] && s[i..] == s[i..|s|];
    if IsSum(s[begin..], c, rest) {
      TailAscends(c);
      forall x | x in d
        ensures x in s[i..]
      {
        var k :| 0 <= k < |d| && d[k] == x;
        assert x == c[k + 1] && x in c;
        var y := Picked(s, begin, |s|, x);
        if y < i {
          Ordered(s, y, i - 1);
          Ordered(s, i - 1, i);
        }
        assert s[i..][y - i] == x;
      }
    }
    if IsSum(s[i..], d, rest - s[i]) {
      forall k | 0 <= k < |d|
        ensures s[i] <= d[k] && d[k] in s[begin..]
      {
        var y := Picked(s, i, |s|, d[k]);
        Ordered(s, i, y);
        assert s[begin..][y - begin] == d[k];
      }
      Prepend(s[i], d);
      assert c == [s[i]] + d;
      assert s[begin..][i - begin] == s[i];
    }
  }

  lemma PrefixedDiffers(one: seq<int>, cs: seq<seq<int>>)
    requires NoDuplicates(cs)
    ensures NoDuplicates(Prefixed(one, cs))
  {
    var r := Prefixed(one, cs);
    forall i, j | 0 <= i < j < |r|
      ensures Differ(r, i, j)
    {
      assert Differ(cs, i, j);
      assert r[i][|one|..] == cs[i] && r[j][|one|..] == cs[j];
    }
  }

  lemma PrefixedTwice(one: seq<int>, x: int, cs: seq<seq<int>>)
    ensures Prefixed(one + [x], cs) == Prefixed(one, Prefixed([x], cs))
  {
    forall k | 0 <= k < |cs|
      ensures Prefixed(one + [x], cs)[k] == Prefixed(one, Prefixed([x], cs))[k]
    {
      assert (one + [x]) + cs[k] == one + ([x] + cs[k]);
    }
  }

  // One more first number: what the recursive call lists comes behind it.
  lemma NextFirst(s: seq<int>, begin: nat, i: nat, rest: int, cs: seq<seq<int>>, ds: seq<seq<int>>)
    requires Ascending(s) && begin <= i < |s| && (i > begin ==> s[i - 1] != s[i])
    requires ListsBefore(s, begin, i, rest, cs) && Lists(s, i, rest - s[i], ds)
    ensures ListsBefore(s, begin, i + 1, rest, cs + Prefixed([s[i]], ds))
  {
    var es := Prefixed([s[i]], ds);
    PrefixedDiffers([s[i]], ds);
    forall c
      ensures c in es <==> c != [] && c[0] == s[i] && IsSum(s[begin..], c, rest)
    {
      InPrefixed(s[i], ds, c);
      if c != [] && c[0] == s[i] {
        FirstNumber(s, begin, i, c, rest);
      }
    }
    forall c | c in cs
      ensures c !in es
    {
      var y := Picked(s, begin, i, c[0]);
      Ordered(s, y, i - 1);
      Ordered(s, i - 1, i);
    }
    JoinedDiffers(cs, es);
    assert s[begin..i + 1] == s[begin..i] + [s[i]];
  }

  lemma InPrefixed(x: int, ds: seq<seq<int>>, c: seq<int>)
    ensures c in Prefixed([x], ds) <==> c != [] && c[0] == x && c[1..] in ds
  {
    var es := Prefixed([x], ds);
    if c in es {
      var k :| 0 <= k < |es| && es[k] == c;
      assert c == [x] + ds[k] && c[1..] == ds[k];
    }
    if c != [] && c[0] == x && c[1..] in ds {
      var k :| 0 <= k < |ds| && ds[k] == c[1..];
      assert es[k] == [x] + c[1..] == c;
    }
  }

  // A value that repeats the one before it as a first number adds nothing.
  lemma SkipRepeated(s: seq<int>, begin: nat, i: nat, rest: int, cs: seq<seq<int>>)
    requires begin < i < |s| && s[i] == s[i - 1] && ListsBefore(s, begin, i, rest, cs)
    ensures ListsBefore(s, begin, i + 1, rest, cs)
  {
  }

  // Once every first number has been tried, every sum is listed.
  lemma AllFirsts(s: seq<int>, begin: nat, rest: int, cs: seq<seq<int>>)
    requires AllPositive(s) && begin <= |s| && rest > 0 && ListsBefore(s, begin, |s|, rest, cs)
    ensures Lists(s, begin, rest, cs)
  {
    assert s[begin..|s|] == s[begin..];
    forall c | IsSum(s[begin..], c, rest)
      ensures c in cs
    {
      RestSign(s, begin, c, rest);
      assert c[0] in c;
    }
  }

  lemma NothingLeft(s: seq<int>, begin: nat, rest: int)
    requires AllPositive(s) && begin <= |s| && rest <= 0
    ensures Lists(s, begin, rest, if rest == 0 then [[]] else [])
  {
    var cs: seq<seq<int>> := if rest == 0 then [[]] else [];
    forall c
      ensures c in cs <==> IsSum(s[begin..], c, rest)
    {
      if IsSum(s[begin..], c, rest) {
        RestSign(s, begin, c, rest);
      }
    }
  }

  // The vectors that the recursion shares.
  class Search {
    var one: seq<int>
    var rst: seq<seq<int>>

    constructor ()
      ensures one == [] && rst == []
    {
      one, rst := [], [];
    }

    // recursive (lintcode/permutation_and_combination.md:88-107)
    method Recursive(candidates: seq<int>, begin: nat, end: int, target: int, sum: int)
      returns (ghost cs: seq<seq<int>>)
      requires Ascending(candidates) && AllPositive(candidates)
      requires begin <= |candidates| == end + 1
      modifies this
      ensures one == old(one) && rst == old(rst) + Prefixed(one, cs)
      ensures Lists(candidates, begin, target - sum, cs)
      decreases if target > sum then target - sum else 0
    {
      if target == sum {
        NothingLeft(candidates, begin, 0);
        rst := rst + [one];
        cs := [[]];
        assert one + [] == one && Prefixed(one, cs) == [one];
        return;
      }
      cs := [];
      if sum > target {
        NothingLeft(candidates, begin, target - sum);
        return;
      }
      for i := begin to end + 1
        invariant one == old(one) && rst == old(rst) + Prefixed(one, cs)
        invariant ListsBefore(candidates, begin, i, target - sum, cs)
      {
        if i > begin && candidates[i] == candidates[i - 1] {
          SkipRepeated(candidates, begin, i, target - sum, cs);
          continue;
        }
        one := one + [candidates[i]];
        ghost var ds := Recursive(candidates, i, end, target, sum + candidates[i]);
        NextFirst(candidates, begin, i, target - sum, cs, ds);
        PrefixedTwice(old(one), candidates[i], ds);
        cs := cs + Prefixed([candidates[i]], ds);
        one := one[..|one| - 1];
      }
      AllFirsts(candidates, begin, target - sum, cs);
    }
  }

  // Sorting changes neither what is positive nor what sums can be made.
  lemma SortedSums(s: seq<int>)
    requires AllPositive(s)
    ensures Ascending(Sort(s)) && AllPositive(Sort(s))
    ensures forall c, rest :: IsSum(Sort(s), c, rest) <==> IsSum(s, c, rest)
  {
    SortSorts(s);
    assert forall x :: x in s <==> x in multiset(s);
    assert forall x :: x in Sort(s) <==> x in multiset(Sort(s));
    forall i | 0 <= i < |Sort(s)|
      ensures Sort(s)[i] > 0
    {
      assert Sort(s)[i] in s;
    }
  }

  // combinationSum (lintcode/permutation_and_combination.md:80-86)
  method CombinationSum(candidates: array<int>, target: int) returns (rst: seq<seq<int>>)
    requires AllPositive(candidates[..])
    modifies candidates
    ensures candidates[..] == Sort(old(candidates[..]))
    ensures NoDuplicates(rst)
    ensures forall c :: c in rst <==> IsSum(old(candidates[..]), c, target)
  {
    SortedSums(candidates[..]);
    SortInPlace(candidates);
    var s := candidates[..];
    var search := new Search();
    ghost var cs := search.Recursive(s, 0, |s| - 1, target, 0);
    assert s[0..] == s;
    forall k | 0 <= k < |cs|
      ensures Prefixed([], cs)[k] == cs[k]
    {
      assert [] + cs[k] == cs[k];
    }
    assert search.rst == cs;
    return search.rst;
  }
}
