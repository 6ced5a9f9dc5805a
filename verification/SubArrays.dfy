// maxTwoSubArrays (lintcode/array.md:82-118): the largest sum of two stretches
// of the numbers that do not overlap, from the best stretch before and the best
// after every cut.
module SubArrays {
  import opened MinMax

  // a[i] + ... + a[j-1]
  function Sum(a: seq<int>, i: nat, j: nat): int
    requires i <= j <= |a|
  {
    if i == j then 0 else Sum(a, i, j - 1) + a[j - 1]
  }

  lemma {:induction false} SumFront(a: seq<int>, i: nat, j: nat)
    requires i < j <= |a|
    ensures Sum(a, i, j) == a[i] + Sum(a, i + 1, j)
  {
    if i + 1 < j {
      SumFront(a, i, j - 1);
    }
  }

  lemma {:induction false} SumSplits(a: seq<int>, i: nat, j: nat, k: nat)
    requires i <= j < k <= |a|
    ensures Sum(a, i, k) == Sum(a, i, j) + a[j] + Sum(a, j + 1, k)
  {
    if j + 1 < k {
      SumSplits(a, i, j, k - 1);
    }
  }

  // v is the sum of a stretch of a[lo..hi], and no stretch there has more.
  ghost predicate IsBest(a: seq<int>, lo: nat, hi: nat, v: int) {
    && hi <= |a|
    && (exists i, j :: lo <= i < j <= hi && Sum(a, i, j) == v)
    && (forall i, j :: lo <= i < j <= hi ==> Sum(a, i, j) <= v)
  }

  // The same for the stretches that end at hi, or start at lo.
  ghost predicate IsBestEnd(a: seq<int>, hi: nat, v: int) {
    && hi <= |a|
    && (exists i :: 0 <= i < hi && Sum(a, i, hi) == v)
    && (forall i :: 0 <= i < hi ==> Sum(a, i, hi) <= v)
  }

  ghost predicate IsBestStart(a: seq<int>, lo: nat, v: int) {
    && lo < |a|
    && (exists j :: lo < j <= |a| && Sum(a, lo, j) == v)
    && (forall j :: lo < j <= |a| ==> Sum(a, lo, j) <= v)
  }

  // Two stretches that do not overlap have sum v, and no two have more.
  ghost predicate IsBestPair(a: seq<int>, v: int) {
    && (exists i, j, k, l :: 0 <= i < j <= k < l <= |a| && Sum(a, i, j) + Sum(a, k, l) == v)
    && (forall i, j, k, l :: 0 <= i < j <= k < l <= |a| ==> Sum(a, i, j) + Sum(a, k, l) <= v)
  }

  // One element more at the end: extend the best end if it is positive.
  lemma NextEnd(a: seq<int>, hi: nat, last: int)
    requires hi < |a| && (hi > 0 ==> IsBestEnd(a, hi, last)) && (hi == 0 ==> last == 0)
    ensures IsBestEnd(a, hi + 1, if last > 0 then last + a[hi] else a[hi])
  {
    var v := if last > 0 then last + a[hi] else a[hi];
    assert Sum(a, hi, hi + 1) == a[hi];
    if last > 0 {
      var i :| 0 <= i < hi && Sum(a, i, hi) == last;
      assert Sum(a, i, hi + 1) == v;
    }
    forall i {:trigger Sum(a, i, hi + 1)} | 0 <= i < hi + 1
      ensures Sum(a, i, hi + 1) <= v
    {
      assert Sum(a, i, hi + 1) == Sum(a, i, hi) + a[hi];
    }
  }

  lemma NextStart(a: seq<int>, lo: nat, last: int)
    requires lo < |a| && (lo + 1 < |a| ==> IsBestStart(a, lo + 1, last)) && (lo + 1 == |a| ==> last == 0)
    ensures IsBestStart(a, lo, if last > 0 then last + a[lo] else a[lo])
  {
    var v := if last > 0 then last + a[lo] else a[lo];
    assert Sum(a, lo, lo + 1) == a[lo];
    if last > 0 {
      var j :| lo + 1 < j <= |a| && Sum(a, lo + 1, j) == last;
      SumFront(a, lo, j);
      assert Sum(a, lo, j) == v;
    }
    forall j | lo < j <= |a|
      ensures Sum(a, lo, j) <= v
    {
      SumFront(a, lo, j);
    }
  }

  lemma NextBestBefore(a: seq<int>, hi: nat, mv: int, end: int)
    requires hi < |a| && IsBestEnd(a, hi + 1, end)
    requires if hi == 0 then mv == a[0] else IsBest(a, 0, hi, mv)
    ensures IsBest(a, 0, hi + 1, Max(mv, end))
  {
    assert Sum(a, 0, 1) == a[0];
    var x, y :| 0 <= x < y <= hi + 1 && Sum(a, x, y) == Max(mv, end);
  }

  lemma NextBestAfter(a: seq<int>, lo: nat, mv: int, start: int)
    requires lo < |a| && IsBestStart(a, lo, start)
    requires if lo + 1 == |a| then mv == a[lo] else IsBest(a, lo + 1, |a|, mv)
    ensures IsBest(a, lo, |a|, Max(mv, start))
  {
    assert Sum(a, lo, lo + 1) == a[lo];
    var x, y :| lo <= x < y <= |a| && Sum(a, x, y) == Max(mv, start);
  }

  // The best over all cuts is the best of all.
  ghost predicate IsCut(forward: seq<int>, backward: seq<int>, c: nat, v: int) {
    0 < c < |forward| && c < |backward| && v == forward[c - 1] + backward[c]
  }

  lemma BestOverCuts(a: seq<int>, forward: seq<int>, backward: seq<int>, v: int)
    requires |a| >= 2 && |forward| == |backward| == |a|
    requires forall x :: 0 <= x < |a| ==> IsBest(a, 0, x + 1, forward[x])
    requires forall x :: 0 <= x < |a| ==> IsBest(a, x, |a|, backward[x])
    requires exists c: nat :: IsCut(forward, backward, c, v)
    requires forall c :: 0 < c < |a| ==> forward[c - 1] + backward[c] <= v
    ensures IsBestPair(a, v)
  {
    var c: nat :| IsCut(forward, backward, c, v);
    assert IsBest(a, 0, c - 1 + 1, forward[c - 1]) && IsBest(a, c, |a|, backward[c]);
    var i, j :| 0 <= i < j <= c && Sum(a, i, j) == forward[c - 1];
    var k, l :| c <= k < l <= |a| && Sum(a, k, l) == backward[c];
    assert Sum(a, i, j) + Sum(a, k, l) == v;
    forall i, j, k, l | 0 <= i < j <= k < l <= |a|
      ensures Sum(a, i, j) + Sum(a, k, l) <= v
    {
      assert IsBest(a, 0, j - 1 + 1, forward[j - 1]) && IsBest(a, j, |a|, backward[j]);
    }
  }

  lemma TwoNumbers(a: seq<int>)
    requires |a| == 2
    ensures IsBestPair(a, a[0] + a[1])
  {
    assert Sum(a, 0, 1) == a[0] && Sum(a, 1, 2) == a[1];
    assert Sum(a, 0, 1) + Sum(a, 1, 2) == a[0] + a[1];
  }

  // maxTwoSubArrays (lintcode/array.md:85-117): no numbers give 0 and a single
  // one itself.
  method MaxTwoSubArrays(nums: seq<int>) returns (rst: int)
    ensures |nums| == 0 ==> rst == 0
    ensures |nums| == 1 ==> rst == nums[0]
    ensures |nums| >= 2 ==> IsBestPair(nums, rst)
  {
    if |nums| == 0 {
      return 0;
    } else if |nums| == 1 {
      return nums[0];
    } else if |nums| == 2 {
      TwoNumbers(nums);
      return nums[0] + nums[1];
    }
    var forward := Forward(nums);
    var backward := Backward(nums);
    rst := BestCut(forward, backward);
    BestOverCuts(nums, forward[..], backward[..], rst);
  }

  // The last loop (lintcode/array.md:111-114)
  method BestCut(forward: array<int>, backward: array<int>) returns (rst: int)
    requires forward.Length == backward.Length >= 2
    ensures exists c: nat :: IsCut(forward[..], backward[..], c, rst)
    ensures forall c :: 0 < c < forward.Length ==> forward[c - 1] + backward[c] <= rst
  {
    rst := forward[0] + backward[1];
    ghost var best := 1;
    for i := 1 to forward.Length - 1
      invariant IsCut(forward[..], backward[..], best, rst)
      invariant forall c :: 0 < c <= i ==> forward[c - 1] + backward[c] <= rst
    {
      if rst < forward[i] + backward[i + 1] {
        best := i + 1;
      }
      rst := Max(rst, forward[i] + backward[i + 1]);
    }
  }

  // The first loop (lintcode/array.md:93-100)
  method Forward(nums: seq<int>) returns (forward: array<int>)
    requires |nums| > 0
    ensures fresh(forward) && forward.Length == |nums|
    ensures forall x :: 0 <= x < |nums| ==> IsBest(nums, 0, x + 1, forward[x])
  {
    forward := new int[|nums|](_ => 0);
    var mv, last := nums[0], 0;
    for i := 0 to |nums|
      invariant forall x :: 0 <= x < i ==> IsBest(nums, 0, x + 1, forward[x])
      invariant if i == 0 then last == 0 && mv == nums[0] else IsBestEnd(nums, i, last) && IsBest(nums, 0, i, mv)
    {
      NextEnd(nums, i, last);
      if last > 0 {
        last := last + nums[i];
      } else {
        last := nums[i];
      }
      NextBestBefore(nums, i, mv, last);
      mv := Max(mv, last);
      forward[i] := mv;
    }
  }

  // The second loop (lintcode/array.md:102-109)
  method Backward(nums: seq<int>) returns (backward: array<int>)
    requires |nums| > 0
    ensures fresh(backward) && backward.Length == |nums|
    ensures forall x :: 0 <= x < |nums| ==> IsBest(nums, x, |nums|, backward[x])
  {
    var n := |nums|;
    backward := new int[n](_ => 0);
    var mv, last := nums[n - 1], 0;
    for i := n downto 0
      invariant forall x :: i <= x < n ==> IsBest(nums, x, n, backward[x])
      invariant if i == n then last == 0 && mv == nums[n - 1]
                else IsBestStart(nums, i, last) && IsBest(nums, i, n, mv)
    {
      NextStart(nums, i, last);
      if last > 0 {
        last := last + nums[i];
      } else {
        last := nums[i];
      }
      NextBestAfter(nums, i, mv, last);
      mv := Max(mv, last);
      backward[i] := mv;
    }
  }
}
