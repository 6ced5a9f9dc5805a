// lintcode/dynamic_planning.md: longest increasing and longest common
// subsequences, and the number of ways to pick one string from another. A
// subsequence is what is picked at places that go from left to right.
module Subsequences {
  import opened MinMax
  import opened Sequences

  // The places of p are below n and go from left to right.
  predicate Picks(p: seq<nat>, n: nat)
    decreases |p|
  {
    p != [] ==> Last(p) < n && Picks(Init(p), Last(p))
  }

  // What s holds at the places p.
  function Pick<X>(s: seq<X>, p: seq<nat>): (u: seq<X>)
    requires Picks(p, |s|)
    ensures |u| == |p|
    decreases |p|
  {
    if p == [] then [] else Pick(s[..Last(p)], Init(p)) + [s[Last(p)]]
  }

  lemma {:induction false} PicksByIndex(p: seq<nat>, n: nat)
    ensures Picks(p, n) <==>
            (forall i :: 0 <= i < |p| ==> p[i] < n) && forall i, j :: 0 <= i < j < |p| ==> p[i] < p[j]
    decreases |p|
  {
    if p != [] {
      var q := Init(p);
      PicksByIndex(q, Last(p));
      assert forall i :: 0 <= i < |q| ==> q[i] == p[i];
    }
  }

  lemma {:induction false} PickByIndex<X>(s: seq<X>, p: seq<nat>)
    requires Picks(p, |s|)
    ensures forall i :: 0 <= i < |p| ==> p[i] < |s| && Pick(s, p)[i] == s[p[i]]
    decreases |p|
  {
    if p != [] {
      var q := Init(p);
      PickByIndex(s[..Last(p)], q);
      assert forall i :: 0 <= i < |q| ==> q[i] == p[i];
    }
  }

  // What comes after the last place does not matter.
  lemma PickBefore<X>(s: seq<X>, n: nat, p: seq<nat>)
    requires n <= |s| && Picks(p, |s|) && (p != [] ==> Last(p) < n)
    ensures Picks(p, n) && Pick(s[..n], p) == Pick(s, p)
  {
    if p != [] {
      assert s[..n][..Last(p)] == s[..Last(p)];
    }
  }

  lemma PicksFurther(p: seq<nat>, n: nat, m: nat)
    requires Picks(p, n) && n <= m
    ensures Picks(p, m)
  {
  }

  lemma PickNext<X>(s: seq<X>, p: seq<nat>, i: nat)
    requires i < |s| && Picks(p, i)
    ensures Picks(p + [i], |s|) && Pick(s, p + [i]) == Pick(s[..i], p) + [s[i]]
  {
  }

  // u can be picked from s.
  ghost predicate Within<X>(u: seq<X>, s: seq<X>) {
    exists p :: Picks(p, |s|) && Pick(s, p) == u
  }

  lemma WithinInit<X>(u: seq<X>, s: seq<X>)
    requires s != [] && Within(u, Init(s))
    ensures Within(u, s)
  {
    var p :| Picks(p, |Init(s)|) && Pick(Init(s), p) == u;
    PicksFurther(p, |s| - 1, |s|);
    PickBefore(s, |s| - 1, p);
  }

  lemma WithinBoth<X>(u: seq<X>, s: seq<X>)
    requires s != [] && Within(u, Init(s))
    ensures Within(u + [Last(s)], s)
  {
    var p :| Picks(p, |Init(s)|) && Pick(Init(s), p) == u;
    PickNext(s, p, |s| - 1);
  }

  // What is picked from s either leaves its last element out or ends with it.
  lemma WithinLast<X>(u: seq<X>, s: seq<X>)
    requires s != [] && Within(u, s)
    ensures Within(u, Init(s)) || (u != [] && Last(u) == Last(s) && Within(Init(u), Init(s)))
  {
    var p :| Picks(p, |s|) && Pick(s, p) == u;
    if p == [] || Last(p) < |s| - 1 {
      PickBefore(s, |s| - 1, p);
    } else {
      assert Init(u) == Pick(Init(s), Init(p));
    }
  }

  // The recurrence of longestCommonSubsequence.
  function Lcs<X(==)>(s: seq<X>, t: seq<X>): nat
    decreases |s| + |t|
  {
    if s == [] || t == [] then 0
    else
      var longer := Max(Lcs(Init(s), t), Lcs(s, Init(t)));
      if Last(s) == Last(t) then Max(longer, Lcs(Init(s), Init(t)) + 1) else longer
  }

  ghost predicate IsCommon<X>(u: seq<X>, s: seq<X>, t: seq<X>) {
    Within(u, s) && Within(u, t)
  }

  ghost predicate IsLongestCommon<X(!new)>(d: int, s: seq<X>, t: seq<X>) {
    && (exists u :: IsCommon(u, s, t) && |u| == d)
    && (forall u :: IsCommon(u, s, t) ==> |u| <= d)
  }

  lemma EmptyWithin<X>(s: seq<X>)
    ensures Within([], s)
  {
    assert Picks([], |s|) && Pick(s, []) == [];
  }

  lemma {:induction false} NoLongerCommon<X>(u: seq<X>, s: seq<X>, t: seq<X>)
    requires IsCommon(u, s, t)
    ensures |u| <= Lcs(s, t)
    decreases |s| + |t|
  {
    if s == [] || t == [] {
    } else {
      WithinLast(u, s);
      WithinLast(u, t);
      if Within(u, Init(s)) {
        NoLongerCommon(u, Init(s), t);
      } else if Within(u, Init(t)) {
        NoLongerCommon(u, s, Init(t));
      } else {
        NoLongerCommon(Init(u), Init(s), Init(t));
      }
    }
  }

  lemma {:induction false} LongestCommon<X>(s: seq<X>, t: seq<X>) returns (u: seq<X>)
    ensures IsCommon(u, s, t) && |u| == Lcs(s, t)
    decreases |s| + |t|
  {
    if s == [] || t == [] {
      u := [];
      EmptyWithin(s);
      EmptyWithin(t);
    } else if Lcs(s, t) == Lcs(Init(s), t) {
      u := LongestCommon(Init(s), t);
      WithinInit(u, s);
    } else if Lcs(s, t) == Lcs(s, Init(t)) {
      u := LongestCommon(s, Init(t));
      WithinInit(u, t);
    } else {
      var v := LongestCommon(Init(s), Init(t));
      u := v + [Last(s)];
      WithinBoth(v, s);
      WithinBoth(v, t);
    }
  }

  lemma LcsIsLongest<X(!new)>(s: seq<X>, t: seq<X>)
    ensures IsLongestCommon(Lcs(s, t), s, t)
  {
    var v := LongestCommon(s, t);
    forall u | IsCommon(u, s, t)
      ensures |u| <= Lcs(s, t)
    {
      NoLongerCommon(u, s, t);
    }
  }

  // longestCommonSubsequence (lintcode/dynamic_planning.md:36-52)
  method LongestCommonSubsequence(a: string, b: string) returns (d: int)
    ensures IsLongestCommon(d, a, b)
  {
    LcsIsLongest(a, b);
    if a == [] || b == [] {
      return 0;
    }
    var m, n := |a|, |b|;
    var dp := new int[m + 1, n + 1]((_, _) => 0);
    for i := 1 to m + 1
      invariant forall x, y :: 0 <= x <= m && 0 <= y <= n ==>
                  dp[x, y] == if x < i then Lcs(a[..x], b[..y]) else 0
    {
      for j := 1 to n + 1
        invariant forall x, y :: 0 <= x <= m && 0 <= y <= n ==>
                    dp[x, y] == if x < i || (x == i && y < j) then Lcs(a[..x], b[..y]) else 0
      {
        Prefixes(a, i);
        Prefixes(b, j);
        dp[i, j] := Max(dp[i - 1, j], dp[i, j - 1]);
        if a[i - 1] == b[j - 1] {
          dp[i, j] := Max(dp[i, j], dp[i - 1, j - 1] + 1);
        }
      }
    }
    assert a[..m] == a && b[..n] == b;
    d := dp[m, n];
  }

  // The recurrence of numDistinct.
  function Count<X(==)>(t: seq<X>, s: seq<X>): nat
    decreases |s|
  {
    if t == [] then 1
    else if s == [] then 0
    else Count(t, Init(s)) + if Last(t) == Last(s) then Count(Init(t), Init(s)) else 0
  }

  ghost function Extended(ps: set<seq<nat>>, x: nat): set<seq<nat>> {
    set p | p in ps :: p + [x]
  }

  // The ways to pick t from s.
  ghost function Ways<X>(t: seq<X>, s: seq<X>): set<seq<nat>>
    decreases |s|
  {
    if t == [] then {[]}
    else if s == [] then {}
    else Ways(t, Init(s)) + Extended(if Last(t) == Last(s) then Ways(Init(t), Init(s)) else {}, |s| - 1)
  }

  // They are all the places at which s holds t.
  lemma {:induction false} WaysAreAll<X>(t: seq<X>, s: seq<X>, p: seq<nat>)
    ensures p in Ways(t, s) <==> Picks(p, |s|) && Pick(s, p) == t
    decreases |s|
  {
    if t != [] && s != [] {
      var n := |s| - 1;
      WaysAreAll(t, Init(s), p);
      if p != [] && Last(p) == n {
        WaysAreAll(Init(t), Init(s), Init(p));
        assert Init(p) + [n] == p;
        assert forall q: seq<nat> :: q + [n] == p ==> Init(q + [n]) == q;
      } else if Picks(p, |s|) {
        PickBefore(s, n, p);
        assert p !in Extended(Ways(Init(t), Init(s)), n);
      }
    }
  }

  lemma {:induction false} ExtendedSize(ps: set<seq<nat>>, x: nat)
    ensures |Extended(ps, x)| == |ps|
    decreases |ps|
  {
    if p :| p in ps {
      var rest := ps - {p};
      ExtendedSize(rest, x);
      assert Extended(ps, x) == Extended(rest, x) + {p + [x]};
      assert Init(p + [x]) == p;
      forall q | q in rest
        ensures q + [x] != p + [x]
      {
        assert Init(q + [x]) == q;
      }
    } else {
      assert Extended(ps, x) == {};
    }
  }

  // So the recurrence counts them.
  lemma {:induction false} CountIsNumber<X>(t: seq<X>, s: seq<X>)
    ensures |Ways(t, s)| == Count(t, s)
    decreases |s|
  {
    if t != [] && s != [] {
      var n := |s| - 1;
      var short := Ways(t, Init(s));
      var long := Extended(if Last(t) == Last(s) then Ways(Init(t), Init(s)) else {}, n);
      CountIsNumber(t, Init(s));
      CountIsNumber(Init(t), Init(s));
      ExtendedSize(if Last(t) == Last(s) then Ways(Init(t), Init(s)) else {}, n);
      forall p | p in long
        ensures p !in short
      {
        WaysAreAll(t, Init(s), p);
      }
      assert short !! long;
      assert Ways(t, s) == short + long;
    }
  }

  lemma {:induction false} TooShort<X>(t: seq<X>, s: seq<X>)
    requires |t| > |s|
    ensures Count(t, s) == 0
    decreases |s|
  {
    if s != [] {
      TooShort(t, Init(s));
      TooShort(Init(t), Init(s));
    }
  }

  // numDistinct (lintcode/dynamic_planning.md:91-110)
  method NumDistinct(s: string, t: string) returns (d: int)
    ensures d == |Ways(t, s)|
  {
    CountIsNumber(t, s);
    if t == [] {
      return 1;
    }
    var m, n := |t|, |s|;
    var dp := new int[m + 1, n + 1]((_, _) => 0);
    for j := 0 to n + 1
      invariant forall x, y :: 0 <= x <= m && 0 <= y <= n ==> dp[x, y] == if x == 0 && y < j then 1 else 0
    {
      dp[0, j] := 1;
    }
    for i := 1 to m + 1
      invariant forall x, y :: 0 <= x <= m && 0 <= y <= n ==>
                  dp[x, y] == if x < i then Count(t[..x], s[..y]) else 0
    {
      CountRow(s, t, dp, i);
    }
    assert t[..m] == t && s[..n] == s;
    d := dp[m, n];
  }

  // The inner loop (lintcode/dynamic_planning.md:101-106)
  method CountRow(s: string, t: string, dp: array2<int>, i: nat)
    requires 1 <= i <= |t| && dp.Length0 == |t| + 1 && dp.Length1 == |s| + 1
    requires forall x, y :: 0 <= x <= |t| && 0 <= y <= |s| ==>
               dp[x, y] == if x < i then Count(t[..x], s[..y]) else 0
    modifies dp
    ensures forall x, y :: 0 <= x <= |t| && 0 <= y <= |s| ==>
              dp[x, y] == if x < i + 1 then Count(t[..x], s[..y]) else 0
  {
    forall y | 0 <= y <= |s| && y < i
      ensures Count(t[..i], s[..y]) == 0
    {
      TooShort(t[..i], s[..y]);
    }
    var j := i;
    while j <= |s|
      invariant i <= j && (j <= |s| + 1 || j == i)
      invariant forall x, y :: 0 <= x <= |t| && 0 <= y <= |s| ==>
                  dp[x, y] == if x < i || (x == i && y < j) then Count(t[..x], s[..y]) else 0
    {
      Prefixes(t, i);
      Prefixes(s, j);
      dp[i, j] := dp[i, j - 1];
      if t[i - 1] == s[j - 1] {
        dp[i, j] := dp[i, j] + dp[i - 1, j - 1];
      }
      j := j + 1;
    }
  }

  // The values of nums at the places p rise.
  predicate Climbs(nums: seq<int>, p: seq<nat>)
    requires Picks(p, |nums|)
    decreases |p|
  {
    if |p| < 2 then true
    else
      PicksFurther(Init(p), Last(p), |nums|);
      nums[Last(Init(p))] < nums[Last(p)] && Climbs(nums, Init(p))
  }

  // The places of a rising subsequence.
  ghost predicate IsRising(nums: seq<int>, p: seq<nat>) {
    Picks(p, |nums|) && Climbs(nums, p)
  }

  lemma RisingByIndex(nums: seq<int>, p: seq<nat>)
    ensures IsRising(nums, p) <==>
            && (forall i :: 0 <= i < |p| ==> p[i] < |nums|)
            && forall i, j :: 0 <= i < j < |p| ==> p[i] < p[j] && nums[p[i]] < nums[p[j]]
  {
    PicksByIndex(p, |nums|);
    if Picks(p, |nums|) {
      ClimbsByIndex(nums, p);
    }
  }

  lemma {:induction false} ClimbsByIndex(nums: seq<int>, p: seq<nat>)
    requires Picks(p, |nums|) && forall i :: 0 <= i < |p| ==> p[i] < |nums|
    ensures Climbs(nums, p) <==> forall i, j :: 0 <= i < j < |p| ==> nums[p[i]] < nums[p[j]]
    decreases |p|
  {
    if |p| >= 2 {
      var q := Init(p);
      PicksFurther(q, Last(p), |nums|);
      ClimbsByIndex(nums, q);
      assert forall i :: 0 <= i < |q| ==> q[i] == p[i];
      assert q[|q| - 1] == p[|p| - 2];
    }
  }

  ghost predicate IsLongestRising(d: int, nums: seq<int>) {
    && (exists p :: IsRising(nums, p) && |p| == d)
    && (forall p :: IsRising(nums, p) ==> |p| <= d)
  }

  // The longest that ends at i and has its last place but one before j.
  function Ending(nums: seq<int>, i: nat, j: nat): (d: nat)
    requires j <= i < |nums|
    ensures d >= 1
    decreases i, j
  {
    if j == 0 then 1
    else
      var d := Ending(nums, i, j - 1);
      if nums[j - 1] < nums[i] then Max(d, Ending(nums, j - 1, j - 1) + 1) else d
  }

  lemma {:induction false} NoLongerRising(nums: seq<int>, p: seq<nat>, i: nat, j: nat)
    requires j <= i < |nums| && IsRising(nums, p) && p != [] && Last(p) == i
    requires |p| >= 2 ==> Last(Init(p)) < j
    ensures |p| <= Ending(nums, i, j)
    decreases i, j
  {
    if |p| >= 2 {
      PicksFurther(Init(p), i, |nums|);
      if Last(Init(p)) == j - 1 {
        NoLongerRising(nums, Init(p), j - 1, j - 1);
      } else {
        NoLongerRising(nums, p, i, j - 1);
      }
    }
  }

  lemma {:induction false} LongestRising(nums: seq<int>, i: nat, j: nat) returns (p: seq<nat>)
    requires j <= i < |nums|
    ensures IsRising(nums, p) && p != [] && Last(p) == i && |p| == Ending(nums, i, j)
    decreases i, j
  {
    if j == 0 {
      p := [i];
    } else if Ending(nums, i, j) == Ending(nums, i, j - 1) {
      p := LongestRising(nums, i, j - 1);
    } else {
      var q := LongestRising(nums, j - 1, j - 1);
      p := q + [i];
      assert Init(p) == q;
    }
  }

  // A length that is reached, and that no end exceeds, is the longest.
  lemma LongestOverall(nums: seq<int>, d: nat, i: nat, j: nat)
    requires j <= i < |nums| && d == Ending(nums, i, j)
    requires forall x :: 0 <= x < |nums| ==> Ending(nums, x, x) <= d
    ensures IsLongestRising(d, nums)
  {
    var q := LongestRising(nums, i, j);
    forall p | IsRising(nums, p)
      ensures |p| <= d
    {
      if p != [] {
        assert Picks(Init(p), Last(p));
        NoLongerRising(nums, p, Last(p), Last(p));
      }
    }
  }

  // The empty sequence has only the empty subsequence, but a single number is
  // a rising subsequence of one.
  lemma ShortInputs(nums: seq<int>)
    requires |nums| <= 1
    ensures IsLongestRising(|nums|, nums) && (|nums| == 1 ==> !IsLongestRising(0, nums))
  {
    if |nums| == 0 {
      assert IsRising(nums, []);
    } else {
      LongestOverall(nums, 1, 0, 0);
    }
  }

  // longestIncreasingSubsequence (lintcode/dynamic_planning.md:14-27): right
  // except on a single number, for which the loops never set the result.
  method LongestIncreasingSubsequence(nums: seq<int>) returns (rst: int)
    ensures IsLongestRising(rst, nums) <==> |nums| != 1
    ensures |nums| == 1 ==> rst == 0
  {
    if |nums| <= 1 {
      ShortInputs(nums);
    }
    if nums == [] {
      return 0;
    }
    rst := 0;
    var dp := new int[|nums|](_ => 1);
    ghost var x: nat, y: nat := 0, 0;
    for i := 1 to |nums|
      invariant forall k :: 0 <= k < |nums| ==> dp[k] == if k < i then Ending(nums, k, k) else 1
      invariant if i == 1 then rst == 0 else y <= x < |nums| && rst == Ending(nums, x, y)
      invariant i > 1 ==> forall k :: 0 <= k < i ==> Ending(nums, k, k) <= rst
    {
      rst, x, y := EndAt(nums, dp, i, rst, x, y);
    }
    if |nums| > 1 {
      LongestOverall(nums, rst, x, y);
    }
  }

  // The inner loop (lintcode/dynamic_planning.md:20-23): rst is what ends at x
  // with its last place but one before y.
  method EndAt(nums: seq<int>, dp: array<int>, i: nat, rst0: int, ghost x0: nat, ghost y0: nat)
    returns (rst: int, ghost x: nat, ghost y: nat)
    requires dp.Length == |nums| && 1 <= i < |nums| && dp[i] == 1
    requires forall k :: 0 <= k < i ==> dp[k] == Ending(nums, k, k)
    requires if i == 1 then rst0 == 0 else y0 <= x0 < |nums| && rst0 == Ending(nums, x0, y0)
    modifies dp
    ensures forall k :: 0 <= k < |nums| && k != i ==> dp[k] == old(dp[k])
    ensures dp[i] == Ending(nums, i, i) <= rst && Ending(nums, 0, 0) <= rst && rst0 <= rst
    ensures y <= x < |nums| && rst == Ending(nums, x, y)
  {
    rst, x, y := rst0, x0, y0;
    for j := 0 to i
      invariant forall k :: 0 <= k < |nums| && k != i ==> dp[k] == old(dp[k])
      invariant dp[i] == Ending(nums, i, j)
      invariant if i == 1 && j == 0 then rst == 0 else y <= x < |nums| && rst == Ending(nums, x, y)
      invariant rst0 <= rst && (j > 0 ==> dp[i] <= rst)
    {
      if nums[j] < nums[i] {
        dp[i] := Max(dp[i], dp[j] + 1);
      }
      if rst < dp[i] {
        x, y := i, j + 1;
      }
      rst := Max(rst, dp[i]);
    }
  }
}
