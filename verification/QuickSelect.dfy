// kthLargestElement, median and their partition (lintcode/array.md:1-26 and
// 224-257): selection by a partition that moves a hole.
module QuickSelect {
  import opened MachineInts
  import opened Sorting

  // s is s0 rearranged, but for a hole at l where pivot belongs.
  ghost predicate Holed(s0: seq<int>, s: seq<int>, l: int, pivot: int) {
    0 <= l < |s| == |s0| && multiset(s[l := pivot]) == multiset(s0)
  }

  lemma HoleMoves(s0: seq<int>, s: seq<int>, l: int, r: int, pivot: int)
    requires Holed(s0, s, l, pivot) && 0 <= r < |s|
    ensures Holed(s0, s[l := s[r]], r, pivot)
  {
  }

  // The first inner loop of partition and the move after it (lintcode/array.md:19-20)
  method FillFromRight(nums: array<int>, l: int, r: int, pivot: int, ghost s0: seq<int>) returns (r': int)
    requires 0 <= l <= r < nums.Length && Holed(s0, nums[..], l, pivot)
    modifies nums
    ensures l <= r' <= r && Holed(s0, nums[..], r', pivot)
    ensures forall k :: 0 <= k < nums.Length && k != l ==> nums[k] == old(nums[k])
    ensures forall k :: r' < k <= r ==> nums[k] >= pivot
    ensures r' == l || nums[l] < pivot
  {
    r' := r;
    while l < r' && nums[r'] >= pivot
      invariant l <= r' <= r && forall k :: r' < k <= r ==> nums[k] >= pivot
    {
      r' := r' - 1;
    }
    HoleMoves(s0, nums[..], l, r', pivot);
    nums[l] := nums[r'];
  }

  // The second one (lintcode/array.md:21-22)
  method FillFromLeft(nums: array<int>, l: int, r: int, pivot: int, ghost s0: seq<int>) returns (l': int)
    requires 0 <= l <= r < nums.Length && Holed(s0, nums[..], r, pivot)
    modifies nums
    ensures l <= l' <= r && Holed(s0, nums[..], l', pivot)
    ensures forall k :: 0 <= k < nums.Length && k != r ==> nums[k] == old(nums[k])
    ensures forall k :: l <= k < l' ==> nums[k] <= pivot
    ensures l' == r || nums[r] > pivot
    ensures l < r && old(nums[l]) <= pivot ==> l < l'
  {
    l' := l;
    while l' < r && nums[l'] <= pivot
      invariant l <= l' <= r && forall k :: l <= k < l' ==> nums[k] <= pivot
    {
      l' := l' + 1;
    }
    HoleMoves(s0, nums[..], r, l', pivot);
    nums[r] := nums[l'];
  }

  // partition (lintcode/array.md:16-26): the pivot ends up between what is not
  // above it and what is not below it.
  method Partition(nums: array<int>, lo: int, hi: int) returns (p: int)
    requires 0 <= lo <= hi < nums.Length
    modifies nums
    ensures lo <= p <= hi
    ensures multiset(nums[..]) == multiset(old(nums[..]))
    ensures forall k :: 0 <= k < lo || hi < k < nums.Length ==> nums[k] == old(nums[k])
    ensures forall k :: lo <= k <= p ==> nums[k] <= nums[p]
    ensures forall k :: p <= k <= hi ==> nums[k] >= nums[p]
  {
    ghost var s0 := nums[..];
    var l, r := lo, hi;
    var pivot := nums[l];
    assert s0[l := pivot] == s0;
    while l < r
      invariant lo <= l <= r <= hi && Holed(s0, nums[..], l, pivot)
      invariant forall k :: 0 <= k < lo || hi < k < nums.Length ==> nums[k] == s0[k]
      invariant forall k :: lo <= k < l ==> nums[k] <= pivot
      invariant forall k :: r < k <= hi ==> nums[k] >= pivot
    {
      r := FillFromRight(nums, l, r, pivot, s0);
      l := FillFromLeft(nums, l, r, pivot, s0);
    }
    nums[l] := pivot;
    return l;
  }

  // What separates the smaller from the larger has its place in the sorted order.
  lemma SplitRank(s: seq<int>, p: nat)
    requires p < |s|
    requires forall k :: 0 <= k < p ==> s[k] <= s[p]
    requires forall k :: p <= k < |s| ==> s[k] >= s[p]
    ensures HasRank(s, p + 1, s[p])
  {
    assert s == s[..p + 1] + s[p + 1..] && s == s[..p] + s[p..];
    CountConcat(s[..p + 1], s[p + 1..], s[p], true);
    CountConcat(s[..p], s[p..], s[p], false);
    CountAll(s[..p + 1], s[p], true);
    CountNone(s[p..], s[p], false);
  }

  lemma SplitIsSortedPlace(s: seq<int>, s0: seq<int>, p: nat)
    requires p < |s| && multiset(s) == multiset(s0)
    requires forall k :: 0 <= k < p ==> s[k] <= s[p]
    requires forall k :: p <= k < |s| ==> s[k] >= s[p]
    ensures p < |s0| && s[p] == Sort(s0)[p]
  {
    SplitRank(s, p);
    CountPermutation(s, s0, s[p], false);
    CountPermutation(s, s0, s[p], true);
    RankIsSortedPlace(s0, p + 1, s[p]);
  }

  // The window l..r holds what belongs there in the sorted order.
  ghost predicate Window(s: seq<int>, l: int, r: int) {
    && 0 <= l <= r + 1 <= |s|
    && (forall a, b :: 0 <= a < l <= b < |s| ==> s[a] <= s[b])
    && (forall a, b :: 0 <= a <= r < b < |s| ==> s[a] <= s[b])
  }

  // A partition of the window splits everything.
  lemma PartitionSplits(s: seq<int>, t: seq<int>, l: int, r: int, p: int)
    requires Window(s, l, r) && l <= p <= r && |t| == |s| && multiset(t) == multiset(s)
    requires forall k :: 0 <= k < l || r < k < |s| ==> t[k] == s[k]
    requires forall k :: l <= k <= p ==> t[k] <= t[p]
    requires forall k :: p <= k <= r ==> t[k] >= t[p]
    ensures forall k :: 0 <= k < p ==> t[k] <= t[p]
    ensures forall k :: p <= k < |t| ==> t[k] >= t[p]
    ensures Window(t, p + 1, r) && Window(t, l, p - 1)
  {
    InWindow(s, t, l, r);
  }

  // What is in the window after it was rearranged was in it before.
  lemma InWindow(s: seq<int>, t: seq<int>, l: int, r: int)
    requires 0 <= l <= r + 1 <= |s| == |t| && multiset(t) == multiset(s)
    requires forall k :: 0 <= k < l || r < k < |s| ==> t[k] == s[k]
    ensures forall k :: l <= k <= r ==> t[k] in s[l..r + 1]
  {
    var a, b, c := s[..l], s[l..r + 1], s[r + 1..];
    var d := t[l..r + 1];
    assert s == a + b + c;
    assert t == a + d + c;
    forall x
      ensures multiset(b)[x] == multiset(d)[x]
    {
      assert multiset(s)[x] == multiset(a)[x] + multiset(b)[x] + multiset(c)[x];
      assert multiset(t)[x] == multiset(a)[x] + multiset(d)[x] + multiset(c)[x];
    }
    forall k | l <= k <= r
      ensures t[k] in s[l..r + 1]
    {
      assert d[k - l] == t[k];
      assert t[k] in multiset(d);
    }
  }

  // The loop of kthLargestElement and of median (lintcode/array.md:9-14, 236-241)
  method Select(nums: array<int>, idx: int) returns (v: int)
    requires 0 <= idx < nums.Length
    modifies nums
    ensures multiset(nums[..]) == multiset(old(nums[..]))
    ensures v == Sort(old(nums[..]))[idx]
  {
    var l, r := 0, nums.Length - 1;
    while true
      invariant 0 <= l <= idx <= r < nums.Length
      invariant multiset(nums[..]) == multiset(old(nums[..]))
      invariant Window(nums[..], l, r)
      decreases r - l
    {
      ghost var s := nums[..];
      var p := Partition(nums, l, r);
      PartitionSplits(s, nums[..], l, r, p);
      if p == idx {
        SplitIsSortedPlace(nums[..], old(nums[..]), p);
        return nums[p];
      } else if p < idx {
        l := p + 1;
      } else {
        r := p - 1;
      }
    }
  }

  // kthLargestElement (lintcode/array.md:5-15)
  method KthLargestElement(n: int, nums: array<int>) returns (v: int)
    requires -0x8000_0000 <= n < 0x8000_0000 && nums.Length < 0x8000_0000
    requires n == 0 ==> nums.Length == 0
    modifies nums
    ensures multiset(nums[..]) == multiset(old(nums[..]))
    ensures v == if 1 <= n <= nums.Length then Sort(old(nums[..]))[nums.Length - n] else -1
  {
    if nums.Length == 0 || ToSize(n) > nums.Length {
      return -1;
    }
    var idx := nums.Length - n;
    v := Select(nums, idx);
  }

  // median (lintcode/array.md:228-244): the lower of the two middle elements
  method Median(nums: array<int>) returns (v: int)
    requires nums.Length > 0
    modifies nums
    ensures multiset(nums[..]) == multiset(old(nums[..]))
    ensures v == Sort(old(nums[..]))[(nums.Length - 1) / 2]
  {
    var m := if nums.Length % 2 == 1 then nums.Length / 2 else nums.Length / 2 - 1;
    v := Select(nums, m);
  }
}
