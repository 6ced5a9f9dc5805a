// nextPermutation (lintcode/permutation_and_combination.md:10-45): the immediate
// successor of a sequence among its permutations, in lexicographic order.
module NextPermutation {
  import opened Sequences
  import opened Sorting

  // s and t first differ at d, and s is smaller there.
  ghost predicate LessAt(s: seq<int>, t: seq<int>, d: nat) {
    d < |s| == |t| && s[..d] == t[..d] && s[d] < t[d]
  }

  ghost predicate Less(s: seq<int>, t: seq<int>) {
    exists d: nat :: LessAt(s, t, d)
  }

  ghost predicate Permutation(s: seq<int>, t: seq<int>) {
    multiset(s) == multiset(t)
  }

  ghost predicate Descending(s: seq<int>) {
    forall i, j :: 0 <= i < j < |s| ==> s[i] >= s[j]
  }

  ghost predicate Greatest(s: seq<int>) {
    forall p :: Permutation(p, s) ==> !Less(s, p)
  }

  // r is the least permutation of s above s.
  ghost predicate Successor(s: seq<int>, r: seq<int>) {
    && Permutation(r, s) && Less(s, r)
    && forall p :: Permutation(p, s) && Less(s, p) ==> p == r || Less(r, p)
  }

  // Permutations that agree up to d are permutations from d on.
  lemma RestIsPermutation(p: seq<int>, s: seq<int>, d: nat)
    requires Permutation(p, s) && d <= |p| && d <= |s| && p[..d] == s[..d]
    ensures |p| == |s| && multiset(p[d..]) == multiset(s[d..])
  {
    var a, b, c := multiset(p[..d]), multiset(p[d..]), multiset(s[d..]);
    assert p == p[..d] + p[d..] && s == s[..d] + s[d..];
    assert a + b == a + c;
    assert b == a + b - a && c == a + c - a;
    assert |multiset(p)| == |p| && |multiset(s)| == |s|;
  }

  // So what p has at d is something s has at d or later.
  lemma Occurs(p: seq<int>, s: seq<int>, d: nat) returns (k: nat)
    requires Permutation(p, s) && d < |p| && d <= |s| && p[..d] == s[..d]
    ensures |p| == |s| && d <= k < |s| && s[k] == p[d]
  {
    RestIsPermutation(p, s, d);
    assert p[d] == p[d..][0];
    assert p[d] in multiset(p[d..]);
    assert p[d] in s[d..];
    var i :| 0 <= i < |s[d..]| && s[d..][i] == p[d];
    k := d + i;
  }

  // So no permutation rises above s where s descends to the end.
  lemma RisesBefore(s: seq<int>, p: seq<int>, d: nat, e: nat)
    requires Permutation(p, s) && LessAt(s, p, d) && e <= |s| && Descending(s[e..])
    ensures d < e
  {
    var k := Occurs(p, s, d);
    if e <= k {
      assert s[e..][k - e] == p[d];
    }
  }

  lemma DescendingIsGreatest(s: seq<int>)
    requires Descending(s)
    ensures Greatest(s)
  {
    forall p | Permutation(p, s)
      ensures !Less(s, p)
    {
      if Less(s, p) {
        var d: nat :| LessAt(s, p, d);
        assert s[0..] == s;
        RisesBefore(s, p, d, 0);
      }
    }
  }

  lemma FirstDifference(v: seq<int>, w: seq<int>, e: nat) returns (d: nat)
    requires |v| == |w| && e <= |v| && v[..e] == w[..e]
    ensures e <= d <= |v| && v[..d] == w[..d] && (d < |v| ==> v[d] != w[d])
    decreases |v| - e
  {
    if e == |v| || v[e] != w[e] {
      d := e;
    } else {
      d := FirstDifference(v, w, e + 1);
    }
  }

  // Among the arrangements that agree up to e, one that ascends from there on is least.
  lemma AscentIsLeast(v: seq<int>, w: seq<int>, e: nat)
    requires Permutation(w, v) && |w| == |v| && e <= |v| && v[..e] == w[..e] && Ascending(v[e..])
    ensures w == v || Less(v, w)
  {
    var d := FirstDifference(v, w, e);
    if d < |v| {
      var k := Occurs(w, v, d);
      Ordered(v[e..], d - e, k - e);
      assert LessAt(v, w, d);
    } else {
      assert v == v[..d] && w == w[..d];
    }
  }

  lemma {:induction false} ReversedPermutes(s: seq<int>)
    ensures multiset(Reversed(s)) == multiset(s)
  {
    if s != [] {
      var t := s[1..];
      ReversedPermutes(t);
      assert s == [s[0]] + t && Reversed(s) == Reversed(t) + [s[0]];
    }
  }

  ghost function ReversedBetween(s: seq<int>, begin: int, end: int): (r: seq<int>)
    requires 0 <= begin <= end + 1 <= |s|
    ensures |r| == |s|
  {
    s[..begin] + Reversed(s[begin..end + 1]) + s[end + 1..]
  }

  lemma ReversedAt(s: seq<int>, begin: int, end: int, k: int)
    requires 0 <= begin <= end + 1 <= |s| && 0 <= k < |s|
    ensures ReversedBetween(s, begin, end)[k] == if begin <= k <= end then s[begin + end - k] else s[k]
  {
  }

  // s rises at i for the last time, and j is the last place after i above s[i].
  ghost predicate Pivot(s: seq<int>, i: nat, j: nat) {
    && i < j < |s| && s[i] < s[j] && Descending(s[i + 1..])
    && forall k :: j < k < |s| ==> s[k] <= s[i]
  }

  // Exchange them and reverse what follows i.
  ghost function Next(s: seq<int>, i: nat, j: nat): seq<int>
    requires i < j < |s|
  {
    var t := s[i := s[j]][j := s[i]];
    ReversedBetween(t, i + 1, |t| - 1)
  }

  lemma ReversedBetweenPermutes(s: seq<int>, begin: int, end: int)
    requires 0 <= begin <= end + 1 <= |s|
    ensures Permutation(ReversedBetween(s, begin, end), s)
  {
    var a, b, c := s[..begin], s[begin..end + 1], s[end + 1..];
    ReversedPermutes(b);
    assert s == a + b + c;
    assert multiset(a + b + c) == multiset(a) + multiset(b) + multiset(c);
    assert multiset(a + Reversed(b) + c) == multiset(a) + multiset(Reversed(b)) + multiset(c);
  }

  lemma NextPermutes(s: seq<int>, i: nat, j: nat)
    requires i < j < |s|
    ensures Permutation(Next(s, i, j), s)
  {
    var t := s[i := s[j]][j := s[i]];
    StillPermutes(t, s, i + 1);
  }

  lemma StillPermutes(t: seq<int>, s: seq<int>, begin: nat)
    requires Permutation(t, s) && begin <= |t|
    ensures Permutation(ReversedBetween(t, begin, |t| - 1), s)
  {
    ReversedBetweenPermutes(t, begin, |t| - 1);
  }

  // What descends from begin on ascends there when reversed.
  lemma ReversedAscends(t: seq<int>, begin: nat)
    requires begin <= |t| && forall a, b :: begin <= a < b < |t| ==> t[a] >= t[b]
    ensures Ascending(ReversedBetween(t, begin, |t| - 1)[begin..])
  {
    var r := ReversedBetween(t, begin, |t| - 1);
    var u := r[begin..];
    forall a, b | 0 <= a < b < |u|
      ensures InOrder(u, a, b)
    {
      ReversedAt(t, begin, |t| - 1, begin + a);
      ReversedAt(t, begin, |t| - 1, begin + b);
    }
  }

  lemma NextAscends(s: seq<int>, i: nat, j: nat)
    requires Pivot(s, i, j)
    ensures Ascending(Next(s, i, j)[i + 1..])
  {
    var t := s[i := s[j]][j := s[i]];
    forall a, b | i + 1 <= a < b < |t|
      ensures t[a] >= t[b]
    {
      PivotDescends(s, i, j, a, b);
    }
    ReversedAscends(t, i + 1);
  }

  // After the exchange the rest still descends.
  lemma PivotDescends(s: seq<int>, i: nat, j: nat, a: nat, b: nat)
    requires Pivot(s, i, j) && i < a < b < |s|
    ensures var t := s[i := s[j]][j := s[i]]; t[a] >= t[b]
  {
  }

  lemma NextKeepsFront(s: seq<int>, i: nat, j: nat)
    requires i < j < |s|
    ensures Next(s, i, j)[..i] == s[..i] && Next(s, i, j)[i] == s[j]
  {
  }

  lemma AtLeastPivot(s: seq<int>, i: nat, j: nat, p: seq<int>)
    requires Pivot(s, i, j) && Permutation(p, s) && LessAt(s, p, i)
    ensures p[i] >= s[j]
  {
    var k := Occurs(p, s, i);
    assert s[i + 1..][k - i - 1] == s[k] && s[i + 1..][j - i - 1] == s[j];
  }

  // No permutation lies strictly between s and Next(s, i, j).
  lemma NextIsLeastAbove(s: seq<int>, i: nat, j: nat, p: seq<int>)
    requires Pivot(s, i, j) && Permutation(p, s) && Less(s, p)
    ensures p == Next(s, i, j) || Less(Next(s, i, j), p)
  {
    var r := Next(s, i, j);
    var d: nat :| LessAt(s, p, d);
    NextKeepsFront(s, i, j);
    RisesBefore(s, p, d, i + 1);
    if d < i {
      assert r[..d] == s[..d] && LessAt(r, p, d);
    } else {
      AtLeastPivot(s, i, j, p);
      assert r[..i] == s[..i] && r[i] == s[j];
      if p[i] > r[i] {
        assert LessAt(r, p, i);
      } else {
        NextPermutes(s, i, j);
        NextAscends(s, i, j);
        assert r[..i + 1] == r[..i] + [r[i]] && p[..i + 1] == p[..i] + [p[i]];
        AscentIsLeast(r, p, i + 1);
      }
    }
  }

  lemma NextIsSuccessor(s: seq<int>, i: nat, j: nat)
    requires Pivot(s, i, j)
    ensures Successor(s, Next(s, i, j))
  {
    NextPermutes(s, i, j);
    NextKeepsFront(s, i, j);
    assert LessAt(s, Next(s, i, j), i);
    forall p | Permutation(p, s) && Less(s, p)
      ensures p == Next(s, i, j) || Less(Next(s, i, j), p)
    {
      NextIsLeastAbove(s, i, j, p);
    }
  }

  // A successor is never the ascending arrangement, which has nothing below it.
  lemma SuccessorDoesNotAscend(s: seq<int>, r: seq<int>)
    requires Permutation(r, s) && Less(s, r)
    ensures !Ascending(r)
  {
    if Ascending(r) {
      var d: nat :| LessAt(s, r, d);
      assert r[0..] == r;
      AscentIsLeast(r, s, 0);
    }
  }

  // reverse (lintcode/permutation_and_combination.md:10-14)
  method Reverse(nums: array<int>, begin: int, end: int)
    requires 0 <= begin <= end + 1 <= nums.Length
    modifies nums
    ensures nums[..] == ReversedBetween(old(nums[..]), begin, end)
  {
    ghost var s := nums[..];
    var i, j := begin, end;
    while i < j
      invariant begin <= i <= j + 1 <= end + 1 && i + j == begin + end
      invariant forall k :: begin <= k < i ==> nums[k] == s[begin + end - k]
      invariant forall k :: j < k <= end ==> nums[k] == s[begin + end - k]
      invariant forall k :: 0 <= k < nums.Length && (k < begin || k > end || i <= k <= j) ==> nums[k] == s[k]
    {
      nums[i], nums[j] := nums[j], nums[i];
      i, j := i + 1, j - 1;
    }
    forall k | 0 <= k < nums.Length
      ensures nums[..][k] == ReversedBetween(s, begin, end)[k]
    {
      ReversedAt(s, begin, end, k);
    }
  }

  // What a call makes of s: the successor, or the ascending arrangement exactly
  // if there is none.
  ghost predicate NextOrFirst(s: seq<int>, r: seq<int>) {
    && Permutation(r, s)
    && (Ascending(r) <==> Greatest(s))
    && (!Greatest(s) ==> Successor(s, r))
  }

  lemma WithPivot(s: seq<int>, i: nat, j: nat)
    requires Pivot(s, i, j)
    ensures NextOrFirst(s, Next(s, i, j))
  {
    NextIsSuccessor(s, i, j);
    SuccessorDoesNotAscend(s, Next(s, i, j));
  }

  lemma WithoutPivot(s: seq<int>)
    requires Descending(s)
    ensures NextOrFirst(s, ReversedBetween(s, 0, |s| - 1))
  {
    var r := ReversedBetween(s, 0, |s| - 1);
    DescendingIsGreatest(s);
    ReversedBetweenPermutes(s, 0, |s| - 1);
    forall i, j | 0 <= i < j < |r|
      ensures InOrder(r, i, j)
    {
      ReversedAt(s, 0, |s| - 1, i);
      ReversedAt(s, 0, |s| - 1, j);
    }
  }

  // nextPermutation (lintcode/permutation_and_combination.md:16-45)
  method NextPermutation(nums: array<int>)
    modifies nums
    ensures NextOrFirst(old(nums[..]), nums[..])
  {
    var n := nums.Length;
    ghost var s, r := nums[..], nums[..];
    var index := LastRise(nums);
    if index == -1 {
      r := ReversedBetween(s, 0, n - 1);
      WithoutPivot(s);
      Reverse(nums, 0, n - 1);
    } else {
      var biggerIndex := LastBigger(nums, index);
      r := Next(s, index, biggerIndex);
      WithPivot(s, index, biggerIndex);
      nums[index], nums[biggerIndex] := nums[biggerIndex], nums[index];
      assert nums[..] == s[index := s[biggerIndex]][biggerIndex := s[index]];
      Reverse(nums, index + 1, n - 1);
    }
    assert nums[..] == r && NextOrFirst(s, r);
  }

  // The first loop (lintcode/permutation_and_combination.md:18-24)
  method LastRise(nums: array<int>) returns (index: int)
    ensures -1 <= index && index + 1 <= nums.Length && Descending(nums[..][index + 1..])
    ensures index >= 0 ==> index + 1 < nums.Length && nums[index] < nums[index + 1]
  {
    index := -1;
    var i := nums.Length - 2;
    while i >= 0
      invariant if nums.Length == 0 then i == -2 else -1 <= i < nums.Length - 1
      invariant i >= -1 ==> Descending(nums[..][i + 1..])
    {
      if nums[i] < nums[i + 1] {
        index := i;
        break;
      }
      i := i - 1;
    }
  }

  // The second loop (lintcode/permutation_and_combination.md:31-38)
  method LastBigger(nums: array<int>, index: nat) returns (biggerIndex: int)
    requires index + 1 < nums.Length && nums[index] < nums[index + 1]
    ensures index < biggerIndex < nums.Length && nums[index] < nums[biggerIndex]
    ensures forall k :: biggerIndex < k < nums.Length ==> nums[k] <= nums[index]
  {
    biggerIndex := nums.Length - 1;
    var i := nums.Length - 1;
    while i > index
      invariant index < i < nums.Length
      invariant forall k :: i < k < nums.Length ==> nums[k] <= nums[index]
    {
      if nums[i] > nums[index] {
        biggerIndex := i;
        break;
      }
      i := i - 1;
    }
  }
}
