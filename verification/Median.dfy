// findKth and findMedianSortedArrays (lintcode/array.md:191-222).
module Median {
  import opened MinMax
  import opened Sorting

  // v has place k in the two sequences taken together.
  ghost predicate HasRankIn(a: seq<int>, b: seq<int>, k: int, v: int) {
    Count(a, v, false) + Count(b, v, false) < k <= Count(a, v, true) + Count(b, v, true)
  }

  lemma Ranked(a: seq<int>, b: seq<int>, k: int, v: int)
    requires HasRankIn(a, b, k, v)
    ensures 1 <= k <= |a + b| && v == Sort(a + b)[k - 1]
  {
    CountConcat(a, b, v, false);
    CountConcat(a, b, v, true);
    RankIsSortedPlace(a + b, k, v);
  }

  // Elements at pa and pb that meet have place pa + pb.
  lemma Meet(a: seq<int>, b: seq<int>, pa: nat, pb: nat)
    requires Ascending(a) && Ascending(b) && 1 <= pa <= |a| && 1 <= pb <= |b| && a[pa - 1] == b[pb - 1]
    ensures HasRankIn(a, b, pa + pb, a[pa - 1])
  {
    CountAround(a, pa - 1, a[pa - 1]);
    CountAround(b, pb - 1, a[pa - 1]);
  }

  // If the pa-th of a is below the pb-th of b, the first pa elements of a are
  // not above the element at place pa + pb and can be dropped.
  lemma DropFirst(a: seq<int>, b: seq<int>, pa: nat, pb: nat, v: int)
    requires Ascending(a) && Ascending(b) && 1 <= pa <= |a| && 1 <= pb <= |b| && a[pa - 1] < b[pb - 1]
    requires HasRankIn(a[pa..], b, pb, v)
    ensures HasRankIn(a, b, pa + pb, v)
  {
    assert a == a[..pa] + a[pa..];
    CountConcat(a[..pa], a[pa..], v, false);
    CountConcat(a[..pa], a[pa..], v, true);
    forall i | 0 <= i < |a|
      ensures i < pa ==> a[i] <= a[pa - 1]
      ensures i >= pa ==> a[pa - 1] <= a[i]
    {
      assert i < pa - 1 ==> InOrder(a, i, pa - 1);
      assert i >= pa ==> InOrder(a, pa - 1, i);
    }
    if v < a[pa - 1] {
      CountNone(a[pa..], v, true);
      CountAround(b, pb - 1, v);
    } else {
      CountAll(a[..pa], v, true);
    }
  }

  lemma FirstOfTwo(a: seq<int>, b: seq<int>)
    requires Ascending(a) && Ascending(b) && a != [] && b != []
    ensures HasRankIn(a, b, 1, Min(a[0], b[0]))
  {
    var v := Min(a[0], b[0]);
    CountAround(a, 0, v);
    CountAround(b, 0, v);
  }

  lemma OnlySecond(b: seq<int>, k: nat)
    requires Ascending(b) && 1 <= k <= |b|
    ensures HasRankIn([], b, k, b[k - 1]) && HasRankIn(b, [], k, b[k - 1])
  {
    CountAround(b, k - 1, b[k - 1]);
  }

  lemma DropAscends(a: seq<int>, n: nat)
    requires Ascending(a) && n <= |a|
    ensures Ascending(a[n..])
  {
    var t := a[n..];
    forall i, j | 0 <= i < j < |t|
      ensures InOrder(t, i, j)
    {
      assert InOrder(a, n + i, n + j);
    }
  }

  lemma DropSecond(a: seq<int>, b: seq<int>, pa: nat, pb: nat, v: int)
    requires Ascending(a) && Ascending(b) && 1 <= pa <= |a| && 1 <= pb <= |b| && a[pa - 1] > b[pb - 1]
    requires HasRankIn(a, b[pb..], pa, v)
    ensures HasRankIn(a, b, pa + pb, v)
  {
    DropFirst(b, a, pb, pa, v);
  }

  // findKth (lintcode/array.md:204-221): stays in bounds, terminates although it
  // exchanges its arguments, and finds the element at place k of the slices x of
  // a and y of b.
  method FindKth(a: seq<int>, al: int, ar: int, b: seq<int>, bl: int, br: int, k: int, ghost x: seq<int>,
                 ghost y: seq<int>)
    returns (v: int)
    requires 0 <= al <= ar + 1 <= |a| && 0 <= bl <= br + 1 <= |b|
    requires x == a[al..ar + 1] && y == b[bl..br + 1] && Ascending(x) && Ascending(y)
    requires 1 <= k <= |x| + |y|
    ensures HasRankIn(x, y, k, v)
    decreases |x| + |y|, if br - bl < ar - al then 1 else 0
  {
    if br - bl < ar - al {
      v := FindKth(b, bl, br, a, al, ar, k, y, x);
      return;
    }
    if al > ar {
      OnlySecond(y, k);
      return b[bl + k - 1];
    }
    if k == 1 {
      FirstOfTwo(x, y);
      return Min(a[al], b[bl]);
    }
    var pa := Min(ar - al + 1, k / 2);
    var pb := k - pa;
    if a[al + pa - 1] == b[bl + pb - 1] {
      Meet(x, y, pa, pb);
      return a[al + pa - 1];
    } else if a[al + pa - 1] < b[bl + pb - 1] {
      DropAscends(x, pa);
      v := FindKth(a, al + pa, ar, b, bl, br, k - pa, x[pa..], y);
      DropFirst(x, y, pa, pb, v);
    } else {
      DropAscends(y, pb);
      v := FindKth(a, al, ar, b, bl + pb, br, k - pb, x, y[pb..]);
      DropSecond(x, y, pa, pb, v);
    }
  }

  // The middle of an ascending sequence: its middle element, or the mean of
  // its two middle elements.
  function Middle(m: seq<int>): real
    requires m != []
  {
    if |m| % 2 == 1 then m[|m| / 2] as real
    else (m[|m| / 2 - 1] as real + m[|m| / 2] as real) / 2.0
  }

  // The places that hold no more than r, and those that hold no less.
  ghost function NotAbove(s: seq<int>, r: real): set<int> {
    set i | 0 <= i < |s| && s[i] as real <= r
  }

  ghost function NotBelow(s: seq<int>, r: real): set<int> {
    set i | 0 <= i < |s| && r <= s[i] as real
  }

  // The elements at the two places around the middle, which are one place when
  // the number of elements is odd: half of the elements are not above the first,
  // and half are not below the second.
  lemma MiddlesHalve(a: seq<int>, b: seq<int>, v: int, w: int)
    requires HasRankIn(a, b, (|a + b| + 1) / 2, v) && HasRankIn(a, b, |a + b| / 2 + 1, w)
    ensures v <= w
    ensures 2 * |Counted(a + b, v, true)| >= |a + b| && 2 * |Uncounted(a + b, w, false)| >= |a + b|
  {
    var s := a + b;
    Ranked(a, b, (|s| + 1) / 2, v);
    Ranked(a, b, |s| / 2 + 1, w);
    SortSorts(s);
    Ordered(Sort(s), (|s| + 1) / 2 - 1, |s| / 2);
    CountConcat(a, b, v, true);
    CountConcat(a, b, w, false);
    CountIsNumber(s, v, true);
    UncountedIsNumber(s, w, false);
  }

  lemma Smaller(x: set<int>, y: set<int>)
    requires x <= y
    ensures |x| <= |y|
  {
    assert y == x + (y - x);
  }

  lemma MiddleIsMean(m: seq<int>, r: real)
    requires m != [] && 2.0 * r == m[(|m| + 1) / 2 - 1] as real + m[|m| / 2] as real
    ensures r == Middle(m)
  {
  }

  lemma MeanHalves(s: seq<int>, v: int, w: int, r: real)
    requires v <= w && 2.0 * r == v as real + w as real
    ensures |NotAbove(s, r)| >= |Counted(s, v, true)| && |NotBelow(s, r)| >= |Uncounted(s, w, false)|
  {
    assert v as real <= r <= w as real;
    Smaller(Counted(s, v, true), NotAbove(s, r));
    Smaller(Uncounted(s, w, false), NotBelow(s, r));
  }

  // So their mean is the median.
  lemma MeanIsMedian(a: seq<int>, b: seq<int>, v: int, w: int, r: real)
    requires HasRankIn(a, b, (|a| + |b| + 1) / 2, v) && HasRankIn(a, b, (|a| + |b|) / 2 + 1, w)
    requires 2.0 * r == v as real + w as real
    ensures r == Middle(Sort(a + b))
    ensures 2 * |NotAbove(a + b, r)| >= |a + b| && 2 * |NotBelow(a + b, r)| >= |a + b|
  {
    Ranked(a, b, (|a| + |b| + 1) / 2, v);
    Ranked(a, b, (|a| + |b|) / 2 + 1, w);
    MiddleIsMean(Sort(a + b), r);
    MiddlesHalve(a, b, v, w);
    MeanHalves(a + b, v, w, r);
  }

  // findMedianSortedArrays (lintcode/array.md:194-202)
  method FindMedianSortedArrays(a: seq<int>, b: seq<int>) returns (median: real, ghost v: int, ghost w: int)
    requires Ascending(a) && Ascending(b) && |a| + |b| > 0
    ensures median == Middle(Sort(a + b))
    ensures HasRankIn(a, b, (|a| + |b| + 1) / 2, v) && HasRankIn(a, b, (|a| + |b|) / 2 + 1, w)
    ensures 2.0 * median == v as real + w as real
    ensures 2 * |NotAbove(a + b, median)| >= |a + b| && 2 * |NotBelow(a + b, median)| >= |a + b|
  {
    var n := |a| + |b|;
    assert a[0..|a|] == a && b[0..|b|] == b;
    if n % 2 == 1 {
      var x := FindKth(a, 0, |a| - 1, b, 0, |b| - 1, n / 2 + 1, a, b);
      assert (n + 1) / 2 == n / 2 + 1;
      median, v, w := x as real, x, x;
    } else {
      var x := FindKth(a, 0, |a| - 1, b, 0, |b| - 1, n / 2, a, b);
      var y := FindKth(a, 0, |a| - 1, b, 0, |b| - 1, n / 2 + 1, a, b);
      assert (n + 1) / 2 == n / 2;
      median, v, w := (x as real + y as real) / 2.0, x, y;
    }
    MeanIsMedian(a, b, v, w, median);
  }
}
