// threeSum (lintcode/array.md:137-163): all value triples that sum to zero, each
// once, by two pointers moving towards each other in the sorted numbers.
module ThreeSum {
  import opened Sequences
  import opened Sorting

  datatype Triple = Triple(x: int, y: int, z: int)

  // Places p < q < r of a hold t and sum to zero.
  ghost predicate ZeroAt(a: seq<int>, t: Triple, p: int, q: int, r: int) {
    && 0 <= p < q < r < |a| && t == Triple(a[p], a[q], a[r])
    && a[p] + a[q] + a[r] == 0
  }

  // Three numbers in order, drawn from distinct positions, that sum to zero.
  ghost predicate IsZeroTriple(numbers: seq<int>, t: Triple) {
    && t.x <= t.y <= t.z && t.x + t.y + t.z == 0
    && multiset{t.x, t.y, t.z} <= multiset(numbers)
  }

  // Everything found lies at places whose first is before n, the second of
  // those at n itself before m.
  ghost predicate Sound(a: seq<int>, rst: seq<Triple>, n: int, m: int) {
    forall t :: t in rst ==> Found(a, t, n, m)
  }

  ghost predicate Found(a: seq<int>, t: Triple, n: int, m: int) {
    exists p, q, r :: ZeroAt(a, t, p, q, r) && (p < n || (p == n && q < m))
  }

  // Everything that lies there, or whose second or third place has been passed
  // by the pointers, has been found.
  ghost predicate Complete(a: seq<int>, rst: seq<Triple>, n: int, start: int, end: int) {
    forall t, p, q, r :: ZeroAt(a, t, p, q, r) && (p < n || (p == n && (q < start || r > end))) ==> t in rst
  }

  // A pointer may pass a place that repeats the one before it.
  lemma SkipDuplicate(a: seq<int>, rst: seq<Triple>, i: int, start: int, end: int)
    requires Complete(a, rst, i, start, end) && 0 <= i && i + 1 < start < end < |a| && a[start] == a[start - 1]
    ensures Complete(a, rst, i, start + 1, end)
  {
    forall t, p, q, r | ZeroAt(a, t, p, q, r) && (p < i || (p == i && (q < start + 1 || r > end)))
      ensures t in rst
    {
      if p == i && q == start {
        assert ZeroAt(a, t, p, start - 1, r);
      }
    }
  }

  lemma SumTooSmall(a: seq<int>, rst: seq<Triple>, i: int, start: int, end: int)
    requires Ascending(a) && Complete(a, rst, i, start, end) && 0 <= i < start < end < |a|
    requires a[start] + a[end] < 0 - a[i]
    ensures Complete(a, rst, i, start + 1, end)
  {
    forall t, p, q, r | ZeroAt(a, t, p, q, r) && (p < i || (p == i && (q < start + 1 || r > end)))
      ensures t in rst
    {
      if p == i && q == start && r <= end {
        Ordered(a, r, end);
      }
    }
  }

  lemma SumTooLarge(a: seq<int>, rst: seq<Triple>, i: int, start: int, end: int)
    requires Ascending(a) && Complete(a, rst, i, start, end) && 0 <= i < start < end < |a|
    requires a[start] + a[end] > 0 - a[i]
    ensures Complete(a, rst, i, start, end - 1)
  {
    forall t, p, q, r | ZeroAt(a, t, p, q, r) && (p < i || (p == i && (q < start || r > end - 1)))
      ensures t in rst
    {
      if p == i && r == end && q >= start {
        Ordered(a, start, q);
      }
    }
  }

  lemma SumFits(a: seq<int>, rst: seq<Triple>, i: int, start: int, end: int)
    requires Ascending(a) && Complete(a, rst, i, start, end) && 0 <= i < start < end < |a|
    requires a[start] + a[end] == 0 - a[i]
    ensures Complete(a, rst + [Triple(a[i], a[start], a[end])], i, start + 1, end - 1)
  {
  }

  // What is found next is new: its first two values are above those of all
  // that was found for the same first place, or its first is above the others'.
  lemma IsNew(a: seq<int>, rst: seq<Triple>, i: int, start: int, end: int)
    requires Ascending(a) && Sound(a, rst, i, start) && 0 <= i < start < end < |a|
    requires (i == 0 || a[i] != a[i - 1]) && (start == i + 1 || a[start] != a[start - 1])
    ensures Triple(a[i], a[start], a[end]) !in rst
  {
    var t := Triple(a[i], a[start], a[end]);
    if t in rst {
      assert Found(a, t, i, start);
      var p, q, r :| ZeroAt(a, t, p, q, r) && (p < i || (p == i && q < start));
      if p < i {
        Ordered(a, p, i - 1);
        Ordered(a, i - 1, i);
      } else {
        Ordered(a, q, start - 1);
        Ordered(a, start - 1, start);
      }
    }
  }

  // The inner loop (lintcode/array.md:149-158)
  method Pairs(a: seq<int>, i: nat, rst0: seq<Triple>) returns (rst: seq<Triple>)
    requires Ascending(a) && i + 2 < |a| && (i == 0 || a[i] != a[i - 1])
    requires Sound(a, rst0, i, 0) && Complete(a, rst0, i, 0, |a|) && NoDuplicates(rst0)
    ensures Sound(a, rst, i + 1, 0) && Complete(a, rst, i + 1, 0, |a|) && NoDuplicates(rst)
  {
    rst := rst0;
    var start, end := i + 1, |a| - 1;
    while start < end
      invariant i < start <= end + 1 <= |a|
      invariant Sound(a, rst, i, start) && Complete(a, rst, i, start, end) && NoDuplicates(rst)
    {
      if start > i + 1 && a[start] == a[start - 1] {
        SkipDuplicate(a, rst, i, start, end);
        start := start + 1;
        continue;
      }
      if a[start] + a[end] < 0 - a[i] {
        SumTooSmall(a, rst, i, start, end);
        start := start + 1;
      } else if a[start] + a[end] > 0 - a[i] {
        SumTooLarge(a, rst, i, start, end);
        end := end - 1;
      } else {
        var t := Triple(a[i], a[start], a[end]);
        IsNew(a, rst, i, start, end);
        AddedDiffers(rst, t);
        SumFits(a, rst, i, start, end);
        assert ZeroAt(a, t, i, start, end) && Found(a, t, i, start + 1);
        rst := rst + [t];
        start, end := start + 1, end - 1;
      }
    }
  }

  // A first place that repeats the one before it adds nothing.
  lemma SkipFirst(a: seq<int>, rst: seq<Triple>, i: nat)
    requires Complete(a, rst, i, 0, |a|) && 1 <= i < |a| && a[i] == a[i - 1]
    ensures Complete(a, rst, i + 1, 0, |a|)
  {
    forall t, p, q, r | ZeroAt(a, t, p, q, r) && (p < i + 1 || (p == i + 1 && (q < 0 || r > |a|)))
      ensures t in rst
    {
      if p == i {
        assert ZeroAt(a, t, i - 1, q, r);
      }
    }
  }

  ghost function Rest(a: seq<int>, k: nat): seq<int>
    requires k < |a|
  {
    a[..k] + a[k + 1..]
  }

  lemma RestHasOthers(a: seq<int>, k: nat)
    requires k < |a|
    ensures multiset(Rest(a, k)) + multiset{a[k]} == multiset(a)
    ensures forall j :: 0 <= j < |a| && j != k ==> a[j] == Rest(a, k)[if j < k then j else j - 1]
  {
    assert a == a[..k] + [a[k]] + a[k + 1..];
  }

  lemma ThreePlaces(a: seq<int>, p: nat, q: nat, r: nat)
    requires p < q < r < |a|
    ensures multiset{a[p], a[q], a[r]} <= multiset(a)
  {
    var b := Rest(a, r);
    RestHasOthers(a, r);
    var c := Rest(b, q);
    RestHasOthers(b, q);
    assert b[q] == a[q] && b[p] == a[p] && c[p] == b[p];
    assert a[p] in multiset(c);
  }

  lemma DrawOne(a: seq<int>, x: int, others: multiset<int>) returns (p: nat)
    requires multiset{x} + others <= multiset(a)
    ensures p < |a| && a[p] == x && others <= multiset(Rest(a, p))
  {
    assert x in multiset{x} + others;
    assert x in multiset(a);
    p :| p < |a| && a[p] == x;
    RestHasOthers(a, p);
    var r := multiset(Rest(a, p));
    forall y
      ensures others[y] <= r[y]
    {
      assert (multiset{x} + others)[y] <= (r + multiset{x})[y];
    }
  }

  // The place in a of what stands at j once the element at k is taken out.
  function PlaceBefore(k: nat, j: nat): nat {
    if j < k then j else j + 1
  }

  lemma TwoPlaces(b: seq<int>, y: int, z: int) returns (j: nat, k: nat)
    requires multiset{y} + multiset{z} <= multiset(b)
    ensures j < |b| && k < |b| && j != k && b[j] == y && b[k] == z
  {
    j := DrawOne(b, y, multiset{z});
    assert multiset{z} == multiset{z} + multiset{};
    var i := DrawOne(Rest(b, j), z, multiset{});
    k := PlaceBefore(j, i);
  }

  // Three numbers drawn from a stand at three places of it.
  lemma DrawnPlaces(a: seq<int>, x: int, y: int, z: int) returns (p: nat, q: nat, r: nat)
    requires multiset{x, y, z} <= multiset(a)
    ensures p < |a| && q < |a| && r < |a| && p != q && q != r && p != r
    ensures a[p] == x && a[q] == y && a[r] == z
  {
    assert multiset{x, y, z} == multiset{x} + (multiset{y} + multiset{z});
    p := DrawOne(a, x, multiset{y} + multiset{z});
    var j, k := TwoPlaces(Rest(a, p), y, z);
    q, r := PlaceBefore(p, j), PlaceBefore(p, k);
  }

  lemma OrderedPlaces(a: seq<int>, t: Triple, p: nat, q: nat, r: nat) returns (i: nat, j: nat, k: nat)
    requires Ascending(a) && t.x <= t.y <= t.z
    requires p < |a| && q < |a| && r < |a| && p != q && q != r && p != r && t == Triple(a[p], a[q], a[r])
    ensures i < j < k < |a| && t == Triple(a[i], a[j], a[k])
  {
    i, j, k := p, q, r;
    if j < i { Ordered(a, j, i); i, j := j, i; }
    if k < j { Ordered(a, k, j); j, k := k, j; }
    if j < i { Ordered(a, j, i); i, j := j, i; }
  }

  // The places of a sorted sequence and the triples drawn from it correspond.
  lemma TriplesAreDrawn(numbers: seq<int>, t: Triple)
    ensures IsZeroTriple(numbers, t) <==> exists p, q, r :: ZeroAt(Sort(numbers), t, p, q, r)
  {
    var a := Sort(numbers);
    SortSorts(numbers);
    if p, q, r :| ZeroAt(a, t, p, q, r) {
      ThreePlaces(a, p, q, r);
      Ordered(a, p, q);
      Ordered(a, q, r);
    }
    if IsZeroTriple(numbers, t) {
      var p, q, r := DrawnPlaces(a, t.x, t.y, t.z);
      var i, j, k := OrderedPlaces(a, t, p, q, r);
      assert ZeroAt(a, t, i, j, k);
    }
  }

  // threeSum (lintcode/array.md:140-162)
  method ThreeSum(numbers: array<int>) returns (rst: seq<Triple>)
    requires numbers.Length >= 2
    modifies numbers
    ensures numbers[..] == Sort(old(numbers[..]))
    ensures NoDuplicates(rst)
    ensures forall t :: t in rst <==> IsZeroTriple(old(numbers[..]), t)
  {
    SortSorts(numbers[..]);
    SortInPlace(numbers);
    var a := numbers[..];
    rst := [];
    var i := 0;
    while i < |a| - 2
      invariant 0 <= i <= |a| - 2 && numbers[..] == a
      invariant Sound(a, rst, i, 0) && Complete(a, rst, i, 0, |a|) && NoDuplicates(rst)
    {
      if i > 0 && a[i] == a[i - 1] {
        SkipFirst(a, rst, i);
        i := i + 1;
        continue;
      }
      rst := Pairs(a, i, rst);
      i := i + 1;
    }
    forall t
      ensures t in rst <==> IsZeroTriple(old(numbers[..]), t)
    {
      AllFound(old(numbers[..]), a, rst, i, t);
    }
  }

  lemma AllFound(numbers: seq<int>, a: seq<int>, rst: seq<Triple>, i: nat, t: Triple)
    requires a == Sort(numbers) && i == |a| - 2 && Sound(a, rst, i, 0) && Complete(a, rst, i, 0, |a|)
    ensures t in rst <==> IsZeroTriple(numbers, t)
  {
    TriplesAreDrawn(numbers, t);
    if t in rst {
      assert Found(a, t, i, 0);
    }
  }
}
