// search (lintcode/array.md:164-190) in an ascending array that was rotated. It
// compares the middle with the first element, so when the middle is the first
// element it takes the wrong side. That loses exactly one element, for some sizes.
module RotatedSearch {
  import opened Bits

  // The r largest come first; either part ascends.
  ghost predicate RotatedAt(a: seq<int>, r: int) {
    && 0 <= r <= |a| && (r == |a| ==> r == 0)
    && (forall i, j :: 0 <= i < j < |a| && (j < r || r <= i) ==> a[i] < a[j])
    && (forall i, j :: 0 <= i < r <= j < |a| ==> a[j] < a[i])
  }

  // Halving the window 0..j for the element at index 1 ends with 0..1.
  predicate Lands(j: nat) {
    if j <= 1 then j == 1 else j / 2 != 1 && Lands(j / 2 - 1)
  }

  // The second element of a proper rotation, the only one at risk.
  predicate AtRisk(a: seq<int>, target: int) {
    |a| >= 2 && a[0] > a[|a| - 1] && target == a[1]
  }

  // The arrays of 2, of 5 or 6, of 11 up to 14, of 23 up to 30 elements and so on.
  predicate SizeBand(n: nat, m: nat) {
    3 * Pow2(m) - 1 <= n <= 4 * Pow2(m) - 2
  }

  // In these bands halving leads to the window 0..1.
  lemma {:induction false} LandsInBands(n: nat)
    requires n >= 1
    ensures Lands(n - 1) <==> exists m: nat :: SizeBand(n, m)
  {
    var half := (n - 1) / 2;
    if n == 2 {
      assert SizeBand(2, 0);
    } else if n > 2 {
      LandsInBands(half);
      if Lands(n - 1) {
        var m: nat :| SizeBand(half, m);
        assert SizeBand(n, m + 1);
      }
      if m: nat :| SizeBand(n, m) {
        assert SizeBand(half, m - 1);
      }
    }
  }

  // The element the code does not find.
  ghost predicate Missed(a: seq<int>, target: int) {
    AtRisk(a, target) && exists m: nat :: SizeBand(|a|, m)
  }

  // For instance 1 in [3, 1] and 3 in [2, 3, 4, 5, 1].
  lemma Instances()
    ensures RotatedAt([3, 1], 1) && Missed([3, 1], 1) && 1 in [3, 1]
    ensures RotatedAt([2, 3, 4, 5, 1], 4) && Missed([2, 3, 4, 5, 1], 3) && 3 in [2, 3, 4, 5, 1]
  {
    assert SizeBand(2, 0) && SizeBand(5, 1);
  }

  // search (lintcode/array.md:167-189)
  method Search(a: seq<int>, target: int, ghost r: int) returns (k: int)
    requires RotatedAt(a, r)
    ensures k == -1 || (0 <= k < |a| && a[k] == target)
    ensures (k == -1 <==> target !in a) <==> !Missed(a, target)
  {
    if a != [] {
      LandsInBands(|a|);
    }
    var i, j := 0, |a| - 1;
    while i <= j
      invariant 0 <= i <= j + 1 <= |a|
      invariant if j >= 0 then forall x :: 0 <= x < |a| && a[x] == target ==> i <= x <= j
                else target in a ==> Missed(a, target)
      invariant AtRisk(a, target) ==> i == 0 && (j >= 0 ==> (Lands(j) <==> Lands(|a| - 1)))
      invariant j < 0 && AtRisk(a, target) ==> Missed(a, target)
      decreases j + 1 - i
    {
      var mid := (i + j) / 2;
      if a[mid] == target {
        return mid;
      }
      if a[0] < a[mid] {
        if target >= a[0] && target < a[mid] {
          j := mid - 1;
        } else {
          i := mid + 1;
        }
      } else {
        if target > a[mid] && target <= a[|a| - 1] {
          i := mid + 1;
        } else {
          j := mid - 1;
        }
      }
    }
    return -1;
  }
}
