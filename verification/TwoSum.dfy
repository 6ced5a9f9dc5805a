// twoSum (lintcode/array.md:119-136): two numbers that add up to the target, by
// a map from every number to its last index. A number can meet itself there.
module TwoSum {

  // Two different indices whose numbers add up to target, or -1 twice for none.
  ghost predicate Right(numbers: seq<int>, target: int, i: int, j: int) {
    if i == -1 && j == -1 then
      forall x, y :: 0 <= x < y < |numbers| ==> numbers[x] + numbers[y] != target
    else
      0 <= i < |numbers| && 0 <= j < |numbers| && i != j && numbers[i] + numbers[j] == target
  }

  // No earlier number has a partner, and i has only itself.
  ghost predicate MeetsItself(numbers: seq<int>, target: int, i: int) {
    && 0 <= i < |numbers| && numbers[i] + numbers[i] == target
    && (forall j :: 0 <= j < |numbers| && j != i ==> numbers[j] != numbers[i])
    && (forall j :: 0 <= j < i ==> target - numbers[j] !in numbers)
  }

  // For instance 3 in [3, 2, 4] when the target is 6.
  lemma Instances()
    ensures MeetsItself([3, 2, 4], 6, 0) && !Right([3, 2, 4], 6, 0, 0) && Right([3, 2, 4], 6, 1, 2)
  {
  }

  // twoSum (lintcode/array.md:122-135)
  method TwoSum(numbers: seq<int>, target: int) returns (i: int, idx: int)
    ensures Right(numbers, target, i, idx) <==> !exists x :: MeetsItself(numbers, target, x)
    ensures (exists x :: MeetsItself(numbers, target, x)) ==> i == idx && MeetsItself(numbers, target, i)
    ensures i != -1 ==> 0 <= i < |numbers| && forall j :: 0 <= j < i ==> target - numbers[j] !in numbers
    ensures i != -1 ==> 0 <= idx < |numbers| && forall x :: idx < x < |numbers| ==> numbers[x] != numbers[idx]
  {
    var idxMap := LastIndices(numbers);
    i := 0;
    while i < |numbers|
      invariant 0 <= i <= |numbers|
      invariant forall j :: 0 <= j < i ==> target - numbers[j] !in numbers
    {
      var v := target - numbers[i];
      if v in idxMap {
        idx := idxMap[v];
        if idx == i {
          assert MeetsItself(numbers, target, i);
        }
        return;
      }
      i := i + 1;
    }
    return -1, -1;
  }

  // The first loop (lintcode/array.md:123-126)
  method LastIndices(numbers: seq<int>) returns (idxMap: map<int, int>)
    ensures forall v :: v in idxMap <==> v in numbers
    ensures forall v :: v in idxMap ==> 0 <= idxMap[v] < |numbers| && numbers[idxMap[v]] == v
    ensures forall x :: 0 <= x < |numbers| ==> numbers[x] in idxMap && x <= idxMap[numbers[x]]
  {
    idxMap := map[];
    for k := 0 to |numbers|
      invariant forall v :: v in idxMap <==> v in numbers[..k]
      invariant forall v :: v in idxMap ==> 0 <= idxMap[v] < k && numbers[idxMap[v]] == v
      invariant forall x :: 0 <= x < k ==> numbers[x] in idxMap && x <= idxMap[numbers[x]]
    {
      assert numbers[..k + 1] == numbers[..k] + [numbers[k]];
      idxMap := idxMap[numbers[k] := k];
    }
    assert numbers[..|numbers|] == numbers;
  }
}
