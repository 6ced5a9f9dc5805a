// maxPathSum (lintcode/tree_path.md:47-75): the largest sum over all paths of a
// tree, a path being any walk along its edges that visits no vertex twice. A
// vertex is named by the turns that lead to it from the root, true for right.
module PathSum {
  import opened MachineInts
  import opened MinMax
  import opened Sequences
  import opened Trees

  type Vertex = seq<bool>

  ghost predicate In(t: Tree, a: Vertex)
    decreases |a|
  {
    t.Node? && (a == [] || In(if a[0] then t.r else t.l, a[1..]))
  }

  ghost function ValueAt(t: Tree, a: Vertex): int
    requires In(t, a)
    decreases |a|
  {
    if a == [] then t.n.val else ValueAt(if a[0] then t.r else t.l, a[1..])
  }

  ghost predicate Parent(a: Vertex, b: Vertex) {
    b != [] && a == b[..|b| - 1]
  }

  // The walk goes along an edge between its k-th vertex and the next.
  ghost predicate Joined(p: seq<Vertex>, k: int)
    requires 0 <= k && k + 1 < |p|
  {
    Parent(p[k], p[k + 1]) || Parent(p[k + 1], p[k])
  }

  ghost predicate IsWalk(p: seq<Vertex>) {
    NoDuplicates(p) && forall k :: 0 <= k && k + 1 < |p| ==> Joined(p, k)
  }

  ghost predicate AllIn(t: Tree, p: seq<Vertex>) {
    forall k :: 0 <= k < |p| ==> In(t, p[k])
  }

  ghost predicate IsPath(t: Tree, p: seq<Vertex>) {
    p != [] && IsWalk(p) && AllIn(t, p)
  }

  ghost function Sum(t: Tree, p: seq<Vertex>): int
    requires AllIn(t, p)
  {
    if p == [] then 0 else ValueAt(t, p[0]) + Sum(t, p[1..])
  }

  ghost predicate IsLargest(d: int, t: Tree) {
    && (exists p :: IsPath(t, p) && Sum(t, p) == d)
    && (forall p :: IsPath(t, p) ==> Sum(t, p) <= d)
  }

  // The largest sum of a path that goes down from the root, or 0.
  ghost function Down(t: Tree): int {
    match t
    case Leaf => 0
    case Node(n, l, r) => n.val + Max(0, Max(Down(l), Down(r)))
  }

  // The largest sum of a path whose highest vertex is the root.
  ghost function Across(t: Tree): int
    requires t.Node?
  {
    t.n.val + Max(0, Down(t.l)) + Max(0, Down(t.r))
  }

  ghost function Best(t: Tree): int
    requires t.Node?
  {
    var b := if t.l.Node? then Max(Best(t.l), Across(t)) else Across(t);
    if t.r.Node? then Max(Best(t.r), b) else b
  }

  lemma {:induction false} SumConcat(t: Tree, p: seq<Vertex>, q: seq<Vertex>)
    requires AllIn(t, p) && AllIn(t, q)
    ensures AllIn(t, p + q) && Sum(t, p + q) == Sum(t, p) + Sum(t, q)
  {
    if p == [] {
      assert p + q == q;
    } else {
      SumConcat(t, p[1..], q);
      assert (p + q)[1..] == p[1..] + q;
    }
  }

  lemma SumOfOne(t: Tree, a: Vertex)
    requires In(t, a)
    ensures Sum(t, [a]) == ValueAt(t, a)
  {
  }

  // The vertices are the nodes in memory: none for no node, the root for no
  // turns, and for a first turn those of the child there.
  lemma VertexInMemory(root: TreeNode?, t: Tree, a: Vertex)
    requires Is(root, t)
    ensures root == null ==> !In(t, a)
    ensures root != null && a == [] ==> In(t, a) && ValueAt(t, a) == root.val
    ensures root != null && a != [] ==>
              var c := Side(t, a[0]);
              && Is(if a[0] then root.right else root.left, c)
              && (In(t, a) <==> In(c, a[1..])) && (In(t, a) ==> ValueAt(t, a) == ValueAt(c, a[1..]))
  {
  }

  // Going below: the vertices of p lie on the side right of the root.
  ghost predicate OnSide(p: seq<Vertex>, right: bool) {
    forall k :: 0 <= k < |p| ==> p[k] != [] && p[k][0] == right
  }

  ghost function Below(p: seq<Vertex>): (q: seq<Vertex>)
    requires forall k :: 0 <= k < |p| ==> p[k] != []
    ensures |q| == |p|
  {
    seq(|p|, k requires 0 <= k < |p| => p[k][1..])
  }

  ghost function Above(p: seq<Vertex>, right: bool): (q: seq<Vertex>)
    ensures |q| == |p| && OnSide(q, right) && Below(q) == p
  {
    var q := seq(|p|, k requires 0 <= k < |p| => [right] + p[k]);
    assert forall k :: 0 <= k < |p| ==> q[k][1..] == p[k];
    assert Below(q) == p;
    q
  }

  ghost function Side(t: Tree, right: bool): Tree
    requires t.Node?
  {
    if right then t.r else t.l
  }

  // Seen from the child, the part of a walk on its side is the same walk.
  lemma SideIsWalk(p: seq<Vertex>, right: bool)
    requires OnSide(p, right)
    ensures IsWalk(p) <==> IsWalk(Below(p))
  {
    var q := Below(p);
    forall k | 0 <= k && k + 1 < |p|
      ensures Joined(p, k) <==> Joined(q, k)
    {
    }
    forall i, j | 0 <= i < j < |p|
      ensures Differ(p, i, j) <==> Differ(q, i, j)
    {
      assert p[i] == [right] + q[i] && p[j] == [right] + q[j];
    }
  }

  lemma {:induction false} SideSum(t: Tree, p: seq<Vertex>, right: bool)
    requires t.Node? && OnSide(p, right)
    ensures AllIn(t, p) <==> AllIn(Side(t, right), Below(p))
    ensures AllIn(t, p) ==> Sum(t, p) == Sum(Side(t, right), Below(p))
  {
    var q := Below(p);
    assert forall k :: 0 <= k < |p| ==> (In(t, p[k]) <==> In(Side(t, right), q[k]));
    if p != [] {
      SideSum(t, p[1..], right);
      assert q[1..] == Below(p[1..]);
    }
  }

  // A walk that does not visit the root stays on the side on which it starts.
  lemma StaysOnSide(p: seq<Vertex>)
    requires p != [] && IsWalk(p) && [] !in p
    ensures OnSide(p, p[0][0])
  {
    var k := 1;
    while k < |p|
      invariant 1 <= k <= |p| && OnSide(p[..k], p[0][0])
    {
      assert Joined(p, k - 1) && p[k] in p && p[k - 1] == p[..k][k - 1];
      assert p[k][0] == p[k - 1][0];
      k := k + 1;
    }
    assert p[..|p|] == p;
  }

  lemma PartIsWalk(p: seq<Vertex>, i: nat, j: nat)
    requires IsWalk(p) && i <= j <= |p|
    ensures IsWalk(p[i..j])
  {
    var q := p[i..j];
    forall x, y | 0 <= x < y < |q|
      ensures Differ(q, x, y)
    {
      assert Differ(p, i + x, i + y);
    }
    forall k | 0 <= k && k + 1 < |q|
      ensures Joined(q, k)
    {
      assert Joined(p, i + k);
    }
  }

  lemma ReversedIsWalk(p: seq<Vertex>)
    requires IsWalk(p)
    ensures IsWalk(Reversed(p))
  {
    var q, n := Reversed(p), |p|;
    forall x, y | 0 <= x < y < n
      ensures Differ(q, x, y)
    {
      assert Differ(p, n - 1 - y, n - 1 - x);
    }
    forall k | 0 <= k && k + 1 < n
      ensures Joined(q, k)
    {
      assert Joined(p, n - 2 - k);
    }
  }

  lemma {:induction false} ReversedSum(t: Tree, p: seq<Vertex>)
    requires AllIn(t, p)
    ensures AllIn(t, Reversed(p)) && Sum(t, Reversed(p)) == Sum(t, p)
  {
    if p != [] {
      ReversedSum(t, p[1..]);
      assert Reversed(p) == Reversed(p[1..]) + [p[0]];
      SumConcat(t, Reversed(p[1..]), [p[0]]);
      assert Sum(t, [p[0]]) == ValueAt(t, p[0]);
    }
  }

  // The part of a path on one side of the root is a path of the child.
  lemma SidePath(t: Tree, p: seq<Vertex>, right: bool)
    requires t.Node? && IsPath(t, p) && OnSide(p, right)
    ensures IsPath(Side(t, right), Below(p)) && Sum(t, p) == Sum(Side(t, right), Below(p))
  {
    SideIsWalk(p, right);
    SideSum(t, p, right);
  }

  // p starts at a child of the root and stays below it.
  ghost predicate IsArm(t: Tree, p: seq<Vertex>) {
    p != [] ==> IsPath(t, p) && [] !in p && |p[0]| == 1
  }

  ghost function ArmLimit(t: Tree, p: seq<Vertex>): int
    requires t.Node? && IsArm(t, p)
  {
    if p == [] then 0 else Down(Side(t, p[0][0]))
  }

  lemma {:induction false} ArmBound(t: Tree, p: seq<Vertex>)
    requires t.Node? && IsArm(t, p) && AllIn(t, p)
    ensures Sum(t, p) <= ArmLimit(t, p)
    decreases t, 0
  {
    if p != [] {
      var right := p[0][0];
      StaysOnSide(p);
      SidePath(t, p, right);
      assert Below(p)[0] == [];
      DownBound(Side(t, right), Below(p));
    }
  }

  // What follows the root on a path is an arm.
  lemma ArmAfter(t: Tree, p: seq<Vertex>, k: nat)
    requires IsPath(t, p) && k < |p| && p[k] == []
    ensures IsArm(t, p[k + 1..])
  {
    var q := p[k + 1..];
    assert q == p[k + 1..|p|];
    PartIsWalk(p, k + 1, |p|);
    forall i | 0 <= i < |q|
      ensures q[i] != [] && In(t, q[i])
    {
      assert Differ(p, k, k + 1 + i) && q[i] == p[k + 1 + i] && In(t, p[k + 1 + i]);
    }
    if q != [] {
      assert Joined(p, k);
    }
  }

  lemma {:induction false} DownBound(t: Tree, p: seq<Vertex>)
    requires IsPath(t, p) && p[0] == []
    ensures Sum(t, p) <= Down(t)
    decreases t, 1
  {
    ArmAfter(t, p, 0);
    ArmBound(t, p[1..]);
  }

  // No path has a larger sum.
  lemma {:induction false} PathBound(t: Tree, p: seq<Vertex>)
    requires t.Node? && IsPath(t, p)
    ensures Sum(t, p) <= Best(t)
    decreases t
  {
    if [] in p {
      var k :| 0 <= k < |p| && p[k] == [];
      ThroughRoot(t, p, k);
    } else {
      var right := p[0][0];
      StaysOnSide(p);
      SidePath(t, p, right);
      assert In(t, p[0]);
      PathBound(Side(t, right), Below(p));
    }
  }

  // So is what comes before the root, read backwards.
  lemma ArmBefore(t: Tree, p: seq<Vertex>, k: nat)
    requires IsPath(t, p) && k < |p| && p[k] == []
    ensures IsArm(t, Reversed(p[..k]))
  {
    var r := Reversed(p);
    ReversedIsWalk(p);
    ReversedSum(t, p);
    ArmAfter(t, r, |p| - 1 - k);
    assert r[|p| - k..] == Reversed(p[..k]);
  }

  lemma ThroughRoot(t: Tree, p: seq<Vertex>, k: nat)
    requires t.Node? && IsPath(t, p) && k < |p| && p[k] == []
    ensures Sum(t, p) <= Across(t)
  {
    var u, v := p[..k], p[k + 1..];
    ArmBefore(t, p, k);
    ArmAfter(t, p, k);
    if u != [] && v != [] {
      assert Differ(p, k - 1, k + 1);
      assert Reversed(u)[0] == [p[k - 1][0]] && v[0] == [p[k + 1][0]];
    }
    assert AllIn(t, u) && AllIn(t, v);
    SumAround(t, p, u, v);
    ReversedSum(t, u);
    ArmBound(t, Reversed(u));
    ArmBound(t, v);
  }

  lemma SumAround(t: Tree, p: seq<Vertex>, u: seq<Vertex>, v: seq<Vertex>)
    requires t.Node? && AllIn(t, u) && AllIn(t, v) && p == u + [[]] + v
    ensures AllIn(t, p) && Sum(t, p) == Sum(t, u) + t.n.val + Sum(t, v)
  {
    assert p == u + ([[]] + v) && ([[]] + v)[1..] == v;
    SumConcat(t, u, [[]] + v);
  }

  // Two walks that start or end at different children join at the root.
  lemma Bridged(u: seq<Vertex>, v: seq<Vertex>, right: bool)
    requires IsWalk(u) && IsWalk(v) && OnSide(u, !right) && OnSide(v, right)
    requires u != [] ==> u[|u| - 1] == [!right]
    requires v != [] ==> v[0] == [right]
    ensures IsWalk(u + [[]] + v)
  {
    var p, n := u + [[]] + v, |u|;
    forall x, y | 0 <= x < y < |p|
      ensures Differ(p, x, y)
    {
      if y < n {
        assert Differ(u, x, y);
      } else if x > n {
        assert Differ(v, x - n - 1, y - n - 1);
      }
    }
    forall k | 0 <= k && k + 1 < |p|
      ensures Joined(p, k)
    {
      if k + 1 < n {
        assert Joined(u, k);
      } else if k > n {
        assert Joined(v, k - n - 1);
      } else if k == n {
        assert Parent(p[k], p[k + 1]);
      } else {
        assert Parent(p[k + 1], p[k]);
      }
    }
  }

  // A path below one child, seen from the root.
  lemma Raised(t: Tree, p: seq<Vertex>, right: bool)
    requires t.Node? && IsPath(Side(t, right), p)
    ensures IsPath(t, Above(p, right)) && Sum(t, Above(p, right)) == Sum(Side(t, right), p)
  {
    var q := Above(p, right);
    SideIsWalk(q, right);
    SideSum(t, q, right);
  }

  // The arm down to one side that adds most, or none.
  lemma BestArm(t: Tree, right: bool) returns (p: seq<Vertex>)
    requires t.Node?
    ensures IsWalk(p) && AllIn(t, p) && OnSide(p, right) && (p != [] ==> p[0] == [right])
    ensures Sum(t, p) == Max(0, Down(Side(t, right)))
    decreases t, 0
  {
    if Down(Side(t, right)) <= 0 {
      p := [];
    } else {
      var q := DownPath(Side(t, right));
      Raised(t, q, right);
      p := Above(q, right);
      assert p[0] == [right];
    }
  }

  lemma {:induction false} DownPath(t: Tree) returns (p: seq<Vertex>)
    requires t.Node?
    ensures IsPath(t, p) && p[0] == [] && Sum(t, p) == Down(t)
    decreases t, 1
  {
    var right := Down(t.r) > Down(t.l);
    var q := BestArm(t, right);
    Bridged([], q, right);
    p := [[]] + q;
    assert [] + [[]] + q == p && p[1..] == q;
  }

  // A path with the largest sum through the root.
  lemma AcrossPath(t: Tree) returns (p: seq<Vertex>)
    requires t.Node?
    ensures IsPath(t, p) && Sum(t, p) == Across(t)
  {
    var a := BestArm(t, false);
    var v := BestArm(t, true);
    var u := Reversed(a);
    ReversedIsWalk(a);
    ReversedSum(t, a);
    Bridged(u, v, true);
    p := u + [[]] + v;
    SumAround(t, p, u, v);
  }

  lemma {:induction false} BestPath(t: Tree) returns (p: seq<Vertex>)
    requires t.Node?
    ensures IsPath(t, p) && Sum(t, p) == Best(t)
  {
    if Best(t) == Across(t) {
      p := AcrossPath(t);
    } else {
      var right := t.r.Node? && Best(t) == Best(t.r);
      var q := BestPath(Side(t, right));
      Raised(t, q, right);
      p := Above(q, right);
    }
  }

  lemma BestIsLargest(t: Tree)
    requires t.Node?
    ensures IsLargest(Best(t), t)
  {
    var q := BestPath(t);
    forall p | IsPath(t, p)
      ensures Sum(t, p) <= Best(t)
    {
      PathBound(t, p);
    }
  }

  // maxPath (lintcode/tree_path.md:61-74); maxSum is passed on and returned.
  method MaxPath(root: TreeNode?, maxSum0: int, ghost t: Tree) returns (down: int, maxSum: int)
    requires Is(root, t)
    ensures down == Down(t)
    ensures maxSum == if t.Leaf? then maxSum0 else Max(maxSum0, Best(t))
    decreases t
  {
    maxSum := maxSum0;
    if root == null {
      return 0, maxSum;
    }
    NodesAllocated(t.r);
    var l, r;
    l, maxSum := MaxPath(root.left, maxSum, t.l);
    assert Is(root.right, t.r);
    r, maxSum := MaxPath(root.right, maxSum, t.r);
    var sum := root.val;
    if l > 0 {
      sum := sum + l;
    }
    if r > 0 {
      sum := sum + r;
    }
    maxSum := Max(maxSum, sum);
    return Max(root.val, root.val + Max(l, r)), maxSum;
  }

  // maxPathSum (lintcode/tree_path.md:52-59)
  method MaxPathSum(root: TreeNode?, ghost t: Tree) returns (maxSum: int)
    requires Is(root, t) && forall x :: x in Nodes(t) ==> x.val >= INT_MIN
    ensures if root == null then maxSum == 0 else IsLargest(maxSum, t)
  {
    if root == null {
      return 0;
    }
    BestIsLargest(t);
    var down;
    down, maxSum := MaxPath(root, INT_MIN, t);
    assert Best(t) >= root.val;
  }
}
