// lintcode/tree_traverse.md: the postorder traversal with an explicit stack and
// a last-visited test, and the construction of a tree from two traversals.
module Postorder {
  import opened Sequences
  import opened Trees

  // A stacked tree, and whether its right subtree has been entered.
  datatype Frame = Frame(t: Tree, entered: bool)

  // The subtree of a frame that is being visited.
  ghost function Current(f: Frame): Tree
    requires f.t.Node?
  {
    if f.entered then f.t.r else f.t.l
  }

  // What is still to be output once the visits in progress are over.
  ghost function Rest(fs: seq<Frame>): seq<TreeNode>
    requires forall f :: f in fs ==> f.t.Node?
  {
    if fs == [] then []
    else
      var f := fs[|fs| - 1];
      (if f.entered then [] else Post(f.t.r)) + [f.t.n] + Rest(fs[..|fs| - 1])
  }

  // The nodes of the right subtrees not yet entered.
  ghost function Unentered(fs: seq<Frame>): nat
    requires forall f :: f in fs ==> f.t.Node?
  {
    if fs == [] then 0
    else
      var f := fs[|fs| - 1];
      (if f.entered then 0 else |Post(f.t.r)|) + Unentered(fs[..|fs| - 1])
  }

  // Each stacked tree is the subtree being visited of the one below it.
  ghost predicate Frames(t0: Tree, st: seq<TreeNode>, fs: seq<Frame>) {
    && |st| == |fs|
    && (forall f :: f in fs ==> f.t.Node? && Below(f.t, t0) && (f.entered ==> f.t.r.Node?))
    && (forall i :: 0 <= i < |fs| ==> st[i] == fs[i].t.n)
    && (forall i :: 0 <= i < |fs| - 1 ==> Nested(fs, i))
  }

  ghost predicate Nested(fs: seq<Frame>, i: int)
    requires 0 <= i < |fs| - 1
  {
    fs[i].t.Node? && fs[i + 1].t == Current(fs[i])
  }

  // t may be visited next: it is the whole tree or the current subtree on top.
  ghost predicate Due(t0: Tree, fs: seq<Frame>, t: Tree) {
    if fs == [] then t == t0 else fs[|fs| - 1].t.Node? && t == Current(fs[|fs| - 1])
  }

  lemma PushRest(fs: seq<Frame>, t: Tree)
    requires (forall f :: f in fs ==> f.t.Node?) && t.Node?
    ensures var gs := fs + [Frame(t, false)];
            && (forall f :: f in gs ==> f.t.Node?)
            && Post(t) + Rest(fs) == Post(t.l) + Rest(gs)
            && Unentered(gs) == Unentered(fs) + |Post(t.r)|
  {
    var gs := fs + [Frame(t, false)];
    assert gs[..|fs|] == fs;
    assert Rest(gs) == Post(t.r) + [t.n] + Rest(fs);
  }

  lemma PushFrame(root: TreeNode, t0: Tree, st: seq<TreeNode>, fs: seq<Frame>, t: Tree)
    requires Frames(t0, st, fs) && Due(t0, fs, t) && t.Node? && Is(root, t0) && Below(t, t0)
    ensures var gs := fs + [Frame(t, false)];
            && Frames(t0, st + [t.n], gs) && Due(t0, gs, t.l) && Below(t.l, t0) && Is(t.n.left, t.l)
            && Post(t) + Rest(fs) == Post(t.l) + Rest(gs)
            && Unentered(gs) == Unentered(fs) + |Post(t.r)|
  {
    BelowIs(root, t, t0);
    PushRest(fs, t);
    var gs := fs + [Frame(t, false)];
    forall i | 0 <= i < |gs| - 1
      ensures Nested(gs, i)
    {
      assert i < |fs| - 1 ==> Nested(fs, i);
    }
  }

  // The loops that go down to the left, pushing (lintcode/tree_traverse.md:90-93
  // and 104-107).
  method PushLeft(root: TreeNode, start: TreeNode?, st: seq<TreeNode>, ghost t0: Tree, ghost fs: seq<Frame>,
                  ghost t: Tree)
    returns (st': seq<TreeNode>, ghost fs': seq<Frame>)
    requires Frames(t0, st, fs) && Due(t0, fs, t) && Is(root, t0) && Is(start, t) && Below(t, t0)
    ensures Frames(t0, st', fs') && Rest(fs') == Post(t) + Rest(fs)
    ensures t.Node? ==> fs' != [] && !fs'[|fs'| - 1].entered && Unentered(fs') < Unentered(fs) + |Post(t)|
  {
    var node: TreeNode? := start;
    ghost var u := t;
    st', fs' := st, fs;
    NodesAllocated(t0);
    while node != null
      invariant Is(root, t0)
      invariant Frames(t0, st', fs') && Due(t0, fs', u) && Is(node, u) && Below(u, t0)
      invariant Post(u) + Rest(fs') == Post(t) + Rest(fs)
      invariant (u == t && fs' == fs) ||
                (fs' != [] && !fs'[|fs'| - 1].entered && Unentered(fs') + |Post(u)| < Unentered(fs) + |Post(t)|)
      decreases u
    {
      PushFrame(root, t0, st', fs', u);
      var n: TreeNode := node;
      st' := st' + [n];
      fs' := fs' + [Frame(u, false)];
      node := n.left;
      u := u.l;
    }
  }

  // The last node output is the right child of the frame on top exactly if the
  // right subtree there has been entered, so the test of the code tells the two
  // cases apart.
  ghost predicate LastTells(fs: seq<Frame>, out: seq<TreeNode>, last: TreeNode?) {
    && last == (if out == [] then null else out[|out| - 1])
    && (fs != [] && fs[|fs| - 1].t.Node? && fs[|fs| - 1].entered ==>
          fs[|fs| - 1].t.r.Node? && last == fs[|fs| - 1].t.r.n)
  }

  lemma TestTells(t0: Tree, st: seq<TreeNode>, fs: seq<Frame>, out: seq<TreeNode>, last: TreeNode?)
    requires Wf(t0) && Frames(t0, st, fs) && fs != [] && LastTells(fs, out, last) && out + Rest(fs) == Post(t0)
    ensures var f := fs[|fs| - 1]; f.entered <==> f.t.r.Node? && last == f.t.r.n
  {
    var f := fs[|fs| - 1];
    if !f.entered && f.t.r.Node? && out != [] {
      var k := |out| - 1;
      var j := |out| + |Post(f.t.r)| - 1;
      PostDistinct(t0);
      assert Post(t0)[k] == out[k];
      assert Post(t0)[j] == Rest(fs)[j - |out|] == Post(f.t.r)[|Post(f.t.r)| - 1] == f.t.r.n;
      assert Differ(Post(t0), k, j);
    }
  }

  // Popping the frame on top outputs its node and completes its subtree.
  lemma PopFrame(t0: Tree, st: seq<TreeNode>, fs: seq<Frame>, out: seq<TreeNode>)
    requires Frames(t0, st, fs) && fs != []
    requires var f := fs[|fs| - 1]; f.entered || f.t.r == Leaf
    ensures var n, gs, k := st[|st| - 1], fs[..|fs| - 1], |fs| - 1;
            && Frames(t0, st[..k], gs) && out + Rest(fs) == out + [n] + Rest(gs)
            && LastTells(gs, out + [n], n)
  {
    var gs := fs[..|fs| - 1];
    assert Rest(fs) == [st[|st| - 1]] + Rest(gs);
    if gs != [] {
      var g := fs[|fs| - 2];
      assert g in fs && g == gs[|gs| - 1];
      assert Nested(fs, |fs| - 2);
    }
    forall i | 0 <= i < |gs| - 1
      ensures Nested(gs, i)
    {
      assert Nested(fs, i);
    }
    Regroup(out, st[|st| - 1], Rest(gs));
  }

  // Entering the right subtree of the frame on top.
  ghost function Entered(fs: seq<Frame>): seq<Frame>
    requires fs != []
  {
    fs[|fs| - 1 := Frame(fs[|fs| - 1].t, true)]
  }

  lemma EnteredFrames(t0: Tree, st: seq<TreeNode>, fs: seq<Frame>)
    requires Frames(t0, st, fs) && fs != [] && fs[|fs| - 1].t.r.Node?
    ensures Frames(t0, st, Entered(fs))
  {
    var gs := Entered(fs);
    forall i | 0 <= i < |gs| - 1
      ensures Nested(gs, i)
    {
      assert Nested(fs, i) && gs[i] == fs[i];
    }
    forall f | f in gs
      ensures f.t.Node? && Below(f.t, t0) && (f.entered ==> f.t.r.Node?)
    {
      var i :| 0 <= i < |gs| && gs[i] == f;
      assert fs[i] in fs;
    }
  }

  lemma EnteredRest(fs: seq<Frame>)
    requires (forall f :: f in fs ==> f.t.Node?) && fs != [] && !fs[|fs| - 1].entered
    requires forall f :: f in Entered(fs) ==> f.t.Node?
    ensures Rest(fs) == Post(fs[|fs| - 1].t.r) + Rest(Entered(fs))
    ensures Unentered(fs) == Unentered(Entered(fs)) + |Post(fs[|fs| - 1].t.r)|
  {
    var f, k, gs := fs[|fs| - 1], |fs| - 1, Entered(fs);
    assert gs[..k] == fs[..k] && gs[k] == Frame(f.t, true);
    var below := Rest(fs[..k]);
    assert Rest(gs) == [] + [f.t.n] + below == [f.t.n] + below;
    assert Rest(fs) == Post(f.t.r) + [f.t.n] + below;
    Regroup(Post(f.t.r), f.t.n, below);
  }

  lemma EnterRight(root: TreeNode, t0: Tree, st: seq<TreeNode>, fs: seq<Frame>)
    requires Is(root, t0) && Frames(t0, st, fs) && fs != []
    requires !fs[|fs| - 1].entered && fs[|fs| - 1].t.r.Node?
    ensures var r, gs := fs[|fs| - 1].t.r, Entered(fs);
            && Frames(t0, st, gs) && Due(t0, gs, r) && Is(st[|fs| - 1].right, r) && Below(r, t0)
            && Rest(fs) == Post(r) + Rest(gs) && Unentered(fs) == Unentered(gs) + |Post(r)|
  {
    var f := fs[|fs| - 1];
    EnteredFrames(t0, st, fs);
    EnteredRest(fs);
    assert f in fs;
    BelowIs(root, f.t, t0);
  }

  // postorderTraversal (lintcode/tree_traverse.md:83-112)
  method PostorderTraversal(root: TreeNode?, ghost t0: Tree) returns (rst: seq<int>)
    requires Is(root, t0) && Wf(t0)
    ensures |rst| == |Post(t0)| && forall i :: 0 <= i < |rst| ==> rst[i] == Post(t0)[i].val
  {
    if root == null {
      return [];
    }
    rst := [];
    var st, last: TreeNode? := [], null;
    ghost var fs: seq<Frame>, out: seq<TreeNode> := [], [];
    NodesAllocated(t0);
    st, fs := PushLeft(root, root, [], t0, [], t0);
    assert out + Rest(fs) == Post(t0);
    while st != []
      invariant Is(root, t0)
      invariant Frames(t0, st, fs) && out + Rest(fs) == Post(t0)
      invariant LastTells(fs, out, last) && rst == Values(out)
      decreases |Rest(fs)|, Unentered(fs)
    {
      var node := st[|st| - 1];
      ghost var f, k := fs[|fs| - 1], |fs| - 1;
      assert f in fs;
      BelowIs(root, f.t, t0);
      TestTells(t0, st, fs, out, last);
      if node.right == null || last == node.right {
        PopFrame(t0, st, fs, out);
        ValuesAdd(out, node);
        rst := rst + [node.val];
        out := out + [node];
        st := st[..|st| - 1];
        fs := fs[..k];
        last := node;
      } else {
        EnterRight(root, t0, st, fs);
        st, fs := PushLeft(root, node.right, st, t0, Entered(fs), f.t.r);
      }
    }
    assert out == Post(t0);
  }
}

module BuildTree {
  import opened Sequences
  import opened Trees

  // A tree of values.
  datatype Shape = Empty | Fork(v: int, l: Shape, r: Shape)

  ghost function ShapeOf(t: Tree): Shape {
    match t
    case Leaf => Empty
    case Node(n, l, r) => Fork(n.val, ShapeOf(l), ShapeOf(r))
  }

  ghost function PreValues(s: Shape): seq<int> {
    match s
    case Empty => []
    case Fork(v, l, r) => [v] + PreValues(l) + PreValues(r)
  }

  ghost function InValues(s: Shape): seq<int> {
    match s
    case Empty => []
    case Fork(v, l, r) => InValues(l) + [v] + InValues(r)
  }

  // The nodes of s hold the values v.
  ghost predicate Hold(s: seq<TreeNode>, v: seq<int>) {
    |s| == |v| && forall i :: 0 <= i < |s| ==> s[i].val == v[i]
  }

  lemma {:induction false} TraversalsHold(t: Tree)
    ensures Hold(Pre(t), PreValues(ShapeOf(t))) && Hold(In(t), InValues(ShapeOf(t)))
  {
    if t.Node? {
      TraversalsHold(t.l);
      TraversalsHold(t.r);
    }
  }

  lemma {:induction false} SameLength(s: Shape)
    ensures |PreValues(s)| == |InValues(s)|
  {
    if s.Fork? {
      SameLength(s.l);
      SameLength(s.r);
    }
  }

  lemma SliceOfSlice<X>(s: seq<X>, a: nat, b: nat, i: nat, j: nat)
    requires a <= b <= |s| && i <= j <= b - a
    ensures s[a..b][i..j] == s[a + i..a + j]
  {
    var t, u := s[a..b][i..j], s[a + i..a + j];
    forall k | 0 <= k < j - i
      ensures t[k] == u[k]
    {
      assert t[k] == s[a..b][i + k] == s[a + i + k];
    }
  }

  // Where the preorder of a tree splits into those of its subtrees.
  lemma PreSplits(s: Shape, pre: seq<int>, a: nat, b: nat)
    requires a <= b <= |pre| && s.Fork? && pre[a..b] == PreValues(s)
    ensures a < b && pre[a] == s.v && b - a == 1 + |PreValues(s.l)| + |PreValues(s.r)|
    ensures var m := a + 1 + |PreValues(s.l)|; pre[a + 1..m] == PreValues(s.l) && pre[m..b] == PreValues(s.r)
  {
    var p, m := pre[a..b], |PreValues(s.l)|;
    assert p == [s.v] + PreValues(s.l) + PreValues(s.r);
    assert p[0] == s.v && p[1..1 + m] == PreValues(s.l) && p[1 + m..|p|] == PreValues(s.r);
    SliceOfSlice(pre, a, b, 1, 1 + m);
    SliceOfSlice(pre, a, b, 1 + m, |p|);
  }

  lemma ThreeParts<X>(l: seq<X>, v: X, r: seq<X>)
    ensures var q := l + [v] + r; q[0..|l|] == l && q[|l|] == v && q[|l| + 1..|q|] == r
  {
  }

  lemma WindowParts<X>(s: seq<X>, c: nat, d: nat, l: seq<X>, v: X, r: seq<X>)
    requires c <= d <= |s| && s[c..d] == l + [v] + r
    ensures d - c == |l| + 1 + |r|
    ensures s[c + |l|] == v && s[c..c + |l|] == l && s[c + |l| + 1..d] == r
  {
    var q := s[c..d];
    ThreeParts(l, v, r);
    assert q[|l|] == s[c + |l|];
    SliceOfSlice(s, c, d, 0, |l|);
    SliceOfSlice(s, c, d, |l| + 1, |q|);
  }

  lemma PartsOfDistinct<X>(l: seq<X>, v: X, r: seq<X>)
    requires NoDuplicates(l + [v] + r)
    ensures NoDuplicates(l) && NoDuplicates(r) && v !in l
  {
    var q := l + [v] + r;
    ThreeParts(l, v, r);
    PartsDiffer(q, 0, |l|);
    PartsDiffer(q, |l| + 1, |q|);
    forall j | 0 <= j < |l|
      ensures l[j] != v
    {
      assert Differ(q, j, |l|);
    }
  }

  // Where the inorder does: at the only place that holds the root's value.
  lemma InSplits(s: Shape, ino: seq<int>, c: nat, d: nat)
    requires c <= d <= |ino| && s.Fork? && ino[c..d] == InValues(s) && NoDuplicates(InValues(s))
    ensures d - c == 1 + |InValues(s.l)| + |InValues(s.r)|
    ensures var k := c + |InValues(s.l)|;
            && ino[k] == s.v && (forall j :: c <= j < k ==> ino[j] != s.v)
            && ino[c..k] == InValues(s.l) && ino[k + 1..d] == InValues(s.r)
    ensures NoDuplicates(InValues(s.l)) && NoDuplicates(InValues(s.r))
  {
    var l, r := InValues(s.l), InValues(s.r);
    assert InValues(s) == l + [s.v] + r;
    WindowParts(ino, c, d, l, s.v, r);
    PartsOfDistinct(l, s.v, r);
    forall j | c <= j < c + |l|
      ensures ino[j] != s.v
    {
      assert ino[j] == l[j - c];
    }
  }

  lemma PartsDiffer<X>(q: seq<X>, i: nat, j: nat)
    requires NoDuplicates(q) && i <= j <= |q|
    ensures NoDuplicates(q[i..j])
  {
    var t := q[i..j];
    assert forall x, y {:trigger Differ(t, x, y)} :: 0 <= x < y < |t| ==> Differ(q, i + x, i + y);
  }

  // So the place of the root's value in the inorder tells both splits.
  lemma Splits(s: Shape, pre: seq<int>, a: nat, b: nat, ino: seq<int>, c: nat, d: nat)
    requires a <= b <= |pre| && c <= d <= |ino|
    requires pre[a..b] == PreValues(s) && ino[c..d] == InValues(s) && NoDuplicates(InValues(s))
    ensures s.Empty? <==> a >= b || c >= d
    ensures s.Fork? ==>
      var m := |InValues(s.l)|;
      && a + m + 1 <= b && c + m < d && pre[a] == s.v == ino[c + m]
      && (forall j :: c <= j < c + m ==> ino[j] != s.v)
      && pre[a + 1..a + m + 1] == PreValues(s.l) && ino[c..c + m] == InValues(s.l)
      && pre[a + m + 1..b] == PreValues(s.r) && ino[c + m + 1..d] == InValues(s.r)
      && NoDuplicates(InValues(s.l)) && NoDuplicates(InValues(s.r))
  {
    SameLength(s);
    if s.Fork? {
      SameLength(s.l);
      PreSplits(s, pre, a, b);
      InSplits(s, ino, c, d);
    }
  }

  // The search loop of doBuildTree (lintcode/tree_traverse.md:158-163)
  method Search(ino: seq<int>, c: nat, d: nat, v: int, ghost at: nat) returns (k: nat)
    requires c <= at < d <= |ino| && ino[at] == v && forall j :: c <= j < at ==> ino[j] != v
    ensures k == at
  {
    k := c;
    while k < d
      invariant c <= k <= at
    {
      if ino[k] == v {
        break;
      }
      k := k + 1;
    }
  }

  // doBuildTree (lintcode/tree_traverse.md:151-167)
  method DoBuildTree(pre: seq<int>, a: nat, b: nat, ino: seq<int>, c: nat, d: nat, ghost s: Shape)
    returns (node: TreeNode?, ghost t: Tree)
    requires a <= b <= |pre| && c <= d <= |ino|
    requires pre[a..b] == PreValues(s) && ino[c..d] == InValues(s) && NoDuplicates(InValues(s))
    ensures Is(node, t) && Wf(t) && fresh(Nodes(t)) && ShapeOf(t) == s
    ensures Hold(Pre(t), pre[a..b]) && Hold(In(t), ino[c..d])
    decreases s
  {
    Splits(s, pre, a, b, ino, c, d);
    if a >= b || c >= d {
      TraversalsHold(Leaf);
      return null, Leaf;
    }
    var k := Search(ino, c, d, pre[a], c + |InValues(s.l)|);
    var root := new TreeNode(pre[a]);
    var left, right;
    ghost var l, r;
    left, l := DoBuildTree(pre, a + 1, a + k - c + 1, ino, c, k, s.l);
    SetLeft(root, left, l);
    NodesAllocated(l);
    right, r := DoBuildTree(pre, a + k - c + 1, b, ino, k + 1, d, s.r);
    assert Is(root.left, l) && Nodes(l) !! Nodes(r);
    SetRight(root, right, l, r);
    node, t := root, Node(root, l, r);
    TraversalsHold(t);
    assert fresh({root} + Nodes(l) + Nodes(r));
  }

  // The two assignments to the new node (lintcode/tree_traverse.md:164-165)
  method SetLeft(root: TreeNode, left: TreeNode?, ghost l: Tree)
    requires Is(left, l) && root !in Nodes(l)
    modifies root`left
    ensures root.left == left && Is(left, l)
  {
    NodesAllocated(l);
    root.left := left;
  }

  method SetRight(root: TreeNode, right: TreeNode?, ghost l: Tree, ghost r: Tree)
    requires Is(root.left, l) && Is(right, r) && Wf(l) && Wf(r)
    requires root !in Nodes(l) && root !in Nodes(r) && Nodes(l) !! Nodes(r)
    modifies root`right
    ensures Is(root, Node(root, l, r)) && Wf(Node(root, l, r))
    ensures Nodes(Node(root, l, r)) == {root} + Nodes(l) + Nodes(r)
  {
    NodesAllocated(l);
    NodesAllocated(r);
    root.right := right;
  }

  // buildTree (lintcode/tree_traverse.md:147-149): from the preorder and the
  // inorder of any tree with distinct values, that tree is rebuilt.
  method BuildTree(preorder: seq<int>, inorder: seq<int>, ghost s: Shape) returns (root: TreeNode?, ghost t: Tree)
    requires preorder == PreValues(s) && inorder == InValues(s) && NoDuplicates(InValues(s))
    ensures Is(root, t) && Wf(t) && fresh(Nodes(t)) && ShapeOf(t) == s
    ensures |Pre(t)| == |preorder| && forall i :: 0 <= i < |preorder| ==> Pre(t)[i].val == preorder[i]
    ensures |In(t)| == |inorder| && forall i :: 0 <= i < |inorder| ==> In(t)[i].val == inorder[i]
  {
    assert preorder[0..|preorder|] == preorder && inorder[0..|inorder|] == inorder;
    root, t := DoBuildTree(preorder, 0, |preorder|, inorder, 0, |inorder|, s);
  }

  // So no two trees with distinct values have both traversals in common.
  lemma {:induction false} TraversalsDetermine(s: Shape, s': Shape)
    requires PreValues(s) == PreValues(s') && InValues(s) == InValues(s') && NoDuplicates(InValues(s))
    ensures s == s'
  {
    if s.Fork? && s'.Fork? {
      var p, q := PreValues(s), InValues(s);
      assert p[0..|p|] == p && q[0..|q|] == q;
      PreSplits(s, p, 0, |p|);
      PreSplits(s', p, 0, |p|);
      InSplits(s, q, 0, |q|);
      InSplits(s', q, 0, |q|);
      var k, k' := |InValues(s.l)|, |InValues(s'.l)|;
      assert q[k] == s.v == s'.v == q[k'];
      Indices(q);
      assert k == k';
      SameLength(s.l);
      SameLength(s'.l);
      TraversalsDetermine(s.l, s'.l);
      TraversalsDetermine(s.r, s'.r);
    }
  }
}
