// The three ways of lintcode/tree_path.md:77-149 to turn a tree, in place, into
// the list of its nodes in preorder, linked by right.
module Flatten {
  import opened Sequences
  import opened Trees

  // From a, following right visits s and leads to b; left is null on the way.
  ghost predicate Segment(a: TreeNode?, s: seq<TreeNode>, b: TreeNode?)
    reads set x | x in s
  {
    if s == [] then a == b else a == s[0] && s[0].left == null && Segment(s[0].right, s[1..], b)
  }

  // The right link at index i leads to the next node, or in the end to b.
  ghost predicate LeadsOn(s: seq<TreeNode>, i: int, b: TreeNode?)
    requires 0 <= i < |s|
    reads set x | x in s
  {
    s[i].left == null && s[i].right == if i + 1 < |s| then s[i + 1] else b
  }

  lemma {:induction false} SegmentByIndex(a: TreeNode?, s: seq<TreeNode>, b: TreeNode?)
    ensures Segment(a, s, b) <==>
            a == (if s == [] then b else s[0]) && forall i :: 0 <= i < |s| ==> LeadsOn(s, i, b)
    decreases |s|
  {
    if s != [] {
      var u := s[1..];
      SegmentByIndex(s[0].right, u, b);
      forall i | 0 <= i < |u|
        ensures LeadsOn(u, i, b) <==> LeadsOn(s, i + 1, b)
      {
      }
      assert (forall i :: 0 <= i < |s| ==> LeadsOn(s, i, b)) ==> LeadsOn(s, 0, b);
      assert forall i :: 1 <= i < |s| ==> (LeadsOn(s, i, b) <==> LeadsOn(u, i - 1, b));
    }
  }

  lemma {:induction false} Join(a: TreeNode?, s: seq<TreeNode>, b: TreeNode?, u: seq<TreeNode>, c: TreeNode?)
    requires Segment(a, s, b) && Segment(b, u, c)
    ensures Segment(a, s + u, c)
  {
    if s == [] {
      assert s + u == u;
    } else {
      Join(s[0].right, s[1..], b, u, c);
      assert (s + u)[1..] == s[1..] + u;
    }
  }

  lemma {:induction false} Extend(a: TreeNode?, s: seq<TreeNode>, n: TreeNode)
    requires Segment(a, s, n) && n.left == null
    ensures Segment(a, s + [n], n.right)
  {
    assert Segment(n, [n], n.right);
    Join(a, s, n, [n], n.right);
  }

  // A chain read from its node at index k on.
  lemma {:induction false} Split(a: TreeNode?, s: seq<TreeNode>, b: TreeNode?, k: nat)
    requires Segment(a, s, b) && k < |s|
    ensures Segment(a, s[..k], s[k]) && Segment(s[k], s[k..], b)
    ensures s[k].left == null && s[k].right == (if k + 1 < |s| then s[k + 1] else b)
  {
    if k > 0 {
      Split(s[0].right, s[1..], b, k - 1);
      assert s[..k][1..] == s[1..][..k - 1] && s[1..][k - 1..] == s[k..];
    }
  }

  // flatten, first recursive form (lintcode/tree_path.md:85-99)
  method FlattenRecursive(root: TreeNode?, ghost t: Tree)
    requires Is(root, t) && Wf(t)
    modifies Nodes(t)
    ensures Segment(root, Pre(t), null)
    decreases t
  {
    if root == null {
      return;
    }
    NodesAllocated(t);
    PreNodes(t.l);
    PreNodes(t.r);
    assert Is(root.right, t.r);
    FlattenRecursive(root.left, t.l);
    assert Is(root.right, t.r) && Segment(root.left, Pre(t.l), null);
    FlattenRecursive(root.right, t.r);
    assert Segment(root.left, Pre(t.l), null);
    PreDistinct(t.l);
    PartsApart(t);
    Splice(root, Pre(t.l), Pre(t.r));
  }

  // The chain of the left child is put between root and the chain of the right
  // child (lintcode/tree_path.md:92-98).
  method Splice(root: TreeNode, ghost u: seq<TreeNode>, ghost v: seq<TreeNode>)
    requires Segment(root.left, u, null) && Segment(root.right, v, null)
    requires NoDuplicates(u) && root !in u && root !in v && forall x :: x in u ==> x !in v
    modifies root, set x | x in u
    ensures Segment(root, [root] + u + v, null)
  {
    var right := root.right;
    root.right := root.left;
    root.left := null;
    ghost var c := [root] + u;
    AddedDiffers(u, root);
    assert Segment(root, c, null) && Segment(right, v, null);
    var r := root;
    ghost var k := 0;
    while r != null && r.right != null
      invariant k < |c| && r == c[k] && Segment(root, c, null)
      decreases |c| - k
    {
      Split(root, c, null, k);
      r := r.right;
      k := k + 1;
    }
    Split(root, c, null, k);
    assert [root] + u + v == c + v;
    Attach(root, r, right, c, v);
  }

  // The last node of the one chain goes on to the other (lintcode/tree_path.md:98).
  method Attach(ghost root: TreeNode, r: TreeNode, right: TreeNode?, ghost c: seq<TreeNode>, ghost v: seq<TreeNode>)
    requires c != [] && r == c[|c| - 1] && NoDuplicates(c) && forall x :: x in c ==> x !in v
    requires Segment(root, c, null) && Segment(right, v, null)
    modifies r
    ensures Segment(root, c + v, null)
  {
    ghost var k := |c| - 1;
    ghost var before := c[..k];
    Split(root, c, null, k);
    assert forall i :: 0 <= i < k ==> Differ(c, i, k) && before[i] == c[i];
    assert r !in before && r in c && Segment(root, before, r);
    r.right := right;
    assert Segment(root, before, r) && Segment(right, v, null);
    assert Segment(r, [r], right);
    Join(root, before, r, [r], right);
    assert before + [r] == c;
    Join(root, c, right, v, null);
  }

  // The preorders of the stacked trees, the top one first.
  ghost function StackPre(ts: seq<Tree>): seq<TreeNode> {
    if ts == [] then [] else Pre(ts[|ts| - 1]) + StackPre(ts[..|ts| - 1])
  }

  ghost function StackNodes(ts: seq<Tree>): set<TreeNode> {
    if ts == [] then {} else Nodes(ts[|ts| - 1]) + StackNodes(ts[..|ts| - 1])
  }

  // st holds the roots of the nonempty trees ts, which share no node.
  ghost predicate Stacked(st: seq<TreeNode>, ts: seq<Tree>)
    reads StackNodes(ts)
  {
    if ts == [] then st == []
    else
      var t := ts[|ts| - 1];
      && |st| == |ts| && t.Node? && Wf(t) && Is(st[|st| - 1], t)
      && Nodes(t) !! StackNodes(ts[..|ts| - 1])
      && Stacked(st[..|st| - 1], ts[..|ts| - 1])
  }

  lemma {:induction false} StackAllocated(ts: seq<Tree>)
    ensures forall x :: x in StackNodes(ts) ==> allocated(x)
  {
    if ts != [] {
      NodesAllocated(ts[|ts| - 1]);
      StackAllocated(ts[..|ts| - 1]);
    }
  }

  lemma Pushed(st: seq<TreeNode>, ts: seq<Tree>, n: TreeNode, t: Tree)
    requires Stacked(st, ts) && t.Node? && Wf(t) && Is(n, t) && Nodes(t) !! StackNodes(ts)
    ensures Stacked(st + [n], ts + [t])
    ensures StackPre(ts + [t]) == Pre(t) + StackPre(ts) && StackNodes(ts + [t]) == Nodes(t) + StackNodes(ts)
  {
  }

  // root's left child moves to the right and its right child to the stack
  // (lintcode/tree_path.md:113-116).
  method Turn(root: TreeNode, st: seq<TreeNode>, ghost t: Tree, ghost ts: seq<Tree>)
    returns (st': seq<TreeNode>, ghost us: seq<Tree>)
    requires Is(root, t) && Wf(t) && Stacked(st, ts) && Nodes(t) !! StackNodes(ts)
    modifies root
    ensures root.left == null && Is(root.right, t.l) && Stacked(st', us)
    ensures Nodes(t.l) !! StackNodes(us) && StackNodes(us) == Nodes(t.r) + StackNodes(ts)
    ensures Pre(t) + StackPre(ts) == [root] + (Pre(t.l) + StackPre(us))
    ensures root !in Nodes(t.l) && root !in StackNodes(us)
  {
    NodesAllocated(t);
    StackAllocated(ts);
    assert Is(root.left, t.l) && Is(root.right, t.r);
    var r := root.right;
    root.right := root.left;
    root.left := null;
    assert Is(root.right, t.l) && Is(r, t.r) && Stacked(st, ts);
    st', us := st, ts;
    if r != null {
      st' := st' + [r];
      us := us + [t.r];
      Pushed(st, ts, r, t.r);
    }
    PreFirst(t, StackPre(ts));
    assert StackPre(us) == Pre(t.r) + StackPre(ts);
  }

  lemma PreFirst(t: Tree, s: seq<TreeNode>)
    requires t.Node?
    ensures Pre(t) + s == [t.n] + (Pre(t.l) + (Pre(t.r) + s))
  {
  }

  // The top of the stack and what is below it.
  lemma Popped(st: seq<TreeNode>, ts: seq<Tree>)
    requires Stacked(st, ts) && st != []
    ensures var top, below := ts[|ts| - 1], ts[..|ts| - 1];
            && top.Node? && Wf(top) && Is(st[|st| - 1], top) && Stacked(st[..|st| - 1], below)
            && Nodes(top) !! StackNodes(below) && StackNodes(ts) == Nodes(top) + StackNodes(below)
            && StackPre(ts) == Pre(top) + StackPre(below)
  {
  }

  // flattenDFS (lintcode/tree_path.md:110-125): the stack holds the right
  // subtrees that come after the tree of root.
  method FlattenDFS(root: TreeNode?, st: seq<TreeNode>, ghost t: Tree, ghost ts: seq<Tree>) returns (st': seq<TreeNode>)
    requires Is(root, t) && Wf(t) && Stacked(st, ts) && Nodes(t) !! StackNodes(ts)
    modifies if root == null then {} else Nodes(t) + StackNodes(ts)
    ensures root == null ==> st' == st
    ensures root != null ==> st' == [] && Segment(root, Pre(t) + StackPre(ts), null)
    decreases |Pre(t)| + |StackPre(ts)|, 0
  {
    st' := st;
    if root == null {
      return;
    }
    ghost var us;
    st', us := Turn(root, st, t, ts);
    ghost var rest := Pre(t.l) + StackPre(us);
    assert |rest| + 1 == |Pre(t) + StackPre(ts)|;
    NodesAllocated(t.l);
    StackAllocated(us);
    if root.right != null {
      st' := FlattenDFS(root.right, st', t.l, us);
      First(root, rest);
      return;
    }
    assert rest == StackPre(us);
    st' := FlattenNext(root, st', us);
  }

  // The rest of flattenDFS for a node without a left child
  // (lintcode/tree_path.md:121-124)
  method FlattenNext(root: TreeNode, st: seq<TreeNode>, ghost us: seq<Tree>) returns (st': seq<TreeNode>)
    requires root.left == root.right == null && Stacked(st, us) && root !in StackNodes(us)
    modifies {root} + StackNodes(us)
    ensures st' == [] && Segment(root, [root] + StackPre(us), null)
    decreases |StackPre(us)|, 1
  {
    st' := st;
    if st' != [] {
      st' := TakeNext(root, st', us);
      st' := FlattenDFS(root.right, st', us[|us| - 1], us[..|us| - 1]);
    }
    First(root, StackPre(us));
  }

  // The next subtree comes off the stack (lintcode/tree_path.md:122).
  method TakeNext(root: TreeNode, st: seq<TreeNode>, ghost us: seq<Tree>) returns (st': seq<TreeNode>)
    requires Stacked(st, us) && st != [] && root !in StackNodes(us)
    modifies root`right
    ensures var top, below := us[|us| - 1], us[..|us| - 1];
            && root.right != null && Wf(top) && Is(root.right, top) && Stacked(st', below)
            && Nodes(top) !! StackNodes(below) && StackNodes(us) == Nodes(top) + StackNodes(below)
            && StackPre(us) == Pre(top) + StackPre(below)
  {
    Popped(st, us);
    StackAllocated(us);
    root.right := st[|st| - 1];
    st' := st[..|st| - 1];
    assert Is(root.right, us[|us| - 1]) && Stacked(st', us[..|us| - 1]);
  }

  lemma First(root: TreeNode, s: seq<TreeNode>)
    requires root.left == null && Segment(root.right, s, null)
    ensures Segment(root, [root] + s, null)
  {
  }

  // flatten, second recursive form (lintcode/tree_path.md:105-108)
  method FlattenWithStack(root: TreeNode?, ghost t: Tree)
    requires Is(root, t) && Wf(t)
    modifies Nodes(t)
    ensures Segment(root, Pre(t), null)
  {
    var st := FlattenDFS(root, [], t, []);
    assert Pre(t) + StackPre([]) == Pre(t);
  }

  // cur is the last node of the chain done, whose own links are still to be set.
  ghost predicate Ends(root: TreeNode, done: seq<TreeNode>, cur: TreeNode?)
    reads set x | x in done
  {
    if done == [] then cur == null
    else cur == done[|done| - 1] && cur !in done[..|done| - 1] && Segment(root, done[..|done| - 1], cur)
  }

  // n becomes the end of the chain (lintcode/tree_path.md:139-144).
  method Advance(root: TreeNode, cur: TreeNode?, n: TreeNode, ghost done: seq<TreeNode>) returns (cur': TreeNode)
    requires Ends(root, done, cur) && n !in done && (done == [] ==> n == root)
    modifies if cur == null then {} else {cur}
    ensures cur' == n && Ends(root, done + [n], n)
  {
    if cur == null {
      cur' := n;
    } else {
      ghost var before := done[..|done| - 1];
      assert Segment(root, before, cur);
      cur.left := null;
      cur.right := n;
      assert Segment(root, before, cur);
      Extend(root, before, cur);
      assert before + [done[|done| - 1]] == done;
      cur' := cur.right;
    }
    assert (done + [n])[..|done|] == done;
  }

  // The children of a popped node go on the stack, the left one last
  // (lintcode/tree_path.md:145-146).
  method PushChildren(n: TreeNode, st: seq<TreeNode>, ghost t: Tree, ghost ts: seq<Tree>)
    returns (st': seq<TreeNode>, ghost ts': seq<Tree>)
    requires t.Node? && Is(n, t) && Wf(t) && Stacked(st, ts) && Nodes(t) !! StackNodes(ts)
    ensures Stacked(st', ts')
    ensures [n] + StackPre(ts') == Pre(t) + StackPre(ts)
    ensures StackNodes(ts') == Nodes(t.l) + Nodes(t.r) + StackNodes(ts)
    ensures st' == [] ==> n.left == n.right == null
  {
    st', ts' := st, ts;
    if n.right != null {
      var r: TreeNode := n.right;
      Pushed(st', ts', r, t.r);
      st' := st' + [r];
      ts' := ts' + [t.r];
    }
    assert StackPre(ts') == Pre(t.r) + StackPre(ts);
    if n.left != null {
      var l: TreeNode := n.left;
      Pushed(st', ts', l, t.l);
      st' := st' + [l];
      ts' := ts' + [t.l];
    }
    assert StackPre(ts') == Pre(t.l) + (Pre(t.r) + StackPre(ts));
    PreFirst(t, StackPre(ts));
  }

  // The finished chain and the preorders of the stacked trees make up the
  // preorder of the tree.
  ghost predicate Progress(t: Tree, root: TreeNode, st: seq<TreeNode>, ts: seq<Tree>, done: seq<TreeNode>,
                           cur: TreeNode?)
    reads StackNodes(ts), set x | x in done
  {
    && Stacked(st, ts) && StackNodes(ts) <= Nodes(t) && Pre(t) == done + StackPre(ts)
    && Ends(root, done, cur) && (done == [] ==> st == [root])
    && forall n :: n in done ==> n in Nodes(t) && n !in StackNodes(ts)
  }

  // One round of the loop below.
  method Round(ghost t: Tree, root: TreeNode, st: seq<TreeNode>, ghost ts: seq<Tree>, ghost done: seq<TreeNode>,
               cur: TreeNode?)
    returns (st': seq<TreeNode>, ghost ts': seq<Tree>, cur': TreeNode)
    requires Progress(t, root, st, ts, done, cur) && st != []
    modifies if cur == null then {} else {cur}
    ensures cur' == st[|st| - 1] && Progress(t, root, st', ts', done + [cur'], cur')
    ensures st' == [] ==> cur'.left == cur'.right == null
    ensures |StackPre(ts')| < |StackPre(ts)|
  {
    ghost var top, below := ts[|ts| - 1], ts[..|ts| - 1];
    Popped(st, ts);
    StackAllocated(ts);
    assert cur != null ==> cur in done;
    var n := st[|st| - 1];
    cur' := Advance(root, cur, n, done);
    assert Is(n, top) && Stacked(st[..|st| - 1], below);
    st', ts' := PushChildren(n, st[..|st| - 1], top, below);
    Regroup(done, n, StackPre(ts'));
  }

  // flatten with an explicit stack (lintcode/tree_path.md:131-148)
  method FlattenIterative(root: TreeNode?, ghost t: Tree)
    requires Is(root, t) && Wf(t)
    modifies Nodes(t)
    ensures Segment(root, Pre(t), null)
  {
    if root == null {
      return;
    }
    NodesAllocated(t);
    var st: seq<TreeNode> := [root];
    ghost var ts: seq<Tree>, done: seq<TreeNode> := [t], [];
    var cur: TreeNode? := null;
    StartsWithTree(root, t);
    while st != []
      invariant Progress(t, root, st, ts, done, cur)
      invariant st == [] ==> cur != null && cur.left == cur.right == null
      decreases |StackPre(ts)|
    {
      var n: TreeNode;
      st, ts, n := Round(t, root, st, ts, done, cur);
      cur := n;
      done := done + [n];
    }
    assert done == Pre(t);
    EndIsChain(root, done, cur);
  }

  lemma StartsWithTree(root: TreeNode, t: Tree)
    requires Is(root, t) && Wf(t)
    ensures Progress(t, root, [root], [t], [], null)
  {
  }

  lemma EndIsChain(root: TreeNode, done: seq<TreeNode>, cur: TreeNode)
    requires Ends(root, done, cur) && cur.left == cur.right == null
    ensures Segment(root, done, null)
  {
    var before := done[..|done| - 1];
    Extend(root, before, cur);
    assert before + [cur] == done;
  }
}
