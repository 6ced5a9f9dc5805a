// Binary trees of nodes in memory, and the trees they stand for.
module Trees {
  import opened Sequences

  class TreeNode {
    const val: int
    var left: TreeNode?
    var right: TreeNode?

    constructor (val: int)
      ensures this.val == val && left == null && right == null
    {
      this.val := val;
      left, right := null, null;
    }
  }

  // A tree of nodes, each node once.
  datatype Tree = Leaf | Node(n: TreeNode, l: Tree, r: Tree)

  ghost function Nodes(t: Tree): set<TreeNode> {
    match t
    case Leaf => {}
    case Node(n, l, r) => {n} + Nodes(l) + Nodes(r)
  }

  ghost predicate Wf(t: Tree) {
    match t
    case Leaf => true
    case Node(n, l, r) => n !in Nodes(l) && n !in Nodes(r) && Nodes(l) !! Nodes(r) && Wf(l) && Wf(r)
  }

  // root is the root of t in memory.
  ghost predicate Is(root: TreeNode?, t: Tree)
    reads Nodes(t)
  {
    match t
    case Leaf => root == null
    case Node(n, l, r) => root == n && Is(n.left, l) && Is(n.right, r)
  }

  ghost function Pre(t: Tree): seq<TreeNode> {
    match t
    case Leaf => []
    case Node(n, l, r) => [n] + Pre(l) + Pre(r)
  }

  ghost function In(t: Tree): seq<TreeNode> {
    match t
    case Leaf => []
    case Node(n, l, r) => In(l) + [n] + In(r)
  }

  ghost function Post(t: Tree): seq<TreeNode> {
    match t
    case Leaf => []
    case Node(n, l, r) => Post(l) + Post(r) + [n]
  }

  function Values(s: seq<TreeNode>): (v: seq<int>)
    ensures |v| == |s| && forall i :: 0 <= i < |s| ==> v[i] == s[i].val
  {
    seq(|s|, i requires 0 <= i < |s| => s[i].val)
  }

  lemma ValuesAdd(s: seq<TreeNode>, n: TreeNode)
    ensures Values(s + [n]) == Values(s) + [n.val]
  {
  }

  // t is t0 or lies below it.
  ghost predicate Below(t: Tree, t0: Tree) {
    t == t0 || (t0.Node? && (Below(t, t0.l) || Below(t, t0.r)))
  }

  lemma {:induction false} BelowIs(root: TreeNode?, t: Tree, t0: Tree)
    requires Is(root, t0) && Below(t, t0) && t.Node?
    ensures Is(t.n, t) && Below(t.l, t0) && Below(t.r, t0)
    ensures t.n.left == if t.l.Node? then t.l.n else null
    ensures t.n.right == if t.r.Node? then t.r.n else null
  {
    if t != t0 {
      if Below(t, t0.l) {
        BelowIs(root.left, t, t0.l);
      } else {
        BelowIs(root.right, t, t0.r);
      }
    } else {
      assert Below(t0.l, t0.l) && Below(t0.r, t0.r);
    }
  }

  // The nodes of a tree are those of the trees below it, and their places in the
  // three orders are as follows.
  lemma {:induction false} NodeIsBelow(t: Tree, x: TreeNode) returns (u: Tree)
    requires x in Nodes(t)
    ensures Below(u, t) && u.Node? && u.n == x
  {
    if x == t.n {
      u := t;
    } else if x in Nodes(t.l) {
      u := NodeIsBelow(t.l, x);
    } else {
      u := NodeIsBelow(t.r, x);
    }
  }

  lemma {:induction false} BelowInNodes(t: Tree, u: Tree)
    requires Below(u, t)
    ensures Nodes(u) <= Nodes(t)
  {
    if u != t {
      if Below(u, t.l) {
        BelowInNodes(t.l, u);
      } else {
        BelowInNodes(t.r, u);
      }
    }
  }

  // Preorder: a node, its left subtree, its right subtree.
  lemma {:induction false} PreOrder(t: Tree, u: Tree, x: TreeNode, y: TreeNode)
    requires Below(u, t) && u.Node?
    requires (x == u.n && y in Nodes(u.l) + Nodes(u.r)) || (x in Nodes(u.l) && y in Nodes(u.r))
    ensures Before(Pre(t), x, y)
  {
    var n, l, r := [t.n], Pre(t.l), Pre(t.r);
    if u == t {
      PreNode(t.l, x);
      PreNode(t.l, y);
      PreNode(t.r, x);
      PreNode(t.r, y);
      BeforeAcross(n, l, r, x, y);
    } else if Below(u, t.l) {
      PreOrder(t.l, u, x, y);
      BeforeIn(n, l, r, x, y);
    } else {
      PreOrder(t.r, u, x, y);
      BeforeIn(n + l, r, [], x, y);
      assert n + l + r + [] == Pre(t);
    }
  }

  // Inorder: the left subtree, the node, the right subtree.
  lemma {:induction false} InOrder(t: Tree, u: Tree, x: TreeNode, y: TreeNode)
    requires Below(u, t) && u.Node?
    requires (x in Nodes(u.l) && (y == u.n || y in Nodes(u.r))) || (x == u.n && y in Nodes(u.r))
    ensures Before(In(t), x, y)
  {
    var n, l, r := [t.n], In(t.l), In(t.r);
    if u == t {
      InNode(t.l, x);
      InNode(t.l, y);
      InNode(t.r, x);
      InNode(t.r, y);
      BeforeAcross(l, n, r, x, y);
    } else if Below(u, t.l) {
      InOrder(t.l, u, x, y);
      BeforeIn([], l, n + r, x, y);
      assert [] + l + (n + r) == In(t);
    } else {
      InOrder(t.r, u, x, y);
      BeforeIn(l + n, r, [], x, y);
      assert l + n + r + [] == In(t);
    }
  }

  // Postorder: the left subtree, the right subtree, the node.
  lemma {:induction false} PostOrder(t: Tree, u: Tree, x: TreeNode, y: TreeNode)
    requires Below(u, t) && u.Node?
    requires (x in Nodes(u.l) && y in Nodes(u.r)) || (x in Nodes(u.l) + Nodes(u.r) && y == u.n)
    ensures Before(Post(t), x, y)
  {
    var n, l, r := [t.n], Post(t.l), Post(t.r);
    if u == t {
      PostNode(t.l, x);
      PostNode(t.l, y);
      PostNode(t.r, x);
      PostNode(t.r, y);
      BeforeAcross(l, r, n, x, y);
    } else if Below(u, t.l) {
      PostOrder(t.l, u, x, y);
      BeforeIn([], l, r + n, x, y);
      assert [] + l + (r + n) == Post(t);
    } else {
      PostOrder(t.r, u, x, y);
      BeforeIn(l, r, n, x, y);
    }
  }

  // In every order stand the nodes of the tree, and no others.
  lemma {:induction false} PreNode(t: Tree, x: TreeNode)
    ensures x in Pre(t) <==> x in Nodes(t)
  {
    if t.Node? {
      PreNode(t.l, x);
      PreNode(t.r, x);
    }
  }

  lemma {:induction false} InNode(t: Tree, x: TreeNode)
    ensures x in In(t) <==> x in Nodes(t)
  {
    if t.Node? {
      InNode(t.l, x);
      InNode(t.r, x);
    }
  }

  lemma {:induction false} PostNode(t: Tree, x: TreeNode)
    ensures x in Post(t) <==> x in Nodes(t)
  {
    if t.Node? {
      PostNode(t.l, x);
      PostNode(t.r, x);
    }
  }

  lemma {:induction false} PreNodes(t: Tree)
    ensures forall x :: x in Pre(t) <==> x in Nodes(t)
  {
    if t.Node? {
      PreNodes(t.l);
      PreNodes(t.r);
    }
  }

  // The preorders of the two subtrees share nothing with each other or the root.
  lemma PartsApart(t: Tree)
    requires Wf(t) && t.Node?
    ensures t.n !in Pre(t.l) && t.n !in Pre(t.r)
    ensures forall x :: x in Pre(t.l) ==> x !in Pre(t.r)
  {
    PreNode(t.l, t.n);
    PreNode(t.r, t.n);
    forall x | x in Pre(t.l)
      ensures x !in Pre(t.r)
    {
      PreNode(t.l, x);
      PreNode(t.r, x);
    }
  }

  lemma {:induction false} PreDistinct(t: Tree)
    requires Wf(t)
    ensures NoDuplicates(Pre(t))
  {
    if t.Node? {
      PreDistinct(t.l);
      PreDistinct(t.r);
      PartsApart(t);
      AddedDiffers(Pre(t.l), t.n);
      forall x | x in [t.n] + Pre(t.l)
        ensures x !in Pre(t.r)
      {
        assert x == t.n || x in Pre(t.l);
      }
      JoinedDiffers([t.n] + Pre(t.l), Pre(t.r));
    }
  }

  // So in a tree that has every node once each stands once in every order.
  lemma {:induction false} PostDistinct(t: Tree)
    requires Wf(t)
    ensures NoDuplicates(Post(t))
  {
    if t.Node? {
      PostDistinct(t.l);
      PostDistinct(t.r);
      PostNode(t.l, t.n);
      PostNode(t.r, t.n);
      forall x | x in Post(t.l)
        ensures x !in Post(t.r)
      {
        PostNode(t.l, x);
        PostNode(t.r, x);
      }
      JoinedDiffers(Post(t.l), Post(t.r));
      AddedDiffers(Post(t.l) + Post(t.r), t.n);
    }
  }

  lemma {:induction false} InDistinct(t: Tree)
    requires Wf(t)
    ensures NoDuplicates(In(t))
  {
    if t.Node? {
      InDistinct(t.l);
      InDistinct(t.r);
      InNode(t.l, t.n);
      InNode(t.r, t.n);
      AddedDiffers(In(t.l), t.n);
      forall x | x in In(t.l) + [t.n]
        ensures x !in In(t.r)
      {
        assert x == t.n || x in In(t.l);
        InNode(t.l, x);
        InNode(t.r, x);
      }
      JoinedDiffers(In(t.l) + [t.n], In(t.r));
    }
  }

  // The nodes of a tree at hand exist in memory.
  lemma {:induction false} NodesAllocated(t: Tree)
    ensures forall x :: x in Nodes(t) ==> allocated(x)
  {
    if t.Node? {
      NodesAllocated(t.l);
      NodesAllocated(t.r);
    }
  }
}
