// clib/heap_interface.c: a priority queue of intrusive nodes. The heap never
// moves data; it relinks parent, left and right. The ghost field `order` lists
// the nodes in level order, and every method states what becomes of it.
module PointerHeap {
  import opened Bits
  import opened ArrayHeap

  class HeapNode {
    var parent: HeapNode?
    var left: HeapNode?
    var right: HeapNode?

    constructor () {
    }
  }

  // The node at level-order position i, or null outside the tree.
  ghost function NodeAt(s: seq<HeapNode>, i: int): HeapNode? {
    if 1 <= i <= |s| then At(s, i) else null
  }

  // The three links of every node of s at one moment.
  datatype Links = Links(parent: HeapNode?, left: HeapNode?, right: HeapNode?)

  ghost function Snapshot(s: seq<HeapNode>): map<HeapNode, Links>
    reads s
  {
    map n | n in s :: Links(n.parent, n.left, n.right)
  }

  ghost predicate LinkedAt(m: map<HeapNode, Links>, s: seq<HeapNode>, i: int) {
    && 1 <= i <= |s| && At(s, i) in m
    && m[At(s, i)] == Links(NodeAt(s, i / 2), NodeAt(s, 2 * i), NodeAt(s, 2 * i + 1))
  }

  // The nodes of s, and only they, form the complete binary tree whose level
  // order is s: all three links of each node agree with its position.
  ghost predicate LinkedIn(m: map<HeapNode, Links>, s: seq<HeapNode>) {
    && Distinct(s)
    && forall i :: 1 <= i <= |s| ==> LinkedAt(m, s, i)
  }

  ghost predicate Linked(s: seq<HeapNode>)
    reads s
  {
    LinkedIn(Snapshot(s), s)
  }

  // So the children of the node at i are those at 2 * i and 2 * i + 1, counted
  // from 1.
  lemma LinksInMemory(s: seq<HeapNode>, i: nat)
    requires Linked(s) && 1 <= i <= |s|
    ensures s[i - 1].parent == if i > 1 then s[i / 2 - 1] else null
    ensures s[i - 1].left == if 2 * i <= |s| then s[2 * i - 1] else null
    ensures s[i - 1].right == if 2 * i < |s| then s[2 * i] else null
  {
    assert LinkedAt(Snapshot(s), s, i);
  }

  // heapGetOffset (clib/heap_interface.c:44-49)
  method GetOffset(n: nat) returns (offset: nat)
    ensures n <= 1 ==> offset == 0
    ensures n >= 2 ==> offset == Pow2(Log2(n) - 1)
  {
    offset := 1;
    var half := n / 2;
    ghost var k := 0;
    while offset <= half
      invariant offset == Pow2(k) && (k > 0 ==> Pow2(k - 1) <= half)
      decreases half + 1 - offset
    {
      offset := 2 * offset;
      k := k + 1;
    }
    if k > 0 {
      Log2Unique(n, k);
    }
    offset := offset / 2;
  }

  ghost predicate OffsetAt(offset: nat, k: nat) {
    offset == if k == 0 then 0 else Pow2(k - 1)
  }

  ghost predicate OnPath(s: seq<HeapNode>, n: nat, k: nat, now: HeapNode) {
    1 <= n <= |s| && k <= Log2(n) && NodeAt(s, Shr(n, k)) == now
  }

  lemma Descend(s: seq<HeapNode>, n: nat, k: nat, now: HeapNode, offset: nat)
    requires Linked(s) && OnPath(s, n, k, now) && OffsetAt(offset, k) && offset > 0
    ensures k > 0 && OffsetAt(offset / 2, k - 1)
    ensures var next := if BitAnd(n, offset) != 0 then now.right else now.left;
            next != null && OnPath(s, n, k - 1, next)
  {
    ShrStep(n, k);
    AndBit(n, k - 1);
    ShrBounds(n, k);
    ShrBounds(n, k - 1);
    assert LinkedAt(Snapshot(s), s, Shr(n, k));
  }

  // What the transposition of a and b makes of a link.
  ghost function Exchange(x: HeapNode?, a: HeapNode, b: HeapNode): HeapNode? {
    if x == a then b else if x == b then a else x
  }

  ghost function ExchangeLinks(x: Links, a: HeapNode, b: HeapNode): Links {
    Links(Exchange(x.parent, a, b), Exchange(x.left, a, b), Exchange(x.right, a, b))
  }

  // a and b have changed places between m and m': the new links are the old
  // ones with the two names exchanged, at both ends of every link.
  ghost predicate Exchanged(m: map<HeapNode, Links>, m': map<HeapNode, Links>, a: HeapNode, b: HeapNode) {
    && m.Keys == m'.Keys && a in m && b in m
    && m'[b] == ExchangeLinks(m[a], a, b) && m'[a] == ExchangeLinks(m[b], a, b)
    && forall n :: n in m && n != a && n != b ==> m'[n] == ExchangeLinks(m[n], a, b)
  }

  lemma SwapIsExchange(s: seq<HeapNode>, i: int, j: int)
    requires Distinct(s) && 1 <= i <= |s| && 1 <= j <= |s|
    ensures forall k :: NodeAt(Swap(s, i, j), k) == Exchange(NodeAt(s, k), At(s, i), At(s, j))
  {
    Positions(s);
  }

  // A new node hung below the first free place of a linked tree.
  lemma Attached(m: map<HeapNode, Links>, m': map<HeapNode, Links>, s: seq<HeapNode>, x: HeapNode)
    requires LinkedIn(m, s) && s != [] && x !in s && x in m'
    requires forall n :: n in s ==> n in m && n in m'
    requires var p := (|s| + 1) / 2;
             && m'[x] == Links(At(s, p), null, null)
             && (forall n :: n in s && n != At(s, p) ==> m'[n] == m[n])
             && At(s, p) in s
             && m'[At(s, p)] == if |s| % 2 == 1 then m[At(s, p)].(left := x) else m[At(s, p)].(right := x)
    ensures LinkedIn(m', s + [x])
  {
    var t := s + [x];
    var p := (|s| + 1) / 2;
    Positions(s);
    assert Distinct(t) by {
      assert forall i, j {:trigger Apart(t, i, j)} :: 1 <= i < j <= |s| ==> Apart(s, i, j);
    }
    forall k | 1 <= k <= |t|
      ensures LinkedAt(m', t, k)
    {
      if k <= |s| {
        assert At(t, k) == At(s, k) && At(s, k) in s;
        assert LinkedAt(m, s, k);
      }
    }
  }

  // Only the links of the tree's own nodes matter.
  lemma SameLinks(m: map<HeapNode, Links>, m': map<HeapNode, Links>, s: seq<HeapNode>)
    requires LinkedIn(m, s)
    requires forall n :: n in s ==> n in m && n in m' && m'[n] == m[n]
    ensures LinkedIn(m', s)
  {
    forall k | 1 <= k <= |s|
      ensures LinkedAt(m', s, k)
    {
      assert LinkedAt(m, s, k) && At(s, k) in s;
    }
  }

  // A linked tree whose last node is cut off stays linked.
  lemma Detached(m: map<HeapNode, Links>, m': map<HeapNode, Links>, s: seq<HeapNode>, t: seq<HeapNode>)
    requires LinkedIn(m, s) && |s| >= 2 && t == s[..|s| - 1]
    requires forall n :: n in t ==> n in m && n in m'
    requires forall n :: n in t ==>
               m'[n] == if n != At(s, |s| / 2) then m[n]
                         else if |s| % 2 == 0 then m[n].(left := null) else m[n].(right := null)
    ensures LinkedIn(m', t)
  {
    Positions(s);
    assert Distinct(t) by {
      assert forall i, j {:trigger Apart(t, i, j)} :: 1 <= i < j <= |t| ==> Apart(s, i, j);
    }
    forall k | 1 <= k <= |t|
      ensures LinkedAt(m', t, k)
    {
      assert At(t, k) == At(s, k) && At(t, k) in t;
      assert LinkedAt(m, s, k);
    }
  }

  // A node from outside that takes over the root's links becomes the root.
  lemma NewRoot(m: map<HeapNode, Links>, m': map<HeapNode, Links>, s: seq<HeapNode>, x: HeapNode)
    requires LinkedIn(m, s) && s != [] && x !in s && x in m'
    requires forall n :: n in s ==> n in m && n in m'
    requires At(s, 1) in s && m'[x] == m[At(s, 1)]
    requires forall n :: n in s && n != At(s, 1) ==>
               m'[n] == if m[n].parent == At(s, 1) then m[n].(parent := x) else m[n]
    ensures LinkedIn(m', [x] + s[1..])
  {
    var t := [x] + s[1..];
    Positions(s);
    assert Distinct(t) by {
      assert forall i, j {:trigger Apart(t, i, j)} :: 1 <= i < j <= |t| ==> i == 1 || Apart(s, i, j);
    }
    assert LinkedAt(m, s, 1);
    forall k | 1 <= k <= |t|
      ensures LinkedAt(m', t, k)
    {
      if k > 1 {
        assert At(t, k) == At(s, k) && At(s, k) in s;
        assert LinkedAt(m, s, k);
      }
    }
  }

  // Exchanging two nodes of a linked tree links the exchanged level order.
  lemma ExchangedIsLinked(m: map<HeapNode, Links>, m': map<HeapNode, Links>, s: seq<HeapNode>, i: int, j: int)
    requires LinkedIn(m, s) && 1 <= i <= |s| && 1 <= j <= |s| && i != j
    requires Exchanged(m, m', At(s, i), At(s, j))
    ensures LinkedIn(m', Swap(s, i, j))
  {
    var t := Swap(s, i, j);
    var a, b := At(s, i), At(s, j);
    SwapKeepsDistinct(s, i, j);
    SwapIsExchange(s, i, j);
    forall k | 1 <= k <= |s|
      ensures LinkedAt(m', t, k)
    {
      assert LinkedAt(m, s, k) && LinkedAt(m, s, i) && LinkedAt(m, s, j);
      assert NodeAt(t, k) == Exchange(NodeAt(s, k), a, b);
      assert NodeAt(t, k / 2) == Exchange(NodeAt(s, k / 2), a, b);
      assert NodeAt(t, 2 * k) == Exchange(NodeAt(s, 2 * k), a, b);
      assert NodeAt(t, 2 * k + 1) == Exchange(NodeAt(s, 2 * k + 1), a, b);
    }
  }

  // The links of x agree both ways with those of the other nodes.
  ghost predicate Hub(s: seq<HeapNode>, x: HeapNode)
    reads s
  {
    && x in s
    && (x.left != null ==> x.left in s && x.left != x && x.left.parent == x && x.left != x.right)
    && (x.right != null ==> x.right in s && x.right != x && x.right.parent == x)
    && (x.parent != null ==> x.parent in s && x.parent != x && (x.parent.left == x <==> x.parent.right != x))
    && (forall n :: n in s && n.parent == x ==> n == x.left || n == x.right)
    && (forall n :: n in s && (n.left == x || n.right == x) ==> n == x.parent)
  }

  lemma LinkedHub(s: seq<HeapNode>, i: int)
    requires Linked(s) && 1 <= i <= |s|
    ensures Hub(s, At(s, i))
  {
    var m, x := Snapshot(s), At(s, i);
    Positions(s);
    assert LinkedAt(m, s, i);
    if 2 * i <= |s| { assert LinkedAt(m, s, 2 * i); }
    if 2 * i + 1 <= |s| { assert LinkedAt(m, s, 2 * i + 1); }
    if i > 1 { assert LinkedAt(m, s, i / 2); }
    forall n | n in s
      ensures n.parent == x ==> n == x.left || n == x.right
      ensures n.left == x || n.right == x ==> n == x.parent
    {
      LinksTo(s, i, n);
    }
  }

  // The nodes that link to position i are its neighbours in the tree.
  lemma LinksTo(s: seq<HeapNode>, i: int, n: HeapNode)
    requires Linked(s) && 1 <= i <= |s| && n in s
    ensures n.parent == At(s, i) ==> n == At(s, i).left || n == At(s, i).right
    ensures n.left == At(s, i) || n.right == At(s, i) ==> n == At(s, i).parent
  {
    var m := Snapshot(s);
    Positions(s);
    var k :| 0 <= k < |s| && s[k] == n;
    assert LinkedAt(m, s, i);
    assert LinkedAt(m, s, k + 1) && n == At(s, k + 1);
  }

  // A node, its parent and its grandparent are three nodes with agreeing links.
  lemma UpNeighbours(s: seq<HeapNode>, i: int)
    requires Linked(s) && 2 <= i <= |s|
    ensures var node, p := At(s, i), At(s, i / 2);
            && Hub(s, node) && Hub(s, p) && node.parent == p && p.parent != node
            && (p.parent != null ==> p.parent.parent != node && p.parent.parent != p)
  {
    LinkedHub(s, i);
    LinkedHub(s, i / 2);
    Positions(s);
    var m := Snapshot(s);
    assert LinkedAt(m, s, i) && LinkedAt(m, s, i / 2);
    if i / 2 / 2 >= 1 {
      assert LinkedAt(m, s, i / 2 / 2);
    }
  }

  // if (x) x->parent = p
  method SetParent(x: HeapNode?, p: HeapNode)
    modifies (if x == null then {} else {x})`parent
    ensures x != null ==> x.parent == p
  {
    if x != null {
      x.parent := p;
    }
  }

  // x takes l and r as its children.
  method Adopt(x: HeapNode, l: HeapNode?, r: HeapNode?)
    requires l != x && r != x
    modifies x`left, x`right
    modifies (if l == null then {} else {l})`parent, (if r == null then {} else {r})`parent
    ensures x.left == l && x.right == r
    ensures (l != null ==> l.parent == x) && (r != null ==> r.parent == x)
  {
    x.left := l;
    x.right := r;
    SetParent(l, x);
    SetParent(r, x);
  }

  // Let pp, if any, point to now where it pointed to was (clib/heap_interface.c:65-69,
  // 182-183, 199-200, 234-235).
  method ReplaceChild(pp: HeapNode?, was: HeapNode, now: HeapNode?)
    modifies (if pp == null then {} else {pp})`left, (if pp == null then {} else {pp})`right
    ensures pp != null ==> pp.left == if old(pp.left) == was then now else old(pp.left)
    ensures pp != null ==>
              pp.right == if old(pp.left) != was && old(pp.right) == was then now else old(pp.right)
  {
    if pp != null && pp.left == was {
      pp.left := now;
    } else if pp != null && pp.right == was {
      pp.right := now;
    }
  }

  // The relinking of heapGet at the root (clib/heap_interface.c:238-242 and
  // 247-249): last takes over the links of was, who is left with none.
  method TakeOver(ghost s: seq<HeapNode>, was: HeapNode, last: HeapNode)
    requires Linked(s) && last !in s && last.parent == null
    requires was == if s == [] then last else At(s, 1)
    requires s == [] ==> last.left == last.right == null
    modifies s, last
    ensures s != [] ==> Linked([last] + s[1..])
    ensures was.parent == was.left == was.right == null
  {
    ghost var m, t := Snapshot(s), if s == [] then [] else [last] + s[1..];
    if s != [] {
      LinkedHub(s, 1);
      assert LinkedAt(m, s, 1);
    }
    Adopt(last, was.left, was.right);
    was.parent := null;
    was.left := null;
    was.right := null;

    forall n | n in s && n != was
      ensures n.left == old(n.left) && n.right == old(n.right)
      ensures n.parent == if old(n.parent) == was then last else old(n.parent)
    {
    }
    if s != [] {
      NewRoot(m, Snapshot(s + [last]), s, last);
      SameLinks(Snapshot(s + [last]), Snapshot(t), t);
    }
  }

  // node takes its sibling and has its parent p on the side where it was itself
  // (clib/heap_interface.c:71-79).
  method TakeSibling(node: HeapNode, p: HeapNode, pLeft: HeapNode?, pRight: HeapNode?, ghost sibling: HeapNode?)
    requires p != node && p.left == pLeft && p.right == pRight && (pLeft == node <==> pRight != node)
    requires sibling == if pLeft == node then pRight else pLeft
    modifies node`left, node`right, (if sibling == null then {} else {sibling})`parent
    ensures node.left == (if pLeft == node then p else pLeft) && node.right == if pLeft == node then pRight else p
    ensures sibling != null ==> sibling.parent == node
  {
    if p.left == node {
      node.right := pRight;
      SetParent(pRight, node);
      node.left := p;
    } else if p.right == node {
      node.left := pLeft;
      SetParent(pLeft, node);
      node.right := p;
    }
  }

  // The relinking of one round of heapAdjustUp (clib/heap_interface.c:58-86):
  // node changes places with its parent p.
  method ExchangeUp(ghost s: seq<HeapNode>, node: HeapNode, p: HeapNode, pp: HeapNode?)
    requires Hub(s, node) && Hub(s, p)
    requires node.parent == p && p.parent == pp && pp != node
    requires pp != null ==> pp.parent != node && pp.parent != p
    modifies s
    ensures Exchanged(old(Snapshot(s)), Snapshot(s), node, p)
  {
    var nodeLeft := node.left;
    var nodeRight := node.right;
    var pLeft := p.left;
    var pRight := p.right;
    ghost var sibling := if pLeft == node then pRight else pLeft;
    assert nodeLeft != p && nodeRight != p && sibling != node && sibling != p;
    assert sibling != null ==> sibling != nodeLeft && sibling != nodeRight;

    node.parent := pp;
    ReplaceChild(pp, p, node);

    TakeSibling(node, p, pLeft, pRight, sibling);
    p.parent := node;

    Adopt(p, nodeLeft, nodeRight);

    assert node.parent == pp && p.parent == node && p.left == nodeLeft && p.right == nodeRight;
    assert if pLeft == node then node.left == p && node.right == pRight else node.left == pLeft && node.right == p;
    forall n | n in s && n != node && n != p
      ensures n.left == Exchange(old(n.left), node, p)
      ensures n.right == Exchange(old(n.right), node, p)
      ensures n.parent == Exchange(old(n.parent), node, p)
    {
      if n != pp {
        assert n.left == old(n.left) && n.right == old(n.right);
      }
      if n == sibling {
        assert n.parent == node;
      } else if n == nodeLeft || n == nodeRight {
        assert n.parent == p;
      } else {
        assert n.parent == old(n.parent);
      }
    }
  }

  method RoundUp(ghost s: seq<HeapNode>, ghost i: nat, node: HeapNode, p: HeapNode, pp: HeapNode?)
    requires Linked(s) && 2 <= i <= |s|
    requires node == At(s, i) && p == At(s, i / 2) && pp == p.parent
    modifies s
    ensures Linked(Swap(s, i / 2, i))
  {
    UpNeighbours(s, i);
    ghost var m := Snapshot(s);
    ExchangeUp(s, node, p, pp);
    ExchangedIsLinked(m, Snapshot(s), s, i, i / 2);
    ghost var t := Swap(s, i / 2, i);
    SwapKeepsElements(s, i / 2, i);
    assert t == Swap(s, i, i / 2);
    assert Snapshot(t) == Snapshot(s);
  }

  lemma DownNeighbours(s: seq<HeapNode>, i: int, c: int)
    requires Linked(s) && 1 <= i && c / 2 == i && c <= |s|
    ensures var node, child := At(s, i), At(s, c);
            && Hub(s, node) && Hub(s, child) && child.parent == node && node.parent != child
            && (node.parent != null ==> node.parent.parent != node && node.parent.parent != child)
            && (c == 2 * i ==> node.left == child) && (c == 2 * i + 1 ==> node.right == child)
  {
    UpNeighbours(s, c);
    assert LinkedAt(Snapshot(s), s, i);
  }

  // The relinking of one round of heapAdjustDown towards the left child
  // (clib/heap_interface.c:178-192).
  method ExchangeLeft(ghost s: seq<HeapNode>, node: HeapNode, nodeP: HeapNode?, nodeLeft: HeapNode,
                      nodeRight: HeapNode?)
    requires Hub(s, node) && Hub(s, nodeLeft)
    requires node.left == nodeLeft && node.right == nodeRight && node.parent == nodeP && nodeP != nodeLeft
    requires nodeP != null ==> nodeP.parent != node && nodeP.parent != nodeLeft
    modifies s
    ensures Exchanged(old(Snapshot(s)), Snapshot(s), node, nodeLeft)
  {
    ghost var l, r := nodeLeft.left, nodeLeft.right;
    assert l != node && r != node && nodeRight != node && nodeRight != nodeLeft;
    assert nodeRight != null ==> nodeRight != l && nodeRight != r;

    node.parent := nodeLeft;
    node.left := nodeLeft.left;
    node.right := nodeLeft.right;
    ReplaceChild(nodeP, node, nodeLeft);
    SetParent(nodeLeft.left, node);
    SetParent(nodeLeft.right, node);

    nodeLeft.parent := nodeP;
    Adopt(nodeLeft, node, nodeRight);

    assert node.parent == nodeLeft && node.left == l && node.right == r;
    assert nodeLeft.parent == nodeP && nodeLeft.left == node && nodeLeft.right == nodeRight;
    forall n | n in s && n != node && n != nodeLeft
      ensures n.left == Exchange(old(n.left), node, nodeLeft)
      ensures n.right == Exchange(old(n.right), node, nodeLeft)
      ensures n.parent == Exchange(old(n.parent), node, nodeLeft)
    {
      if n != nodeP {
        assert n.left == old(n.left) && n.right == old(n.right);
      }
      if n == nodeRight {
        assert n.parent == nodeLeft;
      } else if n == l || n == r {
        assert n.parent == node;
      } else {
        assert n.parent == old(n.parent);
      }
    }
  }

  // The same towards the right child (clib/heap_interface.c:195-209).
  method ExchangeRight(ghost s: seq<HeapNode>, node: HeapNode, nodeP: HeapNode?, nodeLeft: HeapNode?,
                       nodeRight: HeapNode)
    requires Hub(s, node) && Hub(s, nodeRight)
    requires node.left == nodeLeft && node.right == nodeRight && node.parent == nodeP && nodeP != nodeRight
    requires nodeP != null ==> nodeP.parent != node && nodeP.parent != nodeRight
    modifies s
    ensures Exchanged(old(Snapshot(s)), Snapshot(s), node, nodeRight)
  {
    ghost var l, r := nodeRight.left, nodeRight.right;
    assert l != node && r != node && nodeLeft != node && nodeLeft != nodeRight;
    assert nodeLeft != null ==> nodeLeft != l && nodeLeft != r;

    node.parent := nodeRight;
    node.left := nodeRight.left;
    node.right := nodeRight.right;
    ReplaceChild(nodeP, node, nodeRight);
    SetParent(nodeRight.left, node);
    SetParent(nodeRight.right, node);

    nodeRight.parent := nodeP;
    Adopt(nodeRight, nodeLeft, node);

    assert node.parent == nodeRight && node.left == l && node.right == r;
    assert nodeRight.parent == nodeP && nodeRight.left == nodeLeft && nodeRight.right == node;
    forall n | n in s && n != node && n != nodeRight
      ensures n.left == Exchange(old(n.left), node, nodeRight)
      ensures n.right == Exchange(old(n.right), node, nodeRight)
      ensures n.parent == Exchange(old(n.parent), node, nodeRight)
    {
      if n != nodeP {
        assert n.left == old(n.left) && n.right == old(n.right);
      }
      if n == nodeLeft {
        assert n.parent == nodeRight;
      } else if n == l || n == r {
        assert n.parent == node;
      } else {
        assert n.parent == old(n.parent);
      }
    }
  }

  // One round of heapAdjustDown after the choice of the child at position c.
  method RoundDown(ghost s: seq<HeapNode>, ghost i: nat, ghost c: nat, node: HeapNode, exLeft: bool)
    requires Linked(s) && 1 <= i && c / 2 == i && c <= |s| && node == At(s, i)
    requires exLeft <==> c == 2 * i
    modifies s
    ensures Linked(Swap(s, i, c))
  {
    DownNeighbours(s, i, c);
    ghost var m := Snapshot(s);
    if exLeft {
      ExchangeLeft(s, node, node.parent, node.left, node.right);
    } else {
      ExchangeRight(s, node, node.parent, node.left, node.right);
    }
    ExchangedIsLinked(m, Snapshot(s), s, i, c);
    SwapKeepsElements(s, i, c);
    assert Snapshot(Swap(s, i, c)) == Snapshot(s);
  }

  lemma Front(s: seq<HeapNode>)
    requires Distinct(s) && s != []
    ensures At(s, |s|) !in s[..|s| - 1] && forall n :: n in s[..|s| - 1] ==> n in s && n != At(s, |s|)
  {
    var t := s[..|s| - 1];
    forall n | n in t
      ensures n in s && n != At(s, |s|)
    {
      var k :| 0 <= k < |t| && t[k] == n;
      assert Apart(s, k + 1, |s|);
    }
  }

  lemma RootIsGone(s: seq<HeapNode>, t: seq<HeapNode>)
    requires Distinct(s) && s != []
    requires t == if |s| == 1 then [] else [s[|s| - 1]] + s[1..|s| - 1]
    ensures forall k :: 0 <= k < |t| ==> t[k] in s && t[k] != s[0]
  {
    forall k | 0 <= k < |t|
      ensures t[k] != s[0] && t[k] in s
    {
      if k == 0 {
        assert Apart(s, 1, |s|);
      } else {
        assert Apart(s, 1, k + 1) && t[k] == s[k];
      }
    }
  }

  lemma RemovalFacts(cmp: (HeapNode, HeapNode) -> int, s: seq<HeapNode>)
    requires s != [] && ArrayHeap.Heap(cmp, s) && Preorder(cmp, s)
    ensures var t := RemoveRoot(cmp, s);
            && ArrayHeap.Heap(cmp, t) && Preorder(cmp, t)
            && multiset(t) + multiset{s[0]} == multiset(s)
            && (forall k :: 0 <= k < |t| ==> t[k] in s)
    ensures forall n :: n in s ==> cmp(s[0], n) >= 0
  {
    RemoveRootCorrect(cmp, s);
    ElementsOfPart(s, RemoveRoot(cmp, s));
    forall n | n in s
      ensures cmp(s[0], n) >= 0
    {
      assert n in multiset(s);
      RootDominates(cmp, s, n);
    }
  }

  lemma PartOfPart(s: seq<HeapNode>, t: seq<HeapNode>, u: seq<HeapNode>)
    requires s != [] && multiset(t) + multiset{s[0]} == multiset(s)
    requires forall k :: 0 <= k < |s| ==> s[k] in u
    ensures forall k :: 0 <= k < |t| ==> t[k] in u
  {
    ElementsOfPart(s, t);
    forall k | 0 <= k < |t|
      ensures t[k] in u
    {
      assert t[k] in s;
      var i :| 0 <= i < |s| && s[i] == t[k];
    }
  }

  class Heap {
    var root: HeapNode?
    var cnt: nat
    const cmp: (HeapNode, HeapNode) -> int
    const hasDestruct: bool
    ghost var order: seq<HeapNode>

    ghost predicate Shape()
      reads this, order
    {
      cnt == |order| && Linked(order) && root == NodeAt(order, 1)
    }

    ghost predicate Valid()
      reads this, order
    {
      Shape() && Preorder(cmp, order) && ArrayHeap.Heap(cmp, order)
    }

    constructor (cmp: (HeapNode, HeapNode) -> int, hasDestruct: bool)
      ensures Valid() && order == [] && this.cmp == cmp && this.hasDestruct == hasDestruct
    {
      root, cnt, order := null, 0, [];
      this.cmp, this.hasDestruct := cmp, hasDestruct;
    }

    // The walk from the root steered by the binary digits of n below its
    // leading one: it never meets null and ends at level-order position n.
    method Walk(n: nat) returns (now: HeapNode)
      requires Linked(order) && root == NodeAt(order, 1) && 1 <= n <= |order|
      ensures now == At(order, n)
    {
      var offset := GetOffset(n);
      now := root;
      ghost var k := Log2(n);
      ShrBounds(n, k);
      while offset > 0
        invariant OffsetAt(offset, k) && OnPath(order, n, k, now)
        decreases offset
      {
        Descend(order, n, k, now, offset);
        if BitAnd(n, offset) != 0 {
          now := now.right;
        } else {
          now := now.left;
        }
        offset := offset / 2;
        k := k - 1;
      }
      ShrBounds(n, k);
    }

    // heapAdjustUp (clib/heap_interface.c:51-89)
    method AdjustUp(node: HeapNode, ghost i0: nat)
      requires Shape() && 1 <= i0 <= |order| && node == At(order, i0)
      modifies this`root, this`order, order
      ensures Shape() && order == SiftUp(cmp, old(order), i0)
      ensures multiset(order) == old(multiset(order))
    {
      ghost var i, s := i0, order;
      while node.parent != null
        invariant 1 <= i <= |s| && node == At(s, i) && Linked(s)
        invariant multiset(s) == old(multiset(order))
        invariant forall k :: 0 <= k < |s| ==> s[k] in old(order)
        invariant SiftUp(cmp, s, i) == SiftUp(cmp, old(order), i0)
        invariant i > 1 ==> root == At(s, 1)
        decreases i
      {
        assert LinkedAt(Snapshot(s), s, i);
        var p := node.parent;
        var pp := p.parent;
        if cmp(p, node) >= 0 {
          break;
        }
        RoundUp(s, i, node, p, pp);
        SwapKeepsElements(s, i / 2, i);
        s := Swap(s, i / 2, i);
        i := i / 2;
      }
      assert LinkedAt(Snapshot(s), s, i);
      if node.parent == null {
        root := node;
      }
      order := s;
    }

    // The part of heapAdd that hangs node below the first free place
    // (clib/heap_interface.c:102-121).
    method Append(node: HeapNode)
      requires Shape() && root != null && node !in order
      requires node.parent == node.left == node.right == null
      modifies this`cnt, this`order, order, node
      ensures Shape() && order == old(order) + [node]
    {
      ghost var s, m := order, Snapshot(order);
      var parentCnt := (cnt + 1) / 2;
      var child := (cnt + 1) % 2;
      var now := Walk(parentCnt);
      if child == 0 {
        now.left := node;
      } else {
        now.right := node;
      }
      node.parent := now;
      cnt := cnt + 1;
      Attached(m, Snapshot(s + [node]), s, node);
      order := s + [node];
    }

    // heapAdd (clib/heap_interface.c:91-124)
    method Add(node: HeapNode)
      requires Valid() && node !in order && Preorder(cmp, order + [node])
      modifies this, order, node
      ensures Valid() && order == Insert(cmp, old(order), node)
      ensures multiset(order) == old(multiset(order)) + multiset{node}
    {
      InsertCorrect(cmp, order, node);
      node.parent := null;
      node.left := null;
      node.right := null;
      if root == null {
        root := node;
        cnt := cnt + 1;
        order := [node];
        return;
      }
      assert Snapshot(order) == old(Snapshot(order));
      Append(node);
      ghost var s := order;
      AdjustUp(node, cnt);
      SameElements(s, order);
    }

    // The exchange of one round of heapAdjustDown (clib/heap_interface.c:178-212)
    method SinkOnce(ghost s: seq<HeapNode>, ghost i: nat, ghost c: nat, node: HeapNode, exLeft: bool)
      requires Linked(s) && 1 <= i <= |s| && c <= |s| && node == At(s, i) && root == At(s, 1)
      requires c == if exLeft then 2 * i else 2 * i + 1
      modifies this`root, s
      ensures Linked(Swap(s, i, c)) && root == At(Swap(s, i, c), 1)
    {
      assert LinkedAt(Snapshot(s), s, i);
      var child := if exLeft then node.left else node.right;
      RoundDown(s, i, c, node, exLeft);
      PositionOf(s, i);
      PositionOf(s, 1);
      if root == node {
        root := child;
      }
    }

    // heapAdjustDown (clib/heap_interface.c:128-214)
    method AdjustDown()
      requires Shape()
      modifies this`root, this`order, order
      ensures Shape() && order == if old(order) == [] then [] else SiftDown(cmp, old(order), 1)
    {
      if root == null {
        return;
      }
      var node := root;
      ghost var i, s := 1, order;
      while true
        invariant 1 <= i <= |s| && node == At(s, i) && Linked(s) && |s| == cnt
        invariant forall k :: 0 <= k < |s| ==> s[k] in old(order)
        invariant SiftDown(cmp, s, i) == SiftDown(cmp, old(order), 1)
        invariant root == At(s, 1)
        decreases |s| - i
      {
        assert LinkedAt(Snapshot(s), s, i);
        var nodeLeft, nodeRight := node.left, node.right;
        var exLeft, exRight := ChooseChild(node, nodeLeft, nodeRight, s, i);
        if !exLeft && !exRight {
          break;
        }
        ghost var c := SinkChild(cmp, s, i);
        SinkOnce(s, i, c, node, exLeft);
        SwapKeepsElements(s, i, c);
        s := Swap(s, i, c);
        i := c;
      }
      order := s;
    }

    // The comparisons of one round of heapAdjustDown (clib/heap_interface.c:137-174).
    method ChooseChild(node: HeapNode, nodeLeft: HeapNode?, nodeRight: HeapNode?, ghost s: seq<HeapNode>, ghost i: int)
      returns (exLeft: bool, exRight: bool)
      requires 1 <= i <= |s| && node == At(s, i)
      requires nodeLeft == NodeAt(s, 2 * i) && nodeRight == NodeAt(s, 2 * i + 1)
      ensures exLeft <==> SinkChild(cmp, s, i) == 2 * i
      ensures exRight <==> SinkChild(cmp, s, i) == 2 * i + 1
    {
      var cmpLeft, cmpRight, cmpLeftRight := 0, 0, 0;
      if nodeLeft != null {
        cmpLeft := cmp(node, nodeLeft);
      }
      if nodeRight != null {
        cmpRight := cmp(node, nodeRight);
      }
      if nodeLeft != null && nodeRight != null {
        cmpLeftRight := cmp(nodeLeft, nodeRight);
      }
      exLeft, exRight := false, false;
      if nodeLeft != null && nodeRight != null {
        if cmpLeft >= 0 && cmpRight >= 0 {
        } else if cmpLeft >= 0 {
          exRight := true;
        } else if cmpRight >= 0 {
          exLeft := true;
        } else if cmpLeftRight >= 0 {
          exLeft := true;
        } else if cmpLeftRight < 0 {
          exRight := true;
        }
      } else if nodeLeft != null && cmpLeft < 0 {
        exLeft := true;
      } else if nodeRight != null && cmpRight < 0 {
        exRight := true;
      }
    }

    // heapGet cuts the last node off (clib/heap_interface.c:233-237).
    method Detach(last: HeapNode, ghost t: seq<HeapNode>)
      requires Shape() && cnt > 0 && last == At(order, cnt) && t == order[..cnt - 1]
      modifies order
      ensures Linked(t) && last.parent == null
      ensures cnt == 1 ==> last.left == last.right == null
    {
      ghost var m := Snapshot(order);
      Positions(order);
      assert LinkedAt(m, order, cnt);
      if cnt > 1 {
        assert LinkedAt(m, order, cnt / 2);
      }
      Front(order);
      ReplaceChild(last.parent, last, null);
      last.parent := null;
      if cnt > 1 {
        Detached(m, Snapshot(t), order, t);
      } else {
        assert t == [];
      }
    }

    // heapGet puts the cut-off node in the root's place (clib/heap_interface.c:238-250).
    method ReplaceRoot(ghost s: seq<HeapNode>, last: HeapNode)
      requires Linked(s) && last !in s && last.parent == null
      requires root == if s == [] then last else At(s, 1)
      requires s == [] ==> last.left == last.right == null
      requires cnt == |s| + 1
      modifies this, s, last
      ensures Shape() && order == (if s == [] then [] else [last] + s[1..])
      ensures var was := old(root); was != null && was.parent == was.left == was.right == null
    {
      var was := root;
      TakeOver(s, was, last);
      if was == last {
        root := null;
      } else {
        root := last;
      }
      cnt := cnt - 1;
      order := if s == [] then [] else [last] + s[1..];
    }

    // heapGet up to the sinking (clib/heap_interface.c:219-250): the last node
    // takes the root's place.
    method TakeRoot() returns (node: HeapNode)
      requires Shape() && root != null
      modifies this, order
      ensures Shape() && node == old(order)[0] && node.parent == node.left == node.right == null
      ensures order == if |old(order)| == 1 then []
                       else [old(order)[|old(order)| - 1]] + old(order)[1..|old(order)| - 1]
    {
      ghost var s := order;
      node := root;
      var last := Walk(cnt);
      Detach(last, s[..cnt - 1]);
      Front(s);
      ReplaceRoot(s[..cnt - 1], last);
      if |s| > 1 {
        assert s[..|s| - 1][1..] == s[1..|s| - 1];
      }
    }

    // heapGet (clib/heap_interface.c:217-255)
    method Get() returns (node: HeapNode?)
      requires Valid()
      modifies this, order
      ensures Valid()
      ensures old(order) == [] ==> node == null && order == []
      ensures old(order) != [] ==>
        && node == old(order)[0] && node.parent == node.left == node.right == null
        && order == RemoveRoot(cmp, old(order))
        && multiset(order) + multiset{node} == old(multiset(order))
        && forall n :: n in old(order) ==> cmp(node, n) >= 0
    {
      if root == null {
        return null;
      }
      ghost var s := order;
      node := TakeRoot();
      RootIsGone(s, order);
      assert node !in order;
      AdjustDown();
      assert order == RemoveRoot(cmp, s);
      RemovalFacts(cmp, s);
    }

    // heapDestruct (clib/heap_interface.c:257-268): what node_destruct is
    // given, in order. The nodes are distinct, so each is given once.
    method Destruct() returns (destructed: seq<HeapNode>)
      requires Valid()
      modifies this, order
      ensures root == null && cnt == 0 && order == []
      ensures destructed == if hasDestruct then Drain(cmp, old(order)) else []
      ensures hasDestruct ==> multiset(destructed) == old(multiset(order)) && Nonincreasing(cmp, destructed)
    {
      DrainSorts(cmp, order);
      destructed := [];
      while true
        invariant Valid()
        invariant forall k :: 0 <= k < |order| ==> order[k] in old(order)
        invariant hasDestruct ==> destructed + Drain(cmp, order) == Drain(cmp, old(order))
        invariant !hasDestruct ==> destructed == []
        decreases |order|
      {
        ghost var s := order;
        var node := Get();
        if node == null {
          break;
        }
        var got: HeapNode := node;
        if hasDestruct {
          DrainStep(cmp, s, destructed);
          destructed := destructed + [got];
        }
        PartOfPart(s, order, old(order));
      }
      root := null;
      cnt := 0;
    }
  }
}
