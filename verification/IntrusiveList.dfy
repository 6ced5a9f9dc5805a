// clib/list.h: a circular doubly linked list of nodes embedded in the elements.
// The list itself is a node; s always names the elements in order.
module IntrusiveList {
  import opened CircularList
  import opened Sequences

  ghost function Nexts(s: seq<ListNode>): map<ListNode, ListNode>
    reads s
  {
    map n | n in s :: n.next
  }

  ghost function Prevs(s: seq<ListNode>): map<ListNode, ListNode>
    reads s
  {
    map n | n in s :: n.prev
  }

  class ListNode {
    var prev: ListNode
    var next: ListNode

    // list_init (clib/list.h:7-10)
    constructor ()
      ensures prev == next == this && IsList([])
    {
      prev, next := this, this;
    }

    // Following next from this visits s and comes back; prev goes the other way.
    ghost predicate IsList(s: seq<ListNode>)
      reads this, s
    {
      Circular(Nexts([this] + s), Prevs([this] + s), this, s)
    }

    lemma SelfLinkedIsEmpty()
      requires prev == next == this
      ensures IsList([])
    {
    }

    lemma Ends(s: seq<ListNode>)
      requires IsList(s)
      ensures next == Nth(this, s, 0) && prev == Nth(this, s, |s| - 1)
    {
      assert Adjacent(Nexts([this] + s), Prevs([this] + s), this, s, -1);
      assert Adjacent(Nexts([this] + s), Prevs([this] + s), this, s, |s| - 1);
    }

    lemma LinksInMemory(s: seq<ListNode>, i: nat)
      requires IsList(s) && i < |s|
      ensures next == s[0] && prev == s[|s| - 1]
      ensures s[i].next == if i + 1 < |s| then s[i + 1] else this
      ensures s[i].prev == if i > 0 then s[i - 1] else this
    {
      Ends(s);
      assert Adjacent(Nexts([this] + s), Prevs([this] + s), this, s, i - 1);
      assert Adjacent(Nexts([this] + s), Prevs([this] + s), this, s, i);
    }

    // list_add (clib/list.h:12-17)
    method Add(node: ListNode, ghost s: seq<ListNode>)
      requires IsList(s) && node != this && node !in s
      modifies this`next, next`prev, node
      ensures IsList([node] + s)
    {
      ghost var n, p, t := Nexts([this] + s), Prevs([this] + s), [node] + s;
      assert Adjacent(n, p, this, s, -1);
      next.prev := node;
      node.next := next;
      node.prev := this;
      next := node;
      AddedFirst(n, p, Nexts([this] + t), Prevs([this] + t), this, s, node);
    }

    // list_add_tail (clib/list.h:19-24)
    method AddTail(node: ListNode, ghost s: seq<ListNode>)
      requires IsList(s) && node != this && node !in s
      modifies this`prev, prev`next, node
      ensures IsList(s + [node])
    {
      ghost var n, p, t := Nexts([this] + s), Prevs([this] + s), s + [node];
      assert Adjacent(n, p, this, s, |s| - 1);
      prev.next := node;
      node.prev := prev;
      node.next := this;
      prev := node;
      AddedLast(n, p, Nexts([this] + t), Prevs([this] + t), this, s, node);
    }

    // list_del (clib/list.h:26-30), applied to the element at index k of list
    method Del(ghost list: ListNode, ghost s: seq<ListNode>, ghost k: nat)
      requires list.IsList(s) && k < |s| && s[k] == this
      modifies next`prev, prev`next, this
      ensures list.IsList(Without(s, k)) && IsList([])
    {
      ghost var n, p, t := Nexts([list] + s), Prevs([list] + s), Without(s, k);
      WithoutKeepsDifference(s, k);
      assert Adjacent(n, p, list, s, k - 1) && Adjacent(n, p, list, s, k);
      next.prev := prev;
      prev.next := next;
      prev, next := this, this;
      assert forall x :: x == list || x in t ==> x in [list] + s && x != this;
      SelfLinkedIsEmpty();
      Deleted(n, p, Nexts([list] + t), Prevs([list] + t), list, s, k);
    }

    // list_empty (clib/list.h:32-34)
    method Empty(ghost s: seq<ListNode>) returns (empty: bool)
      requires IsList(s)
      ensures empty <==> s == []
    {
      Ends(s);
      empty := next == this;
    }

    // list_remove_head (clib/list.h:36-44)
    method RemoveHead(ghost s: seq<ListNode>) returns (node: ListNode?)
      requires IsList(s)
      modifies this, s
      ensures s == [] ==> node == null && IsList([])
      ensures s != [] ==> node == s[0] && IsList(s[1..]) && s[0].IsList([])
    {
      var empty := Empty(s);
      if empty {
        return null;
      }
      node := next;
      assert Adjacent(Nexts([this] + s), Prevs([this] + s), this, s, -1);
      assert Adjacent(Nexts([this] + s), Prevs([this] + s), this, s, 0);
      next.Del(this, s, 0);
      assert Without(s, 0) == s[1..];
    }

    // list_for_each (clib/list.h:46-47)
    method Elements(ghost s: seq<ListNode>) returns (visited: seq<ListNode>)
      requires IsList(s)
      ensures visited == s
    {
      visited := [];
      assert Adjacent(Nexts([this] + s), Prevs([this] + s), this, s, -1);
      var pos := next;
      while pos != this
        invariant |visited| <= |s| && visited == s[..|visited|]
        invariant pos == Nth(this, s, |visited|)
        decreases |s| - |visited|
      {
        assert Adjacent(Nexts([this] + s), Prevs([this] + s), this, s, |visited|);
        visited := visited + [pos];
        pos := pos.next;
      }
    }
  }
}
