// The meaning of an LRU cache: a list of at most size pairs, most recent first.
module LruModel {
  import opened Sequences

  datatype Option<T> = None | Some(value: T)

  type Cache<K, V> = seq<(K, V)>

  ghost function Keys<K, V>(c: Cache<K, V>): seq<K> {
    seq(|c|, i requires 0 <= i < |c| => c[i].0)
  }

  // The index of the pair with key k, or |c|.
  ghost function Find<K, V>(c: Cache<K, V>, k: K): (i: nat)
    ensures i <= |c| && (i < |c| ==> c[i].0 == k)
    ensures i == |c| ==> forall j :: 0 <= j < |c| ==> c[j].0 != k
  {
    if c == [] then 0 else if c[0].0 == k then 0 else 1 + Find(c[1..], k)
  }

  lemma {:induction false} FindAt<K, V>(c: Cache<K, V>, k: K, i: nat)
    requires i < |c| && c[i].0 == k && forall j :: 0 <= j < i ==> c[j].0 != k
    ensures Find(c, k) == i
  {
    if i > 0 {
      FindAt(c[1..], k, i - 1);
    }
  }

  ghost function Add<K, V>(c: Cache<K, V>, size: nat, k: K, v: V): Cache<K, V> {
    var i := Find(c, k);
    if i < |c| then [(k, v)] + Without(c, i)
    else if |c| >= size && |c| > 0 then [(k, v)] + c[..|c| - 1]
    else [(k, v)] + c
  }

  ghost function Touch<K, V>(c: Cache<K, V>, k: K): Cache<K, V> {
    var i := Find(c, k);
    if i < |c| then [c[i]] + Without(c, i) else c
  }

  ghost function Get<K, V>(c: Cache<K, V>, k: K): Option<V> {
    var i := Find(c, k);
    if i < |c| then Some(c[i].1) else None
  }
}

// golib/lru.go: a map from keys to the nodes of a circular list with a head.
module Lru {
  import opened CircularList
  import opened LruModel
  import opened Sequences

  ghost function Nexts<K(0), V(0)>(s: seq<LRUNode<K, V>>): map<LRUNode<K, V>, LRUNode<K, V>>
    reads s`next
  {
    map n | n in s :: n.next
  }

  ghost function Pres<K(0), V(0)>(s: seq<LRUNode<K, V>>): map<LRUNode<K, V>, LRUNode<K, V>>
    reads s`pre
  {
    map n | n in s :: n.pre
  }

  class LRUNode<K(0), V(0)> {
    var pre: LRUNode<K, V>
    var next: LRUNode<K, V>
    const key: K
    var val: V

    // NewLRUNode (golib/lru.go:15-20)
    constructor (key: K, val: V)
      ensures pre == next == this && this.key == key && this.val == val
    {
      pre, next := this, this;
      this.key, this.val := key, val;
    }

    // The circular list headed by this, without its head.
    ghost predicate IsRing(s: seq<LRUNode<K, V>>)
      reads this`next, this`pre, s`next, s`pre
    {
      Circular(Nexts([this] + s), Pres([this] + s), this, s)
    }

    lemma Ends(s: seq<LRUNode<K, V>>)
      requires IsRing(s)
      ensures next == Nth(this, s, 0) && pre == Nth(this, s, |s| - 1)
    {
      assert Adjacent(Nexts([this] + s), Pres([this] + s), this, s, -1);
      assert Adjacent(Nexts([this] + s), Pres([this] + s), this, s, |s| - 1);
    }

    lemma Neighbours(s: seq<LRUNode<K, V>>, i: nat)
      requires IsRing(s) && i < |s|
      ensures s[i].pre == Nth(this, s, i - 1) && s[i].next == Nth(this, s, i + 1)
    {
      assert Adjacent(Nexts([this] + s), Pres([this] + s), this, s, i - 1);
      assert Adjacent(Nexts([this] + s), Pres([this] + s), this, s, i);
    }

    lemma LinksInMemory(s: seq<LRUNode<K, V>>, i: nat)
      requires IsRing(s) && i < |s|
      ensures next == s[0] && pre == s[|s| - 1]
      ensures s[i].next == if i + 1 < |s| then s[i + 1] else this
      ensures s[i].pre == if i > 0 then s[i - 1] else this
    {
      Ends(s);
      Neighbours(s, i);
    }

    // del (golib/lru.go:22-25), applied to the node at index k of the ring
    method Del(ghost head: LRUNode<K, V>, ghost s: seq<LRUNode<K, V>>, ghost k: nat)
      requires head.IsRing(s) && k < |s| && s[k] == this
      modifies pre`next, next`pre
      ensures head.IsRing(Without(s, k))
    {
      ghost var n, p, t := Nexts([head] + s), Pres([head] + s), Without(s, k);
      WithoutKeepsDifference(s, k);
      assert Adjacent(n, p, head, s, k - 1) && Adjacent(n, p, head, s, k);
      pre.next := next;
      next.pre := pre;
      assert forall x :: x == head || x in t ==> x in [head] + s && x != this;
      Deleted(n, p, Nexts([head] + t), Pres([head] + t), head, s, k);
    }

    // insert (golib/lru.go:27-32), applied to the head of the ring
    method Insert(node: LRUNode<K, V>, ghost s: seq<LRUNode<K, V>>)
      requires IsRing(s) && node != this && node !in s
      modifies this`next, this`pre, s`pre, node`pre, node`next
      ensures IsRing([node] + s)
    {
      Ends(s);
      ghost var n, p, t := Nexts([this] + s), Pres([this] + s), [node] + s;
      assert Adjacent(n, p, this, s, -1);
      node.pre := this;
      node.next := next;
      next.pre := node;
      next := node;
      AddedFirst(n, p, Nexts([this] + t), Pres([this] + t), this, s, node);
    }

    // del and insert of one node (golib/lru.go:57-58, 77-78)
    method MoveToFront(node: LRUNode<K, V>, ghost s: seq<LRUNode<K, V>>, ghost i: nat)
      requires IsRing(s) && i < |s| && s[i] == node
      modifies this`pre, this`next, s`pre, s`next
      ensures IsRing([node] + Without(s, i))
    {
      WithoutKeepsDifference(s, i);
      Neighbours(s, i);
      node.Del(this, s, i);
      Insert(node, Without(s, i));
    }

    // del of the last node (golib/lru.go:64)
    method RemoveLast(ghost s: seq<LRUNode<K, V>>)
      requires IsRing(s) && s != []
      modifies this`pre, this`next, s`pre, s`next
      ensures IsRing(s[..|s| - 1])
    {
      Ends(s);
      Neighbours(s, |s| - 1);
      pre.Del(this, s, |s| - 1);
      assert Without(s, |s| - 1) == s[..|s| - 1];
    }
  }

  // The map finds exactly the nodes of s, by their keys.
  ghost predicate Indexed<K(0), V(0)>(nodes: map<K, LRUNode<K, V>>, s: seq<LRUNode<K, V>>) {
    && |nodes| == |s|
    && (forall n :: n in s ==> n.key in nodes && nodes[n.key] == n)
    && (forall k :: k in nodes ==> nodes[k] in s && nodes[k].key == k)
  }

  // c lists the pairs that the nodes of s hold.
  ghost predicate Shows<K(0), V(0)>(c: Cache<K, V>, s: seq<LRUNode<K, V>>)
    reads s`val
  {
    |c| == |s| && forall i :: 0 <= i < |s| ==> ShowsAt(c, s, i)
  }

  ghost predicate ShowsAt<K(0), V(0)>(c: Cache<K, V>, s: seq<LRUNode<K, V>>, i: int)
    requires 0 <= i < |s| && 0 <= i < |c|
    reads s`val
  {
    c[i].0 == s[i].key && c[i].1 == s[i].val
  }

  lemma MovedIndexed<K(0), V(0)>(nodes: map<K, LRUNode<K, V>>, s: seq<LRUNode<K, V>>, i: nat)
    requires Indexed(nodes, s) && i < |s|
    ensures Indexed(nodes, [s[i]] + Without(s, i))
  {
  }

  lemma MovedShows<K(0), V(0)>(c: Cache<K, V>, s: seq<LRUNode<K, V>>, i: nat)
    requires Shows(c, s) && i < |s|
    ensures Shows([c[i]] + Without(c, i), [s[i]] + Without(s, i))
  {
    var d, t := [c[i]] + Without(c, i), [s[i]] + Without(s, i);
    forall j | 0 <= j < |t|
      ensures ShowsAt(d, t, j)
    {
      assert ShowsAt(c, s, if j == 0 then i else if j - 1 < i then j - 1 else j);
    }
  }

  lemma LastRemovedIndexed<K(0), V(0)>(nodes: map<K, LRUNode<K, V>>, s: seq<LRUNode<K, V>>)
    requires Indexed(nodes, s) && s != [] && NoDuplicates(s)
    ensures Indexed(nodes - {s[|s| - 1].key}, s[..|s| - 1])
    ensures (nodes - {s[|s| - 1].key}).Keys <= nodes.Keys
  {
    var key, t := s[|s| - 1].key, s[..|s| - 1];
    var m := nodes - {key};
    assert s[|s| - 1] in s;
    assert m.Keys == nodes.Keys - {key};
    Indices(s);
    forall n | n in t
      ensures n.key in m && m[n.key] == n
    {
      assert n in s && n != s[|s| - 1];
    }
    forall k | k in m
      ensures m[k] in t
    {
      var j := IndexOf(s, m[k]);
      assert t[j] == m[k];
    }
  }

  lemma FirstAddedIndexed<K(0), V(0)>(nodes: map<K, LRUNode<K, V>>, s: seq<LRUNode<K, V>>, n: LRUNode<K, V>)
    requires Indexed(nodes, s) && n.key !in nodes && n !in s
    ensures Indexed(nodes[n.key := n], [n] + s)
  {
  }

  lemma LastRemovedShows<K(0), V(0)>(c: Cache<K, V>, s: seq<LRUNode<K, V>>)
    requires Shows(c, s) && s != []
    ensures Shows(c[..|c| - 1], s[..|s| - 1])
  {
    var d, t := c[..|c| - 1], s[..|s| - 1];
    forall i | 0 <= i < |t|
      ensures ShowsAt(d, t, i)
    {
      assert ShowsAt(c, s, i);
    }
  }

  lemma FirstAddedShows<K(0), V(0)>(c: Cache<K, V>, s: seq<LRUNode<K, V>>, n: LRUNode<K, V>)
    requires Shows(c, s)
    ensures Shows([(n.key, n.val)] + c, [n] + s)
  {
    var d, t := [(n.key, n.val)] + c, [n] + s;
    forall i | 0 <= i < |t|
      ensures ShowsAt(d, t, i)
    {
      assert i > 0 ==> ShowsAt(c, s, i - 1);
    }
  }

  // The index of a key in both views.
  lemma Locate<K(0), V(0)>(nodes: map<K, LRUNode<K, V>>, c: Cache<K, V>, s: seq<LRUNode<K, V>>, key: K) returns (i: nat)
    requires Indexed(nodes, s) && Shows(c, s) && NoDuplicates(s) && key in nodes
    ensures i < |s| && s[i] == nodes[key] && Find(c, key) == i
  {
    i := IndexOf(s, nodes[key]);
    Indices(s);
    assert ShowsAt(c, s, i);
    forall j | 0 <= j < i
      ensures c[j].0 != key
    {
      assert ShowsAt(c, s, j) && s[j] in s;
    }
    FindAt(c, key, i);
  }

  lemma Absent<K(0), V(0)>(nodes: map<K, LRUNode<K, V>>, c: Cache<K, V>, s: seq<LRUNode<K, V>>, key: K)
    requires Indexed(nodes, s) && Shows(c, s) && key !in nodes
    ensures Find(c, key) == |c|
  {
    forall j | 0 <= j < |s|
      ensures c[j].0 != key
    {
      assert ShowsAt(c, s, j) && s[j] in s;
    }
  }

  lemma Revalued<X>(c: seq<X>, i: nat, x: X)
    requires i < |c|
    ensures [c[i := x][i]] + Without(c[i := x], i) == [x] + Without(c, i)
  {
  }

  class LRU<K(0, ==), V(0)> {
    const size: int
    var nodes: map<K, LRUNode<K, V>>
    const head: LRUNode<K, V>
    // the nodes, most recently used first, and the pairs they hold
    ghost var order: seq<LRUNode<K, V>>
    ghost var contents: Cache<K, V>

    ghost predicate Valid()
      reads this, head, order
    {
      && size > 0 && |order| <= size
      && head.IsRing(order) && Indexed(nodes, order) && Shows(contents, order)
    }

    // The new list of NewLRU (golib/lru.go:47-50)
    constructor (size: int)
      requires size > 0
      ensures Valid() && contents == [] && this.size == size && fresh(head)
    {
      var key: K := *;
      var val: V := *;
      this.size := size;
      nodes := map[];
      head := new LRUNode(key, val);
      order, contents := [], [];
    }

    method MakeFirst(node: LRUNode<K, V>, ghost i: nat)
      requires Valid() && i < |order| && order[i] == node
      modifies this`order, this`contents, head`next, head`pre, order`next, order`pre
      ensures Valid() && order == [node] + Without(old(order), i)
      ensures contents == [old(contents)[i]] + Without(old(contents), i)
    {
      ghost var s, c := order, contents;
      MovedIndexed(nodes, s, i);
      head.MoveToFront(node, s, i);
      MovedShows(c, s, i);
      order, contents := [node] + Without(s, i), [c[i]] + Without(c, i);
    }

    // Eviction of the least recently used (golib/lru.go:63-64)
    method Evict()
      requires Valid() && |nodes| >= size
      modifies this`nodes, this`order, this`contents
      modifies head`next, head`pre, order`next, order`pre
      ensures Valid() && order == old(order)[..|old(order)| - 1] && |nodes| < size
      ensures contents == old(contents)[..|old(order)| - 1] && nodes.Keys <= old(nodes.Keys)
    {
      LastRemovedIndexed(nodes, order);
      head.Ends(order);
      nodes := nodes - {head.pre.key};
      UnlinkLast();
    }

    method UnlinkLast()
      requires head.IsRing(order) && Shows(contents, order) && order != []
      modifies this`order, this`contents
      modifies head`next, head`pre, order`next, order`pre
      ensures head.IsRing(order) && Shows(contents, order)
      ensures order == old(order)[..|old(order)| - 1] && contents == old(contents)[..|old(contents)| - 1]
    {
      ghost var s, c := order, contents;
      head.RemoveLast(s);
      LastRemovedShows(c, s);
      order, contents := s[..|s| - 1], c[..|c| - 1];
    }

    // The new pair of Add (golib/lru.go:67-69)
    method Push(key: K, val: V)
      requires Valid() && key !in nodes && |nodes| < size
      modifies this`nodes, this`order, this`contents
      modifies head`next, head`pre, order`next, order`pre
      ensures Valid() && contents == [(key, val)] + old(contents)
      ensures |order| == |old(order)| + 1 && order[1..] == old(order) && fresh(order[0])
    {
      var node := new LRUNode(key, val);
      FirstAddedIndexed(nodes, order, node);
      nodes := nodes[key := node];
      LinkFirst(node);
    }

    method LinkFirst(node: LRUNode<K, V>)
      requires head.IsRing(order) && Shows(contents, order) && node != head && node !in order
      modifies this`order, this`contents
      modifies head`next, head`pre, order`next, order`pre, node`next, node`pre
      ensures head.IsRing(order) && Shows(contents, order)
      ensures order == [node] + old(order) && contents == [(node.key, node.val)] + old(contents)
    {
      ghost var s, c := order, contents;
      head.Insert(node, s);
      FirstAddedShows(c, s, node);
      order, contents := [node] + s, [(node.key, node.val)] + c;
    }

    // Add (golib/lru.go:54-70)
    method Add(key: K, val: V)
      requires Valid()
      modifies this, head, order
      ensures Valid() && contents == LruModel.Add(old(contents), size, key, val)
      ensures forall n :: n in order ==> n in old(order) || fresh(n)
    {
      if key in nodes {
        Update(key, val);
        return;
      }
      Absent(nodes, contents, order, key);
      if |nodes| >= size {
        Evict();
      }
      Push(key, val);
    }

    method SetValue(node: LRUNode<K, V>, ghost i: nat, val: V)
      requires Valid() && i < |order| && order[i] == node
      modifies node`val, this`contents
      ensures Valid() && contents == old(contents)[i := (node.key, val)]
    {
      ghost var s, c := order, contents;
      node.val := val;
      contents := c[i := (node.key, val)];
      forall j | 0 <= j < |s|
        ensures ShowsAt(contents, s, j)
      {
        assert old(ShowsAt(c, s, j));
        assert j < i ==> Differ(s, j, i);
        assert i < j ==> Differ(s, i, j);
      }
    }

    // Add for a key that is there (golib/lru.go:55-59)
    method Update(key: K, val: V)
      requires Valid() && key in nodes
      modifies this`order, this`contents, head, order
      ensures Valid() && contents == LruModel.Add(old(contents), size, key, val)
      ensures forall n :: n in order ==> n in old(order)
    {
      var node := nodes[key];
      ghost var s, c := order, contents;
      ghost var i := Locate(nodes, c, s, key);
      MovedKeepsElements(s, i);
      Revalued(c, i, (key, val));
      SetValue(node, i, val);
      MakeFirst(node, i);
    }

    // Get (golib/lru.go:72-80)
    method Get(key: K) returns (val: Option<V>)
      requires Valid()
      modifies this`order, this`contents, head`next, head`pre, order`next, order`pre
      ensures Valid() && contents == Touch(old(contents), key)
      ensures val == LruModel.Get(old(contents), key)
      ensures forall n :: n in order ==> n in old(order)
    {
      if key !in nodes {
        Absent(nodes, contents, order, key);
        return None;
      }
      var node := nodes[key];
      ghost var s, c := order, contents;
      ghost var i := Locate(nodes, c, s, key);
      assert ShowsAt(c, s, i);
      MovedKeepsElements(s, i);
      MakeFirst(node, i);
      return Some(node.val);
    }
  }

  // NewLRU (golib/lru.go:42-52) for every size
  method NewLRU<K(0, ==), V(0)>(size: int) returns (l: LRU?<K, V>)
    ensures l == null <==> size <= 0
    ensures l != null ==> fresh(l) && fresh(l.head) && l.Valid() && l.contents == [] && l.size == size
  {
    if size <= 0 {
      return null;
    }
    l := new LRU(size);
  }
}
