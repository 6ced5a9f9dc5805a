// What a whole history of calls leaves in an LRU cache: the most recently used
// distinct keys, each with the value last added for it.
module LruHistory {
  import opened LruModel
  import opened Sequences

  datatype Op<K, V> = AddOp(key: K, val: V) | GetOp(key: K)

  ghost function After<K, V>(size: nat, ops: seq<Op<K, V>>): Cache<K, V> {
    if ops == [] then []
    else
      var c := After(size, ops[..|ops| - 1]);
      match ops[|ops| - 1]
      case AddOp(k, v) => Add(c, size, k, v)
      case GetOp(k) => Touch(c, k)
  }

  // The keys used, latest first: every added key, and every key got while held.
  ghost function Uses<K, V>(size: nat, ops: seq<Op<K, V>>): seq<K> {
    if ops == [] then []
    else
      var before := ops[..|ops| - 1];
      var op := ops[|ops| - 1];
      if op.AddOp? || op.key in Keys(After(size, before)) then [op.key] + Uses(size, before) else Uses(size, before)
  }

  ghost function Drop<X>(s: seq<X>, x: X): seq<X> {
    if x in s then Without(s, IndexOf(s, x)) else s
  }

  // The distinct elements of s in the order of their first occurrences.
  ghost function Firsts<X>(s: seq<X>): seq<X> {
    if s == [] then [] else [s[0]] + Drop(Firsts(s[1..]), s[0])
  }

  ghost function Take<X>(s: seq<X>, n: nat): seq<X> {
    if |s| <= n then s else s[..n]
  }

  // The value of the last addition of k.
  ghost function LastAdded<K, V>(ops: seq<Op<K, V>>, k: K): Option<V> {
    if ops == [] then None
    else
      var op := ops[|ops| - 1];
      if op.AddOp? && op.key == k then Some(op.val) else LastAdded(ops[..|ops| - 1], k)
  }

  // Operation i adds the pair, and no later one adds the key.
  ghost predicate LastAt<K, V>(ops: seq<Op<K, V>>, k: K, v: V, i: int) {
    && 0 <= i < |ops| && ops[i] == AddOp(k, v)
    && forall j :: i < j < |ops| ==> ops[j].GetOp? || ops[j].key != k
  }

  lemma {:induction false} LastAddedIsLast<K, V>(ops: seq<Op<K, V>>, k: K, v: V)
    ensures LastAdded(ops, k) == Some(v) <==> exists i :: LastAt(ops, k, v, i)
  {
    if ops != [] {
      var n, before := |ops| - 1, ops[..|ops| - 1];
      if ops[n].AddOp? && ops[n].key == k {
        assert ops[n].val == v ==> LastAt(ops, k, v, n);
      } else {
        LastAddedIsLast(before, k, v);
        forall i
          ensures LastAt(ops, k, v, i) <==> LastAt(before, k, v, i)
        {
          assert LastAt(before, k, v, i) ==> ops[i] == before[i];
        }
      }
    }
  }

  lemma {:induction false} FirstsElements<X>(s: seq<X>, x: X)
    ensures x in Firsts(s) <==> x in s
  {
    if s != [] {
      FirstsElements(s[1..], x);
      DropElements(Firsts(s[1..]), s[0], x);
    }
  }

  lemma DropElements<X>(r: seq<X>, x: X, y: X)
    ensures y in [x] + Drop(r, x) <==> y in [x] + r
  {
    if x in r {
      MovedKeepsElements(r, IndexOf(r, x));
    }
  }

  lemma {:induction false} FirstsDistinct<X>(s: seq<X>)
    ensures NoDuplicates(Firsts(s))
  {
    if s != [] {
      var r, x := Firsts(s[1..]), s[0];
      FirstsDistinct(s[1..]);
      if x in r {
        WithoutKeepsDifference(r, IndexOf(r, x));
      }
      AddedDiffers(Drop(r, x), x);
    }
  }

  // Where the distinct elements after the first stand among those of the rest.
  ghost function InRest<X>(r: seq<X>, x: X, i: nat): int {
    if x in r && IndexOf(r, x) < i then i else i - 1
  }

  lemma DropAt<X>(r: seq<X>, x: X, i: nat)
    requires 0 < i <= |Drop(r, x)|
    ensures 0 <= InRest(r, x, i) < |r| && Drop(r, x)[i - 1] == r[InRest(r, x, i)]
  {
  }

  // What comes earlier among the distinct elements occurs before the other does.
  lemma {:induction false} FirstsOrder<X>(s: seq<X>, i: nat, j: nat) returns (k: nat)
    requires i < j < |Firsts(s)|
    ensures k < |s| && s[k] == Firsts(s)[i] && Firsts(s)[j] !in s[..k + 1]
  {
    FirstsDistinct(s);
    assert Differ(Firsts(s), 0, j);
    if i == 0 {
      k := 0;
    } else {
      var r, x := Firsts(s[1..]), s[0];
      assert Firsts(s) == [x] + Drop(r, x);
      DropAt(r, x, i);
      DropAt(r, x, j);
      var l := FirstsOrder(s[1..], InRest(r, x, i), InRest(r, x, j));
      k := l + 1;
      assert s[..k + 1] == [x] + s[1..][..l + 1];
    }
  }

  // Using x moves it to the front of the first n, pushing out the last of them
  // if x was not among them.
  lemma TakeAfterUse<X>(r: seq<X>, x: X, n: nat)
    requires NoDuplicates(r) && n > 0
    ensures var t := Take(r, n);
            Take([x] + Drop(r, x), n) ==
              if x in t then [x] + Without(t, IndexOf(t, x))
              else if |t| >= n then [x] + t[..|t| - 1]
              else [x] + t
  {
    var t := Take(r, n);
    if x in r {
      UseOfKnown(r, x, n, IndexOf(r, x));
    }
  }

  lemma UseOfKnown<X>(r: seq<X>, x: X, n: nat, i: nat)
    requires NoDuplicates(r) && n > 0 && i == IndexOf(r, x) && i < |r| && r[i] == x
    ensures var t := Take(r, n);
            Take([x] + Without(r, i), n) ==
              if i < |t| then [x] + Without(t, i)
              else [x] + t[..|t| - 1]
    ensures x in Take(r, n) <==> i < |Take(r, n)|
    ensures i < |Take(r, n)| ==> IndexOf(Take(r, n), x) == i
  {
    var t := Take(r, n);
    if i < |t| {
      assert t[i] == x;
      Same(t, r, x, i);
      assert Without(t, i) == Take(Without(r, i), |t| - 1);
    } else {
      Indices(r);
      assert forall j :: 0 <= j < |t| ==> t[j] == r[j];
    }
  }

  lemma Same<X>(t: seq<X>, r: seq<X>, x: X, i: nat)
    requires NoDuplicates(r) && t <= r && i < |t| && t[i] == x
    ensures IndexOf(t, x) == i == IndexOf(r, x)
  {
    var j := IndexOf(t, x);
    Indices(r);
    assert r[j] == x && r[i] == x;
  }

  lemma FindInKeys<K, V>(c: Cache<K, V>, k: K)
    ensures Find(c, k) < |c| <==> k in Keys(c)
    ensures NoDuplicates(Keys(c)) && k in Keys(c) ==> Find(c, k) == IndexOf(Keys(c), k)
  {
    var i := Find(c, k);
    if i < |c| {
      assert Keys(c)[i] == k;
      if NoDuplicates(Keys(c)) {
        Indices(Keys(c));
      }
    }
  }

  lemma KeysAfterAdd<K, V>(c: Cache<K, V>, size: nat, k: K, v: V)
    requires NoDuplicates(Keys(c)) && size > 0
    ensures var t := Keys(c);
            Keys(Add(c, size, k, v)) ==
              if k in t then [k] + Without(t, IndexOf(t, k))
              else if |t| >= size then [k] + t[..|t| - 1]
              else [k] + t
  {
    FindInKeys(c, k);
  }

  lemma KeysAfterTouch<K, V>(c: Cache<K, V>, k: K)
    requires NoDuplicates(Keys(c))
    ensures Keys(Touch(c, k)) == if k in Keys(c) then [k] + Without(Keys(c), IndexOf(Keys(c), k)) else Keys(c)
  {
    FindInKeys(c, k);
  }

  // The keys held are the size most recently used distinct ones: an eviction
  // removes exactly the least recently used.
  lemma {:induction false} HoldsMostRecent<K, V>(size: nat, ops: seq<Op<K, V>>)
    requires size > 0
    ensures Keys(After(size, ops)) == Take(Firsts(Uses(size, ops)), size)
  {
    if ops != [] {
      var before, op := ops[..|ops| - 1], ops[|ops| - 1];
      var c, r := After(size, before), Firsts(Uses(size, before));
      HoldsMostRecent(size, before);
      FirstsDistinct(Uses(size, before));
      TakeDistinct(r, size);
      TakeAfterUse(r, op.key, size);
      match op {
        case AddOp(k, v) => KeysAfterAdd(c, size, k, v);
        case GetOp(k) => KeysAfterTouch(c, k);
      }
      var u := Uses(size, before);
      assert ([op.key] + u)[1..] == u;
    }
  }

  lemma TakeDistinct<X>(s: seq<X>, n: nat)
    requires NoDuplicates(s)
    ensures NoDuplicates(Take(s, n))
  {
    var t := Take(s, n);
    assert forall i, j {:trigger Differ(t, i, j)} :: 0 <= i < j < |t| ==> Differ(s, i, j);
  }

  // Every pair held carries the value last added for its key.
  lemma {:induction false} HoldsLatest<K, V>(size: nat, ops: seq<Op<K, V>>, i: nat)
    requires size > 0 && i < |After(size, ops)|
    ensures LastAdded(ops, After(size, ops)[i].0) == Some(After(size, ops)[i].1)
  {
    var before, op := ops[..|ops| - 1], ops[|ops| - 1];
    var c, d := After(size, before), After(size, ops);
    forall j | 0 <= j < |c|
      ensures LastAdded(before, c[j].0) == Some(c[j].1)
    {
      HoldsLatest(size, before, j);
    }
    HoldsMostRecent(size, ops);
    FirstsDistinct(Uses(size, ops));
    TakeDistinct(Firsts(Uses(size, ops)), size);
    assert i > 0 ==> Differ(Keys(d), 0, i);
  }

  // Get returns the latest value still held, and misses exactly the keys that
  // are not among the size most recently used.
  lemma GetMeaning<K, V>(size: nat, ops: seq<Op<K, V>>, k: K)
    requires size > 0
    ensures Get(After(size, ops), k) ==
              if k in Take(Firsts(Uses(size, ops)), size) then LastAdded(ops, k) else None
  {
    var c := After(size, ops);
    HoldsMostRecent(size, ops);
    FindInKeys(c, k);
    if Find(c, k) < |c| {
      HoldsLatest(size, ops, Find(c, k));
    }
  }
}
