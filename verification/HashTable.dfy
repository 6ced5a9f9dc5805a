// clib/hash_interface.c: a table of chained entries, for a type that neither
// copies nor destroys keys and values. The keys are what keyCompare tells apart,
// so the table stands for a finite map from classes of equivalent keys.
module HashTable {
  import opened Bits
  import opened MachineInts
  import opened NextPower
  import opened Ring
  import opened Sequences

  // What dictMalloc and dictFree account for (clib/hash_interface.c:54-66).
  class Memory {
    var total: int
  }

  const ENTRY_SIZE := 24
  const POINTER_SIZE := 8
  const DICT_SIZE := 48
  const LONG_MAX := 0x7FFF_FFFF_FFFF_FFFF
  // The largest table whose slots the int in the loop of dictDestroy can count.
  const SIZE_LIMIT := 0x4000_0000

  datatype Status = OK | EXIST | NOT_EXIST

  // An entry is three pointers, a table three pointers and three numbers of their
  // size.
  lemma Sizes()
    ensures ENTRY_SIZE == 3 * POINTER_SIZE && DICT_SIZE == 6 * POINTER_SIZE
  {
  }

  // The size dictCreate rounds up to.
  ghost predicate RoundsTo(size: nat, r: nat) {
    && (exists k: nat :: k >= 2 && r == Pow2(k))
    && r >= size
    && forall j: nat :: j >= 2 && Pow2(j) >= size ==> r <= Pow2(j)
  }

  // _dictNextPower (clib/hash_interface.c:94-104)
  method DictNextPower(size: nat) returns (i: nat)
    ensures size >= LONG_MAX ==> i == LONG_MAX
    ensures size < LONG_MAX ==> RoundsTo(size, i) && i <= LONG_MAX + 1
  {
    i := 4;
    if size >= LONG_MAX {
      return LONG_MAX;
    }
    ghost var k := 2;
    assert Pow2(2) == 4;
    while i < size
      invariant k >= 2 && i == Pow2(k) && i <= LONG_MAX + 1
      invariant forall j: nat :: 2 <= j < k ==> Pow2(j) < size
      decreases size - i
    {
      PowersDivide(i, k);
      i := i * 2;
      k := k + 1;
    }
    forall j: nat | j >= 2 && Pow2(j) >= size
      ensures i <= Pow2(j)
    {
      Pow2Monotonic(k, j);
    }
  }

  lemma {:induction false} Pow2Sum(j: nat, k: nat)
    ensures Pow2(j + k) == Pow2(j) * Pow2(k)
  {
    if j > 0 {
      Pow2Sum(j - 1, k);
    }
  }

  // Doubling a power of two below 2^63 does not pass 2^63.
  lemma PowersDivide(i: nat, k: nat)
    requires i == Pow2(k) && i <= LONG_MAX
    ensures 2 * i <= LONG_MAX + 1
  {
    Pow2Sum(31, 32);
    WordIsPow2();
    assert Pow2(32) == 2 * Pow2(31);
    if k >= 63 {
      Pow2Monotonic(63, k);
    } else {
      Pow2Monotonic(k + 1, 63);
    }
  }

  // The size is kept exactly when it is a power of two from 4 on.
  lemma SizeIsKept(size: nat, r: nat)
    requires RoundsTo(size, r)
    ensures r == size <==> exists k: nat :: k >= 2 && size == Pow2(k)
  {
    if k: nat :| k >= 2 && size == Pow2(k) {
      assert r <= Pow2(k);
    }
  }

  lemma SizeFits(size: nat, r: nat)
    requires RoundsTo(size, r) && size <= SIZE_LIMIT
    ensures 4 <= r <= SIZE_LIMIT && IsSize(r)
  {
    var k :| k >= 2 && r == Pow2(k);
    assert Pow2(2) == 4;
    Pow2Values();
    Pow2Monotonic(2, k);
    assert r <= Pow2(30);
    if k > 31 {
      Pow2Monotonic(31, k);
    }
  }

  // A key's hash, as an int, with the mask, as an unsigned long, back in an int.
  function Index(hash: nat, mask: nat): int
    requires hash < WORD
  {
    Int32(BitAnd(Int32(hash) % (WORD * WORD), mask) % WORD)
  }

  // As an unsigned long a hash keeps its 32 lowest places.
  lemma HashAsLong(hash: nat)
    requires hash < WORD
    ensures Wrap(Int32(hash) % (WORD * WORD)) == hash
  {
    var x, q := Int32(hash) % (WORD * WORD), if hash < 0x8000_0000 then 0 else WORD - 1;
    DivModUnique(Int32(hash), WORD * WORD, if q == 0 then 0 else -1, q * WORD + hash);
    DivModUnique(x, WORD, q, hash);
  }

  // The detour over a negative int does not change the bucket.
  lemma IndexIsSlot(hash: nat, size: nat)
    requires hash < WORD && IsSize(size)
    ensures Index(hash, size - 1) == Slot(hash, size)
  {
    var x := Int32(hash) % (WORD * WORD);
    var k :| 0 <= k <= 31 && size == Pow2(k);
    AndMaskIsMod(x, k);
    MaskIsSlot(x, size);
    AndMaskIsMod(hash, k);
    HashAsLong(hash);
    SmallIndex(Slot(hash, size), k);
  }

  lemma SmallIndex(i: nat, k: nat)
    requires i < Pow2(k) && k <= 31
    ensures Int32(i % WORD) == i
  {
    Pow2Monotonic(k, 31);
    Pow2Values();
    DivModUnique(i, WORD, 0, i);
  }

  lemma BelowMultiple(m: nat, p: nat, q: nat, h: nat)
    requires m == q * p && 0 < h <= p && q >= 1
    ensures m >= h && (m - h) % p == p - h
  {
    assert q * p == (q - 1) * p + p;
    DivModUnique(m - h, p, q - 1, p - h);
  }

  lemma WordSquared(k: nat) returns (q: nat)
    requires k <= 64
    ensures q >= 1 && WORD * WORD == q * Pow2(k)
  {
    q := Pow2Divides(k, 64);
    Pow2Sum(32, 32);
    WordIsPow2();
  }

  // A hash h of 2^31, in the unsigned long it becomes, with its k lowest places.
  lemma LowPlaces(h: nat, k: nat)
    requires h == 0x8000_0000 && 32 <= k <= 63
    ensures (WORD * WORD - h) % Pow2(k) % WORD == h
  {
    var q := WordSquared(k);
    var r := Pow2Divides(32, k);
    WordIsPow2();
    Pow2Monotonic(32, k);
    BelowMultiple(WORD * WORD, Pow2(k), q, h);
    BelowMultiple(Pow2(k), WORD, r, h);
  }

  // In a larger table the hash 2^31 gets a negative index.
  lemma IndexBreaks(h: nat, k: nat)
    requires h == 0x8000_0000 && 32 <= k <= 63
    ensures Index(h, Pow2(k) - 1) < 0
  {
    DivModUnique(Int32(h), WORD * WORD, -1, WORD * WORD - h);
    AndMaskIsMod(WORD * WORD - h, k);
    LowPlaces(h, k);
  }

  // So the code finds every key's bucket exactly in tables of up to 2^31 slots.
  lemma IndexIsSlotUpTo(k: nat)
    requires 2 <= k <= 63
    ensures (forall hash: nat :: hash < WORD ==> Index(hash, Pow2(k) - 1) == Slot(hash, Pow2(k))) <==> k <= 31
  {
    if k <= 31 {
      Pow2Monotonic(k, 31);
      Pow2Values();
      forall hash: nat | hash < WORD
        ensures Index(hash, Pow2(k) - 1) == Slot(hash, Pow2(k))
      {
        IndexIsSlot(hash, Pow2(k));
      }
    } else {
      IndexBreaks(0x8000_0000, k);
      assert Index(0x8000_0000, Pow2(k) - 1) != Slot(0x8000_0000, Pow2(k));
    }
  }

  class DictEntry<K(!new), V> {
    const key: K
    var val: V
    var next: DictEntry?<K, V>

    constructor (key: K, val: V)
      ensures this.key == key && this.val == val
    {
      this.key, this.val := key, val;
    }
  }

  // The entries of every bucket.
  type Chains<!K(!new), !V> = seq<seq<DictEntry<K, V>>>

  // The entry of every class of keys.
  type Entries<!K(!new), !V> = map<iset<K>, DictEntry<K, V>>

  // The element at index i, or null beyond the ends.
  ghost function At<K(!new), V>(s: seq<DictEntry<K, V>>, i: int): DictEntry?<K, V> {
    if 0 <= i < |s| then s[i] else null
  }

  ghost predicate LinkAt<K(!new), V>(s: seq<DictEntry<K, V>>, i: int)
    requires 0 <= i < |s|
    reads s`next
  {
    s[i].next == At(s, i + 1)
  }

  // From e, following next visits s once each and ends.
  ghost predicate Chain<K(!new), V>(e: DictEntry?<K, V>, s: seq<DictEntry<K, V>>)
    reads s`next
  {
    && e == At(s, 0) && NoDuplicates(s)
    && forall i :: 0 <= i < |s| ==> LinkAt(s, i)
  }

  lemma ChainPushed<K(!new), V>(n: DictEntry<K, V>, s: seq<DictEntry<K, V>>)
    requires Chain(n.next, s) && n !in s
    ensures Chain(n, [n] + s)
  {
    var t := [n] + s;
    AddedDiffers(s, n);
    forall i | 0 <= i < |t|
      ensures LinkAt(t, i)
    {
      assert i > 0 ==> LinkAt(s, i - 1);
    }
  }

  // The functions a table is given for its keys; keyCompare stands for its
  // result being nonzero.
  datatype DictType<!K(!new)> = DictType(hashFunction: K -> nat, keyCompare: (K, K) -> bool)
  {
    // keyCompare is an equivalence, and equivalent keys have one hash of 32 bits.
    ghost predicate Proper() {
      && (forall k :: hashFunction(k) < WORD && keyCompare(k, k))
      && (forall j, k :: keyCompare(j, k) ==> keyCompare(k, j) && hashFunction(j) == hashFunction(k))
      && (forall i, j, k :: keyCompare(i, j) && keyCompare(j, k) ==> keyCompare(i, k))
    }

    // The keys that keyCompare takes for k.
    ghost function Class(k: K): iset<K> {
      iset x | keyCompare(k, x)
    }

    // The bucket of a key.
    ghost function Home(k: K, size: nat): (b: nat)
      requires size >= 1
      ensures b < size
    {
      Slot(hashFunction(k), size)
    }

    lemma SameClass(j: K, k: K)
      requires Proper()
      ensures keyCompare(j, k) <==> Class(j) == Class(k)
      ensures keyCompare(j, k) ==> hashFunction(j) == hashFunction(k)
    {
      if keyCompare(j, k) {
        assert forall x :: keyCompare(j, x) <==> keyCompare(k, x);
      } else {
        assert k in Class(k) && k !in Class(j);
      }
    }
  }

  // The bucket of e is b, and its class of keys finds it.
  ghost predicate Placed<K(!new), V>(t: DictType<K>, size: nat, m: Entries<K, V>, b: nat, e: DictEntry<K, V>) {
    size >= 1 && t.Home(e.key, size) == b && t.Class(e.key) in m && m[t.Class(e.key)] == e
  }

  // Class c has its entry in the bucket of its keys.
  ghost predicate Listed<K(!new), V>(t: DictType<K>, chains: Chains<K, V>, m: Entries<K, V>, c: iset<K>)
    requires c in m
  {
    && |chains| >= 1
    && t.Class(m[c].key) == c
    && m[c] in chains[t.Home(m[c].key, |chains|)]
  }

  // The buckets hold exactly the entries of m, each in the bucket of its key.
  ghost predicate Filed<K(!new), V>(t: DictType<K>, chains: Chains<K, V>, m: Entries<K, V>) {
    && (forall b, e {:trigger Placed(t, |chains|, m, b, e)} :: 0 <= b < |chains| && e in chains[b] ==>
          Placed(t, |chains|, m, b, e))
    && (forall c {:trigger Listed(t, chains, m, c)} :: c in m ==> Listed(t, chains, m, c))
  }

  // A key met nowhere in its bucket is in no bucket.
  lemma Missing<K(!new), V>(t: DictType<K>, chains: Chains<K, V>, m: Entries<K, V>, key: K)
    requires Filed(t, chains, m) && t.Proper() && |chains| >= 1
    requires forall e :: e in chains[t.Home(key, |chains|)] ==> !t.keyCompare(key, e.key)
    ensures t.Class(key) !in m
  {
    var c := t.Class(key);
    if c in m {
      assert Listed(t, chains, m, c);
      t.SameClass(key, m[c].key);
    }
  }

  lemma InsertIsFiled<K(!new), V>(t: DictType<K>, chains: Chains<K, V>, m: Entries<K, V>, n: DictEntry<K, V>, b: nat)
    requires Filed(t, chains, m) && |chains| >= 1 && b == t.Home(n.key, |chains|) && t.Class(n.key) !in m
    ensures Filed(t, chains[b := [n] + chains[b]], m[t.Class(n.key) := n])
  {
    var chains', m' := chains[b := [n] + chains[b]], m[t.Class(n.key) := n];
    forall i, e | 0 <= i < |chains'| && e in chains'[i]
      ensures Placed(t, |chains'|, m', i, e)
    {
      if e in chains[i] {
        assert Placed(t, |chains|, m, i, e);
      } else {
        assert i == b && e == n;
      }
    }
    forall c | c in m'
      ensures Listed(t, chains', m', c)
    {
      if c in m {
        assert Listed(t, chains, m, c);
      } else {
        assert chains'[b][0] == n;
      }
    }
  }

  lemma RemoveIsFiled<K(!new), V>(t: DictType<K>, chains: Chains<K, V>, m: Entries<K, V>, b: nat, j: nat)
    requires Filed(t, chains, m) && b < |chains| && j < |chains[b]| && NoDuplicates(chains[b])
    ensures Filed(t, chains[b := Without(chains[b], j)], m - {t.Class(chains[b][j].key)})
  {
    var n := chains[b][j];
    var chains', m' := chains[b := Without(chains[b], j)], m - {t.Class(n.key)};
    WithoutKeepsDifference(chains[b], j);
    assert Placed(t, |chains|, m, b, n);
    forall i, e | 0 <= i < |chains'| && e in chains'[i]
      ensures Placed(t, |chains'|, m', i, e)
    {
      assert Placed(t, |chains|, m, i, e);
    }
    forall c | c in m'
      ensures Listed(t, chains', m', c)
    {
      assert Listed(t, chains, m, c);
      MovedKeepsElements(chains[b], j);
    }
  }

  // Following the links from every slot visits that bucket's chain.
  ghost predicate Linked<K(!new), V>(table: array<DictEntry?<K, V>>, chains: Chains<K, V>, m: Entries<K, V>)
    reads table, m.Values`next
  {
    && table.Length == |chains|
    && forall b {:trigger LinkedAt(table[b], chains[b], m)} :: 0 <= b < |chains| ==>
         LinkedAt(table[b], chains[b], m)
  }

  ghost predicate LinkedAt<K(!new), V>(e: DictEntry?<K, V>, s: seq<DictEntry<K, V>>, m: Entries<K, V>)
    reads m.Values`next
  {
    (forall x :: x in s ==> x in m.Values) && Chain(e, s)
  }

  // v maps every class to the value its entry holds.
  ghost predicate Shows<K(!new), V>(v: map<iset<K>, V>, m: Entries<K, V>)
    reads m.Values`val
  {
    v.Keys == m.Keys && forall c {:trigger ShowsAt(v, m, c)} :: c in m ==> ShowsAt(v, m, c)
  }

  ghost predicate ShowsAt<K(!new), V>(v: map<iset<K>, V>, m: Entries<K, V>, c: iset<K>)
    requires c in v && c in m
    reads m.Values`val
  {
    v[c] == m[c].val
  }

  lemma InsertShows<K(!new), V>(v: map<iset<K>, V>, m: Entries<K, V>, n: DictEntry<K, V>, c: iset<K>)
    requires Shows(v, m)
    ensures Shows(v[c := n.val], m[c := n])
  {
    var v', m' := v[c := n.val], m[c := n];
    forall d | d in m'
      ensures ShowsAt(v', m', d)
    {
      assert d != c ==> ShowsAt(v, m, d);
    }
  }

  lemma RemoveShows<K(!new), V>(v: map<iset<K>, V>, m: Entries<K, V>, c: iset<K>)
    requires Shows(v, m)
    ensures Shows(v - {c}, m - {c}) && (m - {c}).Values <= m.Values
  {
    var v', m' := v - {c}, m - {c};
    forall d | d in m'
      ensures ShowsAt(v', m', d)
    {
      assert ShowsAt(v, m, d);
    }
  }

  // A new entry becomes the first of its bucket (clib/hash_interface.c:153-154).
  method PushFirst<K(!new), V>(table: array<DictEntry?<K, V>>, entry: DictEntry<K, V>, idx: nat,
                               ghost chains: Chains<K, V>, ghost m: Entries<K, V>, ghost c: iset<K>)
    requires Linked(table, chains, m) && idx < |chains| && entry !in m.Values && c !in m
    modifies table, entry`next
    ensures Linked(table, chains[idx := [entry] + chains[idx]], m[c := entry])
  {
    ghost var m' := m[c := entry];
    assert LinkedAt(table[idx], chains[idx], m);
    assert m'.Values == m.Values + {entry} by {
      assert forall d :: d in m ==> m'[d] == m[d];
      assert m'[c] == entry;
    }
    entry.next := table[idx];
    ChainPushed(entry, chains[idx]);
    table[idx] := entry;
    forall b | 0 <= b < |chains| && b != idx
      ensures LinkedAt(table[b], chains[b], m')
    {
      assert old(LinkedAt(table[b], chains[b], m));
    }
  }

  // An entry leaves its bucket and is freed (clib/hash_interface.c:183-189).
  method Unlink<K(!new), V>(ghost t: DictType<K>, table: array<DictEntry?<K, V>>,
                            mem: Memory, iter: DictEntry<K, V>, preIter: DictEntry?<K, V>, idx: nat,
                            ghost chains: Chains<K, V>, ghost m: Entries<K, V>,
                            ghost v: map<iset<K>, V>, ghost j: nat)
    requires Linked(table, chains, m) && Filed(t, chains, m) && Shows(v, m)
    requires idx < |chains| && j < |chains[idx]| && iter == chains[idx][j] && preIter == At(chains[idx], j - 1)
    modifies table, mem, m.Values`next
    ensures mem.total == old(mem.total) - ENTRY_SIZE
    ensures Linked(table, chains[idx := Without(chains[idx], j)], m - {t.Class(iter.key)})
    ensures Shows(v - {t.Class(iter.key)}, m - {t.Class(iter.key)})
  {
    ghost var s, u := chains[idx], Without(chains[idx], j);
    ghost var chains', m' := chains[idx := u], m - {t.Class(iter.key)};
    assert LinkedAt(table[idx], s, m);
    RemoveIsFiled(t, chains, m, idx, j);
    WithoutKeepsDifference(s, j);
    assert LinkAt(s, j);
    if preIter != null {
      preIter.next := iter.next;
    } else {
      table[idx] := iter.next;
    }
    mem.total := mem.total - ENTRY_SIZE;
    RemoveShows(v, m, t.Class(iter.key));
    forall i | 0 <= i < |u|
      ensures LinkAt(u, i)
    {
      assert old(LinkAt(s, if i < j then i else i + 1));
      assert i < j - 1 ==> Differ(s, i, j - 1);
      assert 0 < j <= i ==> Differ(s, j - 1, i + 1);
    }
    forall b | 0 <= b < |chains'|
      ensures LinkedAt(table[b], chains'[b], m')
    {
      FiledEntries(t, chains', m', b);
      if b != idx {
        assert old(LinkedAt(table[b], chains[b], m));
        assert preIter != null ==> Placed(t, |chains|, m, idx, preIter);
        assert preIter in chains[b] ==> Placed(t, |chains|, m, b, preIter);
      }
    }
  }

  // The slots that dictCreate does not clear happen to be null.
  ghost predicate Clean<K(!new), V>(stale: seq<DictEntry?<K, V>>, size: nat) {
    forall i :: size <= i < |stale| ==> stale[i] == null
  }

  // That is so whatever the slots happened to hold exactly for the sizes that
  // are powers of two from 4 on.
  lemma AlwaysClean<K(!new), V>(size: nat, r: nat, e: DictEntry<K, V>)
    requires RoundsTo(size, r)
    ensures (forall stale: seq<DictEntry?<K, V>> :: |stale| == r ==> Clean(stale, size)) <==>
            exists k: nat :: k >= 2 && size == Pow2(k)
  {
    SizeIsKept(size, r);
    var stale: seq<DictEntry?<K, V>> := seq(r, _ => e);
    if size < r {
      assert stale[size] != null;
      assert !Clean(stale, size);
    }
  }

  // memset of the first size slots (clib/hash_interface.c:123)
  method Clear<K(!new), V>(slots: array<DictEntry?<K, V>>, size: nat)
    requires size <= slots.Length
    modifies slots
    ensures forall x :: 0 <= x < slots.Length ==> slots[x] == if x < size then null else old(slots[x])
  {
    for i := 0 to size
      invariant forall x :: 0 <= x < slots.Length ==> slots[x] == if x < i then null else old(slots[x])
    {
      slots[i] := null;
    }
  }

  lemma FiledEntries<K(!new), V>(t: DictType<K>, chains: Chains<K, V>, m: Entries<K, V>, b: nat)
    requires Filed(t, chains, m) && b < |chains|
    ensures forall e :: e in chains[b] ==> e in m.Values
  {
    forall e | e in chains[b]
      ensures e in m.Values
    {
      assert Placed(t, |chains|, m, b, e);
    }
  }

  lemma RemoveCounted<K(!new), V>(t: DictType<K>, chains: Chains<K, V>, m: Entries<K, V>, b: nat, j: nat, c: iset<K>)
    requires Filed(t, chains, m) && b < |chains| && j < |chains[b]| && NoDuplicates(chains[b])
    requires c == t.Class(chains[b][j].key)
    ensures c in m && |m - {c}| + 1 == |m| && (m - {c}).Values <= m.Values
    ensures Filed(t, chains[b := Without(chains[b], j)], m - {c})
  {
    RemoveIsFiled(t, chains, m, b, j);
    assert Placed(t, |chains|, m, b, chains[b][j]);
    assert (m - {c}).Keys == m.Keys - {c};
    assert forall d :: d in m - {c} ==> (m - {c})[d] == m[d];
  }

  // Taking entry j out of bucket b keeps every view in step with the others.
  lemma RemoveStep<K(!new), V>(t: DictType<K>, chains: Chains<K, V>, m: Entries<K, V>, v: map<iset<K>, V>,
                               b: nat, j: nat, c: iset<K>)
    requires Filed(t, chains, m) && Shows(v, m)
    requires b < |chains| && j < |chains[b]| && NoDuplicates(chains[b]) && c == t.Class(chains[b][j].key)
    ensures c in m && |m - {c}| + 1 == |m|
    ensures Filed(t, chains[b := Without(chains[b], j)], m - {c}) && Shows(v - {c}, m - {c})
  {
    RemoveCounted(t, chains, m, b, j, c);
    RemoveShows(v, m, c);
  }

  // Freeing the head of what is left of bucket b.
  lemma FreeStep<K(!new), V>(t: DictType<K>, chains: Chains<K, V>, m: Entries<K, V>, v: map<iset<K>, V>, b: nat,
                             s: seq<DictEntry<K, V>>, j: nat, c: iset<K>)
    requires b < |chains| && j < |s| && NoDuplicates(s) && c == t.Class(s[j].key)
    requires Filed(t, chains[b := s[j..]], m) && Shows(v, m)
    ensures c in m && |m - {c}| + 1 == |m|
    ensures Filed(t, chains[b := s[j + 1..]], m - {c}) && Shows(v - {c}, m - {c})
  {
    var u, left := s[j..], chains[b := s[j..]];
    forall x, y | 0 <= x < y < |u|
      ensures Differ(u, x, y)
    {
      assert Differ(s, j + x, j + y);
    }
    RemoveStep(t, left, m, v, b, 0, c);
    assert Without(u, 0) == s[j + 1..];
    assert left[b := Without(u, 0)] == chains[b := s[j + 1..]];
  }

  lemma HasBucket<K(!new), V>(t: DictType<K>, chains: Chains<K, V>, m: Entries<K, V>, c: iset<K>)
    requires Filed(t, chains, m) && c in m
    ensures |chains| >= 1 && m[c] in chains[t.Home(m[c].key, |chains|)] && t.Class(m[c].key) == c
  {
    assert Listed(t, chains, m, c);
  }

  lemma NoneLeft<K(!new), V>(t: DictType<K>, chains: Chains<K, V>, m: Entries<K, V>)
    requires Filed(t, chains, m) && forall b :: 0 <= b < |chains| ==> chains[b] == []
    ensures m == map[]
  {
    if c :| c in m {
      HasBucket(t, chains, m, c);
      assert false;
    }
  }

  class Dict<K(!new, ==), V> {
    const kind: DictType<K>
    const mem: Memory
    const table: array<DictEntry?<K, V>>
    var size: nat
    var sizemask: nat
    var used: nat
    // the entries of every bucket, and the entry of every class of keys
    ghost var chains: Chains<K, V>
    ghost var entries: Entries<K, V>
    // the finite map from classes of keys to values
    ghost var contents: map<iset<K>, V>

    ghost predicate Sized()
      reads this`size, this`sizemask
    {
      && kind.Proper()
      && 4 <= size <= SIZE_LIMIT && IsSize(size) && sizemask == size - 1
      && table.Length == size
    }

    ghost predicate Shape()
      reads this
    {
      Sized() && |chains| == size && used == |entries| && Filed(kind, chains, entries)
    }

    ghost predicate Valid()
      reads this, table, entries.Values
    {
      Shape() && Linked(table, chains, entries) && Shows(contents, entries)
    }

    // The ghost fields follow what was done to the table.
    ghost method Record(s: Chains<K, V>, m: Entries<K, V>, v: map<iset<K>, V>)
      requires Sized() && |s| == size && used == |m| && Filed(kind, s, m)
      requires Linked(table, s, m) && Shows(v, m)
      modifies this`chains, this`entries, this`contents
      ensures Valid() && chains == s && entries == m && contents == v
    {
      chains, entries, contents := s, m, v;
    }

    // The bytes held for this table and its live entries.
    ghost function Cost(): nat
      reads this`size, this`used
    {
      DICT_SIZE + POINTER_SIZE * size + ENTRY_SIZE * used
    }

    // dictCreate (clib/hash_interface.c:106-129): slots is the block that the
    // allocation of the table returned, and only its first size slots are
    // cleared. The table is usable exactly when the others happen to be null and
    // int is wide enough for its slots.
    constructor (kind: DictType<K>, mem: Memory, size: nat, slots: array<DictEntry?<K, V>>)
      requires kind.Proper() && RoundsTo(size, slots.Length) && POINTER_SIZE * slots.Length <= PTRDIFF_MAX
      modifies mem, slots
      ensures Valid() <==> size <= SIZE_LIMIT && Clean(old(slots[..]), size)
      ensures size <= SIZE_LIMIT && (exists k: nat :: k >= 2 && size == Pow2(k)) ==> Valid()
      ensures this.size == slots.Length && entries == map[] && contents == map[] && table == slots
      ensures this.kind == kind && this.mem == mem
      ensures forall i :: 0 <= i < slots.Length ==> slots[i] == if i < size then null else old(slots[i])
      ensures mem.total == old(mem.total) + DICT_SIZE + POINTER_SIZE * slots.Length
      ensures mem.total == old(mem.total) + Cost()
    {
      var realsize := DictNextPower(size);
      SizeIsKept(size, realsize);
      Clear(slots, size);
      this.kind, this.mem := kind, mem;
      table, this.size, sizemask, used := slots, realsize, realsize - 1, 0;
      chains, entries, contents := seq(realsize, b => []), map[], map[];
      new;
      mem.total := mem.total + DICT_SIZE;
      mem.total := mem.total + POINTER_SIZE * realsize;
      assert Cost() == DICT_SIZE + POINTER_SIZE * realsize + ENTRY_SIZE * 0;
      if size <= SIZE_LIMIT {
        SizeFits(size, realsize);
        assert forall b :: 0 <= b < realsize ==> chains[b] == [];
        assert Shape();
        assert forall b :: 0 <= b < realsize ==> (LinkedAt(table[b], chains[b], entries) <==> table[b] == null);
        assert Clean(old(slots[..]), size) <==> forall b :: 0 <= b < realsize ==> table[b] == null;
      }
    }

    lemma CountIsUsed()
      requires Valid()
      ensures used == |contents|
    {
      assert |contents.Keys| == |entries.Keys|;
    }

    // The entries of a key's bucket, where a walk from its head finds them.
    ghost function Bucket(key: K): seq<DictEntry<K, V>>
      requires Shape()
      reads this
    {
      chains[kind.Home(key, size)]
    }

    lemma BucketIsLinked(key: K)
      requires Valid()
      ensures Chain(table[kind.Home(key, size)], Bucket(key))
    {
      var b := kind.Home(key, size);
      assert LinkedAt(table[b], chains[b], entries);
    }

    // Following next from its slot visits a bucket's entries and ends.
    lemma BucketInMemory(b: nat, i: nat)
      requires Valid() && b < size && i < |chains[b]|
      ensures table[b] == chains[b][0]
      ensures chains[b][i].next == if i + 1 < |chains[b]| then chains[b][i + 1] else null
    {
      assert LinkedAt(table[b], chains[b], entries);
      assert LinkAt(chains[b], i);
    }

    // An entry met in the bucket is the entry of the class.
    lemma Met(key: K, j: nat)
      requires Shape() && j < |Bucket(key)| && kind.keyCompare(key, Bucket(key)[j].key)
      ensures kind.Class(key) in entries && entries[kind.Class(key)] == Bucket(key)[j]
      ensures kind.Class(Bucket(key)[j].key) == kind.Class(key)
    {
      kind.SameClass(key, Bucket(key)[j].key);
      assert Placed(kind, |chains|, entries, kind.Home(key, size), Bucket(key)[j]);
    }

    // dictFind (clib/hash_interface.c:160-173)
    method Find(key: K) returns (e: DictEntry?<K, V>)
      requires Valid()
      ensures e == null <==> kind.Class(key) !in contents
      ensures e != null ==> e.val == contents[kind.Class(key)] && entries[kind.Class(key)] == e
    {
      var idx := Index(kind.hashFunction(key), sizemask);
      IndexIsSlot(kind.hashFunction(key), size);
      BucketIsLinked(key);
      ghost var s, j := Bucket(key), 0;
      e := table[idx];
      while e != null
        invariant 0 <= j <= |s| && e == At(s, j)
        invariant forall x :: 0 <= x < j ==> !kind.keyCompare(key, s[x].key)
        decreases |s| - j
      {
        if kind.keyCompare(key, e.key) {
          Met(key, j);
          assert ShowsAt(contents, entries, kind.Class(key));
          return;
        }
        assert LinkAt(s, j);
        e := e.next;
        j := j + 1;
      }
      Missing(kind, chains, entries, key);
    }

    // A new value for an entry of the table.
    method SetVal(e: DictEntry<K, V>, ghost c: iset<K>, val: V)
      requires Valid() && c in entries && entries[c] == e
      modifies e`val, this`contents
      ensures Valid() && contents == old(contents)[c := val]
    {
      e.val := val;
      ghost var v := contents[c := val];
      forall d | d in entries
        ensures ShowsAt(v, entries, d)
      {
        assert Listed(kind, chains, entries, c) && Listed(kind, chains, entries, d);
        assert old(ShowsAt(contents, entries, d));
      }
      contents := v;
    }

    // dictAdd (clib/hash_interface.c:132-158)
    method Add(key: K, val: V) returns (status: Status)
      requires Valid()
      modifies this`used, this`chains, this`entries, this`contents, table, entries.Values`val, mem
      ensures Valid() && contents == old(contents)[kind.Class(key) := val]
      ensures status == if kind.Class(key) in old(contents) then EXIST else OK
      ensures mem.total == old(mem.total) + if status == OK then ENTRY_SIZE else 0
      ensures mem.total - Cost() == old(mem.total - Cost())
      ensures forall e :: e in entries.Values ==> e in old(entries.Values) || fresh(e)
    {
      var idx := Index(kind.hashFunction(key), sizemask);
      IndexIsSlot(kind.hashFunction(key), size);
      BucketIsLinked(key);
      ghost var s, j := Bucket(key), 0;
      var iter := table[idx];
      while iter != null
        invariant 0 <= j <= |s| && iter == At(s, j)
        invariant forall x :: 0 <= x < j ==> !kind.keyCompare(key, s[x].key)
        decreases |s| - j
      {
        if kind.keyCompare(key, iter.key) {
          Met(key, j);
          SetVal(iter, kind.Class(key), val);
          return EXIST;
        }
        assert LinkAt(s, j);
        iter := iter.next;
        j := j + 1;
      }
      Missing(kind, chains, entries, key);
      Insert(idx, key, val);
      return OK;
    }

    // A new entry becomes the first of its bucket (clib/hash_interface.c:148-155).
    method Insert(idx: nat, key: K, val: V)
      requires Valid() && idx == kind.Home(key, size) && kind.Class(key) !in entries
      modifies this`used, this`chains, this`entries, this`contents, table, mem
      ensures Valid() && used == old(used) + 1 && mem.total == old(mem.total) + ENTRY_SIZE
      ensures contents == old(contents)[kind.Class(key) := val]
      ensures forall e :: e in entries.Values ==> e in old(entries.Values) || fresh(e)
    {
      ghost var c := kind.Class(key);
      var entry := new DictEntry(key, val);
      mem.total := mem.total + ENTRY_SIZE;
      ghost var s, m, v := chains[idx := [entry] + chains[idx]], entries[c := entry], contents[c := val];
      InsertIsFiled(kind, chains, entries, entry, idx);
      InsertShows(contents, entries, entry, c);
      PushFirst(table, entry, idx, chains, entries, c);
      used := used + 1;
      Record(s, m, v);
    }

    // dictDel (clib/hash_interface.c:175-197)
    method Del(key: K) returns (status: Status)
      requires Valid()
      modifies this`used, this`chains, this`entries, this`contents, table, entries.Values`next, mem
      ensures Valid() && contents == old(contents) - {kind.Class(key)}
      ensures status == if kind.Class(key) in old(contents) then OK else NOT_EXIST
      ensures mem.total == old(mem.total) - if status == OK then ENTRY_SIZE else 0
      ensures mem.total - Cost() == old(mem.total - Cost())
      ensures entries.Values <= old(entries.Values)
    {
      var idx := Index(kind.hashFunction(key), sizemask);
      IndexIsSlot(kind.hashFunction(key), size);
      BucketIsLinked(key);
      ghost var s, j := Bucket(key), 0;
      var iter := table[idx];
      var preIter: DictEntry?<K, V> := null;
      while iter != null
        invariant 0 <= j <= |s| && iter == At(s, j) && preIter == At(s, j - 1)
        invariant forall x :: 0 <= x < j ==> !kind.keyCompare(key, s[x].key)
        decreases |s| - j
      {
        if kind.keyCompare(key, iter.key) {
          Met(key, j);
          Remove(iter, preIter, idx, j);
          return OK;
        }
        assert LinkAt(s, j);
        preIter := iter;
        iter := iter.next;
        j := j + 1;
      }
      Missing(kind, chains, entries, key);
      assert contents == contents - {kind.Class(key)};
      return NOT_EXIST;
    }

    // An entry leaves its bucket.
    method Remove(iter: DictEntry<K, V>, preIter: DictEntry?<K, V>, idx: nat, ghost j: nat)
      requires Valid() && idx < size && j < |chains[idx]| && NoDuplicates(chains[idx])
      requires iter == chains[idx][j] && preIter == At(chains[idx], j - 1)
      modifies this`used, this`chains, this`entries, this`contents, table, entries.Values`next, mem
      ensures Valid() && used + 1 == old(used) && mem.total + ENTRY_SIZE == old(mem.total)
      ensures contents == old(contents) - {kind.Class(iter.key)} && entries.Values <= old(entries.Values)
    {
      ghost var c := kind.Class(iter.key);
      ghost var s, m := chains[idx := Without(chains[idx], j)], entries - {c};
      RemoveCounted(kind, chains, entries, idx, j, c);
      ghost var v := Cut(iter, preIter, idx, j, s, m);
      Record(s, m, v);
    }

    // The table and its counters without the entry (clib/hash_interface.c:183-190)
    method Cut(iter: DictEntry<K, V>, preIter: DictEntry?<K, V>, idx: nat, ghost j: nat,
               ghost s: Chains<K, V>, ghost m: Entries<K, V>)
      returns (ghost v: map<iset<K>, V>)
      requires Filed(kind, chains, entries) && Linked(table, chains, entries) && Shows(contents, entries)
      requires idx < |chains| && j < |chains[idx]| && iter == chains[idx][j] && preIter == At(chains[idx], j - 1)
      requires s == chains[idx := Without(chains[idx], j)] && m == entries - {kind.Class(iter.key)} && used > 0
      modifies this`used, table, entries.Values`next, mem
      ensures Linked(table, s, m) && Shows(v, m) && v == contents - {kind.Class(iter.key)}
      ensures used + 1 == old(used) && mem.total + ENTRY_SIZE == old(mem.total)
    {
      v := contents - {kind.Class(iter.key)};
      Unlink(kind, table, mem, iter, preIter, idx, chains, entries, contents, j);
      used := used - 1;
    }

    // The inner loop of dictDestroy (clib/hash_interface.c:202-211)
    method FreeChain(b: nat) returns (ghost m: Entries<K, V>, ghost v: map<iset<K>, V>)
      requires b < |chains| && b < table.Length && Chain(table[b], chains[b])
      requires Filed(kind, chains, entries) && Shows(contents, entries) && used == |entries|
      modifies this`used, mem
      ensures Filed(kind, chains[b := []], m) && Shows(v, m) && used == |m|
      ensures mem.total - ENTRY_SIZE * used == old(mem.total - ENTRY_SIZE * used)
    {
      ghost var s, j := chains[b], 0;
      m, v := entries, contents;
      assert chains[b := s[0..]] == chains;
      var iter := table[b];
      while iter != null
        invariant 0 <= j <= |s| && iter == At(s, j)
        invariant Filed(kind, chains[b := s[j..]], m) && Shows(v, m) && used == |m|
        invariant mem.total - ENTRY_SIZE * used == old(mem.total - ENTRY_SIZE * used)
        decreases |s| - j
      {
        assert LinkAt(s, j);
        ghost var c := kind.Class(iter.key);
        FreeStep(kind, chains, m, v, b, s, j, c);
        var next := iter.next;
        mem.total := mem.total - ENTRY_SIZE;
        used := used - 1;
        iter := next;
        j, m, v := j + 1, m - {c}, v - {c};
      }
      assert s[j..] == [];
    }

    // One round of dictDestroy (clib/hash_interface.c:202-212)
    method FreeBucket(b: nat)
      requires Valid() && b < size
      modifies this`used, this`chains, this`entries, this`contents, table, mem
      ensures Valid() && chains == old(chains)[b := []] && mem.total - Cost() == old(mem.total - Cost())
    {
      assert LinkedAt(table[b], chains[b], entries);
      ghost var m, v := FreeChain(b);
      table[b] := null;
      ghost var left := chains[b := []];
      forall i | 0 <= i < |left|
        ensures LinkedAt(table[i], left[i], m)
      {
        FiledEntries(kind, left, m, i);
        assert i != b ==> old(LinkedAt(table[i], chains[i], entries));
      }
      Record(left, m, v);
    }

    // dictDestroy (clib/hash_interface.c:199-215): nothing is left in use.
    method Destroy()
      requires Valid()
      modifies this`used, this`chains, this`entries, this`contents, table, mem
      ensures Valid() && contents == map[] && used == 0
      ensures mem.total - Cost() == old(mem.total - Cost())
    {
      for i := 0 to size
        invariant Valid() && mem.total - Cost() == old(mem.total - Cost())
        invariant forall b :: 0 <= b < i ==> chains[b] == []
      {
        FreeBucket(i);
      }
      NoneLeft(kind, chains, entries);
      assert contents == map[];
    }

    // dictDestruct (clib/hash_interface.c:217-227): every byte is given back.
    method Destruct()
      requires Valid()
      modifies this, table, mem
      ensures size == sizemask == used == 0 && mem.total == old(mem.total - Cost())
      ensures mem.total == old(mem.total - DICT_SIZE - POINTER_SIZE * size - ENTRY_SIZE * |contents|)
    {
      CountIsUsed();
      Destroy();
      mem.total := mem.total - POINTER_SIZE * size;
      size, sizemask, used := 0, 0, 0;
      mem.total := mem.total - DICT_SIZE;
    }

    // A key that is in the map has one entry in the whole table, in its own bucket.
    lemma KeyLiesOnce(key: K) returns (j: nat)
      requires Valid() && kind.Class(key) in contents
      ensures j < |Bucket(key)| && kind.keyCompare(key, Bucket(key)[j].key)
      ensures forall b, i :: 0 <= b < size && 0 <= i < |chains[b]| && kind.keyCompare(key, chains[b][i].key) ==>
                b == kind.Home(key, size) && i == j
    {
      var c := kind.Class(key);
      assert Listed(kind, chains, entries, c);
      kind.SameClass(key, entries[c].key);
      j :| 0 <= j < |Bucket(key)| && Bucket(key)[j] == entries[c];
      BucketIsLinked(key);
      forall b, i | 0 <= b < size && 0 <= i < |chains[b]| && kind.keyCompare(key, chains[b][i].key)
        ensures b == kind.Home(key, size) && i == j
      {
        kind.SameClass(key, chains[b][i].key);
        assert Placed(kind, |chains|, entries, b, chains[b][i]);
        assert i < j ==> Differ(chains[b], i, j);
        assert j < i ==> Differ(chains[b], j, i);
      }
    }
  }

  // The size that the program's own tests ask for (clib/hash_interface.c:288): if
  // the fourth slot of the block is not null, the table is not usable.
  method AskForThree<K(!new, ==), V>(kind: DictType<K>, mem: Memory, e: DictEntry<K, V>) returns (d: Dict<K, V>)
    requires kind.Proper()
    modifies mem
    ensures RoundsTo(3, 4) && d.table.Length == d.size == 4 && d.table[3] == e && !d.Valid()
  {
    FourForThree();
    var slots := new DictEntry?<K, V>[4](_ => e);
    assert slots[..][3] == e;
    d := new Dict(kind, mem, 3, slots);
  }

  lemma FourForThree()
    ensures RoundsTo(3, 4)
  {
    assert Pow2(2) == 4;
    forall j: nat | j >= 2
      ensures 4 <= Pow2(j)
    {
      Pow2Monotonic(2, j);
    }
  }

  datatype Operation<K, V> = Adding(key: K, val: V) | Finding(key: K) | Deleting(key: K)

  datatype Reply<V> = Replied(status: Status) | Found(val: V) | Absent

  // The same operation on a finite map.
  ghost function After<K(!new), V>(t: DictType<K>, m: map<iset<K>, V>, op: Operation<K, V>): map<iset<K>, V> {
    match op
    case Adding(k, v) => m[t.Class(k) := v]
    case Finding(_) => m
    case Deleting(k) => m - {t.Class(k)}
  }

  ghost function ReplyTo<K(!new), V>(t: DictType<K>, m: map<iset<K>, V>, op: Operation<K, V>): Reply<V> {
    var c := t.Class(op.key);
    match op
    case Adding(_, _) => Replied(if c in m then EXIST else OK)
    case Finding(_) => if c in m then Found(m[c]) else Absent
    case Deleting(_) => Replied(if c in m then OK else NOT_EXIST)
  }

  ghost function Replies<K(!new), V>(t: DictType<K>, m: map<iset<K>, V>, ops: seq<Operation<K, V>>): seq<Reply<V>>
    decreases |ops|
  {
    if ops == [] then [] else [ReplyTo(t, m, ops[0])] + Replies(t, After(t, m, ops[0]), ops[1..])
  }

  lemma RepliesFrom<K(!new), V>(t: DictType<K>, m: map<iset<K>, V>, ops: seq<Operation<K, V>>, i: nat,
                                sofar: seq<Reply<V>>)
    requires i < |ops|
    ensures sofar + Replies(t, m, ops[i..]) ==
            (sofar + [ReplyTo(t, m, ops[i])]) + Replies(t, After(t, m, ops[i]), ops[i + 1..])
  {
  }

  // The last operation before i that adds or deletes the key is j, and it adds.
  ghost predicate Live<K(!new), V>(t: DictType<K>, ops: seq<Operation<K, V>>, i: int, key: K, j: int)
    requires 0 <= i <= |ops|
  {
    && 0 <= j < i && ops[j].Adding? && t.keyCompare(key, ops[j].key)
    && forall x :: j < x < i && t.keyCompare(key, ops[x].key) ==> ops[x].Finding?
  }

  // What the operations before i say about the reply to operation i.
  ghost predicate Answers<K(!new), V>(t: DictType<K>, ops: seq<Operation<K, V>>, i: int, reply: Reply<V>)
    requires 0 <= i < |ops|
  {
    var live := exists j :: Live(t, ops, i, ops[i].key, j);
    match ops[i]
    case Adding(_, _) => reply == Replied(if live then EXIST else OK)
    case Finding(k) =>
      if live then forall j :: Live(t, ops, i, k, j) ==> reply == Found(ops[j].val) else reply == Absent
    case Deleting(_) => reply == Replied(if live then OK else NOT_EXIST)
  }

  // The map says of the key what the operations before i do.
  ghost predicate Recorded<K(!new), V>(t: DictType<K>, ops: seq<Operation<K, V>>, i: int, m: map<iset<K>, V>, key: K)
    requires 0 <= i <= |ops|
  {
    && (t.Class(key) in m <==> exists j :: Live(t, ops, i, key, j))
    && forall j :: Live(t, ops, i, key, j) ==> t.Class(key) in m && m[t.Class(key)] == ops[j].val
  }

  lemma RecordedAfter<K(!new), V>(t: DictType<K>, ops: seq<Operation<K, V>>, i: nat, m: map<iset<K>, V>, key: K)
    requires t.Proper() && i < |ops| && Recorded(t, ops, i, m, key)
    ensures Recorded(t, ops, i + 1, After(t, m, ops[i]), key)
  {
    var m' := After(t, m, ops[i]);
    t.SameClass(key, ops[i].key);
    if t.keyCompare(key, ops[i].key) && !ops[i].Finding? {
      assert ops[i].Adding? ==> Live(t, ops, i + 1, key, i);
      assert forall j {:trigger Live(t, ops, i + 1, key, j)} :: Live(t, ops, i + 1, key, j) ==> j == i;
    } else {
      assert forall j :: Live(t, ops, i + 1, key, j) <==> Live(t, ops, i, key, j);
    }
  }

  ghost predicate AllRecorded<K(!new), V>(t: DictType<K>, ops: seq<Operation<K, V>>, i: int, m: map<iset<K>, V>)
    requires 0 <= i <= |ops|
  {
    forall k :: Recorded(t, ops, i, m, k)
  }

  lemma AllRecordedAfter<K(!new), V>(t: DictType<K>, ops: seq<Operation<K, V>>, i: nat, m: map<iset<K>, V>)
    requires t.Proper() && i < |ops| && AllRecorded(t, ops, i, m)
    ensures AllRecorded(t, ops, i + 1, After(t, m, ops[i])) && Answers(t, ops, i, ReplyTo(t, m, ops[i]))
  {
    var m' := After(t, m, ops[i]);
    assert Recorded(t, ops, i, m, ops[i].key);
    forall k {:trigger Recorded(t, ops, i + 1, m', k)}
      ensures Recorded(t, ops, i + 1, m', k)
    {
      assert Recorded(t, ops, i, m, k);
      RecordedAfter(t, ops, i, m, k);
    }
  }

  // The replies of a finite map are what the operations before each one say.
  lemma {:induction false} RepliesAnswer<K(!new), V>(t: DictType<K>, ops: seq<Operation<K, V>>, i: nat,
                                                     m: map<iset<K>, V>)
    requires t.Proper() && i <= |ops| && AllRecorded(t, ops, i, m)
    ensures var r := Replies(t, m, ops[i..]);
            |r| == |ops| - i && forall x :: 0 <= x < |r| ==> Answers(t, ops, i + x, r[x])
    decreases |ops| - i
  {
    if i < |ops| {
      AllRecordedAfter(t, ops, i, m);
      RepliesAnswer(t, ops, i + 1, After(t, m, ops[i]));
      assert ops[i..][1..] == ops[i + 1..];
      var r, u := Replies(t, m, ops[i..]), Replies(t, After(t, m, ops[i]), ops[i + 1..]);
      assert r == [ReplyTo(t, m, ops[i])] + u;
      forall x | 0 <= x < |r|
        ensures Answers(t, ops, i + x, r[x])
      {
        assert x > 0 ==> r[x] == u[x - 1] && Answers(t, ops, i + 1 + (x - 1), u[x - 1]);
      }
    }
  }

  lemma AnswersAll<K(!new), V>(t: DictType<K>, ops: seq<Operation<K, V>>)
    requires t.Proper()
    ensures var r := Replies(t, map[], ops);
            |r| == |ops| && forall i :: 0 <= i < |ops| ==> Answers(t, ops, i, r[i])
  {
    assert ops[0..] == ops;
    RepliesAnswer(t, ops, 0, map[]);
  }

  method Perform<K(!new, ==), V>(d: Dict<K, V>, op: Operation<K, V>) returns (reply: Reply<V>)
    requires d.Valid()
    modifies d, d.table, d.entries.Values, d.mem
    ensures d.Valid() && d.contents == After(d.kind, old(d.contents), op)
    ensures reply == ReplyTo(d.kind, old(d.contents), op)
    ensures d.mem.total - d.Cost() == old(d.mem.total - d.Cost())
    ensures forall e :: e in d.entries.Values ==> e in old(d.entries.Values) || fresh(e)
  {
    match op
    case Adding(k, v) =>
      var status := d.Add(k, v);
      reply := Replied(status);
    case Finding(k) =>
      var e := d.Find(k);
      reply := if e == null then Absent else Found(e.val);
    case Deleting(k) =>
      var status := d.Del(k);
      reply := Replied(status);
  }

  // A table from its creation to its end, as in the program's own tests
  // (clib/hash_interface.c:286-328): any operations in any order answer as a
  // finite map does, which is what the last addition or deletion of the same key
  // before them says, and in the end every byte has been given back.
  method Session<K(!new, ==), V>(kind: DictType<K>, mem: Memory, size: nat, slots: array<DictEntry?<K, V>>,
                                 ops: seq<Operation<K, V>>)
    returns (replies: seq<Reply<V>>)
    requires kind.Proper() && size <= SIZE_LIMIT && RoundsTo(size, slots.Length)
    requires Clean(slots[..], size)
    modifies mem, slots
    ensures replies == Replies(kind, map[], ops)
    ensures |replies| == |ops| && forall i :: 0 <= i < |ops| ==> Answers(kind, ops, i, replies[i])
    ensures mem.total == old(mem.total)
  {
    SizeFits(size, slots.Length);
    AnswersAll(kind, ops);
    var d := new Dict(kind, mem, size, slots);
    replies := [];
    for i := 0 to |ops|
      invariant d.Valid() && d.mem == mem && d.table == slots && d.kind == kind
      invariant fresh(d) && fresh(d.entries.Values)
      invariant mem.total - d.Cost() == old(mem.total)
      invariant replies + Replies(kind, d.contents, ops[i..]) == Replies(kind, map[], ops)
    {
      RepliesFrom(kind, d.contents, ops, i, replies);
      var reply := Perform(d, ops[i]);
      replies := replies + [reply];
    }
    d.Destruct();
  }
}
