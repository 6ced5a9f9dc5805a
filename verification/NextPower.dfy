// nextPowerOfTwo (clib/kfifo.c:7-21): smearing the leading bit of n - 1 over all
// lower places and adding one gives the least power of two not below n.
module NextPower {
  import opened Bits
  import opened MachineInts

  // a | b in two's complement
  function BitOr(a: int, b: int): (r: int)
    ensures a >= 0 && b >= 0 ==> r >= a && r >= b
    decreases if a < 0 then -a else a
  {
    if a == 0 then b
    else if b == 0 then a
    else if a == -1 || b == -1 then -1
    else (if a % 2 == 1 || b % 2 == 1 then 1 else 0) + 2 * BitOr(a / 2, b / 2)
  }

  // Place i of n is set.
  predicate Bit(n: nat, i: nat) {
    Shr(n, i) % 2 == 1
  }

  lemma {:induction false} OrBit(a: nat, b: nat, i: nat)
    ensures Bit(BitOr(a, b), i) <==> Bit(a, i) || Bit(b, i)
  {
    if a == 0 || b == 0 {
      ShrZero(i);
    } else if i > 0 {
      OrBit(a / 2, b / 2, i - 1);
    }
  }

  lemma {:induction false} OrBound(a: nat, b: nat, k: nat)
    requires a < Pow2(k) && b < Pow2(k)
    ensures BitOr(a, b) < Pow2(k)
  {
    if a != 0 && b != 0 {
      OrBound(a / 2, b / 2, k - 1);
    }
  }

  lemma {:induction false} ShrShr(n: nat, s: nat, i: nat)
    ensures Shr(Shr(n, s), i) == Shr(n, s + i)
  {
    if s > 0 {
      ShrShr(n / 2, s - 1, i);
    }
  }

  lemma {:induction false} ShrSmaller(n: nat, s: nat)
    ensures Shr(n, s) <= n
  {
    if s > 0 {
      ShrSmaller(n / 2, s - 1);
    }
  }

  // n has leading place k, and its w topmost places are all set.
  ghost predicate Smeared(n: nat, k: nat, w: nat) {
    n < Pow2(k + 1) && forall i: nat :: k < i + w && i <= k ==> Bit(n, i)
  }

  // n |= n >> s doubles or at least extends the run of set places by s <= w.
  lemma SmearStep(n: nat, k: nat, w: nat, s: nat)
    requires Smeared(n, k, w) && s <= w
    ensures Smeared(BitOr(n, Shr(n, s)), k, w + s)
  {
    ShrSmaller(n, s);
    OrBound(n, Shr(n, s), k + 1);
    forall i: nat | k < i + w + s && i <= k
      ensures Bit(BitOr(n, Shr(n, s)), i)
    {
      OrBit(n, Shr(n, s), i);
      ShrShr(n, s, i);
      if i + w <= k {
        assert Bit(n, s + i);
      }
    }
  }

  // A number whose places 0..k are all set is one less than a power of two.
  lemma {:induction false} FullySmeared(n: nat, k: nat)
    requires n < Pow2(k + 1) && forall i: nat :: i <= k ==> Bit(n, i)
    ensures n + 1 == Pow2(k + 1)
  {
    assert Bit(n, 0);
    if k > 0 {
      forall i: nat | i <= k - 1
        ensures Bit(n / 2, i)
      {
        assert Bit(n, i + 1);
      }
      FullySmeared(n / 2, k - 1);
    }
  }

  lemma {:induction false} LeadingBit(n: nat, k: nat)
    requires Pow2(k) <= n < Pow2(k + 1)
    ensures Smeared(n, k, 1)
  {
    Log2Unique(n, k);
    ShrBounds(n, k);
    assert Bit(n, k);
  }

  // r is the least power of two not below n.
  ghost predicate LeastPower(r: int, n: int) {
    && (exists k: nat :: r == Pow2(k))
    && r >= n
    && forall j: nat :: Pow2(j) >= n ==> r <= Pow2(j)
  }

  lemma Pow2Values()
    ensures Pow2(8) == 0x100 && Pow2(16) == 0x1_0000 && Pow2(24) == 0x100_0000
    ensures Pow2(30) == 0x4000_0000 && Pow2(31) == 0x8000_0000
  {
    assert Pow2(8) == 0x100;
    assert Pow2(16) == 0x1_0000;
    assert Pow2(24) == 0x100_0000;
  }

  // What lies strictly above 2^k and not above 2^(k+1) has least power 2^(k+1).
  lemma Least(n: nat, k: nat)
    requires Pow2(k) < n <= Pow2(k + 1)
    ensures LeastPower(Pow2(k + 1), n)
  {
    forall j: nat | Pow2(j) >= n
      ensures Pow2(k + 1) <= Pow2(j)
    {
      if j <= k {
        Pow2Monotonic(j, k);
      } else {
        Pow2Monotonic(k + 1, j);
      }
    }
  }

  lemma LeastOfOne()
    ensures LeastPower(1, 0) && LeastPower(1, 1)
  {
    assert 1 == Pow2(0);
  }

  // A negative number has only ones from place k on.
  ghost predicate OnesFrom(n: int, k: nat) {
    0 - Pow2(k) <= n < 0
  }

  lemma {:induction false} NegativeShr(n: int, k: nat, s: nat)
    requires OnesFrom(n, k) && s <= k
    ensures OnesFrom(Shr(n, s), k - s)
    decreases s
  {
    if s > 0 {
      NegativeShr(n / 2, k - 1, s - 1);
    }
  }

  lemma {:induction false} NegativeOr(a: int, b: int)
    requires a < 0 && b < 0
    ensures b <= BitOr(a, b) < 0
    decreases -a
  {
    if a != -1 && b != -1 {
      NegativeOr(a / 2, b / 2);
    }
  }

  // n |= n >> s extends the ones of a negative number by s places.
  lemma NegativeStep(n: int, k: nat, s: nat)
    requires OnesFrom(n, k)
    ensures OnesFrom(BitOr(n, Shr(n, s)), if s <= k then k - s else 0)
  {
    if s <= k {
      NegativeShr(n, k, s);
    } else {
      Pow2Monotonic(k, s);
      NegativeShr(n, s, s);
    }
    NegativeOr(n, Shr(n, s));
  }

  // nextPowerOfTwo (clib/kfifo.c:7-21) for every int
  method NextPowerOfTwo(n0: int) returns (r: int)
    requires INT_MIN <= n0 < 0x8000_0000
    ensures LeastPower(r, n0) <==> 0 <= n0 <= 0x4000_0000
    ensures INT_MIN < n0 < 0 ==> r == 0
    ensures n0 == INT_MIN || n0 > 0x4000_0000 ==> r == INT_MIN
  {
    LeastOfOne();
    if n0 == 0 {
      return 1;
    }
    var n := Int32(n0 - 1);
    ghost var k := if n > 0 then Log2(n) else 0;
    if n > 0 {
      LogBounds(n, k);
      Pow2Values();
    }
    n := Smear(n, k);
    r := Int32(n + 1);
    if 1 < n0 <= 0x4000_0000 {
      Pow2Monotonic(k + 1, 30);
      Least(n0, k);
    }
  }

  // The six assignments (clib/kfifo.c:13-18)
  method Smear(n0: int, ghost k: nat) returns (n: int)
    requires INT_MIN <= n0 < 0x8000_0000 && k <= 30
    requires n0 > 0 ==> k == Log2(n0)
    ensures n0 == 0 ==> n == 0
    ensures n0 > 0 ==> n + 1 == Pow2(k + 1)
    ensures n0 < 0 ==> n == -1
  {
    n := n0;
    if n > 0 {
      LeadingBit(n, k);
    }
    Pow2Values();
    ghost var w, h := 1, 31;
    n, w, h := Or(n, 1, k, w, h);
    n, w, h := Or(n, 1, k, w, h);
    n, w, h := Or(n, 2, k, w, h);
    n, w, h := Or(n, 4, k, w, h);
    n, w, h := Or(n, 8, k, w, h);
    n, w, h := Or(n, 16, k, w, h);
    if n0 > 0 {
      FullySmeared(n, k);
    }
  }

  // n |= n >> s: a positive number gets its w topmost places set and then s
  // more, a negative one has ones from place h and then from s places below.
  method Or(n: int, s: nat, ghost k: nat, ghost w: nat, ghost h: nat) returns (r: int, ghost w': nat, ghost h': nat)
    requires n > 0 ==> Smeared(n, k, w) && s <= w
    requires n < 0 ==> OnesFrom(n, h)
    ensures r == BitOr(n, Shr(n, s)) && w' == w + s && h' == if s <= h then h - s else 0
    ensures n == 0 ==> r == 0
    ensures n > 0 ==> r > 0 && Smeared(r, k, w')
    ensures n < 0 ==> OnesFrom(r, h')
  {
    if n == 0 {
      ShrZero(s);
    } else if n > 0 {
      SmearStep(n, k, w, s);
    } else {
      NegativeStep(n, h, s);
    }
    r, w', h' := BitOr(n, Shr(n, s)), w + s, if s <= h then h - s else 0;
  }

  lemma LogBounds(n: nat, k: nat)
    requires 1 <= n < 0x8000_0000 && k == Log2(n)
    ensures k <= 30 && (k == 30 <==> n >= 0x4000_0000)
  {
    Pow2Values();
    if k >= 31 {
      Pow2Monotonic(31, k);
    }
    if k < 30 {
      Pow2Monotonic(k + 1, 30);
    }
  }
}
