// Bit arithmetic on natural numbers: powers of two, the position of the leading
// bit, and the bitwise "and" that the heap walks and the ring-buffer masks use.
module Bits {

  function Pow2(k: nat): (p: nat)
    ensures p >= 1
  {
    if k == 0 then 1 else 2 * Pow2(k - 1)
  }

  // The index of the leading bit.
  function Log2(n: nat): (k: nat)
    requires n >= 1
    ensures Pow2(k) <= n < Pow2(k + 1)
  {
    if n == 1 then 0 else 1 + Log2(n / 2)
  }

  // a & b
  function BitAnd(a: nat, b: nat): nat {
    if a == 0 || b == 0 then 0
    else (if a % 2 == 1 && b % 2 == 1 then 1 else 0) + 2 * BitAnd(a / 2, b / 2)
  }

  lemma {:induction false} Pow2Monotonic(j: nat, k: nat)
    requires j <= k
    ensures Pow2(j) <= Pow2(k)
  {
    if j < k {
      Pow2Monotonic(j, k - 1);
    }
  }

  // The leading bit is the only k with 2^k <= n < 2^(k+1).
  lemma {:induction false} Log2Unique(n: nat, k: nat)
    requires Pow2(k) <= n < Pow2(k + 1)
    ensures Log2(n) == k
  {
    if Log2(n) < k {
      Pow2Monotonic(Log2(n) + 1, k);
    } else if k < Log2(n) {
      Pow2Monotonic(k + 1, Log2(n));
    }
  }

  // n >> k, which rounds a negative number down
  function Shr(n: int, k: nat): (r: int)
    ensures n >= 0 ==> r >= 0
    decreases k
  {
    if k == 0 then n else Shr(n / 2, k - 1)
  }

  // Shifting one place less leaves one more digit.
  lemma {:induction false} ShrStep(n: nat, k: nat)
    requires k >= 1
    ensures Shr(n, k - 1) / 2 == Shr(n, k)
  {
    if k > 1 {
      ShrStep(n / 2, k - 1);
    }
  }

  // Shifting by the index of the leading bit or less leaves something.
  lemma {:induction false} ShrBounds(n: nat, k: nat)
    requires n >= 1 && k <= Log2(n)
    ensures 1 <= Shr(n, k) <= n
    ensures k == Log2(n) ==> Shr(n, k) == 1
  {
    if k > 0 {
      ShrBounds(n / 2, k - 1);
    }
  }

  // Testing one bit: n & 2^k is nonzero exactly when bit k of n is set.
  lemma {:induction false} AndBit(n: nat, k: nat)
    ensures BitAnd(n, Pow2(k)) != 0 <==> Shr(n, k) % 2 == 1
  {
    if n == 0 {
      ShrZero(k);
    } else if k > 0 {
      AndBit(n / 2, k - 1);
    } else {
      assert BitAnd(n / 2, 0) == 0;
    }
  }

  lemma ShrZero(k: nat)
    ensures Shr(0, k) == 0
  {
  }

  // Masking with 2^k - 1 is the remainder modulo 2^k.
  lemma {:induction false} AndMaskIsMod(x: nat, k: nat)
    ensures BitAnd(x, Pow2(k) - 1) == x % Pow2(k)
  {
    if k > 0 {
      AndMaskIsMod(x / 2, k - 1);
      ModHalf(x, Pow2(k - 1));
    }
  }

  lemma ModHalf(x: nat, p: nat)
    requires p >= 1
    ensures x % (2 * p) == x % 2 + 2 * ((x / 2) % p)
  {
    var h := x / 2;
    var q, r := h / p, h % p;
    assert h == q * p + r;
    assert q * (2 * p) == 2 * (q * p);
    DivModUnique(x, 2 * p, q, 2 * r + x % 2);
  }

  // Division with remainder is unique.
  lemma DivModUnique(x: int, d: int, q: int, r: int)
    requires d > 0 && 0 <= r < d && x == q * d + r
    ensures x / d == q && x % d == r
  {
    var q', r' := x / d, x % d;
    assert x == q' * d + r';
    if q' < q {
      Distribute(q, q', d);
      MulAtLeast(q - q', d);
    } else if q < q' {
      Distribute(q', q, d);
      MulAtLeast(q' - q, d);
    }
  }

  lemma Distribute(a: int, b: int, d: int)
    ensures a * d == b * d + (a - b) * d
  {
  }

  lemma MulAtLeast(a: int, d: int)
    requires a >= 1 && d > 0
    ensures a * d >= d
  {
  }
}
