// Arithmetic shared by the sequential ring buffer and its two-thread protocol:
// 32-bit counters that run free and wrap, and slots that are their remainders.
module Ring {
  import opened Bits

  type Byte = bv8

  // One more than the largest unsigned int.
  const WORD: nat := 0x1_0000_0000

  // The value an unsigned int takes after arithmetic that reached x.
  function Wrap(x: int): (r: nat)
    ensures r < WORD
  {
    x % WORD
  }

  // The buffer sizes for which masking and wrapping agree with remainders.
  ghost predicate IsSize(size: nat) {
    1 <= size < WORD && exists k :: 0 <= k <= 31 && size == Pow2(k)
  }

  // The slot of the x-th byte ever written, read off the wrapped counter with a mask.
  function Slot(x: nat, size: nat): (i: nat)
    requires size >= 1
    ensures i < size
  {
    x % size
  }

  lemma {:induction false} Pow2Divides(j: nat, k: nat) returns (q: nat)
    requires j <= k
    ensures Pow2(k) == q * Pow2(j) && q >= 1
  {
    if j == k {
      q := 1;
    } else {
      var h := Pow2Divides(j, k - 1);
      q := 2 * h;
      assert q * Pow2(j) == 2 * (h * Pow2(j));
    }
  }

  // Masking the wrapped counter gives the slot of the unbounded one.
  lemma MaskIsSlot(x: nat, size: nat)
    requires IsSize(size)
    ensures BitAnd(Wrap(x), size - 1) == Slot(x, size)
  {
    var k :| 0 <= k <= 31 && size == Pow2(k);
    AndMaskIsMod(Wrap(x), k);
    var q := Pow2Divides(k, 32);
    WordIsPow2();
    RemainderOfRemainder(x, q, size);
  }

  lemma WordIsPow2()
    ensures Pow2(32) == WORD
  {
    assert Pow2(8) == 256;
    assert Pow2(16) == 65536;
    assert Pow2(24) == 16777216;
  }

  lemma RemainderOfRemainder(x: nat, q: nat, m: nat)
    requires q >= 1 && m >= 1 && q * m >= 1
    ensures (x % (q * m)) % m == x % m
  {
    var w := q * m;
    var a, r := x / w, x % w;
    assert x == a * w + r;
    var b, t := r / m, r % m;
    assert r == b * m + t;
    assert a * w == (a * q) * m;
    assert x == (a * q + b) * m + t by {
      assert (a * q + b) * m == (a * q) * m + b * m;
    }
    DivModUnique(x, m, a * q + b, t);
  }

  // Positions less than a buffer apart have different slots.
  lemma SlotsDiffer(a: nat, b: nat, size: nat)
    requires size >= 1 && a < b < a + size
    ensures Slot(a, size) != Slot(b, size)
  {
    var q := a / size;
    assert a == q * size + a % size;
    if a % size == b % size {
      var p := b / size;
      assert b == p * size + b % size;
      assert b - a == (p - q) * size;
      if p - q >= 1 {
        MulAtLeast(p - q, size);
      } else {
        MulNotPositive(p - q, size);
      }
    }
  }

  lemma MulNotPositive(a: int, d: int)
    requires a <= 0 && d > 0
    ensures a * d <= 0
  {
  }

  // The slots after that of x follow it and start again at 0 at the end.
  lemma NextSlots(x: nat, j: nat, size: nat)
    requires size >= 1 && j < size
    ensures Slot(x + j, size) == var p := Slot(x, size); if p + j < size then p + j else p + j - size
  {
    var q, p := x / size, x % size;
    assert x == q * size + p;
    if p + j < size {
      DivModUnique(x + j, size, q, p + j);
    } else {
      assert (q + 1) * size == q * size + size;
      DivModUnique(x + j, size, q + 1, p + j - size);
    }
  }

  // The difference of two wrapped counters is that of the unbounded ones.
  lemma WrapDifference(a: nat, b: nat, c: int)
    requires 0 <= c + a - b < WORD
    ensures Wrap(c + Wrap(a) - Wrap(b)) == c + a - b
  {
  }

  // A wrapped counter leads to the same slots.
  lemma WrapKeepsSlot(x: nat, j: nat, size: nat)
    requires IsSize(size) && size >= 1 && j < size
    ensures Slot(Wrap(x) + j, size) == Slot(x + j, size)
  {
    WrapHasSlot(x, size);
    SameSlots(x, Wrap(x), j, size);
  }

  lemma WrapHasSlot(x: nat, size: nat)
    requires IsSize(size)
    ensures Slot(Wrap(x), size) == Slot(x, size)
  {
    var y := Wrap(x);
    MaskIsSlot(x, size);
    MaskIsSlot(y, size);
    DivModUnique(y, WORD, 0, y);
  }

  lemma SameSlots(x: nat, y: nat, j: nat, size: nat)
    requires size >= 1 && j < size && Slot(x, size) == Slot(y, size)
    ensures Slot(x + j, size) == Slot(y + j, size)
  {
    NextSlots(x, j, size);
    NextSlots(y, j, size);
  }

  lemma WrapSum(a: nat, n: nat)
    ensures Wrap(Wrap(a) + n) == Wrap(a + n)
  {
  }
}
