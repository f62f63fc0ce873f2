/** 32-bit words: wrap-around, bit masks and powers of two, as the counters and slot
    computations of buffer_ring.h use them. */
module Words {

  const MODULUS: nat := 0x1_0000_0000

  type Word = x: int | 0 <= x < 0x1_0000_0000

  /** The value an unsigned 32-bit variable holds after `x` is stored in it. */
  function Wrap(x: int): Word {
    x % 0x1_0000_0000
  }

  function Pow2(k: nat): (p: nat)
    ensures p > 0
  {
    if k == 0 then 1 else 2 * Pow2(k - 1)
  }

  /** Bitwise and of two naturals, bit by bit from the lowest. */
  function BitAnd(x: nat, y: nat): nat {
    if x == 0 then 0 else (if x % 2 == 1 && y % 2 == 1 then 1 else 0) + 2 * BitAnd(x / 2, y / 2)
  }

  ghost predicate PowerOfTwo(n: nat) {
    exists k: nat :: n == Pow2(k)
  }

  /** Masking with `2^k - 1` is reduction modulo `2^k`. */
  lemma {:induction false} MaskIsModulo(x: nat, k: nat)
    ensures BitAnd(x, Pow2(k) - 1) == x % Pow2(k)
    decreases k
  {
    if k == 0 {
      AndZero(x);
    } else if x != 0 {
      var p := Pow2(k - 1);
      MaskIsModulo(x / 2, k - 1);
      DoubleModulo(x, p);
      assert (2 * p - 1) % 2 == 1 && (2 * p - 1) / 2 == p - 1;
    }
  }

  lemma DoubleModulo(x: nat, p: nat)
    requires p > 0
    ensures x % (2 * p) == x % 2 + 2 * (x / 2 % p)
  {
    var h := x / 2;
    DivMod(h, p);
    var q, r := h / p, h % p;
    assert (2 * p) * q == 2 * (p * q);
    ModUnique(x, 2 * p, q, 2 * r + x % 2);
  }

  lemma {:induction false} AndZero(x: nat)
    ensures BitAnd(x, 0) == 0
  {
    if x != 0 {
      AndZero(x / 2);
    }
  }

  /** Apart from zero, the multiples of `d` are at least `d` away from zero. */
  lemma Multiples(d: int, k: int)
    requires d > 0
    ensures k == 0 || d * k >= d || d * k <= -d
  {
    if k >= 1 {
      assert d * k == d * (k - 1) + d;
    } else if k <= -1 {
      assert d * k == -(d * (-1 - k)) - d;
    }
  }

  lemma DivMod(x: int, d: int)
    requires d > 0
    ensures x == d * (x / d) + x % d && 0 <= x % d < d
  {
  }

  lemma ModUnique(x: int, d: int, q: int, r: int)
    requires 0 <= r < d
    requires x == d * q + r
    ensures x % d == r && x / d == q
  {
    DivMod(x, d);
    var k := x / d - q;
    assert d * k == d * (x / d) - d * q;
    Multiples(d, k);
  }

  /** `n & ~3`, the bound of the unrolled copy loops, drops the two low bits of a word. */
  lemma ClearLowTwoBits(n: Word)
    ensures BitAnd(n, 0xFFFF_FFFC) == n - n % 4
    ensures BitAnd(n, 3) == n % 4
  {
    MaskIsModulo(n / 4, 30);
    assert Pow2(30) == 0x4000_0000 by {
      PowersToThirtyTwo();
    }
    MaskIsModulo(n, 2);
    assert Pow2(2) == 4;
    AndDouble(n, 0x7FFF_FFFE);
    AndDouble(n / 2, 0x3FFF_FFFF);
    assert n / 2 / 2 == n / 4;
    ModSmall(n / 4, 0x4000_0000);
  }

  lemma AndDouble(x: nat, y: nat)
    ensures BitAnd(x, 2 * y) == 2 * BitAnd(x / 2, y)
  {
  }

  lemma PowersToThirtyTwo()
    ensures Pow2(30) == 0x4000_0000 && Pow2(31) == 0x8000_0000 && Pow2(32) == MODULUS
  {
    assert Pow2(8) == 256;
    assert Pow2(16) == 65536;
    assert Pow2(24) == 16777216;
    assert Pow2(28) == 268435456;
  }

  lemma {:induction false} PowMonotone(j: nat, k: nat)
    requires j < k
    ensures Pow2(j) < Pow2(k)
    decreases k
  {
    if j < k - 1 {
      PowMonotone(j, k - 1);
    }
  }

  lemma {:induction false} PowAdd(j: nat, k: nat)
    ensures Pow2(j + k) == Pow2(j) * Pow2(k)
  {
    if j != 0 {
      PowAdd(j - 1, k);
      DoubleProduct(Pow2(j - 1), Pow2(k));
    }
  }

  lemma DoubleProduct(a: nat, b: nat)
    ensures 2 * (a * b) == (2 * a) * b
  {
  }

  /** Every power of two that fits in a word divides 2^32, so slots survive the wrap. */
  lemma PowerDividesModulus(size: nat)
    requires PowerOfTwo(size) && size <= MODULUS
    ensures size > 0 && MODULUS % size == 0
  {
    var k: nat :| size == Pow2(k);
    PowersToThirtyTwo();
    if k > 32 {
      PowMonotone(32, k);
    }
    PowDivides(k, 32);
  }

  lemma PowDivides(j: nat, k: nat)
    requires j <= k
    ensures Pow2(k) % Pow2(j) == 0
  {
    PowAdd(j, k - j);
    ModUnique(Pow2(k), Pow2(j), Pow2(k - j), 0);
  }

  lemma ModAdd(x: int, d: int, m: int)
    requires d > 0
    ensures (x + d * m) % d == x % d
  {
    ModUnique(x + d * m, d, x / d + m, x % d);
  }

  /** Wrapping a counter does not change the slot it selects. */
  lemma WrapKeepsSlot(x: int, size: nat)
    requires PowerOfTwo(size) && size <= MODULUS
    ensures size > 0 && Wrap(x) % size == x % size
  {
    PowerDividesModulus(size);
    var m := MODULUS / size;
    var q := x / MODULUS;
    assert x == MODULUS * q + Wrap(x);
    assert MODULUS * q == size * (m * q) by {
      assert MODULUS == size * m;
    }
    ModAdd(Wrap(x), size, m * q);
  }

  /** Two counters less than 2^32 apart are equal exactly when their words are. */
  lemma WrapInjective(x: int, y: int)
    requires x - y < MODULUS && y - x < MODULUS
    ensures Wrap(x) == Wrap(y) <==> x == y
  {
  }

  /** Word arithmetic may be done on wrapped operands. */
  lemma WrapDistance(base: int, x: int, y: int)
    ensures Wrap(base + Wrap(x) - Wrap(y)) == Wrap(base + x - y)
    ensures Wrap(Wrap(x) + base) == Wrap(x + base)
  {
  }

  /** A distance below 2^32 can be read off the two words. */
  lemma WordDistance(x: int, y: int)
    requires y <= x < y + MODULUS
    ensures Wrap(x - y) == x - y && Wrap(Wrap(x) - Wrap(y)) == x - y
  {
  }

  /** A short distance the other way shows as a large word. */
  lemma WordDeficit(x: int, y: int)
    requires y - MODULUS < x < y
    ensures Wrap(Wrap(x) - Wrap(y)) == MODULUS - (y - x)
  {
  }

  lemma ModSmall(x: nat, d: nat)
    requires x < d
    ensures x % d == x
  {
    ModUnique(x, d, 0, x);
  }

  /** Masking a word with `size - 1`, for a power of two `size`. */
  lemma MaskSelects(x: Word, size: nat)
    requires PowerOfTwo(size)
    ensures BitAnd(x, size - 1) == x % size && BitAnd(x, size - 1) < size
    ensures x < size ==> BitAnd(x, size - 1) == x
  {
    var k: nat :| size == Pow2(k);
    MaskIsModulo(x, k);
    DivMod(x, size);
    if x < size {
      ModSmall(x, size);
    }
  }

  /** A counter that is `count` past another still selects the slot `count` further on. */
  lemma DistanceKeepsSlot(from: Word, to: Word, size: nat)
    requires PowerOfTwo(size) && size <= MODULUS
    ensures size > 0 && to % size == (from + Wrap(to - from)) % size
  {
    DistanceLeads(from, to);
    WrapKeepsSlot(from + Wrap(to - from), size);
  }

  lemma DistanceLeads(from: Word, to: Word)
    ensures Wrap(from + Wrap(to - from)) == to
  {
  }

  /** Moving one counter forward changes the distance by that much. */
  lemma DistanceGrows(from: Word, to: Word, n: nat)
    requires Wrap(to - from) + n < MODULUS
    ensures Wrap(Wrap(to + n) - from) == Wrap(to - from) + n
  {
  }

  /** The producer's size computation, when at most `capacity` elements are queued. */
  lemma RoomExact(capacity: Word, from: Word, to: Word)
    requires Wrap(to - from) <= capacity
    ensures Wrap(capacity + from - to) == capacity - Wrap(to - from)
  {
  }

  lemma DistanceShrinks(from: Word, to: Word, n: nat)
    requires n <= Wrap(to - from)
    ensures Wrap(to - Wrap(from + n)) == Wrap(to - from) - n
  {
  }

  /** Indices less than `size` apart select different slots. */
  lemma SlotInjective(j: nat, k: nat, size: nat)
    requires 0 < size && j < k < j + size
    ensures j % size != k % size
  {
    if j % size == k % size {
      DivMod(j, size);
      DivMod(k, size);
      var m := k / size - j / size;
      assert size * m == size * (k / size) - size * (j / size);
      Multiples(size, m);
    }
  }
}
