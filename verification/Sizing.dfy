/** `IsPowerOf2` and `RoundupPowerOf2`, which size both rings (buffer_ring.h and, under other
    names, ring_buffer.h). */
module Sizing {
  import opened Words

  predicate IsPowerOf2(n: Word) {
    n != 0 && BitAnd(n, n - 1) == 0
  }

  lemma {:induction false} AndSelf(x: nat)
    ensures BitAnd(x, x) == x
  {
    if x != 0 {
      AndSelf(x / 2);
    }
  }

  /** The bit trick recognises exactly the powers of two. */
  lemma {:induction false} IsPowerOf2Correct(n: Word)
    ensures IsPowerOf2(n) <==> PowerOfTwo(n)
  {
    if n == 1 {
      assert n == Pow2(0);
      assert BitAnd(1, 0) == 0 by { AndZero(1); }
    } else if n != 0 {
      var h := n / 2;
      IsPowerOf2Correct(h);
      if n % 2 == 1 {
        AndSelf(h);
        assert (n - 1) / 2 == h;
        OddNotPower(n);
      } else {
        assert (n - 1) / 2 == h - 1 && (n - 1) % 2 == 1;
        HalfPower(n);
      }
    }
  }

  lemma OddNotPower(n: nat)
    requires n % 2 == 1 && n > 1
    ensures !PowerOfTwo(n)
  {
    forall k: nat
      ensures n != Pow2(k)
    {
      assert k > 0 ==> Pow2(k) == 2 * Pow2(k - 1);
    }
  }

  lemma HalfPower(n: nat)
    requires n % 2 == 0 && n > 0
    ensures PowerOfTwo(n) <==> PowerOfTwo(n / 2)
  {
    if k: nat :| n == Pow2(k) {
      assert k > 0 by { assert Pow2(0) == 1; }
      assert n / 2 == Pow2(k - 1);
    }
    if k: nat :| n / 2 == Pow2(k) {
      assert n == Pow2(k + 1);
    }
  }

  /** The least power of two that is at least `a`. For larger arguments the signed loop
      variable of the source starts negative and the loop does not end. */
  method RoundupPowerOf2(a: Word) returns (size: Word)
    requires a <= 0x8000_0000
    ensures PowerOfTwo(size) && a <= size <= 0x8000_0000
    ensures forall p: nat :: PowerOfTwo(p) && a <= p ==> size <= p
  {
    IsPowerOf2Correct(a);
    if IsPowerOf2(a) {
      return a;
    }
    PowersToThirtyTwo();
    assert PowerOfTwo(0x8000_0000);
    var position := 0;
    var i := a;
    while i != 0
      invariant 0 <= i == a / Pow2(position)
      invariant position > 0 ==> Pow2(position - 1) <= a
      decreases i
    {
      HalvePast(a, position);
      i := i / 2;
      position := position + 1;
    }
    size := Pow2(position);
    DivMod(a, size);
    NoPowerBetween(a, position);
    assert size <= 0x8000_0000;
  }

  /** A word between two neighbouring powers of two is rounded up to the larger. */
  lemma NoPowerBetween(a: nat, position: nat)
    requires a < Pow2(position) && !PowerOfTwo(a)
    requires position > 0 ==> Pow2(position - 1) <= a
    ensures PowerOfTwo(Pow2(position))
    ensures forall p: nat :: PowerOfTwo(p) && a <= p ==> Pow2(position) <= p
  {
    if position > 0 {
      assert PowerOfTwo(Pow2(position - 1));
    }
    forall p: nat | PowerOfTwo(p)
      ensures Pow2(position) <= p || p < a
    {
      var k: nat :| p == Pow2(k);
      if position < k {
        PowMonotone(position, k);
      } else if k + 1 < position {
        PowMonotone(k, position - 1);
      }
    }
  }

  lemma HalvePast(a: nat, position: nat)
    requires a / Pow2(position) != 0
    ensures a / Pow2(position) / 2 == a / Pow2(position + 1)
    ensures Pow2(position) <= a
  {
    var p := Pow2(position);
    var q := a / p;
    DivMod(a, p);
    if a < p {
      ModUnique(a, p, 0, a);
    }
    var h, b := q / 2, q % 2;
    assert q == 2 * h + b;
    assert p * q == (2 * p) * h + p * b by {
      assert p * (2 * h + b) == (2 * p) * h + p * b;
    }
    assert p * b <= p;
    ModUnique(a, 2 * p, h, p * b + a % p);
  }
}
