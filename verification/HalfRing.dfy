/** `RingBuff` of ring_buffer.h, used by one thread through `Put` and `GetHalf`: it hands its
    items over in contiguous halves. */
module HalfRings {
  import opened Words
  import opened Sizing
  import opened RingCopy

  /** The items `q` lie between the two indices, of which the read index stands at a half. */
  ghost predicate HoldsQueue<T>(ring: seq<T>, q: seq<T>, wd: Word, rd: Word) {
    && PowerOfTwo(|ring|) && 0 < |ring| <= 0x8000_0000
    && rd <= wd <= rd + |ring| && |q| == wd - rd
    && AtHalf(rd, |ring|) && Holds(ring, BitAnd(rd, |ring| - 1), q)
  }

  class RingBuff<T(0)> {
    const size: Word
    const data: array<T>
    var wd: Word
    var rd: Word

    /** The items put and not yet taken, oldest first. */
    ghost var contents: seq<T>

    function Half(): Word {
      size / 2
    }

    ghost predicate Valid()
      reads this, data
    {
      data.Length == size && HoldsQueue(data[..], contents, wd, rd)
    }

    constructor (requested: Word)
      requires requested <= 0x8000_0000
      ensures Valid() && fresh(data) && contents == [] && rd == 0
      ensures requested <= size && forall p: nat :: PowerOfTwo(p) && requested <= p ==> size <= p
    {
      var n := RoundupPowerOf2(requested);
      MaskSelects(0, n);
      size := n;
      data := new T[n];
      wd, rd := 0, 0;
      contents := [];
    }

    /** While `rd + size` fits in a word, `Put` refuses exactly when the ring is full and else
        appends; from then on it refuses always. */
    method Put(item: T) returns (r: int)
      requires Valid()
      modifies this, data
      ensures Valid() && rd == old(rd)
      ensures old(rd) + size < MODULUS ==> (r == 0 <==> |old(contents)| < size)
      ensures old(rd) + size >= MODULUS ==> r == -1
      ensures r == 0 || r == -1
      ensures contents == if r == 0 then old(contents) + [item] else old(contents)
    {
      PutTest(wd, rd, size);
      if wd >= Wrap(rd + size) {
        return -1;
      }
      Append(item);
      r := 0;
    }

    /** Stores an item at the write index and moves the index on. */
    method Append(item: T)
      requires Valid() && wd < rd + size && wd + 1 < MODULUS
      modifies `wd, `contents, data
      ensures Valid() && contents == old(contents) + [item]
    {
      ghost var ring := data[..];
      PutOne(ring, contents, wd, rd, item);
      data[BitAnd(wd, size - 1)] := item;
      assert data[..] == ring[BitAnd(wd, size - 1) := item];
      wd := Wrap(wd + 1);
      contents := contents + [item];
    }

    /** `memcpy` of the half ring at the read index. */
    method CopyHalf(item: array<T>, half: Word)
      requires Valid() && half == Half() <= item.Length && item != data
      modifies item
      ensures |contents| >= half ==> item[..half] == contents[..half]
    {
      var k, idx := 0, BitAnd(rd, size - 1);
      while k < half
        invariant 0 <= k <= half
        invariant forall j :: 0 <= j < k ==> item[j] == data[idx + j]
      {
        item[k] := data[idx + k];
        k := k + 1;
      }
      if |contents| >= half {
        HoldsPiece(data[..], idx, contents, half);
      }
    }

    /** Moves the read index on by half a ring. */
    method Advance(half: Word)
      requires Valid() && half == Half() && wd >= Wrap(rd + half)
      modifies `rd, `contents
      ensures rd == Wrap(old(rd) + half)
      ensures old(rd) + half < MODULUS ==> Valid() && contents == old(contents)[half..]
    {
      if rd + half < MODULUS {
        TakeHalf(data[..], contents, wd, rd);
        contents := contents[half..];
      }
      rd := Wrap(rd + half);
    }

    /** While `rd + size / 2` fits in a word, `GetHalf` hands over exactly the oldest half ring
        of items, in the order they were put, if there are as many, and nothing otherwise. */
    method GetHalf(item: array<T>) returns (r: int)
      requires Valid() && item != data && item.Length >= Half()
      modifies this, item
      ensures r == 0 || r == 1
      ensures wd == old(wd)
      ensures old(rd) + Half() < MODULUS ==>
        && Valid() && (r == 1 <==> |old(contents)| >= Half())
        && (r == 0 ==> contents == old(contents) && rd == old(rd) && item[..] == old(item[..]))
        && (r == 1 ==> contents == old(contents)[Half()..] && rd == old(rd) + Half())
        && (r == 1 ==> item[..Half()] == old(contents)[..Half()])
      ensures old(rd) + Half() >= MODULUS ==> r == 1 && |old(contents)| < Half()
    {
      var half := size / 2;
      HalfTest(wd, rd, half);
      if wd >= Wrap(rd + half) {
        CopyHalf(item, half);
        Advance(half);
        r := 1;
      } else {
        r := 0;
      }
    }
  }

  /** Storing an item at the write index appends it to the queue. */
  lemma PutOne<T>(ring: seq<T>, q: seq<T>, wd: Word, rd: Word, item: T)
    requires HoldsQueue(ring, q, wd, rd) && wd < rd + |ring| && wd + 1 < MODULUS
    ensures BitAnd(wd, |ring| - 1) < |ring|
    ensures HoldsQueue(ring[BitAnd(wd, |ring| - 1) := item], q + [item], wd + 1, rd)
  {
    var start := BitAnd(rd, |ring| - 1);
    WriteSlot(|ring|, rd, wd);
    PutBehind(ring, q, start, BitAnd(wd, |ring| - 1), item);
  }

  lemma PutBehind<T>(ring: seq<T>, q: seq<T>, start: nat, at: nat, item: T)
    requires Holds(ring, start, q) && |q| < |ring| && at == Slot(|ring|, start, |q|)
    ensures at < |ring| && Holds(ring[at := item], start, q + [item])
  {
    PutExtends(ring, start, q, [item], 1);
    assert Put(ring, at, [item], 1) == ring[at := item];
    assert [item][..1] == [item];
  }

  /** The write index selects the slot behind the queue. */
  lemma WriteSlot(size: nat, rd: Word, wd: Word)
    requires PowerOfTwo(size) && rd <= wd < rd + size
    ensures BitAnd(rd, size - 1) < size && BitAnd(wd, size - 1) < size
    ensures BitAnd(wd, size - 1) == Slot(size, BitAnd(rd, size - 1), wd - rd)
  {
    MaskSelects(rd, size);
    MaskSelects(wd, size);
    SlotIsModulo(size, rd, wd - rd);
  }

  /** The read index selects the start of the array or its middle, so that a half never
      crosses the end. */
  predicate AtHalf(rd: Word, size: Word)
    requires size > 0
  {
    var idx := BitAnd(rd, size - 1);
    idx + size / 2 <= size && (idx == 0 || idx == size / 2)
  }

  /** That is, the read index is a multiple of half the size. */
  lemma AtHalfIsMultiple(rd: Word, size: Word)
    requires PowerOfTwo(size) && size > 1
    ensures AtHalf(rd, size) <==> rd % (size / 2) == 0
  {
    MaskSelects(rd, size);
    EvenSize(size);
    HalfModulo(rd, size / 2);
  }

  /** Reduction by `half` of what reduction by twice `half` leaves. */
  lemma HalfModulo(x: nat, half: nat)
    requires half > 0
    ensures var r := x % (2 * half); x % half == if r < half then r else r - half
  {
    DivMod(x, 2 * half);
    var q, r := x / (2 * half), x % (2 * half);
    assert (2 * half) * q == half * (2 * q);
    if r < half {
      ModUnique(x, half, 2 * q, r);
    } else {
      assert half * (2 * q) + half == half * (2 * q + 1);
      ModUnique(x, half, 2 * q + 1, r - half);
    }
  }

  /** Half a ring further on, the index is again at a half. */
  lemma NextHalf(rd: Word, size: Word)
    requires PowerOfTwo(size) && 0 < size <= 0x8000_0000 && AtHalf(rd, size) && rd + size / 2 < MODULUS
    ensures AtHalf(rd + size / 2, size)
    ensures BitAnd(rd, size - 1) < size
    ensures BitAnd(rd + size / 2, size - 1) == Slot(size, BitAnd(rd, size - 1), size / 2)
  {
    MaskSelects(rd, size);
    MaskSelects(rd + size / 2, size);
    SlotIsModulo(size, rd, size / 2);
    if size > 1 {
      EvenSize(size);
    }
  }

  /** The oldest half ring of items lies in one piece, and the rest starts at the next half. */
  lemma TakeHalf<T>(ring: seq<T>, q: seq<T>, wd: Word, rd: Word)
    requires HoldsQueue(ring, q, wd, rd) && |ring| / 2 <= |q| && rd + |ring| / 2 < MODULUS
    ensures var start := BitAnd(rd, |ring| - 1);
            start + |ring| / 2 <= |ring| && q[..|ring| / 2] == ring[start..start + |ring| / 2]
    ensures HoldsQueue(ring, q[|ring| / 2..], wd, rd + |ring| / 2)
  {
    var half, start := |ring| / 2, BitAnd(rd, |ring| - 1);
    NextHalf(rd, |ring|);
    HoldsDrop(ring, start, q, half);
    HoldsPiece(ring, start, q, half);
  }

  /** Items that do not reach around the end lie in one piece. */
  lemma HoldsPiece<T>(ring: seq<T>, start: nat, q: seq<T>, n: nat)
    requires Holds(ring, start, q) && n <= |q| && start + n <= |ring|
    ensures q[..n] == ring[start..start + n]
  {
    forall k | 0 <= k < n
      ensures q[k] == ring[start + k]
    {
      assert q[k] == ring[Slot(|ring|, start, k)];
    }
  }

  lemma EvenSize(size: nat)
    requires PowerOfTwo(size) && size > 1
    ensures size == 2 * (size / 2)
  {
    var k: nat :| size == Pow2(k);
    assert k > 0 ==> size == 2 * Pow2(k - 1);
  }

  lemma PutTest(wd: Word, rd: Word, size: Word)
    requires 0 < size <= 0x8000_0000 && rd <= wd <= rd + size
    ensures wd >= Wrap(rd + size) <==> rd + size >= MODULUS || wd == rd + size
    ensures wd < Wrap(rd + size) ==> Wrap(wd + 1) == wd + 1
  {
  }

  lemma HalfTest(wd: Word, rd: Word, half: Word)
    requires half <= 0x8000_0000 && rd <= wd
    ensures wd >= Wrap(rd + half) <==> rd + half >= MODULUS || wd - rd >= half
    ensures rd + half < MODULUS ==> Wrap(rd + half) == rd + half
  {
  }

  /** `Put`'s test tells a full ring from one with room if and only if `rd + size` fits in a
      word; beyond that point it refuses even into an empty ring. */
  lemma PutTestIsExact(wd: Word, rd: Word, size: Word)
    requires 0 < size && rd <= wd <= rd + size
    ensures (wd >= Wrap(rd + size) <==> wd - rd == size) <==> rd + size < MODULUS
  {
  }

  /** `GetHalf`'s test tells whether half a ring is queued if and only if `rd + half` fits. */
  lemma HalfTestIsExact(wd: Word, rd: Word, half: Word)
    requires rd <= wd
    ensures (wd >= Wrap(rd + half) <==> wd - rd >= half) <==> rd + half < MODULUS
  {
  }

  /** Puts half a ring of items and takes them out again. */
  method HalfRound<T(0)>(ring: RingBuff<T>, item: T, buffer: array<T>)
    requires ring.Valid() && ring.contents == [] && ring.size > 1 && ring.rd + ring.size < MODULUS
    requires buffer != ring.data && buffer.Length == ring.Half()
    modifies ring, ring.data, buffer
    ensures ring.Valid() && ring.contents == [] && ring.rd == old(ring.rd) + ring.Half()
  {
    var k, r := 0, 0;
    while k < ring.Half()
      invariant 0 <= k <= ring.Half() == buffer.Length
      invariant ring.Valid() && |ring.contents| == k && ring.rd == old(ring.rd)
    {
      r := ring.Put(item);
      k := k + 1;
    }
    r := ring.GetHalf(buffer);
  }

  /** Every ring of two slots or more comes to refuse items although it is empty: here it is led
      there from its creation by `Put` and `GetHalf` alone. */
  method EmptyRingRefuses<T(0)>(requested: Word, item: T) returns (ring: RingBuff<T>, r: int)
    requires 1 < requested <= 0x8000_0000
    ensures fresh(ring) && ring.Valid() && ring.contents == [] && r == -1
  {
    ring := new RingBuff<T>(requested);
    var buffer := new T[ring.Half()];
    while ring.rd + ring.size < MODULUS
      invariant fresh(ring) && fresh(ring.data) && fresh(buffer) && buffer != ring.data
      invariant ring.Valid() && ring.contents == [] && ring.size > 1 && buffer.Length == ring.Half()
      decreases MODULUS - ring.rd
    {
      HalfRound(ring, item, buffer);
    }
    r := ring.Put(item);
  }
}
