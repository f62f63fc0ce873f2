/** The copies between a caller's buffer and the ring, as value functions. */
module RingCopy {
  import opened Words

  /** The slot `k` places after slot `start` in a ring of `size` slots. */
  function Slot(size: nat, start: nat, k: nat): (j: nat)
    requires start < size && k <= size
    ensures j < size
  {
    if start + k < size then start + k else start + k - size
  }

  /** That is `(start + k) mod size`, and any counter that selects `start` selects it after `k`
      more steps. */
  lemma SlotIsModulo(size: nat, x: nat, k: nat)
    requires 0 < size && k <= size
    ensures Slot(size, x % size, k) == (x % size + k) % size == (x + k) % size
  {
    DivMod(x, size);
    ModAdd(x % size + k, size, x / size);
    var y := x % size + k;
    ModUnique(y, size, if y < size then 0 else 1, Slot(size, x % size, k));
  }

  /** The simple loop: element `k` of `obj` goes to slot `(start + k) mod size`. */
  function Put<T>(ring: seq<T>, start: nat, obj: seq<T>, n: nat): (r: seq<T>)
    requires n <= |obj| && start < |ring| && n <= |ring|
    ensures |r| == |ring|
  {
    if n == 0 then ring
    else Put(ring, start, obj, n - 1)[Slot(|ring|, start, n - 1) := obj[n - 1]]
  }

  /** The slots from `start` on, around the end of the ring, hold the elements of `q`. */
  ghost predicate Holds<T>(ring: seq<T>, start: nat, q: seq<T>) {
    && start < |ring| && |q| <= |ring|
    && forall k :: 0 <= k < |q| ==> q[k] == ring[Slot(|ring|, start, k)]
  }

  /** The unrolled loop copies four elements `runs` times, the switch the remaining ones. */
  lemma SplitFour(n: Word) returns (runs: nat)
    ensures BitAnd(n, 0xFFFF_FFFC) == 4 * runs && BitAnd(n, 3) <= 3
    ensures 4 * runs + BitAnd(n, 3) == n
  {
    ClearLowTwoBits(n);
    runs := n / 4;
  }

  /** At most `size` elements never overwrite one another ... */
  lemma {:induction false} PutHit<T>(ring: seq<T>, start: nat, obj: seq<T>, n: nat, k: nat)
    requires start < |ring| && k < n <= |obj| && n <= |ring|
    ensures Put(ring, start, obj, n)[Slot(|ring|, start, k)] == obj[k]
  {
    if k < n - 1 {
      PutHit(ring, start, obj, n - 1, k);
    }
  }

  /** ... and every other slot keeps its value. */
  lemma {:induction false} PutMiss<T>(ring: seq<T>, start: nat, obj: seq<T>, n: nat, j: nat)
    requires start < |ring| && n <= |obj| && n <= |ring| && j < |ring|
    requires forall k :: 0 <= k < n ==> Slot(|ring|, start, k) != j
    ensures Put(ring, start, obj, n)[j] == ring[j]
  {
    if n > 0 {
      PutMiss(ring, start, obj, n - 1, j);
    }
  }

  /** Without its first `n` elements the queue starts `n` slots further on. */
  lemma HoldsDrop<T>(ring: seq<T>, start: nat, q: seq<T>, n: nat)
    requires Holds(ring, start, q) && n <= |q|
    ensures Holds(ring, Slot(|ring|, start, n), q[n..])
  {
    forall k | 0 <= k < |q| - n
      ensures q[n..][k] == ring[Slot(|ring|, Slot(|ring|, start, n), k)]
    {
      assert Slot(|ring|, Slot(|ring|, start, n), k) == Slot(|ring|, start, n + k);
      assert q[n + k] == ring[Slot(|ring|, start, n + k)];
    }
  }

  /** Putting `n` elements behind a queue leaves the queue in place and extends it. */
  lemma PutExtends<T>(ring: seq<T>, start: nat, q: seq<T>, obj: seq<T>, n: nat)
    requires Holds(ring, start, q) && n <= |obj| && |q| + n <= |ring|
    ensures Holds(Put(ring, Slot(|ring|, start, |q|), obj, n), start, q + obj[..n])
  {
    var from := Slot(|ring|, start, |q|);
    var r := Put(ring, from, obj, n);
    forall k | 0 <= k < |q| + n
      ensures (q + obj[..n])[k] == r[Slot(|ring|, start, k)]
    {
      if k < |q| {
        PutMiss(ring, from, obj, n, Slot(|ring|, start, k));
      } else {
        PutHit(ring, from, obj, n, k - |q|);
        assert Slot(|ring|, from, k - |q|) == Slot(|ring|, start, k);
      }
    }
  }
}
