/** The class of buffer_ring.h as one thread uses it, refined against a bounded queue. */
module BuffRings {
  import opened Words
  import opened Sizing
  import opened RingCopy
  import RingProtocol

  class RingHeadtail {
    var head: Word
    var tail: Word

    constructor ()
      ensures head == 0 && tail == 0
    {
      head, tail := 0, 0;
    }
  }

  function Clamp(count: nat, capacity: nat): (r: nat)
    ensures r <= capacity
  {
    if count > capacity then capacity else count
  }

  /** `q` lists the elements between the two tails, oldest first. */
  ghost predicate IsQueue<T>(q: seq<T>, ring: seq<T>, consTail: Word, prodTail: Word) {
    0 < |ring| && |q| == Wrap(prodTail - consTail) && Holds(ring, BitAnd(consTail, |ring| - 1), q)
  }

  /** What a producer tail moved by `n` adds to the queue. */
  lemma AfterEnqueue<T>(q: seq<T>, ring: seq<T>, consTail: Word, tail0: Word, obj: seq<T>, n: Word)
    requires PowerOfTwo(|ring|) && |ring| < MODULUS && n <= |obj|
    requires IsQueue(q, ring, consTail, tail0) && |q| + n < |ring|
    ensures BitAnd(tail0, |ring| - 1) < |ring|
    ensures IsQueue(q + obj[..n], Put(ring, BitAnd(tail0, |ring| - 1), obj, n), consTail, Wrap(tail0 + n))
  {
    DistanceGrows(consTail, tail0, n);
    TailSlot(|ring|, consTail, tail0, |q|);
    PutExtends(ring, BitAnd(consTail, |ring| - 1), q, obj, n);
  }

  /** The producer tail selects the slot behind the queue. */
  lemma TailSlot(size: nat, consTail: Word, tail0: Word, queued: nat)
    requires PowerOfTwo(size) && queued < size < MODULUS && queued == Wrap(tail0 - consTail)
    ensures BitAnd(consTail, size - 1) < size && BitAnd(tail0, size - 1) < size
    ensures BitAnd(tail0, size - 1) == Slot(size, BitAnd(consTail, size - 1), queued)
  {
    MaskSelects(consTail, size);
    MaskSelects(tail0, size);
    DistanceKeepsSlot(consTail, tail0, size);
    SlotIsModulo(size, consTail, queued);
  }

  /** What a consumer tail moved by `n` leaves in the queue. */
  lemma AfterDequeue<T>(q: seq<T>, ring: seq<T>, prodTail: Word, tail0: Word, n: Word)
    requires PowerOfTwo(|ring|) && |ring| < MODULUS
    requires IsQueue(q, ring, tail0, prodTail) && n <= |q| < |ring|
    ensures IsQueue(q[n..], ring, Wrap(tail0 + n), prodTail)
  {
    MaskSelects(tail0, |ring|);
    MaskSelects(Wrap(tail0 + n), |ring|);
    DistanceShrinks(tail0, prodTail, n);
    WrapKeepsSlot(tail0 + n, |ring|);
    SlotIsModulo(|ring|, tail0, n);
    HoldsDrop(ring, tail0 % |ring|, q, n);
  }

  /** The slot the copy loops visit for element `i` is the one the step machine writes or reads. */
  lemma LoopSlotIsStepSlot(size: nat, head: Word, i: nat)
    requires PowerOfTwo(size) && i < size
    ensures BitAnd(head, size - 1) < size
    ensures Slot(size, BitAnd(head, size - 1), i) == (BitAnd(head, size - 1) + i) % size
  {
    MaskSelects(head, size);
    SlotIsModulo(size, head, i);
  }

  /** The test for the end of the array does not wrap. */
  lemma IndexFits(idx: Word, n: Word, size: Word)
    requires idx < size <= 0x8000_0000 && n < size
    ensures Wrap(idx + n) == idx + n
  {
  }

  /** `AtomicCAS` on a head counter. */
  method CompareAndSwapHead(ht: RingHeadtail, expected: Word, desired: Word) returns (success: bool)
    modifies ht`head
    ensures success == (old(ht.head) == expected)
    ensures ht.head == if success then desired else old(ht.head)
  {
    success := ht.head == expected;
    if success {
      ht.head := desired;
    }
  }

  class BuffRing<T(0)> {
    const size: Word
    const mask: Word
    const capacity: Word
    const fixed: bool
    const singleProducer: bool
    const singleConsumer: bool
    const prod: RingHeadtail
    const cons: RingHeadtail
    const data: array<T>

    /** The queue, oldest element first. */
    ghost var contents: seq<T>

    /** What the constructor fixes. buffer_ring_c.h allows a capacity below `size - 1`. */
    ghost predicate Sized() {
      && PowerOfTwo(size) && size <= 0x8000_0000 && mask == size - 1 && capacity <= mask
      && data.Length == size && prod != cons
    }

    function Count(): Word
      reads prod, cons
    {
      Wrap(prod.tail - cons.tail)
    }

    /** Between calls no claim is outstanding, and the slots hold the queue. */
    ghost predicate Valid()
      reads this, prod, cons, data
    {
      var (produced, consumed) := (prod.tail, cons.tail);
      && Sized() && size > 0
      && prod.head == produced && cons.head == consumed
      && Count() <= capacity
      && IsQueue(contents, data[..], consumed, produced)
    }

    constructor (requested: Word, fixed: bool, singleProducer: bool, singleConsumer: bool)
      requires requested <= 0x8000_0000
      ensures Valid() && fresh(prod) && fresh(cons) && fresh(data)
      ensures contents == [] && capacity == size - 1 && requested <= size
      ensures forall p: nat :: PowerOfTwo(p) && requested <= p ==> size <= p
      ensures this.fixed == fixed
      ensures this.singleProducer == singleProducer && this.singleConsumer == singleConsumer
    {
      var n := RoundupPowerOf2(requested);
      size, mask, capacity := n, n - 1, n - 1;
      this.fixed, this.singleProducer, this.singleConsumer := fixed, singleProducer, singleConsumer;
      prod := new RingHeadtail();
      cons := new RingHeadtail();
      data := new T[n];
      contents := [];
    }

    /** ENQUEUE_PTRS: copies in runs of four with a remainder, or in two loops around the end. */
    method EnqueuePtrs(prodHead: Word, obj: seq<T>, n: Word)
      requires Sized() && size > 0 && n <= |obj| && n < size
      modifies data
      ensures BitAnd(prodHead, mask) < size && data[..] == Put(old(data[..]), BitAnd(prodHead, mask), obj, n)
    {
      MaskSelects(prodHead, size);
      var idx: Word := BitAnd(prodHead, mask);
      IndexFits(idx, n, size);
      if Wrap(idx + n) < size {
        EnqueueStraight(idx, obj, n);
      } else {
        EnqueueAround(idx, obj, n);
      }
    }

    /** One assignment `ring[idx] = obj_table[i]` of the copy loops. */
    method Store(idx: Word, obj: seq<T>, i: Word, ghost ring: seq<T>, ghost start: nat)
      requires start < |ring| == data.Length && i < |obj| && idx < data.Length && i < |ring|
      requires idx == Slot(data.Length, start, i) && data[..] == Put(ring, start, obj, i)
      modifies data
      ensures data[..] == Put(ring, start, obj, i + 1)
    {
      data[idx] := obj[i];
    }

    /** The body of the unrolled loop. */
    method StoreFour(idx: Word, obj: seq<T>, i: Word, ghost ring: seq<T>, ghost start: nat)
      requires |ring| == data.Length && i + 4 <= |obj| && i + 4 < MODULUS
      requires idx == start + i && idx + 4 <= data.Length < MODULUS
      requires data[..] == Put(ring, start, obj, i)
      modifies data
      ensures data[..] == Put(ring, start, obj, i + 4)
    {
      Store(idx, obj, i, ring, start);
      Store(idx + 1, obj, i + 1, ring, start);
      Store(idx + 2, obj, i + 2, ring, start);
      Store(idx + 3, obj, i + 3, ring, start);
    }

    /** The switch that falls through its cases: the last `rest` elements. */
    method StoreRest(idx0: Word, obj: seq<T>, i0: Word, rest: Word, ghost ring: seq<T>, ghost start: nat)
      requires 0 < |ring| == data.Length < MODULUS && rest <= 3
      requires i0 + rest <= |obj| && i0 + rest < MODULUS
      requires idx0 == start + i0 && idx0 + rest < data.Length
      requires data[..] == Put(ring, start, obj, i0)
      modifies data
      ensures data[..] == Put(ring, start, obj, i0 + rest)
    {
      var idx: Word, i: Word := idx0, i0;
      if rest == 3 {
        Store(idx, obj, i, ring, start);
        i, idx := i + 1, idx + 1;
      }
      if rest >= 2 {
        Store(idx, obj, i, ring, start);
        i, idx := i + 1, idx + 1;
      }
      if rest >= 1 {
        Store(idx, obj, i, ring, start);
        i, idx := i + 1, idx + 1;
      }
    }

    /** The unrolled loop, `full` elements in runs of four. */
    method StoreRuns(start: Word, obj: seq<T>, full: Word, ghost ring: seq<T>, ghost runs: nat)
      requires full == 4 * runs <= |obj| && start + full < data.Length == |ring| < MODULUS
      requires data[..] == ring
      modifies data
      ensures data[..] == Put(ring, start, obj, full)
    {
      var idx, i: Word := start, 0;
      ghost var done := 0;
      while i < full
        invariant i == 4 * done && done <= runs && idx == start + i
        invariant data[..] == Put(ring, start, obj, i)
      {
        StoreFour(idx, obj, i, ring, start);
        i, idx := i + 4, idx + 4;
        done := done + 1;
      }
    }

    method EnqueueStraight(start: Word, obj: seq<T>, n: Word)
      requires data.Length == size && n <= |obj| && start + n < size
      modifies data
      ensures data[..] == Put(old(data[..]), start, obj, n)
    {
      ghost var ring := data[..];
      ghost var runs := SplitFour(n);
      var full, rest := BitAnd(n, 0xFFFF_FFFC), BitAnd(n, 3);
      StoreRuns(start, obj, full, ring, runs);
      StoreRest(start + full, obj, full, rest, ring, start);
    }

    method EnqueueAround(start: Word, obj: seq<T>, n: Word)
      requires data.Length == size && n <= |obj| && n < size && start < size <= start + n
      modifies data
      ensures data[..] == Put(old(data[..]), start, obj, n)
    {
      ghost var ring := data[..];
      var idx, i: Word := start, 0;
      while idx < size
        invariant i <= n && idx == start + i <= size
        invariant data[..] == Put(ring, start, obj, i)
      {
        Store(idx, obj, i, ring, start);
        i, idx := i + 1, idx + 1;
      }
      idx := 0;
      while i < n
        invariant i <= n && start + i == size + idx && idx <= i
        invariant data[..] == Put(ring, start, obj, i)
      {
        Store(idx, obj, i, ring, start);
        i, idx := i + 1, idx + 1;
      }
    }

    /** `obj` holds the first `i` elements and, behind them, what it held before. */
    ghost predicate Loaded(obj: array<T>, ring: seq<T>, start: nat, i: nat, before: seq<T>)
      reads obj, data
    {
      && data[..] == ring && i <= |before| == obj.Length
      && Holds(ring, start, obj[..i]) && obj[i..] == before[i..]
    }

    /** DEQUEUE_PTRS: the same copies in the other direction. */
    method DequeuePtrs(consHead: Word, obj: array<T>, n: Word)
      requires Sized() && size > 0 && n <= obj.Length && n < size && obj != data
      modifies obj
      ensures Loaded(obj, old(data[..]), BitAnd(consHead, mask), n, old(obj[..]))
    {
      ghost var ring := data[..];
      MaskSelects(consHead, size);
      var idx: Word := BitAnd(consHead, mask);
      IndexFits(idx, n, size);
      if Wrap(idx + n) < size {
        DequeueStraight(idx, obj, n);
      } else {
        DequeueAround(idx, obj, n);
      }
    }

    /** One assignment `obj_table[i] = ring[idx]` of the copy loops. */
    method Load(idx: Word, obj: array<T>, i: Word, ghost ring: seq<T>, ghost start: nat, ghost before: seq<T>)
      requires start < |ring| && i < obj.Length && idx < |ring| && i < |ring| && obj != data
      requires idx == Slot(|ring|, start, i) && Loaded(obj, ring, start, i, before)
      modifies obj
      ensures Loaded(obj, ring, start, i + 1, before)
    {
      assert data.Length == |data[..]|;
      obj[i] := data[idx];
    }

    method LoadFour(idx: Word, obj: array<T>, i: Word, ghost ring: seq<T>, ghost start: nat, ghost before: seq<T>)
      requires |ring| > 0 && i + 4 <= obj.Length && i + 4 < MODULUS && obj != data
      requires idx == start + i && idx + 4 <= |ring| < MODULUS
      requires Loaded(obj, ring, start, i, before)
      modifies obj
      ensures Loaded(obj, ring, start, i + 4, before)
    {
      Load(idx, obj, i, ring, start, before);
      Load(idx + 1, obj, i + 1, ring, start, before);
      Load(idx + 2, obj, i + 2, ring, start, before);
      Load(idx + 3, obj, i + 3, ring, start, before);
    }

    method LoadRest(idx0: Word, obj: array<T>, i0: Word, rest: Word,
                    ghost ring: seq<T>, ghost start: nat, ghost before: seq<T>)
      requires 0 < |ring| < MODULUS && rest <= 3 && obj != data
      requires i0 + rest <= obj.Length && i0 + rest < MODULUS
      requires idx0 == start + i0 && idx0 + rest < |ring|
      requires Loaded(obj, ring, start, i0, before)
      modifies obj
      ensures Loaded(obj, ring, start, i0 + rest, before)
    {
      var idx: Word, i: Word := idx0, i0;
      if rest == 3 {
        Load(idx, obj, i, ring, start, before);
        i, idx := i + 1, idx + 1;
      }
      if rest >= 2 {
        Load(idx, obj, i, ring, start, before);
        i, idx := i + 1, idx + 1;
      }
      if rest >= 1 {
        Load(idx, obj, i, ring, start, before);
        i, idx := i + 1, idx + 1;
      }
    }

    /** The unrolled loop, `full` elements in runs of four. */
    method LoadRuns(start: Word, obj: array<T>, full: Word,
                    ghost ring: seq<T>, ghost before: seq<T>, ghost runs: nat)
      requires full == 4 * runs <= obj.Length && start + full < |ring| < MODULUS && obj != data
      requires Loaded(obj, ring, start, 0, before)
      modifies obj
      ensures Loaded(obj, ring, start, full, before)
    {
      var idx, i: Word := start, 0;
      ghost var done := 0;
      while i < full
        invariant i == 4 * done && done <= runs && idx == start + i
        invariant Loaded(obj, ring, start, i, before)
      {
        LoadFour(idx, obj, i, ring, start, before);
        i, idx := i + 4, idx + 4;
        done := done + 1;
      }
    }

    method DequeueStraight(start: Word, obj: array<T>, n: Word)
      requires data.Length == size && n <= obj.Length && start + n < size && obj != data
      modifies obj
      ensures Loaded(obj, old(data[..]), start, n, old(obj[..]))
    {
      ghost var ring, before := data[..], obj[..];
      ghost var runs := SplitFour(n);
      var full, rest := BitAnd(n, 0xFFFF_FFFC), BitAnd(n, 3);
      LoadRuns(start, obj, full, ring, before, runs);
      LoadRest(start + full, obj, full, rest, ring, start, before);
    }

    method DequeueAround(start: Word, obj: array<T>, n: Word)
      requires data.Length == size && n <= obj.Length && n < size && start < size <= start + n && obj != data
      modifies obj
      ensures Loaded(obj, old(data[..]), start, n, old(obj[..]))
    {
      ghost var ring, before := data[..], obj[..];
      var idx, i: Word := start, 0;
      while idx < size
        invariant i <= n && idx == start + i <= size == |ring|
        invariant Loaded(obj, ring, start, i, before)
      {
        Load(idx, obj, i, ring, start, before);
        i, idx := i + 1, idx + 1;
      }
      idx := 0;
      while i < n
        invariant i <= n && start + i == size + idx && idx <= i && size == |ring|
        invariant Loaded(obj, ring, start, i, before)
      {
        Load(idx, obj, i, ring, start, before);
        i, idx := i + 1, idx + 1;
      }
    }

    /** Publishes a claim. With one thread the wait for earlier claims is over at once. */
    method UpdateTail(ht: RingHeadtail, oldVal: Word, newVal: Word, single: bool)
      requires single || ht.tail == oldVal
      modifies ht`tail
      ensures ht.tail == newVal
    {
      if !single {
        assert ht.tail == oldVal;
      }
      ht.tail := newVal;
    }

    method MoveProdHead(n: Word) returns (taken: Word, oldHead: Word, newHead: Word, freeEntries: Word)
      requires Valid()
      modifies prod`head
      ensures freeEntries == capacity - |contents|
      ensures taken == RingProtocol.Grant(n, freeEntries, fixed)
      ensures taken == 0 ==> prod.head == old(prod.head)
      ensures taken > 0 ==> oldHead == old(prod.head) && newHead == prod.head == Wrap(oldHead + taken)
    {
      var success := false;
      taken, oldHead, newHead, freeEntries := 0, 0, 0, 0;
      while !success
        invariant !success ==> prod.head == old(prod.head)
        invariant success ==>
          && freeEntries == capacity - |contents| && taken == RingProtocol.Grant(n, freeEntries, fixed) && taken > 0
          && oldHead == old(prod.head) && newHead == prod.head == Wrap(oldHead + taken)
        decreases !success
      {
        taken := n;
        oldHead := prod.head;
        var consTail := cons.tail;
        freeEntries := Wrap(capacity + consTail - oldHead);
        RoomExact(capacity, consTail, oldHead);
        if taken > freeEntries {
          taken := if fixed then 0 else freeEntries;
        }
        if taken == 0 {
          return;
        }
        newHead := Wrap(oldHead + taken);
        if singleProducer {
          prod.head := newHead;
          success := true;
        } else {
          success := CompareAndSwapHead(prod, oldHead, newHead);
        }
      }
    }

    method MoveConsumerHead(n: Word) returns (taken: Word, oldHead: Word, newHead: Word, entries: Word)
      requires Valid()
      modifies cons`head
      ensures entries == |contents|
      ensures taken == RingProtocol.Grant(n, entries, fixed)
      ensures taken == 0 ==> cons.head == old(cons.head)
      ensures taken > 0 ==> oldHead == old(cons.head) && newHead == cons.head == Wrap(oldHead + taken)
    {
      var success := false;
      taken, oldHead, newHead, entries := 0, 0, 0, 0;
      while !success
        invariant !success ==> cons.head == old(cons.head)
        invariant success ==>
          && entries == |contents| && taken == RingProtocol.Grant(n, entries, fixed) && taken > 0
          && oldHead == old(cons.head) && newHead == cons.head == Wrap(oldHead + taken)
        decreases !success
      {
        taken := n;
        oldHead := cons.head;
        var prodTail := prod.tail;
        entries := Wrap(prodTail - oldHead);
        if taken > entries {
          taken := if fixed then 0 else entries;
        }
        if taken == 0 {
          return;
        }
        newHead := Wrap(oldHead + taken);
        if singleConsumer {
          cons.head := newHead;
          success := true;
        } else {
          success := CompareAndSwapHead(cons, oldHead, newHead);
        }
      }
    }

    /** Copies a claimed batch in and publishes it. */
    method FinishEnqueue(obj: seq<T>, prodHead: Word, prodNext: Word, n: Word)
      requires Sized() && size > 0 && n <= |obj| && |contents| + n <= capacity
      requires IsQueue(contents, data[..], cons.tail, prod.tail)
      requires prodHead == prod.tail && prodNext == Wrap(prodHead + n)
      modifies prod`tail, data, `contents
      ensures prod.tail == prodNext && contents == old(contents) + obj[..n]
      ensures IsQueue(contents, data[..], cons.tail, prod.tail)
    {
      AfterEnqueue(contents, data[..], cons.tail, prodHead, obj, n);
      EnqueuePtrs(prodHead, obj, n);
      UpdateTail(prod, prodHead, prodNext, singleProducer);
      contents := contents + obj[..n];
    }

    /** Appends all of `obj[..n]` (fixed), or as much as there is room for (variable). */
    method DoEnqueue(obj: seq<T>, n: Word) returns (taken: Word, freeSpace: Word)
      requires Valid() && n <= |obj|
      modifies prod, data, `contents
      ensures Valid()
      ensures var room := capacity - |old(contents)|; taken == if n <= room then n else if fixed then 0 else room
      ensures contents == old(contents) + obj[..taken]
      ensures freeSpace == capacity - |contents|
    {
      var prodHead, prodNext, freeEntries;
      taken, prodHead, prodNext, freeEntries := MoveProdHead(n);
      if taken != 0 {
        FinishEnqueue(obj, prodHead, prodNext, taken);
      }
      assert |contents| == |old(contents)| + taken;
      WordDistance(freeEntries, taken);
      freeSpace := Wrap(freeEntries - taken);
    }

    /** Copies a claimed batch out and releases its slots. */
    method FinishDequeue(obj: array<T>, consHead: Word, consNext: Word, n: Word)
      requires Sized() && size > 0 && n <= obj.Length && obj != data && n <= |contents| <= capacity
      requires IsQueue(contents, data[..], cons.tail, prod.tail)
      requires consHead == cons.tail && consNext == Wrap(consHead + n)
      modifies cons`tail, obj, `contents
      ensures cons.tail == consNext && contents == old(contents)[n..]
      ensures obj[..n] == old(contents)[..n] && obj[n..] == old(obj[..])[n..]
      ensures IsQueue(contents, data[..], cons.tail, prod.tail)
    {
      ghost var ring := data[..];
      AfterDequeue(contents, ring, prod.tail, consHead, n);
      DequeuePtrs(consHead, obj, n);
      UpdateTail(cons, consHead, consNext, singleConsumer);
      contents := contents[n..];
      assert data[..] == ring;
    }

    /** Takes exactly `n` elements (fixed), or up to `n` (variable), into `obj`. */
    method DoDequeue(obj: array<T>, n: Word) returns (taken: Word, available: Word)
      requires Valid() && n <= obj.Length && obj != data
      modifies cons, obj, `contents
      ensures Valid()
      ensures taken == if n <= |old(contents)| then n else if fixed then 0 else |old(contents)|
      ensures obj[..taken] == old(contents)[..taken] && obj[taken..] == old(obj[..])[taken..]
      ensures contents == old(contents)[taken..]
      ensures available == |contents|
    {
      ghost var ring := data[..];
      var consHead, consNext, entries;
      taken, consHead, consNext, entries := MoveConsumerHead(n);
      if taken != 0 {
        FinishDequeue(obj, consHead, consNext, taken);
      }
      assert data[..] == ring && |contents| == |old(contents)| - taken;
      WordDistance(entries, taken);
      available := Wrap(entries - taken);
    }

    /** The number of queued elements; masking and clamping change nothing. */
    function RingCount(): (r: Word)
      requires Valid()
      reads this, prod, cons, data
      ensures r == |contents|
    {
      MaskSelects(Count(), size);
      Clamp(BitAnd(Count(), mask), capacity)
    }

    function RingFreeCount(): (r: Word)
      requires Valid()
      reads this, prod, cons, data
      ensures r == capacity - |contents|
    {
      capacity - RingCount()
    }

    predicate RingFull()
      requires Valid()
      reads this, prod, cons, data
      ensures RingFull() <==> |contents| == capacity
    {
      RingFreeCount() == 0
    }

    predicate RingEmpoty()
      requires Valid()
      reads this, prod, cons, data
      ensures RingEmpoty() <==> contents == []
    {
      RingCount() == 0
    }
  }
}
