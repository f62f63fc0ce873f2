/** The step machine with one thread at work does what the class does: a call that runs from its
    start to its end without another thread's step ends in the counters, slots and results that
    `DoEnqueue` and `DoDequeue` promise. */
module RingSolo {
  import opened Words
  import opened RingCopy
  import opened RingProtocol
  import opened BuffRings

  /** A call starts on thread `t`, and the thread takes `k` steps. */
  function Solo<T>(t: nat, call: Call<T>, k: nat): seq<Event<T>> {
    if k == 0 then [Begin(t, call)] else Solo(t, call, k - 1) + [Tick(t)]
  }

  lemma SoloStep<T>(c: Config, m: Real<T>, t: nat, call: Call<T>, k: nat)
    requires m.Shaped(c) && c.size > 0 && t < |m.threads|
    ensures RealRun(c, m, Solo(t, call, k + 1)) == RealStep(c, RealRun(c, m, Solo(t, call, k)), t)
  {
    var es: seq<Event<T>> := Solo(t, call, k);
    assert (es + [Tick(t)])[..|es|] == es;
  }

  /** After `k` steps of the call the machine is at `m1`. */
  ghost predicate Reaches<T>(c: Config, m: Real<T>, t: nat, call: Call<T>, k: nat, m1: Real<T>)
    requires m.Shaped(c) && c.size > 0
  {
    var end := RealRun(c, m, Solo(t, call, k));
    end == m1
  }

  lemma ReachStep<T>(c: Config, m: Real<T>, t: nat, call: Call<T>, k: nat, m1: Real<T>)
    requires m.Shaped(c) && c.size > 0 && t < |m.threads| && Reaches(c, m, t, call, k, m1)
    ensures m1.Shaped(c) && |m1.threads| == |m.threads|
    ensures Reaches(c, m, t, call, k + 1, RealStep(c, m1, t))
  {
    SoloStep(c, m, t, call, k);
  }

  /** The ring between calls: on words, both heads stand at their tails, and `q` lists what is
      queued. */
  ghost predicate Rests<T>(c: Config, m: Real<T>, q: seq<T>) {
    var (produced, consumed) := (m.prod.tail, m.cons.tail);
    && c.Valid() && m.Shaped(c) && c.size > 0
    && produced < MODULUS && consumed < MODULUS
    && m.prod.head == produced && m.cons.head == consumed
    && |q| <= c.capacity && IsQueue(q, m.slots, consumed, produced)
  }

  /** `m` with thread `t` moved to `p` and the counters of a side replaced. */
  function Moved<T>(m: Real<T>, t: nat, side: Side, ht: HeadTail, slots: seq<T>, p: Pc<T, Word>): Real<T>
    requires t < |m.threads|
  {
    m.SetOwn(side, ht).(slots := slots).Goto(t, p)
  }

  /** What a call sees when it starts from rest. */
  function Room(c: Config, queued: nat, side: Side): int {
    if side.Producer? then c.capacity - queued else queued
  }

  lemma RoomIsSeen<T>(c: Config, m: Real<T>, q: seq<T>, side: Side)
    requires Rests(c, m, q)
    ensures Wrap(c.Offset(side) + m.Other(side).tail - m.Own(side).head) == Room(c, |q|, side)
    ensures 0 <= Room(c, |q|, side) < MODULUS
  {
    if side.Producer? {
      RoomExact(c.capacity, m.cons.tail, m.prod.tail);
    }
  }

  lemma BeginsAndReads<T>(c: Config, m: Real<T>, t: nat, call: Call<T>, head: Word)
    requires m.Shaped(c) && c.size > 0 && t < |m.threads| && m.MayBegin(c, t, call)
    requires head == m.Own(call.Side()).head
    ensures Reaches(c, m, t, call, 1, m.Goto(t, HeadRead(call, head)))
  {
    assert Solo(t, call, 0) == [Begin(t, call)] && [Begin(t, call)][..0] == [];
    assert RealRun(c, m, Solo(t, call, 0)) == m.Goto(t, Start(call));
    ReachStep(c, m, t, call, 0, m.Goto(t, Start(call)));
  }

  lemma Sees<T>(c: Config, m: Real<T>, t: nat, call: Call<T>, head: Word, room: Word, n: nat, p: Pc<T, Word>)
    requires m.Shaped(c) && c.size > 0 && t < |m.threads| && n == Grant(call.Max(), room, call.fixed)
    requires Wrap(c.Offset(call.Side()) + m.Other(call.Side()).tail - head) == room
    requires p == if n == 0 then Finished(call, head, 0, room, []) else Sized(call, head, room, n)
    ensures m.Goto(t, HeadRead(call, head)).Shaped(c)
    ensures RealStep(c, m.Goto(t, HeadRead(call, head)), t) == m.Goto(t, p)
  {
  }

  lemma Claims<T>(c: Config, m: Real<T>, t: nat, call: Call<T>, room: Word, n: nat,
                  side: Side, head: Word, ht: HeadTail)
    requires m.Shaped(c) && c.size > 0 && t < |m.threads| && 0 < n <= call.Max() && side == call.Side()
    requires head == m.Own(side).head && ht == m.Own(side).(head := Wrap(head + n))
    ensures m.Goto(t, Sized(call, head, room, n)).Shaped(c)
    ensures RealStep(c, m.Goto(t, Sized(call, head, room, n)), t)
            == Moved(m, t, side, ht, m.slots, Copying(call, head, room, n, 0, []))
  {
  }

  /** The first steps of a call that is granted nothing: it returns. */
  lemma SoloRefused<T>(c: Config, m: Real<T>, q: seq<T>, t: nat, call: Call<T>, room: Word, head: Word)
    requires Rests(c, m, q) && t < |m.threads| && m.MayBegin(c, t, call) && head == m.Own(call.Side()).head
    requires room == Room(c, |q|, call.Side()) && Grant(call.Max(), room, call.fixed) == 0
    ensures Reaches(c, m, t, call, 2, m.Goto(t, Finished(call, head, 0, room, [])))
  {
    RoomIsSeen(c, m, q, call.Side());
    BeginsAndReads(c, m, t, call, head);
    Sees(c, m, t, call, head, room, 0, Finished(call, head, 0, room, []));
    ReachStep(c, m, t, call, 1, m.Goto(t, HeadRead(call, head)));
  }

  /** The first steps of a call that is granted `n`: it claims them. */
  lemma SoloClaims<T>(c: Config, m: Real<T>, q: seq<T>, t: nat, call: Call<T>, room: Word, n: nat,
                      side: Side, head: Word, ht: HeadTail)
    requires Rests(c, m, q) && t < |m.threads| && m.MayBegin(c, t, call) && side == call.Side()
    requires room == Room(c, |q|, side) && n == Grant(call.Max(), room, call.fixed) > 0
    requires head == m.Own(side).head && ht == HeadTail(Wrap(head + n), head)
    ensures Reaches(c, m, t, call, 3, Moved(m, t, side, ht, m.slots, Copying(call, head, room, n, 0, [])))
  {
    RoomIsSeen(c, m, q, side);
    BeginsAndReads(c, m, t, call, head);
    Sees(c, m, t, call, head, room, n, Sized(call, head, room, n));
    ReachStep(c, m, t, call, 1, m.Goto(t, HeadRead(call, head)));
    Claims(c, m, t, call, room, n, side, head, ht);
    ReachStep(c, m, t, call, 2, m.Goto(t, Sized(call, head, room, n)));
  }

  // --------------------------------------------------------------------- copying

  /** One element of an enqueue's copy goes where the simple loop puts it. */
  lemma PutStep<T>(c: Config, m: Real<T>, t: nat, ht: HeadTail, ring: seq<T>, items: seq<T>, fixed: bool,
                   head: Word, room: Word, n: nat, i: nat)
    requires c.Valid() && c.size > 0 && |ring| == c.size && t < |m.threads| && m.Shaped(c)
    requires i < n <= |items| && n < c.size
    ensures BitAnd(head, c.size - 1) < c.size
    ensures var (start, call) := (BitAnd(head, c.size - 1), Enqueue(items, fixed));
            var m1 := Moved(m, t, Producer, ht, Put(ring, start, items, i), Copying(call, head, room, n, i, []));
            && m1.Shaped(c)
            && RealStep(c, m1, t)
               == Moved(m, t, Producer, ht, Put(ring, start, items, i + 1),
                        AfterCopy(c, call, head, room, n, i + 1, []))
  {
    LoopSlotIsStepSlot(c.size, head, i);
  }

  /** Step `i` of thread `t` leads from the `i`-th of a row of states to the next. */
  ghost predicate Leads<T>(c: Config, t: nat, at: seq<Real<T>>, i: nat)
    requires i + 1 < |at|
  {
    var (m, m1) := (at[i], at[i + 1]);
    c.size > 0 && m.Shaped(c) && t < |m.threads| && RealStep(c, m, t) == m1
  }

  lemma OneLeads<T>(c: Config, m: Real<T>, t: nat, call: Call<T>, k: nat, at: seq<Real<T>>, i: nat)
    requires m.Shaped(c) && c.size > 0 && t < |m.threads| && i + 1 < |at| && Leads(c, t, at, i)
    requires Reaches(c, m, t, call, k, at[i])
    ensures Reaches(c, m, t, call, k + 1, at[i + 1])
  {
    ReachStep(c, m, t, call, k, at[i]);
  }

  lemma {:induction false} SoloMany<T>(c: Config, m: Real<T>, t: nat, call: Call<T>, k: nat, at: seq<Real<T>>, n: nat)
    requires m.Shaped(c) && c.size > 0 && t < |m.threads| && n < |at| && Reaches(c, m, t, call, k, at[0])
    requires forall i: nat :: i < n ==> Leads(c, t, at, i)
    ensures Reaches(c, m, t, call, k + n, at[n])
  {
    if n > 0 {
      SoloMany(c, m, t, call, k, at, n - 1);
      OneLeads(c, m, t, call, k + (n - 1), at, n - 1);
      assert k + (n - 1) + 1 == k + n;
    }
  }

  /** The state in which `i` of `n` elements are in their slots. */
  function PutState<T>(c: Config, m: Real<T>, t: nat, ht: HeadTail, call: Call<T>,
                       head: Word, room: Word, n: nat, i: nat): Real<T>
    requires m.Shaped(c) && t < |m.threads| && call.Enqueue? && n <= |call.items| && n < c.size
    requires BitAnd(head, c.size - 1) < c.size
  {
    var done := if i < n then i else n;
    Moved(m, t, Producer, ht, Put(m.slots, BitAnd(head, c.size - 1), call.items, done),
          if i < n then Copying(call, head, room, n, i, []) else AfterCopy(c, call, head, room, n, n, []))
  }

  lemma PutEnds<T>(c: Config, m: Real<T>, t: nat, ht: HeadTail, call: Call<T>, head: Word, room: Word, n: nat)
    requires m.Shaped(c) && t < |m.threads| && call.Enqueue? && 0 < n <= |call.items| && n < c.size
    requires BitAnd(head, c.size - 1) < c.size
    ensures PutState(c, m, t, ht, call, head, room, n, 0)
            == Moved(m, t, Producer, ht, m.slots, Copying(call, head, room, n, 0, []))
    ensures PutState(c, m, t, ht, call, head, room, n, n)
            == Moved(m, t, Producer, ht, Put(m.slots, BitAnd(head, c.size - 1), call.items, n),
                     AfterCopy(c, call, head, room, n, n, []))
  {
  }

  lemma PutLeads<T>(c: Config, m: Real<T>, t: nat, ht: HeadTail, call: Call<T>,
                    head: Word, room: Word, n: nat, i: nat)
    requires c.Valid() && c.size > 0 && m.Shaped(c) && t < |m.threads|
    requires call.Enqueue? && i < n <= |call.items| && n < c.size && BitAnd(head, c.size - 1) < c.size
    ensures var m1 := PutState(c, m, t, ht, call, head, room, n, i);
            m1.Shaped(c) && RealStep(c, m1, t) == PutState(c, m, t, ht, call, head, room, n, i + 1)
  {
    PutStep(c, m, t, ht, m.slots, call.items, call.fixed, head, room, n, i);
  }

  /** All copies of an enqueue. */
  lemma SoloPuts<T>(c: Config, m: Real<T>, t: nat, ht: HeadTail, call: Call<T>, head: Word, room: Word, n: nat, k: nat)
    requires c.Valid() && c.size > 0 && m.Shaped(c) && t < |m.threads|
    requires call.Enqueue? && n <= |call.items| && n < c.size && BitAnd(head, c.size - 1) < c.size
    requires Reaches(c, m, t, call, k, PutState(c, m, t, ht, call, head, room, n, 0))
    ensures Reaches(c, m, t, call, k + n, PutState(c, m, t, ht, call, head, room, n, n))
  {
    var at := seq(n + 1, i requires 0 <= i => PutState(c, m, t, ht, call, head, room, n, i));
    forall i: nat | i < n
      ensures Leads(c, t, at, i)
    {
      PutLeads(c, m, t, ht, call, head, room, n, i);
    }
    SoloMany(c, m, t, call, k, at, n);
  }

  /** The state in which `i` of `n` elements are taken. */
  function GetState<T>(c: Config, m: Real<T>, t: nat, ht: HeadTail, q: seq<T>, call: Call<T>,
                       head: Word, room: Word, n: nat, i: nat): Real<T>
    requires t < |m.threads| && n <= |q|
  {
    Moved(m, t, Consumer, ht, m.slots,
          if i < n then Copying(call, head, room, n, i, q[..i]) else AfterCopy(c, call, head, room, n, n, q[..n]))
  }

  /** One element of a dequeue's copy is the next of the queue. */
  lemma GetLeads<T>(c: Config, m: Real<T>, t: nat, ht: HeadTail, q: seq<T>, call: Call<T>,
                    head: Word, room: Word, n: nat, i: nat)
    requires c.Valid() && c.size > 0 && t < |m.threads| && m.Shaped(c) && call.Dequeue?
    requires i < n <= call.count && n <= |q| && n < c.size
    requires Holds(m.slots, BitAnd(head, c.size - 1), q)
    ensures var m1 := GetState(c, m, t, ht, q, call, head, room, n, i);
            m1.Shaped(c) && RealStep(c, m1, t) == GetState(c, m, t, ht, q, call, head, room, n, i + 1)
  {
    LoopSlotIsStepSlot(c.size, head, i);
    assert q[..i] + [q[i]] == q[..i + 1];
  }

  /** All copies of a dequeue. */
  lemma SoloGets<T>(c: Config, m: Real<T>, t: nat, ht: HeadTail, q: seq<T>, call: Call<T>,
                    head: Word, room: Word, n: nat, k: nat)
    requires c.Valid() && c.size > 0 && t < |m.threads| && m.Shaped(c) && call.Dequeue?
    requires n <= call.count && n <= |q| && n < c.size && Holds(m.slots, BitAnd(head, c.size - 1), q)
    requires Reaches(c, m, t, call, k, GetState(c, m, t, ht, q, call, head, room, n, 0))
    ensures Reaches(c, m, t, call, k + n, GetState(c, m, t, ht, q, call, head, room, n, n))
  {
    var at := seq(n + 1, i requires 0 <= i => GetState(c, m, t, ht, q, call, head, room, n, i));
    forall i: nat | i < n
      ensures Leads(c, t, at, i)
    {
      GetLeads(c, m, t, ht, q, call, head, room, n, i);
    }
    SoloMany(c, m, t, call, k, at, n);
  }

  // ------------------------------------------------------------------ publishing

  lemma WaitsStep<T>(c: Config, m: Real<T>, t: nat, call: Call<T>, ht: HeadTail, slots: seq<T>,
                     head: Word, room: Word, n: nat, got: seq<T>)
    requires c.size > 0 && |slots| == c.size && t < |m.threads| && m.Shaped(c) && ht.tail == head
    ensures var m1 := Moved(m, t, call.Side(), ht, slots, Waiting(call, head, room, n, got));
            && m1.Shaped(c)
            && RealStep(c, m1, t) == Moved(m, t, call.Side(), ht, slots, Publishing(call, head, room, n, got))
  {
  }

  lemma PublishesStep<T>(c: Config, m: Real<T>, t: nat, call: Call<T>, ht: HeadTail, slots: seq<T>,
                         head: Word, room: Word, n: nat, got: seq<T>)
    requires c.size > 0 && |slots| == c.size && t < |m.threads| && m.Shaped(c) && n <= room
    ensures var m1 := Moved(m, t, call.Side(), ht, slots, Publishing(call, head, room, n, got));
            && m1.Shaped(c)
            && RealStep(c, m1, t)
               == Moved(m, t, call.Side(), ht.(tail := Wrap(head + n)), slots, Finished(call, head, n, room - n, got))
  {
  }

  /** The last steps: a multi side finds that it is its turn ... */
  lemma SoloWaits<T>(c: Config, m: Real<T>, t: nat, call: Call<T>, side: Side, k: nat, ht: HeadTail, slots: seq<T>,
                     head: Word, room: Word, n: nat, got: seq<T>) returns (k1: nat)
    requires m.Shaped(c) && c.size > 0 && |slots| == c.size && t < |m.threads| && side == call.Side() && ht.tail == head
    requires Reaches(c, m, t, call, k, Moved(m, t, side, ht, slots, AfterCopy(c, call, head, room, n, n, got)))
    ensures Reaches(c, m, t, call, k1, Moved(m, t, side, ht, slots, Publishing(call, head, room, n, got)))
  {
    k1 := k;
    if !c.Single(side) {
      WaitsStep(c, m, t, call, ht, slots, head, room, n, got);
      ReachStep(c, m, t, call, k, Moved(m, t, side, ht, slots, Waiting(call, head, room, n, got)));
      k1 := k + 1;
    }
  }

  /** ... and the tail follows the head. */
  lemma SoloPublishes<T>(c: Config, m: Real<T>, t: nat, call: Call<T>, side: Side, k: nat, ht: HeadTail, slots: seq<T>,
                         head: Word, room: Word, n: nat, got: seq<T>)
    requires m.Shaped(c) && c.size > 0 && |slots| == c.size && t < |m.threads| && side == call.Side() && n <= room
    requires Reaches(c, m, t, call, k, Moved(m, t, side, ht, slots, Publishing(call, head, room, n, got)))
    ensures Reaches(c, m, t, call, k + 1,
                    Moved(m, t, side, ht.(tail := Wrap(head + n)), slots,
                          Finished(call, head, n, room - n, got)))
  {
    PublishesStep(c, m, t, call, ht, slots, head, room, n, got);
    ReachStep(c, m, t, call, k, Moved(m, t, side, ht, slots, Publishing(call, head, room, n, got)));
  }

  // --------------------------------------------------------------- the whole calls

  /** Thread `t` has returned `n`, `left` and `got`, and the ring rests with `q` in it. */
  ghost predicate Returns<T>(c: Config, m: Real<T>, t: nat, q: seq<T>, n: nat, left: int, got: seq<T>) {
    var p := if t < |m.threads| then m.threads[t] else Idle;
    Rests(c, m, q) && p.Finished? && p.n == n && p.left == left && p.got == got
  }

  /** The state that a published call leaves rests again. */
  lemma RestsAgain<T>(c: Config, m: Real<T>, q: seq<T>, t: nat, side: Side, slots: seq<T>, tail: Word,
                      p: Pc<T, Word>, q1: seq<T>, end: Real<T>)
    requires t < |m.threads| && end == Moved(m, t, side, HeadTail(tail, tail), slots, p)
    requires Rests(c, m, q) && t < |m.threads| && p.Finished? && |slots| == c.size && |q1| <= c.capacity
    requires IsQueue(q1, slots, if side.Producer? then m.cons.tail else tail,
                     if side.Producer? then tail else m.prod.tail)
    ensures Returns(c, end, t, q1, p.n, p.left, p.got)
  {
  }

  /** From the end of the copies to the return. */
  lemma SoloEnds<T>(c: Config, m: Real<T>, t: nat, call: Call<T>, side: Side, k: nat, head: Word, slots: seq<T>,
                    room: Word, n: nat, got: seq<T>) returns (k1: nat)
    requires m.Shaped(c) && c.size > 0 && |slots| == c.size && t < |m.threads| && side == call.Side() && n <= room
    requires Reaches(c, m, t, call, k,
                     Moved(m, t, side, HeadTail(Wrap(head + n), head), slots,
                           AfterCopy(c, call, head, room, n, n, got)))
    ensures Reaches(c, m, t, call, k1,
                    Moved(m, t, side, HeadTail(Wrap(head + n), Wrap(head + n)), slots,
                          Finished(call, head, n, room - n, got)))
  {
    var ht := HeadTail(Wrap(head + n), head);
    var k0 := SoloWaits(c, m, t, call, side, k, ht, slots, head, room, n, got);
    SoloPublishes(c, m, t, call, side, k0, ht, slots, head, room, n, got);
    k1 := k0 + 1;
  }

  lemma EnqueueCopies<T>(c: Config, m: Real<T>, q: seq<T>, t: nat, call: Call<T>, room: Word, n: nat,
                         tail: Word, ht: HeadTail, slots: seq<T>)
    requires Rests(c, m, q) && t < |m.threads| && call.Enqueue? && m.MayBegin(c, t, call)
    requires room == c.capacity - |q| && n == Grant(|call.items|, room, call.fixed) > 0
    requires tail == m.prod.tail && ht == HeadTail(Wrap(tail + n), tail)
    requires BitAnd(tail, c.size - 1) < c.size && slots == Put(m.slots, BitAnd(tail, c.size - 1), call.items, n)
    ensures Reaches(c, m, t, call, 3 + n, Moved(m, t, Producer, ht, slots, AfterCopy(c, call, tail, room, n, n, [])))
  {
    SoloClaims(c, m, q, t, call, room, n, Producer, tail, ht);
    PutEnds(c, m, t, ht, call, tail, room, n);
    SoloPuts(c, m, t, ht, call, tail, room, n, 3);
  }

  /** An enqueue that is granted `n` elements. */
  lemma GrantedEnqueue<T>(c: Config, m: Real<T>, q: seq<T>, t: nat, call: Call<T>, room: Word, n: nat,
                          tail: Word, slots: seq<T>, p: Pc<T, Word>, end: Real<T>) returns (k: nat)
    requires Rests(c, m, q) && t < |m.threads| && call.Enqueue? && m.MayBegin(c, t, call)
    requires room == c.capacity - |q| && n == Grant(|call.items|, room, call.fixed) > 0
    requires tail == m.prod.tail && BitAnd(tail, c.size - 1) < c.size
    requires slots == Put(m.slots, BitAnd(tail, c.size - 1), call.items, n)
    requires p == Finished(call, tail, n, room - n, [])
    requires end == Moved(m, t, Producer, HeadTail(Wrap(tail + n), Wrap(tail + n)), slots, p)
    ensures Reaches(c, m, t, call, k, end) && Returns(c, end, t, q + call.items[..n], n, room - n, [])
  {
    EnqueueCopies(c, m, q, t, call, room, n, tail, HeadTail(Wrap(tail + n), tail), slots);
    k := SoloEnds(c, m, t, call, Producer, 3 + n, tail, slots, room, n, []);
    EnqueueRests(c, m, q, t, call.items, n, tail, slots, p, end);
  }

  lemma EnqueueRests<T>(c: Config, m: Real<T>, q: seq<T>, t: nat, items: seq<T>, n: nat,
                        tail: Word, slots: seq<T>, p: Pc<T, Word>, end: Real<T>)
    requires Rests(c, m, q) && t < |m.threads| && n <= |items| && |q| + n <= c.capacity
    requires tail == m.prod.tail && BitAnd(tail, c.size - 1) < c.size
    requires slots == Put(m.slots, BitAnd(tail, c.size - 1), items, n) && p.Finished?
    requires end == Moved(m, t, Producer, HeadTail(Wrap(tail + n), Wrap(tail + n)), slots, p)
    ensures Returns(c, end, t, q + items[..n], p.n, p.left, p.got)
  {
    AfterEnqueue(q, m.slots, m.cons.tail, tail, items, n);
    RestsAgain(c, m, q, t, Producer, slots, Wrap(tail + n), p, q + items[..n], end);
  }

  lemma DequeueCopies<T>(c: Config, m: Real<T>, q: seq<T>, t: nat, call: Call<T>, room: Word, n: nat,
                         tail: Word, ht: HeadTail)
    requires Rests(c, m, q) && t < |m.threads| && call.Dequeue? && m.MayBegin(c, t, call)
    requires room == |q| && n == Grant(call.count, room, call.fixed) > 0
    requires tail == m.cons.tail && ht == HeadTail(Wrap(tail + n), tail)
    ensures Reaches(c, m, t, call, 3 + n,
                    Moved(m, t, Consumer, ht, m.slots, AfterCopy(c, call, tail, room, n, n, q[..n])))
  {
    SoloClaims(c, m, q, t, call, room, n, Consumer, tail, ht);
    assert q[..0] == [];
    SoloGets(c, m, t, ht, q, call, tail, room, n, 3);
  }

  /** A dequeue that is granted `n` elements. */
  lemma GrantedDequeue<T>(c: Config, m: Real<T>, q: seq<T>, t: nat, call: Call<T>, room: Word, n: nat,
                          tail: Word, p: Pc<T, Word>, end: Real<T>) returns (k: nat)
    requires Rests(c, m, q) && t < |m.threads| && call.Dequeue? && m.MayBegin(c, t, call)
    requires room == |q| && n == Grant(call.count, room, call.fixed) > 0
    requires tail == m.cons.tail && p == Finished(call, tail, n, room - n, q[..n])
    requires end == Moved(m, t, Consumer, HeadTail(Wrap(tail + n), Wrap(tail + n)), m.slots, p)
    ensures Reaches(c, m, t, call, k, end) && Returns(c, end, t, q[n..], n, room - n, q[..n])
  {
    DequeueCopies(c, m, q, t, call, room, n, tail, HeadTail(Wrap(tail + n), tail));
    AfterDequeue(q, m.slots, m.prod.tail, tail, n);
    k := SoloEnds(c, m, t, call, Consumer, 3 + n, tail, m.slots, room, n, q[..n]);
    RestsAgain(c, m, q, t, Consumer, m.slots, Wrap(tail + n), p, q[n..], end);
  }

  /** A call that is granted nothing leaves counters and slots alone. */
  lemma RefusedCall<T>(c: Config, m: Real<T>, q: seq<T>, t: nat, call: Call<T>, room: Word,
                       head: Word, p: Pc<T, Word>, end: Real<T>)
    requires Rests(c, m, q) && t < |m.threads| && m.MayBegin(c, t, call) && head == m.Own(call.Side()).head
    requires room == Room(c, |q|, call.Side()) && Grant(call.Max(), room, call.fixed) == 0
    requires p == Finished(call, head, 0, room, []) && end == m.Goto(t, p)
    ensures Reaches(c, m, t, call, 2, end) && Returns(c, end, t, q, 0, room, [])
  {
    SoloRefused(c, m, q, t, call, room, head);
  }

  lemma NothingMoved<T>(c: Config, m: Real<T>, q: seq<T>, t: nat, side: Side, tail: Word, p: Pc<T, Word>)
    requires Rests(c, m, q) && t < |m.threads| && tail == m.Own(side).tail
    ensures Moved(m, t, side, HeadTail(tail, tail), m.slots, p) == m.Goto(t, p)
  {
  }

  lemma StartInside(c: Config, tail: Word)
    requires c.Valid()
    ensures c.size > 0 && BitAnd(tail, c.size - 1) < c.size
  {
    PowerDividesModulus(c.size);
    MaskSelects(tail, c.size);
  }

  lemma EnqueueEnds<T>(c: Config, m: Real<T>, q: seq<T>, t: nat, call: Call<T>, room: Word, n: nat,
                       tail: Word, slots: seq<T>, p: Pc<T, Word>, end: Real<T>) returns (k: nat)
    requires Rests(c, m, q) && t < |m.threads| && call.Enqueue? && m.MayBegin(c, t, call)
    requires room == c.capacity - |q| && n == Grant(|call.items|, room, call.fixed)
    requires tail == m.prod.tail && BitAnd(tail, c.size - 1) < c.size
    requires slots == Put(m.slots, BitAnd(tail, c.size - 1), call.items, n)
    requires p == Finished(call, tail, n, room - n, [])
    requires end == Moved(m, t, Producer, HeadTail(Wrap(tail + n), Wrap(tail + n)), slots, p)
    ensures Reaches(c, m, t, call, k, end) && Returns(c, end, t, q + call.items[..n], n, room - n, [])
  {
    if n == 0 {
      assert slots == m.slots && q + call.items[..0] == q;
      NothingMoved(c, m, q, t, Producer, tail, p);
      RefusedCall(c, m, q, t, call, room, tail, p, end);
      k := 2;
    } else {
      k := GrantedEnqueue(c, m, q, t, call, room, n, tail, slots, p, end);
    }
  }

  lemma DequeueEnds<T>(c: Config, m: Real<T>, q: seq<T>, t: nat, call: Call<T>, room: Word, n: nat,
                       tail: Word, p: Pc<T, Word>, end: Real<T>) returns (k: nat)
    requires Rests(c, m, q) && t < |m.threads| && call.Dequeue? && m.MayBegin(c, t, call)
    requires room == |q| && n == Grant(call.count, room, call.fixed)
    requires tail == m.cons.tail && p == Finished(call, tail, n, room - n, q[..n])
    requires end == Moved(m, t, Consumer, HeadTail(Wrap(tail + n), Wrap(tail + n)), m.slots, p)
    ensures Reaches(c, m, t, call, k, end) && Returns(c, end, t, q[n..], n, room - n, q[..n])
  {
    if n == 0 {
      assert q[..0] == [] && q[0..] == q;
      NothingMoved(c, m, q, t, Consumer, tail, p);
      RefusedCall(c, m, q, t, call, room, tail, p, end);
      k := 2;
    } else {
      k := GrantedDequeue(c, m, q, t, call, room, n, tail, p, end);
    }
  }

  /** An enqueue that runs alone ends with what `DoEnqueue` promises: what is granted of the batch is
      copied in and stands behind the queue, head and tail have moved on by as much, the consumer
      side and the other threads are as they were; that and the room left are the results. */
  lemma SoloEnqueue<T>(c: Config, m: Real<T>, q: seq<T>, t: nat, items: seq<T>, fixed: bool, taken: nat)
    returns (k: nat, slots: seq<T>, p: Pc<T, Word>, end: Real<T>)
    requires Rests(c, m, q) && t < |m.threads| && m.MayBegin(c, t, Enqueue(items, fixed))
    requires taken == Grant(|items|, c.capacity - |q|, fixed)
    ensures m.Shaped(c) && c.size > 0 && BitAnd(m.prod.tail, c.size - 1) < c.size
    ensures Reaches(c, m, t, Enqueue(items, fixed), k, end)
    ensures Returns(c, end, t, q + items[..taken], taken, c.capacity - |q| - taken, [])
    ensures slots == Put(m.slots, BitAnd(m.prod.tail, c.size - 1), items, taken)
    ensures p == Finished(Enqueue(items, fixed), m.prod.tail, taken, c.capacity - |q| - taken, [])
    ensures end.prod.head == end.prod.tail == Wrap(m.prod.tail + taken) && end.cons == m.cons
    ensures end.slots == slots && end.threads == m.threads[t := p]
  {
    var call, tail: Word, left: nat := Enqueue(items, fixed), m.prod.tail, c.capacity - |q| - taken;
    StartInside(c, tail);
    slots, p := Put(m.slots, BitAnd(tail, c.size - 1), items, taken), Finished(call, tail, taken, left, []);
    var ht := HeadTail(Wrap(tail + taken), Wrap(tail + taken));
    end := Moved(m, t, Producer, ht, slots, p);
    k := EnqueueEnds(c, m, q, t, call, c.capacity - |q|, taken, tail, slots, p, end);
  }

  /** A dequeue that runs alone ends with what `DoDequeue` promises: the slots, the producer side and
      the other threads are as they were, head and tail have moved on by as much as is granted, and
      those oldest elements are in the buffer and no longer queued; their number and what is left
      are the results. */
  lemma SoloDequeue<T>(c: Config, m: Real<T>, q: seq<T>, t: nat, count: Word, fixed: bool, taken: nat)
    returns (k: nat, p: Pc<T, Word>, end: Real<T>)
    requires Rests(c, m, q) && t < |m.threads| && m.MayBegin(c, t, Dequeue(count, fixed))
    requires taken == Grant(count, |q|, fixed)
    ensures m.Shaped(c) && c.size > 0
    ensures Reaches(c, m, t, Dequeue(count, fixed), k, end)
    ensures Returns(c, end, t, q[taken..], taken, |q| - taken, q[..taken])
    ensures p == Finished(Dequeue(count, fixed), m.cons.tail, taken, |q| - taken, q[..taken])
    ensures end.cons.head == end.cons.tail == Wrap(m.cons.tail + taken) && end.prod == m.prod
    ensures end.slots == m.slots && end.threads == m.threads[t := p]
  {
    var call: Call<T>, tail: Word, left: nat := Dequeue(count, fixed), m.cons.tail, |q| - taken;
    p := Finished(call, tail, taken, left, q[..taken]);
    end := Moved(m, t, Consumer, HeadTail(Wrap(tail + taken), Wrap(tail + taken)), m.slots, p);
    k := DequeueEnds(c, m, q, t, call, |q|, taken, tail, p, end);
  }
}
