/** The claim/copy/publish protocol of buffer_ring.h and buffer_ring_c.h as a step machine.

    Every step is one access to shared memory: read the own head, read the opposite tail,
    compare-and-swap (or plainly store) the head, copy one element, test the own tail, store
    the own tail. Any number of threads take such steps in any order.

    Two machines share this shape. The 32-bit machine (`RealStep`) is the code. The ideal
    machine (`IdealStep`) makes the same decisions, on words, but counts in unbounded naturals,
    remembers what each snapshot saw and logs every claimed value; it exists for the proofs
    only. */
module RingProtocol {
  import opened Words

  datatype Side = Producer | Consumer

  /** `capacity` may be below `size - 1`, as the header comment of buffer_ring_c.h allows. */
  datatype Config = Config(size: nat, capacity: nat, singleProducer: bool, singleConsumer: bool) {
    predicate Single(side: Side) {
      if side.Producer? then singleProducer else singleConsumer
    }

    /** The term that the producer adds and the consumer does not. */
    function Offset(side: Side): nat {
      if side.Producer? then capacity else 0
    }

    ghost predicate Valid() {
      PowerOfTwo(size) && capacity < size <= 0x8000_0000
    }
  }

  /** One call of the enqueue or dequeue function; `fixed` is the all-or-nothing behaviour. */
  datatype Call<T> = Enqueue(items: seq<T>, fixed: bool) | Dequeue(count: nat, fixed: bool) {
    function Side(): Side {
      if Enqueue? then Producer else Consumer
    }

    function Max(): nat {
      if Enqueue? then |items| else count
    }
  }

  /** Where a thread stands. `S` is what it keeps of its head read. */
  datatype Pc<T, S> =
    | Idle
    | Start(call: Call<T>)
    | HeadRead(call: Call<T>, snap: S)
    | Sized(call: Call<T>, snap: S, avail: nat, n: nat)
    | Copying(call: Call<T>, snap: S, avail: nat, n: nat, i: nat, got: seq<T>)
    | Waiting(call: Call<T>, snap: S, avail: nat, n: nat, got: seq<T>)
    | Publishing(call: Call<T>, snap: S, avail: nat, n: nat, got: seq<T>)
    | Finished(call: Call<T>, snap: S, n: nat, left: nat, got: seq<T>)
  {
    predicate Active() {
      !Idle? && !Finished?
    }

    /** Whether the thread owns the indices it claimed and has not published them. */
    predicate Claims() {
      Copying? || Waiting? || Publishing?
    }

    predicate On(side: Side) {
      Active() && call.Side() == side
    }

    predicate ClaimsOn(side: Side) {
      Claims() && call.Side() == side
    }

    predicate Shaped() {
      && (Sized? ==> 0 < n <= call.Max())
      && (Copying? ==> i < n <= call.Max())
    }
  }

  datatype HeadTail = HeadTail(head: nat, tail: nat)

  datatype Machine<T, S> = Machine(prod: HeadTail, cons: HeadTail, slots: seq<T>, threads: seq<Pc<T, S>>) {
    function Own(side: Side): HeadTail {
      if side.Producer? then prod else cons
    }

    function Other(side: Side): HeadTail {
      if side.Producer? then cons else prod
    }

    function SetOwn(side: Side, ht: HeadTail): Machine<T, S> {
      if side.Producer? then this.(prod := ht) else this.(cons := ht)
    }

    function Goto(t: nat, pc: Pc<T, S>): Machine<T, S>
      requires t < |threads|
    {
      this.(threads := threads[t := pc])
    }

    predicate Shaped(c: Config) {
      && |slots| == c.size
      && forall t :: 0 <= t < |threads| ==> threads[t].Shaped()
    }

    /** A call may start on a thread that runs none; a side created as single accepts one
        running call at a time, which is what its users promise. */
    predicate MayBegin(c: Config, t: nat, call: Call<T>)
      requires t < |threads|
    {
      && !threads[t].Active()
      && call.Max() < MODULUS
      && (c.Single(call.Side()) ==> forall u :: 0 <= u < |threads| ==> !threads[u].On(call.Side()))
    }
  }

  /** The number of elements a call takes when it sees `avail` of them. */
  function Grant(max: nat, avail: nat, all: bool): (n: nat)
    ensures n <= max && n <= avail
  {
    if max > avail then (if all then 0 else avail) else max
  }

  datatype Event<T> = Begin(thread: nat, call: Call<T>) | Tick(thread: nat)

  // ---------------------------------------------------------------- the 32-bit machine

  type Real<T> = Machine<T, Word>

  /** Steps that read one counter: the own head, the opposite tail, or the own tail. */
  function RealLook<T>(c: Config, own: HeadTail, other: HeadTail, p: Pc<T, Word>): Pc<T, Word>
    requires p.Start? || p.HeadRead? || p.Waiting?
  {
    match p
    case Start(call) => HeadRead(call, Wrap(own.head))
    case HeadRead(call, head0) =>
      var avail := Wrap(c.Offset(call.Side()) + other.tail - head0);
      var n := Grant(call.Max(), avail, call.fixed);
      if n == 0 then Finished(call, head0, 0, avail, []) else Sized(call, head0, avail, n)
    case Waiting(call, head0, avail, n, got) =>
      if own.tail == head0 then Publishing(call, head0, avail, n, got) else p
  }

  /** A single side stores the new head; a multi side compares and swaps, and starts over if
      the head has changed. */
  function RealClaim<T>(c: Config, m: Real<T>, t: nat): Real<T>
    requires t < |m.threads| && m.threads[t].Sized?
  {
    var p := m.threads[t];
    var own := m.Own(p.call.Side());
    if c.Single(p.call.Side()) || own.head == p.snap then
      m.SetOwn(p.call.Side(), own.(head := Wrap(p.snap + p.n)))
       .Goto(t, Copying(p.call, p.snap, p.avail, p.n, 0, []))
    else
      m.Goto(t, Start(p.call))
  }

  /** One element of the copy loop; `BuffRing` shows that the loops visit these slots. */
  function RealCopy<T>(c: Config, m: Real<T>, t: nat): Real<T>
    requires c.size > 0 && |m.slots| == c.size
    requires t < |m.threads| && m.threads[t].Copying? && m.threads[t].Shaped()
  {
    CopySlot(c, m, t, (BitAnd(m.threads[t].snap, c.size - 1) + m.threads[t].i) % c.size)
  }

  function RealPublish<T>(m: Real<T>, t: nat): Real<T>
    requires t < |m.threads| && m.threads[t].Publishing?
  {
    var p := m.threads[t];
    var own := m.Own(p.call.Side());
    m.SetOwn(p.call.Side(), own.(tail := Wrap(p.snap + p.n)))
     .Goto(t, Finished(p.call, p.snap, p.n, Wrap(p.avail - p.n), p.got))
  }

  function RealStep<T>(c: Config, m: Real<T>, t: nat): (m': Real<T>)
    requires m.Shaped(c) && c.size > 0 && t < |m.threads|
    ensures m'.Shaped(c) && |m'.threads| == |m.threads|
  {
    var p := m.threads[t];
    if p.Start? || p.HeadRead? || p.Waiting? then
      m.Goto(t, RealLook(c, m.Own(p.call.Side()), m.Other(p.call.Side()), p))
    else if p.Sized? then RealClaim(c, m, t)
    else if p.Copying? then RealCopy(c, m, t)
    else if p.Publishing? then RealPublish(m, t)
    else m
  }

  /** Thread `t` moves one element between slot `k` and its own buffer. */
  function CopySlot<T, S>(c: Config, m: Machine<T, S>, t: nat, k: nat): Machine<T, S>
    requires t < |m.threads| && m.threads[t].Copying? && m.threads[t].Shaped() && k < |m.slots|
  {
    var p := m.threads[t];
    if p.call.Enqueue? then
      m.(slots := m.slots[k := p.call.items[p.i]])
       .Goto(t, AfterCopy(c, p.call, p.snap, p.avail, p.n, p.i + 1, p.got))
    else
      m.Goto(t, AfterCopy(c, p.call, p.snap, p.avail, p.n, p.i + 1, p.got + [m.slots[k]]))
  }

  /** The copy loop goes on, or the thread turns to the tail; a single side does not wait. */
  function AfterCopy<T, S>(c: Config, call: Call<T>, snap: S, avail: nat, n: nat, i: nat, got: seq<T>): Pc<T, S> {
    if i < n then Copying(call, snap, avail, n, i, got)
    else if c.Single(call.Side()) then Publishing(call, snap, avail, n, got)
    else Waiting(call, snap, avail, n, got)
  }

  function RealNext<T>(c: Config, m: Real<T>, e: Event<T>): (m': Real<T>)
    requires m.Shaped(c) && c.size > 0
    ensures m'.Shaped(c) && |m'.threads| == |m.threads|
  {
    if e.thread >= |m.threads| then m
    else match e
      case Begin(t, call) => if m.MayBegin(c, t, call) then m.Goto(t, Start(call)) else m
      case Tick(t) => RealStep(c, m, t)
  }

  /** The 32-bit machine after a schedule, one event after the other. */
  function RealRun<T>(c: Config, m: Real<T>, es: seq<Event<T>>): (m': Real<T>)
    requires m.Shaped(c) && c.size > 0
    ensures m'.Shaped(c) && |m'.threads| == |m.threads|
  {
    if es == [] then m else RealNext(c, RealRun(c, m, es[..|es| - 1]), es[|es| - 1])
  }

  /** A new ring: all four counters zero, no call running, any slot contents. */
  function NewReal<T>(slots: seq<T>, threads: nat): Real<T> {
    Machine(HeadTail(0, 0), HeadTail(0, 0), slots, seq(threads, _ => Idle))
  }

  // ----------------------------------------------------------------- the ideal machine

  /** What an ideal thread remembers: the head it read first, and once it has a claim the index
      where its claim starts; the head at the moment it read the opposite tail; and the bound that
      tail gave (`offset + tail`). */
  datatype Snap = Snap(lo: nat, seen: nat, limit: nat)

  /** The shared part of an ideal state. `log[k]` is the value claimed for index `k`, for every
      index below the producer head. */
  datatype Shared<T> = Shared(prod: HeadTail, cons: HeadTail, slots: seq<T>, log: seq<T>) {
    function Own(side: Side): HeadTail {
      if side.Producer? then prod else cons
    }

    function Limit(c: Config, side: Side): nat {
      c.Offset(side) + (if side.Producer? then cons.tail else prod.tail)
    }
  }

  datatype Ideal<T> = Ideal(m: Machine<T, Snap>, log: seq<T>) {
    function View(): Shared<T> {
      Shared(m.prod, m.cons, m.slots, log)
    }

    function Goto(t: nat, pc: Pc<T, Snap>): Ideal<T>
      requires t < |m.threads|
    {
      this.(m := m.Goto(t, pc))
    }
  }

  function IdealLook<T>(c: Config, own: HeadTail, other: HeadTail, p: Pc<T, Snap>): Pc<T, Snap>
    requires p.Start? || p.HeadRead? || p.Waiting?
  {
    match p
    case Start(call) => HeadRead(call, Snap(own.head, own.head, own.head))
    case HeadRead(call, snap) =>
      var limit := c.Offset(call.Side()) + other.tail;
      var snap1 := Snap(snap.lo, own.head, limit);
      var avail := Wrap(limit - snap.lo);
      var n := Grant(call.Max(), avail, call.fixed);
      if n == 0 then Finished(call, snap1, 0, avail, []) else Sized(call, snap1, avail, n)
    case Waiting(call, snap, avail, n, got) =>
      if Wrap(own.tail) == Wrap(snap.lo) then Publishing(call, snap, avail, n, got) else p
  }

  /** The store or exchange of thread `t` will move the head. */
  predicate GoesThrough<T>(c: Config, s: Ideal<T>, t: nat)
    requires t < |s.m.threads| && s.m.threads[t].Sized?
  {
    var p := s.m.threads[t];
    c.Single(p.call.Side()) || Wrap(s.m.Own(p.call.Side()).head) == Wrap(p.snap.lo)
  }

  function IdealStep<T>(c: Config, s: Ideal<T>, t: nat): (s': Ideal<T>)
    requires s.m.Shaped(c) && c.size > 0 && t < |s.m.threads|
    ensures s'.m.Shaped(c) && |s'.m.threads| == |s.m.threads|
  {
    var p := s.m.threads[t];
    if p.Start? || p.HeadRead? || p.Waiting? then
      s.Goto(t, IdealLook(c, s.m.Own(p.call.Side()), s.m.Other(p.call.Side()), p))
    else if p.Sized? then
      if GoesThrough(c, s, t) then Claim(c, s, t) else s.Goto(t, Start(p.call))
    else if p.Copying? then CopyOne(c, s, t)
    else if p.Publishing? then Publish(s, t)
    else s
  }

  /** Where the claim of thread `t` starts: a single side stores over the head it read, a multi
      side exchanges the head that is there. */
  function ClaimsFrom<T>(c: Config, s: Ideal<T>, t: nat): nat
    requires t < |s.m.threads| && s.m.threads[t].Sized?
  {
    var p := s.m.threads[t];
    if c.Single(p.call.Side()) then p.snap.lo else s.m.Own(p.call.Side()).head
  }

  /** The head moves over the claimed indices; a producer's values enter the log. */
  function Claim<T>(c: Config, s: Ideal<T>, t: nat): Ideal<T>
    requires t < |s.m.threads| && s.m.threads[t].Sized? && s.m.threads[t].Shaped()
  {
    var p := s.m.threads[t];
    var at := ClaimsFrom(c, s, t);
    Ideal(s.m.SetOwn(p.call.Side(), s.m.Own(p.call.Side()).(head := at + p.n))
             .Goto(t, Copying(p.call, p.snap.(lo := at), p.avail, p.n, 0, [])),
          if p.call.Enqueue? then s.log + p.call.items[..p.n] else s.log)
  }

  function CopyOne<T>(c: Config, s: Ideal<T>, t: nat): Ideal<T>
    requires c.size > 0 && |s.m.slots| == c.size
    requires t < |s.m.threads| && s.m.threads[t].Copying? && s.m.threads[t].Shaped()
  {
    s.(m := CopySlot(c, s.m, t, (s.m.threads[t].snap.lo + s.m.threads[t].i) % c.size))
  }

  function Publish<T>(s: Ideal<T>, t: nat): Ideal<T>
    requires t < |s.m.threads| && s.m.threads[t].Publishing?
  {
    var p := s.m.threads[t];
    var own := s.m.Own(p.call.Side());
    s.(m := s.m.SetOwn(p.call.Side(), own.(tail := p.snap.lo + p.n))
               .Goto(t, Finished(p.call, p.snap, p.n, Wrap(p.avail - p.n), p.got)))
  }

  function IdealNext<T>(c: Config, s: Ideal<T>, e: Event<T>): (s': Ideal<T>)
    requires s.m.Shaped(c) && c.size > 0
    ensures s'.m.Shaped(c) && |s'.m.threads| == |s.m.threads|
  {
    if e.thread >= |s.m.threads| then s
    else match e
      case Begin(t, call) => if s.m.MayBegin(c, t, call) then s.Goto(t, Start(call)) else s
      case Tick(t) => IdealStep(c, s, t)
  }

  function IdealRun<T>(c: Config, s: Ideal<T>, es: seq<Event<T>>): (s': Ideal<T>)
    requires s.m.Shaped(c) && c.size > 0
    ensures s'.m.Shaped(c) && |s'.m.threads| == |s.m.threads|
  {
    if es == [] then s else IdealNext(c, IdealRun(c, s, es[..|es| - 1]), es[|es| - 1])
  }

  /** The state after the first `j` events of a schedule. */
  function IdealAt<T>(c: Config, s: Ideal<T>, es: seq<Event<T>>, j: nat): (s': Ideal<T>)
    requires s.m.Shaped(c) && c.size > 0 && j <= |es|
    ensures s'.m.Shaped(c) && |s'.m.threads| == |s.m.threads|
  {
    IdealRun(c, s, es[..j])
  }

  function RealAt<T>(c: Config, m: Real<T>, es: seq<Event<T>>, j: nat): (m': Real<T>)
    requires m.Shaped(c) && c.size > 0 && j <= |es|
    ensures m'.Shaped(c) && |m'.threads| == |m.threads|
  {
    RealRun(c, m, es[..j])
  }

  /** A schedule and the same without its last event agree on all earlier states. */
  lemma AtPrefix<T>(c: Config, s: Ideal<T>, es: seq<Event<T>>, j: nat)
    requires s.m.Shaped(c) && c.size > 0 && j < |es|
    ensures IdealAt(c, s, es[..|es| - 1], j) == IdealAt(c, s, es, j)
  {
    assert es[..|es| - 1][..j] == es[..j];
  }

  lemma AtEnds<T>(c: Config, s: Ideal<T>, es: seq<Event<T>>)
    requires s.m.Shaped(c) && c.size > 0
    ensures IdealAt(c, s, es, |es|) == IdealRun(c, s, es)
    ensures es != [] ==> IdealAt(c, s, es, |es| - 1) == IdealRun(c, s, es[..|es| - 1])
  {
    assert es[..|es|] == es;
  }

  function NewIdeal<T>(slots: seq<T>, threads: nat): Ideal<T> {
    Ideal(Machine(HeadTail(0, 0), HeadTail(0, 0), slots, seq(threads, _ => Idle)), [])
  }
}
