/** The ring as an atomic bounded FIFO queue: what every interleaving delivers. */
module RingQueue {
  import opened Words
  import opened RingProtocol
  import opened RingInvariant
  import opened RingRefinement

  /** The queue contents, and everything ever taken out of it. */
  datatype Fifo<T> = Fifo(items: seq<T>, taken: seq<T>)

  datatype QueueOp<T> = Nothing | Push(batch: seq<T>) | Pop(count: nat)

  datatype Option<T> = None | Some(value: T)

  /** One operation of the atomic queue; `None` if the queue would not allow it. */
  function Apply<T>(capacity: nat, q: Fifo<T>, op: QueueOp<T>): Option<Fifo<T>> {
    match op
    case Nothing => Some(q)
    case Push(batch) =>
      if |q.items| + |batch| > capacity then None else Some(Fifo(q.items + batch, q.taken))
    case Pop(count) =>
      if count > |q.items| then None else Some(Fifo(q.items[count..], q.taken + q.items[..count]))
  }

  function ApplyAll<T>(capacity: nat, q: Fifo<T>, ops: seq<QueueOp<T>>): Option<Fifo<T>> {
    if ops == [] then Some(q)
    else
      var before := ApplyAll(capacity, q, ops[..|ops| - 1]);
      if before.None? then None else Apply(capacity, before.value, ops[|ops| - 1])
  }

  /** The queue that an ideal state stands for: the published, unclaimed indices. */
  function QueueOf<T>(c: Config, s: Ideal<T>): Fifo<T>
    requires Counters(c, s.View())
  {
    Fifo(s.log[s.m.cons.head..s.m.prod.tail], s.log[..s.m.cons.head])
  }

  /** An enqueue takes effect when its tail is stored, a dequeue when its head moves. */
  function Effect<T>(c: Config, s: Ideal<T>, e: Event<T>): QueueOp<T> {
    if e.Begin? || e.thread >= |s.m.threads| then Nothing
    else
      var p := s.m.threads[e.thread];
      if p.Publishing? && p.call.Enqueue? && p.n <= |p.call.items| then Push(p.call.items[..p.n])
      else if p.Sized? && p.call.Dequeue? && GoesThrough(c, s, e.thread) then Pop(p.n)
      else Nothing
  }

  function Effects<T>(c: Config, s: Ideal<T>, es: seq<Event<T>>): (ops: seq<QueueOp<T>>)
    requires s.m.Shaped(c) && c.size > 0
    ensures |ops| == |es|
  {
    if es == [] then []
    else
      var before := es[..|es| - 1];
      Effects(c, s, before) + [Effect(c, IdealRun(c, s, before), es[|es| - 1])]
  }

  lemma PushStep<T>(c: Config, s: Ideal<T>, t: nat)
    requires Inv(c, s) && t < |s.m.threads| && s.m.threads[t].Publishing? && s.m.threads[t].call.Enqueue?
    requires Counters(c, Publish(s, t).View())
    ensures var p := s.m.threads[t];
            var q := QueueOf(c, s);
            && p.n <= |p.call.items| && p.snap.lo == |q.taken| + |q.items|
            && Apply(c.capacity, q, Push(p.call.items[..p.n])) == Some(QueueOf(c, Publish(s, t)))
  {
    var p := s.m.threads[t];
    assert ThreadOk(c, s.View(), p);
    var lo, hi := p.snap.lo, p.snap.lo + p.n;
    assert s.log[s.m.cons.head..hi] == s.log[s.m.cons.head..lo] + s.log[lo..hi];
  }

  lemma PopStep<T>(c: Config, s: Ideal<T>, t: nat)
    requires Inv(c, s) && t < |s.m.threads| && s.m.threads[t].Sized? && s.m.threads[t].call.Dequeue?
    requires Counters(c, Claim(c, s, t).View())
    ensures var p := s.m.threads[t];
            var q := QueueOf(c, s);
            Apply(c.capacity, q, Pop(p.n)) == Some(QueueOf(c, Claim(c, s, t)))
  {
    var p := s.m.threads[t];
    assert ThreadOk(c, s.View(), p);
    ClaimsFromHead(c, s, t);
    var lo := s.m.cons.head;
    SplitLog(s.log, lo, lo + p.n, s.m.prod.tail);
  }

  lemma SplitLog<T>(log: seq<T>, lo: nat, hi: nat, end: nat)
    requires lo <= hi <= end <= |log|
    ensures log[lo..end][hi - lo..] == log[hi..end]
    ensures log[lo..end][..hi - lo] == log[lo..hi]
    ensures log[..lo] + log[lo..hi] == log[..hi]
  {
  }

  /** No other step moves the queue: values claimed but not published are not in it yet. */
  lemma SilentStep<T>(c: Config, s: Ideal<T>, e: Event<T>)
    requires Inv(c, s) && Counters(c, IdealNext(c, s, e).View()) && Effect(c, s, e).Nothing?
    ensures QueueOf(c, IdealNext(c, s, e)) == QueueOf(c, s)
  {
    var s' := IdealNext(c, s, e);
    if e.thread < |s.m.threads| {
      assert ThreadOk(c, s.View(), s.m.threads[e.thread]);
    }
    LogGrows(c, s, e);
    assert s'.m.cons.head == s.m.cons.head && s'.m.prod.tail == s.m.prod.tail by {
      SilentCounters(c, s, e);
    }
    SamePrefix(s.log, s'.log, s.m.cons.head, s.m.prod.tail);
  }

  lemma SilentCounters<T>(c: Config, s: Ideal<T>, e: Event<T>)
    requires Counters(c, s.View()) && Threads(c, s) && s.m.Shaped(c) && Effect(c, s, e).Nothing?
    ensures IdealNext(c, s, e).m.cons.head == s.m.cons.head && IdealNext(c, s, e).m.prod.tail == s.m.prod.tail
  {
    if e.thread < |s.m.threads| {
      assert ThreadOk(c, s.View(), s.m.threads[e.thread]);
    }
  }

  lemma SamePrefix<T>(a: seq<T>, b: seq<T>, lo: nat, hi: nat)
    requires a <= b && lo <= hi <= |a|
    ensures a[lo..hi] == b[lo..hi] && a[..lo] == b[..lo]
  {
  }

  /** The log only grows; a logged value never changes. */
  lemma LogGrows<T>(c: Config, s: Ideal<T>, e: Event<T>)
    requires s.m.Shaped(c) && c.size > 0
    ensures s.log <= IdealNext(c, s, e).log
  {
  }

  /** Each step is one atomic queue operation or none. */
  lemma StepIsQueueOp<T>(c: Config, s: Ideal<T>, e: Event<T>)
    requires Inv(c, s) && RoomyStep(c, s, e)
    ensures Inv(c, IdealNext(c, s, e))
    ensures Apply(c.capacity, QueueOf(c, s), Effect(c, s, e)) == Some(QueueOf(c, IdealNext(c, s, e)))
  {
    StepKeepsInv(c, s, e);
    if Effect(c, s, e).Push? {
      PushStep(c, s, e.thread);
    } else if Effect(c, s, e).Pop? {
      PopStep(c, s, e.thread);
    } else {
      SilentStep(c, s, e);
    }
  }

  lemma {:induction false} RunIsQueueRun<T>(c: Config, s: Ideal<T>, es: seq<Event<T>>)
    requires Inv(c, s) && RoomyRun(c, s, es)
    ensures Inv(c, IdealRun(c, s, es))
    ensures ApplyAll(c.capacity, QueueOf(c, s), Effects(c, s, es)) == Some(QueueOf(c, IdealRun(c, s, es)))
  {
    if es != [] {
      var before := es[..|es| - 1];
      RunIsQueueRun(c, s, before);
      assert Effects(c, s, es)[..|es| - 1] == Effects(c, s, before);
      StepIsQueueOp(c, IdealRun(c, s, before), es[|es| - 1]);
    }
  }

  /** All batches put into the queue, in order. */
  function Pushed<T>(ops: seq<QueueOp<T>>): seq<T> {
    if ops == [] then []
    else Pushed(ops[..|ops| - 1]) + (if ops[|ops| - 1].Push? then ops[|ops| - 1].batch else [])
  }

  /** A legal history keeps the bound and neither loses, invents nor reorders an element. */
  lemma {:induction false} HistoryConserves<T>(capacity: nat, ops: seq<QueueOp<T>>)
    requires ApplyAll(capacity, Fifo([], []), ops).Some?
    ensures var q := ApplyAll(capacity, Fifo([], []), ops).value;
            |q.items| <= capacity && q.taken + q.items == Pushed(ops)
  {
    if ops != [] {
      HistoryConserves(capacity, ops[..|ops| - 1]);
      var q := ApplyAll(capacity, Fifo([], []), ops[..|ops| - 1]).value;
      match ops[|ops| - 1]
      case Nothing =>
      case Push(batch) =>
        assert q.taken + (q.items + batch) == q.taken + q.items + batch;
      case Pop(count) =>
        assert q.taken + q.items[..count] + q.items[count..] == q.taken + q.items;
    }
  }

  /** The returned call moved the `n` elements at queue positions `lo` and up: an enqueue put
      them there, a dequeue took exactly them. */
  ghost predicate MovedBlock<T>(q: Fifo<T>, p: Pc<T, Word>, lo: nat)
    requires p.Finished?
  {
    if p.call.Enqueue? then
      && p.n <= |p.call.items| && lo + p.n <= |q.taken| + |q.items|
      && (q.taken + q.items)[lo..lo + p.n] == p.call.items[..p.n]
    else
      lo + p.n <= |q.taken| && q.taken[lo..lo + p.n] == p.got
  }

  /** The memory of a ring agrees with a queue: every returned call moved one contiguous block,
      and every element still queued sits in its slot. */
  ghost predicate Agrees<T>(c: Config, q: Fifo<T>, m: Real<T>)
    requires c.size > 0 && |m.slots| == c.size
  {
    && (forall t :: 0 <= t < |m.threads| && m.threads[t].Finished? && m.threads[t].n > 0 ==>
          exists lo :: MovedBlock(q, m.threads[t], lo))
    && forall k :: |q.taken| <= k < |q.taken| + |q.items| ==> m.slots[k % c.size] == q.items[k - |q.taken|]
  }

  /** The main theorem. Whatever any number of threads do to a new ring, in any interleaving
      of their single memory accesses, on single or multi sides, in fixed or variable mode, and
      across any number of counter wraps: the effects of the calls, in the order they happened,
      are a legal history of an atomic queue of the ring's capacity, what has been taken out is
      a prefix of what was put in, and the 32-bit ring agrees with that queue. The one condition,
      that each claim which goes through finds room at that moment, is also necessary: without it
      the ring is taken past its capacity (`OnlyRoomStaysWithin`). */
  lemma RingIsAtomicQueue<T>(c: Config, slots: seq<T>, threads: nat, es: seq<Event<T>>)
    requires c.Valid() && c.size > 0 && |slots| == c.size && Roomy(c, NewReal(slots, threads), es)
    ensures var history := Effects(c, NewIdeal(slots, threads), es);
            var end := ApplyAll(c.capacity, Fifo([], []), history);
            && end.Some? && end.value.taken <= Pushed(history) && |end.value.items| <= c.capacity
            && Agrees(c, end.value, RealRun(c, NewReal(slots, threads), es))
  {
    var s0 := NewIdeal(slots, threads);
    NewStates(c, slots, threads);
    RoomyKeepsInv(c, s0, es);
    RunIsQueueRun(c, s0, es);
    HistoryConserves(c.capacity, Effects(c, s0, es));
    StateAgrees(c, IdealRun(c, s0, es));
  }

  /** With a single producer and a single consumer this needs no condition on the schedule. */
  lemma SingleRingIsAtomicQueue<T>(c: Config, slots: seq<T>, threads: nat, es: seq<Event<T>>)
    requires c.Valid() && c.size > 0 && |slots| == c.size && c.singleProducer && c.singleConsumer
    ensures var history := Effects(c, NewIdeal(slots, threads), es);
            var end := ApplyAll(c.capacity, Fifo([], []), history);
            && end.Some? && end.value.taken <= Pushed(history) && |end.value.items| <= c.capacity
            && Agrees(c, end.value, RealRun(c, NewReal(slots, threads), es))
  {
    SingleIsRoomy(c, slots, threads, es);
    RingIsAtomicQueue(c, slots, threads, es);
  }

  lemma SingleIsRoomy<T>(c: Config, slots: seq<T>, threads: nat, es: seq<Event<T>>)
    requires c.Valid() && c.size > 0 && |slots| == c.size && c.singleProducer && c.singleConsumer
    ensures Roomy(c, NewReal(slots, threads), es)
  {
    var s0 := NewIdeal(slots, threads);
    NewStates(c, slots, threads);
    SingleIsFresh(c, s0, es);
    FreshIsRoomy(c, s0, es);
    RoomyIsReal(c, s0, es);
  }

  /** With several producers or consumers it is enough that no snapshot grows too old. */
  lemma FreshRingIsRoomy<T>(c: Config, slots: seq<T>, threads: nat, es: seq<Event<T>>)
    requires c.Valid() && c.size > 0 && |slots| == c.size && FreshRun(c, NewIdeal(slots, threads), es)
    ensures Roomy(c, NewReal(slots, threads), es)
  {
    NewStates(c, slots, threads);
    FreshIsRoomy(c, NewIdeal(slots, threads), es);
    RoomyIsReal(c, NewIdeal(slots, threads), es);
  }

  /** And the condition is exact: as long as no call asks for 2^32 - capacity elements or more, a new
      ring stays within its capacity throughout a schedule if and only if the schedule is roomy. */
  lemma OnlyRoomStaysWithin<T>(c: Config, slots: seq<T>, threads: nat, es: seq<Event<T>>)
    requires c.Valid() && c.size > 0 && |slots| == c.size && AskLittle(c, es)
    ensures StaysWithin(c, NewReal(slots, threads), es) <==> Roomy(c, NewReal(slots, threads), es)
  {
    NewStates(c, slots, threads);
    WithinExactly(c, NewIdeal(slots, threads), es);
  }

  lemma NewStates<T>(c: Config, slots: seq<T>, threads: nat)
    requires c.Valid() && |slots| == c.size
    ensures Inv(c, NewIdeal(slots, threads))
    ensures WrapState(NewIdeal(slots, threads)) == NewReal(slots, threads)
    ensures QueueOf(c, NewIdeal(slots, threads)) == Fifo([], [])
  {
    InitInv(c, slots, threads);
  }

  lemma StateAgrees<T>(c: Config, s: Ideal<T>)
    requires Inv(c, s)
    ensures Agrees(c, QueueOf(c, s), WrapState(s))
  {
    var m := WrapState(s);
    forall t | 0 <= t < |m.threads| && m.threads[t].Finished? && m.threads[t].n > 0
      ensures exists lo :: MovedBlock(QueueOf(c, s), m.threads[t], lo)
    {
      ResultIsBlock(c, s, s.m.threads[t]);
    }
    QueueStored(c, s);
  }

  lemma QueueStored<T>(c: Config, s: Ideal<T>)
    requires Counters(c, s.View()) && Stored(c, s.View())
    ensures var q := QueueOf(c, s);
            forall k :: |q.taken| <= k < |q.taken| + |q.items| ==> s.m.slots[k % c.size] == q.items[k - |q.taken|]
  {
  }

  lemma ResultIsBlock<T>(c: Config, s: Ideal<T>, p: Pc<T, Snap>)
    requires Counters(c, s.View()) && ThreadOk(c, s.View(), p) && p.Finished? && p.n > 0
    ensures MovedBlock(QueueOf(c, s), WrapPc(p), p.snap.lo)
  {
    var q := QueueOf(c, s);
    assert q.taken + q.items == s.log[..s.m.prod.tail];
    var lo, hi := p.snap.lo, p.snap.lo + p.n;
    SamePrefix(s.log[..s.m.prod.tail], s.log, lo, hi);
    if p.call.Dequeue? {
      SamePrefix(q.taken, s.log, lo, hi);
    }
  }

  // --------------------------------------------------- one effect for each call

  /** A dequeue acts once it holds a claim, an enqueue once it has published. */
  predicate HasActed<T, S>(p: Pc<T, S>) {
    (p.Claims() && p.call.Dequeue?) || (p.Finished? && p.n > 0)
  }

  /** An event has an effect on the queue exactly if its thread's call has acted after it and not
      before; since a call starts without having acted, each call has one effect at most. */
  lemma EffectIsActing<T>(c: Config, s: Ideal<T>, e: Event<T>)
    requires s.m.Shaped(c) && Counters(c, s.View()) && Threads(c, s)
    ensures !Effect(c, s, e).Nothing?
            <==> e.thread < |s.m.threads| && e.Tick?
                 && !HasActed(s.m.threads[e.thread]) && HasActed(IdealNext(c, s, e).m.threads[e.thread])
  {
    if e.thread < |s.m.threads| {
      assert ThreadOk(c, s.View(), s.m.threads[e.thread]);
    }
  }

  /** `p` and `q` belong to the same call, which has acted in both, on the same claim. */
  ghost predicate SameAct<T, S>(p: Pc<T, S>, q: Pc<T, S>) {
    HasActed(p) && HasActed(q) && p.call == q.call && p.n == q.n && p.snap == q.snap
  }

  /** Event `i` is where the call that thread `t` is in, or has returned from, acts on the queue:
      the call runs there and has not acted, its batch of `n` goes in or comes out there, and
      ever since it is this same call that has acted. */
  ghost predicate ActsAt<T>(c: Config, s0: Ideal<T>, es: seq<Event<T>>, i: nat, t: nat)
    requires s0.m.Shaped(c) && c.size > 0 && i < |es| && t < |s0.m.threads|
  {
    var (s, p) := (IdealAt(c, s0, es, i), IdealRun(c, s0, es).m.threads[t]);
    && es[i] == Tick(t) && Acts(c, s, es[i], s.m.threads[t], p)
    && forall j :: i < j <= |es| ==> SameAct(p, IdealAt(c, s0, es, j).m.threads[t])
  }

  /** The call of `o` is running and has not acted; in `p` this same call has. */
  ghost predicate Turns<T, S>(o: Pc<T, S>, p: Pc<T, S>) {
    (o.Sized? || o.Publishing?) && !HasActed(o) && HasActed(p) && o.call == p.call
  }

  /** The step from `o` has the effect of the call that `p` shows to have acted. */
  ghost predicate Acts<T>(c: Config, s: Ideal<T>, e: Event<T>, o: Pc<T, Snap>, p: Pc<T, Snap>) {
    && Turns(o, p) && Wrap(o.snap.lo) == Wrap(p.snap.lo)
    && (p.call.Enqueue? ==> p.n <= |p.call.items| && Effect(c, s, e) == Push(p.call.items[..p.n]))
    && (p.call.Dequeue? ==> Effect(c, s, e) == Pop(p.n) && s.m.cons.head == p.snap.lo)
  }

  lemma {:induction false} CallActsOnce<T>(c: Config, s0: Ideal<T>, es: seq<Event<T>>, t: nat) returns (i: nat)
    requires Inv(c, s0) && RoomyRun(c, s0, es) && t < |s0.m.threads| && s0.m.threads[t].Idle?
    requires HasActed(IdealRun(c, s0, es).m.threads[t])
    ensures i < |es| && ActsAt(c, s0, es, i, t)
  {
    var before, e := es[..|es| - 1], es[|es| - 1];
    var s1 := IdealRun(c, s0, before);
    InvariantHolds(c, s0, before);
    assert ThreadOk(c, s1.View(), s1.m.threads[t]);
    if !HasActed(s1.m.threads[t]) {
      i := |es| - 1;
      ActsNow(c, s1, e, t);
      PointsAtEnd(c, s0, es);
      ActsHere(c, s0, es, t, i, s1, IdealRun(c, s0, es).m.threads[t]);
    } else {
      i := CallActsOnce(c, s0, before, t);
      StaysActed(c, s1, e, t);
      ActsStill(c, s0, es, i, t);
    }
  }

  lemma ActsHere<T>(c: Config, s0: Ideal<T>, es: seq<Event<T>>, t: nat, i: nat, s: Ideal<T>, p: Pc<T, Snap>)
    requires s0.m.Shaped(c) && c.size > 0 && t < |s0.m.threads| == |s.m.threads| && i + 1 == |es| && es[i] == Tick(t)
    requires s == IdealAt(c, s0, es, i) && p == IdealRun(c, s0, es).m.threads[t]
    requires p == IdealAt(c, s0, es, i + 1).m.threads[t] && Acts(c, s, Tick(t), s.m.threads[t], p)
    ensures ActsAt(c, s0, es, i, t)
  {
    forall j | i < j <= |es|
      ensures SameAct(p, IdealAt(c, s0, es, j).m.threads[t])
    {
      assert j == i + 1;
    }
  }

  lemma PointsAtEnd<T>(c: Config, s0: Ideal<T>, es: seq<Event<T>>)
    requires s0.m.Shaped(c) && c.size > 0 && es != []
    ensures IdealAt(c, s0, es, |es|) == IdealRun(c, s0, es)
    ensures IdealAt(c, s0, es, |es| - 1) == IdealRun(c, s0, es[..|es| - 1])
  {
    AtEnds(c, s0, es);
  }

  lemma ActsStill<T>(c: Config, s0: Ideal<T>, es: seq<Event<T>>, i: nat, t: nat)
    requires s0.m.Shaped(c) && c.size > 0 && t < |s0.m.threads| && i < |es| - 1
    requires ActsAt(c, s0, es[..|es| - 1], i, t)
    requires SameAct(IdealRun(c, s0, es).m.threads[t], IdealRun(c, s0, es[..|es| - 1]).m.threads[t])
    ensures ActsAt(c, s0, es, i, t)
  {
    var (s, p) := (IdealAt(c, s0, es, i), IdealRun(c, s0, es).m.threads[t]);
    AtPrefix(c, s0, es, i);
    ActsAlike(c, s, es[i], s.m.threads[t], IdealRun(c, s0, es[..|es| - 1]).m.threads[t], p);
    forall j | i < j <= |es|
      ensures SameAct(p, IdealAt(c, s0, es, j).m.threads[t])
    {
      ActedStill(c, s0, es, i, t, j);
    }
  }

  lemma ActsAlike<T>(c: Config, s: Ideal<T>, e: Event<T>, o: Pc<T, Snap>, p: Pc<T, Snap>, q: Pc<T, Snap>)
    requires Acts(c, s, e, o, p) && SameAct(p, q)
    ensures Acts(c, s, e, o, q)
  {
  }

  lemma ActedStill<T>(c: Config, s0: Ideal<T>, es: seq<Event<T>>, i: nat, t: nat, j: nat)
    requires s0.m.Shaped(c) && c.size > 0 && t < |s0.m.threads| && i < |es| - 1 && i < j <= |es|
    requires ActsAt(c, s0, es[..|es| - 1], i, t)
    requires SameAct(IdealRun(c, s0, es).m.threads[t], IdealRun(c, s0, es[..|es| - 1]).m.threads[t])
    ensures SameAct(IdealRun(c, s0, es).m.threads[t], IdealAt(c, s0, es, j).m.threads[t])
  {
    if j == |es| {
      AtEnds(c, s0, es);
    } else {
      AtPrefix(c, s0, es, j);
    }
  }

  lemma ActsNow<T>(c: Config, s: Ideal<T>, e: Event<T>, t: nat)
    requires s.m.Shaped(c) && Counters(c, s.View())
    requires t < |s.m.threads| && ThreadOk(c, s.View(), s.m.threads[t])
    requires !HasActed(s.m.threads[t]) && HasActed(IdealNext(c, s, e).m.threads[t])
    ensures e == Tick(t) && Acts(c, s, e, s.m.threads[t], IdealNext(c, s, e).m.threads[t])
  {
  }

  lemma StaysActed<T>(c: Config, s: Ideal<T>, e: Event<T>, t: nat)
    requires s.m.Shaped(c) && Counters(c, s.View())
    requires t < |s.m.threads| && ThreadOk(c, s.View(), s.m.threads[t])
    requires HasActed(s.m.threads[t]) && HasActed(IdealNext(c, s, e).m.threads[t])
    ensures SameAct(IdealNext(c, s, e).m.threads[t], s.m.threads[t])
  {
  }

  lemma {:induction false} LogGrowsAlong<T>(c: Config, s: Ideal<T>, es: seq<Event<T>>, i: nat)
    requires s.m.Shaped(c) && c.size > 0 && i <= |es|
    ensures IdealRun(c, s, es[..i]).log <= IdealRun(c, s, es).log
  {
    if i < |es| {
      var before := es[..|es| - 1];
      LogGrowsAlong(c, s, before, i);
      assert before[..i] == es[..i];
      LogGrows(c, IdealRun(c, s, before), es[|es| - 1]);
    } else {
      assert es[..i] == es;
    }
  }

  /** In the 32-bit ring, at event `i`: thread `t` is in the call that it has returned from at
      the end, and has not acted; ever since, this same call has acted, on one claim. */
  ghost predicate InsideCall<T>(c: Config, m0: Real<T>, es: seq<Event<T>>, i: nat, t: nat)
    requires m0.Shaped(c) && c.size > 0 && i < |es| && t < |m0.threads|
  {
    var (o, p) := (RealAt(c, m0, es, i).threads[t], RealRun(c, m0, es).threads[t]);
    && es[i] == Tick(t) && Turns(o, p) && o.snap == p.snap
    && forall j :: i < j <= |es| ==> SameAct(p, RealAt(c, m0, es, j).threads[t])
  }

  /** The event's effect on the queue of that moment is what the returned call of `p` has put in,
      or has in its buffer. */
  ghost predicate Delivers<T, S>(c: Config, s: Ideal<T>, e: Event<T>, p: Pc<T, S>) {
    && p.Finished? && Counters(c, s.View())
    && (p.call.Enqueue? ==> p.n <= |p.call.items| && Effect(c, s, e) == Push(p.call.items[..p.n]))
    && (p.call.Dequeue? ==>
          && Effect(c, s, e) == Pop(p.n)
          && p.n <= |QueueOf(c, s).items| && p.got == QueueOf(c, s).items[..p.n])
  }

  lemma WrapDelivers<T>(c: Config, s: Ideal<T>, e: Event<T>, p: Pc<T, Snap>)
    requires Delivers(c, s, e, p)
    ensures Delivers(c, s, e, WrapPc(p))
  {
  }

  /** Linearizability, call by call: a call of the 32-bit ring that returned n > 0 acted on the
      atomic queue at exactly one event of its own, inside the call, and returned what the queue
      did there: an enqueue put its first n elements behind the queue, a dequeue took, and hands
      out, the n oldest elements of the queue of that moment. */
  lemma CallIsLinearizable<T>(c: Config, slots: seq<T>, threads: nat, es: seq<Event<T>>, t: nat) returns (i: nat)
    requires c.Valid() && c.size > 0 && |slots| == c.size && Roomy(c, NewReal(slots, threads), es)
    requires t < threads
    requires var p := RealRun(c, NewReal(slots, threads), es).threads[t]; p.Finished? && p.n > 0
    ensures i < |es| && InsideCall(c, NewReal(slots, threads), es, i, t)
    ensures Delivers(c, IdealAt(c, NewIdeal(slots, threads), es, i), es[i],
                     RealRun(c, NewReal(slots, threads), es).threads[t])
  {
    var s0 := NewIdeal(slots, threads);
    NewStates(c, slots, threads);
    RoomyKeepsInv(c, s0, es);
    i := CallActsOnce(c, s0, es, t);
    RoomyAt(c, s0, es, i);
    LogGrowsAlong(c, s0, es, i);
    TakenThen(c, IdealAt(c, s0, es, i), IdealRun(c, s0, es), t);
    WrapDelivers(c, IdealAt(c, s0, es, i), es[i], IdealRun(c, s0, es).m.threads[t]);
    InsideIsReal(c, s0, es, i, t);
  }

  lemma InsideIsReal<T>(c: Config, s0: Ideal<T>, es: seq<Event<T>>, i: nat, t: nat)
    requires c.Valid() && s0.m.Shaped(c) && c.size > 0 && i < |es| && t < |s0.m.threads|
    requires WrapState(s0).Shaped(c) && ActsAt(c, s0, es, i, t)
    ensures InsideCall(c, WrapState(s0), es, i, t)
  {
    var p := IdealRun(c, s0, es).m.threads[t];
    RunRefines(c, s0, es);
    ActingAt(c, s0, es, i, t, p);
    forall j | i < j <= |es|
      ensures SameAct(WrapPc(p), RealAt(c, WrapState(s0), es, j).threads[t])
    {
      ActedAt(c, s0, es, j, t, p);
    }
  }

  lemma ActingAt<T>(c: Config, s: Ideal<T>, es: seq<Event<T>>, i: nat, t: nat, p: Pc<T, Snap>)
    requires c.Valid() && s.m.Shaped(c) && c.size > 0 && i < |es| && t < |s.m.threads| && WrapState(s).Shaped(c)
    requires var o := IdealAt(c, s, es, i).m.threads[t]; Turns(o, p) && Wrap(o.snap.lo) == Wrap(p.snap.lo)
    ensures var o := RealAt(c, WrapState(s), es, i).threads[t]; Turns(o, WrapPc(p)) && o.snap == WrapPc(p).snap
  {
    RefinesAt(c, s, es, i);
    WrapTurns(IdealAt(c, s, es, i).m.threads[t], p);
  }

  lemma ActedAt<T>(c: Config, s: Ideal<T>, es: seq<Event<T>>, j: nat, t: nat, p: Pc<T, Snap>)
    requires c.Valid() && s.m.Shaped(c) && c.size > 0 && j <= |es| && t < |s.m.threads| && WrapState(s).Shaped(c)
    requires SameAct(p, IdealAt(c, s, es, j).m.threads[t])
    ensures SameAct(WrapPc(p), RealAt(c, WrapState(s), es, j).threads[t])
  {
    RefinesAt(c, s, es, j);
    WrapSameAct(p, IdealAt(c, s, es, j).m.threads[t]);
  }

  lemma WrapTurns<T>(o: Pc<T, Snap>, p: Pc<T, Snap>)
    requires Turns(o, p) && Wrap(o.snap.lo) == Wrap(p.snap.lo)
    ensures Turns(WrapPc(o), WrapPc(p)) && WrapPc(o).snap == WrapPc(p).snap
  {
  }

  lemma WrapSameAct<T>(p: Pc<T, Snap>, q: Pc<T, Snap>)
    requires SameAct(p, q)
    ensures SameAct(WrapPc(p), WrapPc(q))
  {
  }

  lemma TakenThen<T>(c: Config, s: Ideal<T>, s': Ideal<T>, t: nat)
    requires Inv(c, s) && Inv(c, s') && t < |s.m.threads| == |s'.m.threads| && s.log <= s'.log
    requires RoomyStep(c, s, Tick(t))
    requires s'.m.threads[t].Finished? && Acts(c, s, Tick(t), s.m.threads[t], s'.m.threads[t])
    ensures Delivers(c, s, Tick(t), s'.m.threads[t])
  {
    var p := s'.m.threads[t];
    assert ThreadOk(c, s'.View(), p) && ThreadOk(c, s.View(), s.m.threads[t]);
    if p.call.Dequeue? {
      PopFits(c, s, t, p.n);
      TakenBlock(s.log, s'.log, p.snap.lo, p.snap.lo + p.n, s.m.prod.tail);
    }
  }

  lemma PopFits<T>(c: Config, s: Ideal<T>, t: nat, n: nat)
    requires Counters(c, s.View()) && RoomyStep(c, s, Tick(t)) && Effect(c, s, Tick(t)) == Pop(n)
    ensures s.m.cons.head + n <= s.m.prod.tail <= |s.log|
  {
  }

  lemma TakenBlock<T>(log: seq<T>, log1: seq<T>, lo: nat, hi: nat, end: nat)
    requires lo <= hi <= end <= |log| && log <= log1
    ensures log1[lo..hi] == log[lo..end][..hi - lo]
  {
    SamePrefix(log, log1, lo, hi);
    SplitLog(log, lo, hi, end);
  }

  // --------------------------------------------------------- claims and their slots

  /** Every index between tail and head belongs to exactly one outstanding claim. */
  lemma EveryIndexIsClaimed<T>(c: Config, s: Ideal<T>, side: Side, k: nat) returns (t: nat)
    requires Inv(c, s) && s.m.Own(side).tail <= k < s.m.Own(side).head
    ensures t < |s.m.threads| && s.m.threads[t].ClaimsOn(side)
    ensures s.m.threads[t].snap.lo <= k < s.m.threads[t].snap.lo + s.m.threads[t].n
    ensures forall u :: 0 <= u < |s.m.threads| && u != t && s.m.threads[u].ClaimsOn(side) ==>
              !(s.m.threads[u].snap.lo <= k < s.m.threads[u].snap.lo + s.m.threads[u].n)
  {
    t := CoveredFrom(c, s, side, s.m.Own(side).tail, k);
    forall u | 0 <= u < |s.m.threads| && u != t && s.m.threads[u].ClaimsOn(side)
      ensures !(s.m.threads[u].snap.lo <= k < s.m.threads[u].snap.lo + s.m.threads[u].n)
    {
      assert Apart(c, s.m.threads[t], s.m.threads[u]);
    }
  }

  lemma {:induction false} CoveredFrom<T>(c: Config, s: Ideal<T>, side: Side, x: nat, k: nat) returns (t: nat)
    requires Counters(c, s.View()) && Threads(c, s) && Tiled(s.m.Own(side), s.m.threads, side)
    requires x <= k < s.m.Own(side).head
    requires Continues(s.m.Own(side).head, s.m.threads, side, x)
    ensures t < |s.m.threads| && s.m.threads[t].ClaimsOn(side)
    ensures s.m.threads[t].snap.lo <= k < s.m.threads[t].snap.lo + s.m.threads[t].n
    decreases k - x
  {
    var u: nat :| StartsAt(s.m.threads, side, u, x);
    assert ThreadOk(c, s.View(), s.m.threads[u]);
    if k < x + s.m.threads[u].n {
      t := u;
    } else {
      assert Followed(s.m.Own(side).head, s.m.threads, side, u);
      t := CoveredFrom(c, s, side, x + s.m.threads[u].n, k);
    }
  }

  /** Two outstanding claims, of the same or of opposite sides, never share a slot. */
  lemma ClaimsShareNoSlot<T>(c: Config, s: Ideal<T>, t: nat, u: nat, j: nat, k: nat)
    requires Inv(c, s) && t < |s.m.threads| && u < |s.m.threads| && t != u
    requires s.m.threads[t].Claims() && s.m.threads[u].Claims()
    requires s.m.threads[t].snap.lo <= j < s.m.threads[t].snap.lo + s.m.threads[t].n
    requires s.m.threads[u].snap.lo <= k < s.m.threads[u].snap.lo + s.m.threads[u].n
    ensures j % c.size != k % c.size
  {
    assert ThreadOk(c, s.View(), s.m.threads[t]) && ThreadOk(c, s.View(), s.m.threads[u]);
    assert Apart(c, s.m.threads[t], s.m.threads[u]);
    if j < k {
      SlotInjective(j, k, c.size);
    } else {
      SlotInjective(k, j, c.size);
    }
  }

  // --------------------------------------------------------------- refused calls

  /** The least number of elements that a call must be able to claim to move any. */
  function Need<T>(call: Call<T>): nat {
    if call.fixed then call.Max() else 1
  }

  /** What the size computation of thread `t` is about to see, on words. */
  function Entries<T>(c: Config, m: Real<T>, t: nat): Word
    requires t < |m.threads| && m.threads[t].HeadRead?
  {
    var p := m.threads[t];
    Wrap(c.Offset(p.call.Side()) + m.Other(p.call.Side()).tail - p.snap)
  }

  /** A size computation sees `unclaimed + moved`. Below 2^32 that is at most the capacity, or at
      most the mask, exactly if the head has not moved by more than the difference. */
  predicate SeesWindow(c: Config, unclaimed: int, moved: int, entries: Word) {
    var seen := unclaimed + moved;
    && 0 <= unclaimed <= c.capacity && 0 <= moved && entries == Wrap(seen)
    && (seen < MODULUS ==>
          && (entries <= c.capacity <==> moved <= c.capacity - unclaimed)
          && (entries <= c.size - 1 <==> moved <= c.size - 1 - unclaimed))
  }

  /** What thread `t` is about to see is what can be claimed at this moment and on top of that the
      distance that the head has moved since the thread read it. */
  lemma EntriesExact<T>(c: Config, s: Ideal<T>, t: nat) returns (unclaimed: int, moved: int)
    requires Inv(c, s) && t < |s.m.threads| && s.m.threads[t].HeadRead?
    ensures unclaimed == Unclaimed(c, s.View(), s.m.threads[t].call.Side())
    ensures moved == s.m.Own(s.m.threads[t].call.Side()).head - s.m.threads[t].snap.lo
    ensures SeesWindow(c, unclaimed, moved, Entries(c, WrapState(s), t))
  {
    var p := s.m.threads[t];
    var limit, head := s.View().Limit(c, p.call.Side()), s.m.Own(p.call.Side()).head;
    SnapIsBehind(c, s.View(), p);
    LimitBound(c, s.View(), p.call.Side());
    EntriesAreSeen(c, s, t, limit - p.snap.lo);
    unclaimed, moved := limit - head, head - p.snap.lo;
    WindowIsSeen(c, unclaimed, moved, limit - p.snap.lo, Entries(c, WrapState(s), t));
  }

  lemma SnapIsBehind<T>(c: Config, v: Shared<T>, p: Pc<T, Snap>)
    requires Counters(c, v) && ThreadOk(c, v, p) && p.HeadRead?
    ensures p.snap.lo <= v.Own(p.call.Side()).head
  {
  }

  lemma WindowIsSeen(c: Config, unclaimed: int, moved: int, seen: int, entries: Word)
    requires 0 <= unclaimed <= c.capacity && 0 <= moved && seen == unclaimed + moved && entries == Wrap(seen)
    ensures SeesWindow(c, unclaimed, moved, entries)
  {
    if unclaimed + moved < MODULUS {
      ModSmall(unclaimed + moved, MODULUS);
    }
  }

  lemma EntriesAreSeen<T>(c: Config, s: Ideal<T>, t: nat, seen: int)
    requires t < |s.m.threads| && s.m.threads[t].HeadRead?
    requires seen == s.View().Limit(c, s.m.threads[t].call.Side()) - s.m.threads[t].snap.lo
    ensures Entries(c, WrapState(s), t) == Wrap(seen)
  {
    var p := s.m.threads[t];
    assert WrapState(s).threads[t] == WrapPc(p);
    WrapDistance(c.Offset(p.call.Side()), s.m.Other(p.call.Side()).tail, p.snap.lo);
  }

  /** The call is refused exactly if that is less than it needs. */
  lemma RefusedExactly<T>(c: Config, m: Real<T>, t: nat)
    requires m.Shaped(c) && c.size > 0 && t < |m.threads| && m.threads[t].HeadRead?
    requires m.threads[t].call.Max() > 0
    ensures RealStep(c, m, t).threads[t].Finished? <==> Entries(c, m, t) < Need(m.threads[t].call)
  {
  }

  /** At this point of the schedule thread `t` reads the opposite tail for `call`. */
  ghost predicate LooksAt<T, S>(m: Machine<T, S>, e: Event<T>, t: nat, call: Call<T>) {
    e == Tick(t) && t < |m.threads| && m.threads[t].HeadRead? && m.threads[t].call == call
  }

  /** The window that thread `t` sees spans less than 2^32. */
  predicate InTime<T>(c: Config, s: Ideal<T>, t: nat) {
    t < |s.m.threads| && s.m.threads[t].HeadRead? ==>
      s.View().Limit(c, s.m.threads[t].call.Side()) - s.m.threads[t].snap.lo < MODULUS
  }

  /** A thread whose snapshot is young looks in time. */
  lemma FreshIsInTime<T>(c: Config, s: Ideal<T>, t: nat)
    requires Inv(c, s) && Fresh(c, s)
    ensures InTime(c, s, t)
  {
    if t < |s.m.threads| && s.m.threads[t].HeadRead? {
      assert ThreadOk(c, s.View(), s.m.threads[t]) && FreshPc(c, s, s.m.threads[t]);
      LimitBound(c, s.View(), s.m.threads[t].call.Side());
    }
  }

  /** Thread `t` has stood at `p` ever since event `i`. */
  ghost predicate StoodSince<T>(c: Config, s: Ideal<T>, es: seq<Event<T>>, i: nat, t: nat, p: Pc<T, Snap>)
    requires s.m.Shaped(c) && c.size > 0 && i < |es| && t < |s.m.threads|
  {
    forall j :: i < j <= |es| ==> IdealAt(c, s, es, j).m.threads[t] == p
  }

  /** There is less to claim than `call` needs: not all of it in fixed mode, nothing in variable
      mode. */
  predicate TooLittle<T>(c: Config, s: Ideal<T>, call: Call<T>) {
    0 <= Unclaimed(c, s.View(), call.Side()) < Need(call)
  }

  /** A call that returned 0 for a positive request was refused for good reason, however
      stale its read of its own head was: there was too little when it looked, at the event that
      ended this very call, if it looked in time. */
  lemma {:induction false} RefusalIsJustified<T>(c: Config, s: Ideal<T>, es: seq<Event<T>>, t: nat) returns (i: nat)
    requires Inv(c, s) && RoomyRun(c, s, es) && t < |s.m.threads| && s.m.threads[t].Idle?
    requires var p := IdealRun(c, s, es).m.threads[t];
             p.Finished? && p.n == 0 && p.call.Max() > 0
    ensures i < |es| && StoodSince(c, s, es, i, t, IdealRun(c, s, es).m.threads[t])
    ensures LooksAt(IdealAt(c, s, es, i).m, es[i], t, IdealRun(c, s, es).m.threads[t].call)
    ensures InTime(c, IdealAt(c, s, es, i), t) ==>
              TooLittle(c, IdealAt(c, s, es, i), IdealRun(c, s, es).m.threads[t].call)
  {
    var before, e := es[..|es| - 1], es[|es| - 1];
    var s1 := IdealRun(c, s, before);
    InvariantHolds(c, s, before);
    assert ThreadOk(c, s1.View(), s1.m.threads[t]);
    if e == Tick(t) && s1.m.threads[t].HeadRead? {
      i := |es| - 1;
      RefusedNow(c, s1, t);
      StandsNow(c, s, es, t);
    } else {
      Unmoved(c, s1, e, t);
      i := RefusalIsJustified(c, s, before, t);
      AtPrefix(c, s, es, i);
      StillStands(c, s, es, i, t, s1.m.threads[t]);
    }
  }

  lemma StandsNow<T>(c: Config, s: Ideal<T>, es: seq<Event<T>>, t: nat)
    requires s.m.Shaped(c) && c.size > 0 && es != [] && t < |s.m.threads|
    ensures StoodSince(c, s, es, |es| - 1, t, IdealRun(c, s, es).m.threads[t])
    ensures IdealAt(c, s, es, |es| - 1) == IdealRun(c, s, es[..|es| - 1])
  {
    AtEnds(c, s, es);
  }

  lemma StillStands<T>(c: Config, s: Ideal<T>, es: seq<Event<T>>, i: nat, t: nat, p: Pc<T, Snap>)
    requires s.m.Shaped(c) && c.size > 0 && i < |es| - 1 && t < |s.m.threads|
    requires StoodSince(c, s, es[..|es| - 1], i, t, p) && IdealRun(c, s, es).m.threads[t] == p
    ensures StoodSince(c, s, es, i, t, p)
  {
    forall j | i < j <= |es|
      ensures IdealAt(c, s, es, j).m.threads[t] == p
    {
      StandsAt(c, s, es, i, t, p, j);
    }
  }

  lemma StandsAt<T>(c: Config, s: Ideal<T>, es: seq<Event<T>>, i: nat, t: nat, p: Pc<T, Snap>, j: nat)
    requires s.m.Shaped(c) && c.size > 0 && i < |es| - 1 && t < |s.m.threads| && i < j <= |es|
    requires StoodSince(c, s, es[..|es| - 1], i, t, p) && IdealRun(c, s, es).m.threads[t] == p
    ensures IdealAt(c, s, es, j).m.threads[t] == p
  {
    if j == |es| {
      AtEnds(c, s, es);
    } else {
      AtPrefix(c, s, es, j);
    }
  }

  lemma RefusedNow<T>(c: Config, s: Ideal<T>, t: nat)
    requires Inv(c, s) && t < |s.m.threads| && s.m.threads[t].HeadRead?
    requires IdealStep(c, s, t).m.threads[t].Finished? && s.m.threads[t].call.Max() > 0
    ensures InTime(c, s, t) ==> TooLittle(c, s, s.m.threads[t].call)
    ensures IdealStep(c, s, t).m.threads[t].call == s.m.threads[t].call
  {
    var p := s.m.threads[t];
    assert ThreadOk(c, s.View(), p);
    LimitBound(c, s.View(), p.call.Side());
    if InTime(c, s, t) {
      WordDistance(s.View().Limit(c, p.call.Side()), p.snap.lo);
    }
  }

  lemma Unmoved<T>(c: Config, s: Ideal<T>, e: Event<T>, t: nat)
    requires s.m.Shaped(c) && Counters(c, s.View())
    requires t < |s.m.threads| && ThreadOk(c, s.View(), s.m.threads[t])
    requires !(e == Tick(t) && s.m.threads[t].HeadRead?)
    requires IdealNext(c, s, e).m.threads[t].Finished? && IdealNext(c, s, e).m.threads[t].n == 0
    ensures IdealNext(c, s, e).m.threads[t] == s.m.threads[t]
  {
  }

  /** The same for the 32-bit ring: what its caller sees as a refusal was one, if it looked in
      time. */
  lemma RealRefusalIsJustified<T>(c: Config, slots: seq<T>, threads: nat, es: seq<Event<T>>, t: nat) returns (i: nat)
    requires c.Valid() && c.size > 0 && |slots| == c.size && Roomy(c, NewReal(slots, threads), es)
    requires t < threads
    requires var p := RealRun(c, NewReal(slots, threads), es).threads[t];
             p.Finished? && p.n == 0 && p.call.Max() > 0
    ensures i < |es|
    ensures forall j :: i < j <= |es| ==>
              RealAt(c, NewReal(slots, threads), es, j).threads[t] == RealRun(c, NewReal(slots, threads), es).threads[t]
    ensures var call := RealRun(c, NewReal(slots, threads), es).threads[t].call;
            && LooksAt(RealAt(c, NewReal(slots, threads), es, i), es[i], t, call)
            && (InTime(c, IdealAt(c, NewIdeal(slots, threads), es, i), t) ==>
                  TooLittle(c, IdealAt(c, NewIdeal(slots, threads), es, i), call))
  {
    var s0 := NewIdeal(slots, threads);
    NewStates(c, slots, threads);
    RoomyKeepsInv(c, s0, es);
    i := RefusalIsJustified(c, s0, es, t);
    RefinesAt(c, s0, es, i);
    forall j | i < j <= |es|
      ensures RealAt(c, WrapState(s0), es, j).threads[t] == RealRun(c, WrapState(s0), es).threads[t]
    {
      RefinesAt(c, s0, es, j);
    }
  }
}
