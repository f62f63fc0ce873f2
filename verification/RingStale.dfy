/** What stale snapshots lead to, on schedules that start from a new ring: a consumer that sees
    more entries than the ring has slots, one that sees none although there is one, and exchanges
    fooled by a head that has moved by 2^32, with room for the claim and without. */
module RingStale {
  import opened Words
  import opened RingProtocol
  import opened RingInvariant
  import opened RingRefinement
  import opened RingQueue

  lemma OneMore<T>(c: Config, s0: Ideal<T>, es: seq<Event<T>>, e: Event<T>)
    requires s0.m.Shaped(c) && c.size > 0
    ensures IdealRun(c, s0, es + [e]) == IdealNext(c, IdealRun(c, s0, es), e)
    ensures RoomyRun(c, s0, es + [e]) <==> RoomyRun(c, s0, es) && RoomyStep(c, IdealRun(c, s0, es), e)
  {
    assert (es + [e])[..|es|] == es;
  }

  /** Thread `t` stands at `p` in `s1`; its side's counters are `head` and `tail`, and everything
      else that steps of other threads look at is as in `s`. */
  ghost predicate Alone<T>(s: Ideal<T>, s1: Ideal<T>, t: nat, side: Side, p: Pc<T, Snap>, head: nat, tail: nat) {
    && t < |s.m.threads| && s1.m.threads == s.m.threads[t := p]
    && s1.m.Own(side) == HeadTail(head, tail) && s1.m.Other(side) == s.m.Other(side)
  }

  /** The places that a call for one element passes on a multi side with head and tail at `h`. */
  function Place<T>(call: Call<T>, h: nat, limit: nat, k: nat, got: seq<T>): Pc<T, Snap> {
    var snap, avail := Snap(h, h, limit), Wrap(limit - h);
    if k == 0 then Start(call)
    else if k == 1 then HeadRead(call, Snap(h, h, h))
    else if k == 2 then Sized(call, snap, avail, 1)
    else if k == 3 then Copying(call, snap, avail, 1, 0, got)
    else if k == 4 then Waiting(call, snap, avail, 1, got)
    else if k == 5 then Publishing(call, snap, avail, 1, got)
    else Finished(call, snap, 1, Wrap(avail - 1), got)
  }

  /** One step of such a call, while no other thread moves. */
  lemma AloneStep<T>(c: Config, s: Ideal<T>, s1: Ideal<T>, t: nat,
                     call: Call<T>, h: nat, limit: nat, k: nat, got: seq<T>)
    returns (got1: seq<T>)
    requires s1.m.Shaped(c) && c.size > 0 && k < 6
    requires call.Max() == 1 && !c.Single(call.Side()) && h < limit < h + MODULUS
    requires s.View().Limit(c, call.Side()) == limit && (k == 3 ==> got == [])
    requires Alone(s, s1, t, call.Side(), Place(call, h, limit, k, got),
                   if k <= 2 then h else h + 1, h)
    ensures RoomyStep(c, s1, Tick(t))
    ensures Alone(s, IdealNext(c, s1, Tick(t)), t, call.Side(), Place(call, h, limit, k + 1, got1),
                  if k < 2 then h else h + 1, if k < 5 then h else h + 1)
    ensures k < 3 ==> got1 == []
  {
    WordDistance(limit, h);
    got1 := if k < 3 then [] else IdealStep(c, s1, t).m.threads[t].got;
    assert s1.m.threads[t] == Place(call, h, limit, k, got);
    assert s1.View().Limit(c, call.Side()) == limit;
  }

  /** The rest of the call, from its `k`-th place on. */
  lemma {:induction false} AloneRun<T>(c: Config, s0: Ideal<T>, es: seq<Event<T>>, s: Ideal<T>, t: nat,
                                       call: Call<T>, h: nat, limit: nat, k: nat, got: seq<T>)
    returns (es1: seq<Event<T>>)
    requires s0.m.Shaped(c) && c.size > 0 && RoomyRun(c, s0, es) && k <= 6
    requires call.Max() == 1 && !c.Single(call.Side()) && h < limit < h + MODULUS
    requires s.View().Limit(c, call.Side()) == limit && (k == 3 ==> got == [])
    requires Alone(s, IdealRun(c, s0, es), t, call.Side(), Place(call, h, limit, k, got),
                   if k <= 2 then h else h + 1, if k <= 5 then h else h + 1)
    ensures RoomyRun(c, s0, es1)
    ensures var s1 := IdealRun(c, s0, es1);
            && t < |s.m.threads| == |s1.m.threads| && s1.m.threads == s.m.threads[t := s1.m.threads[t]]
            && !s1.m.threads[t].Active()
            && s1.m.Own(call.Side()) == HeadTail(h + 1, h + 1) && s1.m.Other(call.Side()) == s.m.Other(call.Side())
    decreases 6 - k
  {
    if k == 6 {
      es1 := es;
    } else {
      var got1 := AloneStep(c, s, IdealRun(c, s0, es), t, call, h, limit, k, got);
      OneMore(c, s0, es, Tick(t));
      es1 := AloneRun(c, s0, es + [Tick(t)], s, t, call, h, limit, k + 1, got1);
    }
  }

  /** Two producers and two consumers are allowed; one slot of two may be in use. */
  const TWO: Config := Config(2, 1, false, false)

  /** The producer counters stand at `prod`, the consumer counters at `cons`; thread 0 is stalled
      at `p`, and threads 1 and 2 have no call running. */
  ghost predicate Stalled(s: Ideal<int>, p: Pc<int, Snap>, prod: nat, cons: nat) {
    && s.m.prod == HeadTail(prod, prod) && s.m.cons == HeadTail(cons, cons)
    && |s.m.threads| == 3 && s.m.threads[0] == p
    && !s.m.threads[1].Active() && !s.m.threads[2].Active()
  }

  lemma BeginAlone(s0: Ideal<int>, es: seq<Event<int>>, t: nat, call: Call<int>, p: Pc<int, Snap>, prod: nat, cons: nat)
    requires s0.m.Shaped(TWO) && Stalled(IdealRun(TWO, s0, es), p, prod, cons) && 0 < t < 3 && call.Max() == 1
    ensures var s := IdealRun(TWO, s0, es);
            var h := if call.Enqueue? then prod else cons;
            Alone(s, IdealNext(TWO, s, Begin(t, call)), t, call.Side(), Start(call), h, h)
    ensures RoomyStep(TWO, IdealRun(TWO, s0, es), Begin(t, call))
  {
  }

  /** Past a stalled thread 0, thread 1 enqueues an element. */
  lemma EnqueuePast(s0: Ideal<int>, es: seq<Event<int>>, p: Pc<int, Snap>, k: nat) returns (es1: seq<Event<int>>)
    requires s0.m.Shaped(TWO) && RoomyRun(TWO, s0, es) && Stalled(IdealRun(TWO, s0, es), p, k, k)
    ensures RoomyRun(TWO, s0, es1) && Stalled(IdealRun(TWO, s0, es1), p, k + 1, k)
  {
    var s, call := IdealRun(TWO, s0, es), Enqueue([0], true);
    BeginAlone(s0, es, 1, call, p, k, k);
    OneMore(TWO, s0, es, Begin(1, call));
    es1 := AloneRun(TWO, s0, es + [Begin(1, call)], s, 1, call, k, k + 1, 0, []);
  }

  /** ... and thread 2 dequeues it. */
  lemma DequeuePast(s0: Ideal<int>, es: seq<Event<int>>, p: Pc<int, Snap>, k: nat) returns (es1: seq<Event<int>>)
    requires s0.m.Shaped(TWO) && RoomyRun(TWO, s0, es) && Stalled(IdealRun(TWO, s0, es), p, k + 1, k)
    ensures RoomyRun(TWO, s0, es1) && Stalled(IdealRun(TWO, s0, es1), p, k + 1, k + 1)
  {
    var s, call: Call<int> := IdealRun(TWO, s0, es), Dequeue(1, true);
    BeginAlone(s0, es, 2, call, p, k + 1, k);
    OneMore(TWO, s0, es, Begin(2, call));
    es1 := AloneRun(TWO, s0, es + [Begin(2, call)], s, 2, call, k, k + 1, 0, []);
  }

  /** `k` such rounds. */
  lemma {:induction false} Rounds(s0: Ideal<int>, es: seq<Event<int>>, p: Pc<int, Snap>, k: nat)
    returns (es1: seq<Event<int>>)
    requires s0.m.Shaped(TWO) && RoomyRun(TWO, s0, es) && Stalled(IdealRun(TWO, s0, es), p, 0, 0)
    ensures RoomyRun(TWO, s0, es1) && Stalled(IdealRun(TWO, s0, es1), p, k, k)
  {
    if k == 0 {
      es1 := es;
    } else {
      es1 := Rounds(s0, es, p, k - 1);
      es1 := EnqueuePast(s0, es1, p, k - 1);
      es1 := DequeuePast(s0, es1, p, k - 1);
    }
  }

  /** A new ring of two slots with three threads. */
  function New(): Ideal<int> {
    NewIdeal([0, 0], 3)
  }

  /** What a schedule makes of it in 32 bits. */
  function After(es: seq<Event<int>>): Real<int>
    requires NewReal([0, 0], 3).Shaped(TWO)
  {
    RealRun(TWO, NewReal([0, 0], 3), es)
  }

  lemma NewTwo()
    ensures TWO.Valid() && Inv(TWO, New()) && WrapState(New()) == NewReal([0, 0], 3)
    ensures NewReal([0, 0], 3).Shaped(TWO)
  {
    assert TWO.size == Pow2(1);
    NewStates(TWO, [0, 0], 3);
  }

  /** A schedule and one more event of it, in both machines. */
  lemma Extend(es: seq<Event<int>>, e: Event<int>)
    requires NewReal([0, 0], 3).Shaped(TWO) && RoomyRun(TWO, New(), es)
    ensures Roomy(TWO, NewReal([0, 0], 3), es)
    ensures Roomy(TWO, NewReal([0, 0], 3), es + [e]) <==> RoomyStep(TWO, IdealRun(TWO, New(), es), e)
    ensures After(es) == WrapState(IdealRun(TWO, New(), es))
    ensures After(es + [e]) == WrapState(IdealNext(TWO, IdealRun(TWO, New(), es), e))
  {
    NewTwo();
    RoomyIsReal(TWO, New(), es);
    OneMore(TWO, New(), es, e);
    RunRefines(TWO, New(), es);
    RunRefines(TWO, New(), es + [e]);
    InvariantHolds(TWO, New(), es);
    RoomIsExact(TWO, IdealRun(TWO, New(), es), e);
    assert (es + [e])[..|es|] == es;
  }

  /** A consumer reads the head of a new ring and stalls. */
  lemma StalledConsumer(p: Pc<int, Snap>) returns (es: seq<Event<int>>)
    requires p == HeadRead(Dequeue(1, false), Snap(0, 0, 0))
    ensures RoomyRun(TWO, New(), es) && Stalled(IdealRun(TWO, New(), es), p, 0, 0)
  {
    var call: Call<int> := Dequeue(1, false);
    OneMore(TWO, New(), [], Begin(0, call));
    assert [] + [Begin(0, call)] == [Begin(0, call)];
    OneMore(TWO, New(), [Begin(0, call)], Tick(0));
    es := [Begin(0, call)] + [Tick(0)];
  }

  /** A producer sizes its claim in a new ring and stalls. */
  lemma StalledProducer(p: Pc<int, Snap>) returns (es: seq<Event<int>>)
    requires p == Sized(Enqueue([7], true), Snap(0, 0, 1), 1, 1)
    ensures RoomyRun(TWO, New(), es) && Stalled(IdealRun(TWO, New(), es), p, 0, 0)
  {
    var call := Enqueue([7], true);
    var es1 := [Begin(0, call)];
    var es2 := es1 + [Tick(0)];
    OneMore(TWO, New(), [], Begin(0, call));
    assert [] + [Begin(0, call)] == es1;
    OneMore(TWO, New(), es1, Tick(0));
    OneMore(TWO, New(), es2, Tick(0));
    es := es2 + [Tick(0)];
  }

  /** The thread 0 of an ideal state and its step, in 32 bits. */
  lemma FirstThread(s: Ideal<int>, p: Pc<int, Snap>, prod: nat, cons: nat)
    requires s.m.Shaped(TWO) && Stalled(s, p, prod, cons)
    ensures WrapState(s).threads[0] == WrapPc(p)
    ensures WrapState(IdealNext(TWO, s, Tick(0))).threads[0] == WrapPc(IdealStep(TWO, s, 0).m.threads[0])
  {
  }

  /** A ring of two slots in which a consumer sees three entries. */
  ghost predicate SeesThree(m: Real<int>, m1: Real<int>) {
    && |m.threads| == 3 == |m1.threads| && m.threads[0].HeadRead?
    && m1.threads[0].Sized? && m1.threads[0].avail == 3 > TWO.size
  }

  lemma ExceedingStep(s: Ideal<int>, p: Pc<int, Snap>)
    requires s.m.Shaped(TWO) && Stalled(s, p, 3, 2)
    requires p == HeadRead(Dequeue(1, false), Snap(0, 0, 0))
    ensures RoomyStep(TWO, s, Tick(0))
    ensures SeesThree(WrapState(s), WrapState(IdealNext(TWO, s, Tick(0))))
  {
    FirstThread(s, p, 3, 2);
    assert IdealStep(TWO, s, 0).m.threads[0] == Sized(p.call, Snap(0, 2, 3), 3, 1);
  }

  /** Three elements go in past the stalled consumer and two come out. When it reads the opposite
      tail, it sees three entries in a ring of two slots. */
  lemma StaleEntriesExceed() returns (es: seq<Event<int>>)
    ensures TWO.Valid() && NewReal([0, 0], 3).Shaped(TWO) && Roomy(TWO, NewReal([0, 0], 3), es + [Tick(0)])
    ensures SeesThree(After(es), After(es + [Tick(0)]))
  {
    var p: Pc<int, Snap> := HeadRead(Dequeue(1, false), Snap(0, 0, 0));
    NewTwo();
    es := StalledConsumer(p);
    es := Rounds(New(), es, p, 2);
    es := EnqueuePast(New(), es, p, 2);
    Extend(es, Tick(0));
    ExceedingStep(IdealRun(TWO, New(), es), p);
  }

  /** A ring with one element to claim, and after a consumer's look a refused call for one. */
  ghost predicate MissesOne(m: Real<int>, m1: Real<int>) {
    var held := RealUnclaimed(TWO, m, Consumer);
    && held == 1 && |m.threads| == 3 == |m1.threads| && m.threads[0].HeadRead?
    && m1.threads[0].Finished? && m1.threads[0].n == 0 && m1.threads[0].call == Dequeue(1, false)
  }

  lemma MissingStep(s: Ideal<int>, p: Pc<int, Snap>)
    requires s.m.Shaped(TWO) && Stalled(s, p, MODULUS, MODULUS - 1)
    requires p == HeadRead(Dequeue(1, false), Snap(0, 0, 0))
    ensures RoomyStep(TWO, s, Tick(0))
    ensures MissesOne(WrapState(s), WrapState(IdealNext(TWO, s, Tick(0))))
  {
    FirstThread(s, p, MODULUS, MODULUS - 1);
    MissingLook(s, p);
    assert WrapState(s).prod == HeadTail(0, 0) && WrapState(s).cons == HeadTail(MODULUS - 1, MODULUS - 1);
    MissWords(WrapState(s), WrapState(IdealNext(TWO, s, Tick(0))));
  }

  lemma MissingLook(s: Ideal<int>, p: Pc<int, Snap>)
    requires s.m.Shaped(TWO) && Stalled(s, p, MODULUS, MODULUS - 1)
    requires p == HeadRead(Dequeue(1, false), Snap(0, 0, 0))
    ensures IdealStep(TWO, s, 0).m.threads[0] == Finished(p.call, Snap(0, MODULUS - 1, MODULUS), 0, 0, [])
  {
  }

  lemma MissWords(m: Real<int>, m1: Real<int>)
    requires m.prod == HeadTail(0, 0) && m.cons == HeadTail(MODULUS - 1, MODULUS - 1)
    requires |m.threads| == 3 == |m1.threads| && m.threads[0].HeadRead?
    requires m1.threads[0].Finished? && m1.threads[0].n == 0 && m1.threads[0].call == Dequeue(1, false)
    ensures MissesOne(m, m1)
  {
  }

  /** 2^32 elements go in past it and all but the last come out. When it reads the opposite tail,
      it sees nothing and returns with nothing, although one element is queued. */
  lemma StaleRefusal() returns (es: seq<Event<int>>)
    ensures TWO.Valid() && NewReal([0, 0], 3).Shaped(TWO) && Roomy(TWO, NewReal([0, 0], 3), es + [Tick(0)])
    ensures MissesOne(After(es), After(es + [Tick(0)]))
  {
    var p: Pc<int, Snap> := HeadRead(Dequeue(1, false), Snap(0, 0, 0));
    NewTwo();
    es := StalledConsumer(p);
    es := Rounds(New(), es, p, MODULUS - 1);
    es := EnqueuePast(New(), es, p, MODULUS - 1);
    Extend(es, Tick(0));
    MissingStep(IdealRun(TWO, New(), es), p);
  }

  /** 2^32 elements go in past a stalled producer and all come out. Its exchange then goes through
      at a head that has moved by 2^32, and finds room: a snapshot may be stale and the claim
      still right. */
  lemma StaleCasFits() returns (es: seq<Event<int>>)
    ensures TWO.Valid() && NewReal([0, 0], 3).Shaped(TWO) && Roomy(TWO, NewReal([0, 0], 3), es + [Tick(0)])
    ensures !FreshRun(TWO, New(), es)
    ensures After(es).threads[0].Sized? && After(es + [Tick(0)]).threads[0].Copying?
  {
    var p: Pc<int, Snap> := Sized(Enqueue([7], true), Snap(0, 0, 1), 1, 1);
    NewTwo();
    es := StalledProducer(p);
    es := Rounds(New(), es, p, MODULUS);
    Extend(es, Tick(0));
    var s := IdealRun(TWO, New(), es);
    FirstThread(s, p, MODULUS, MODULUS);
    assert !FreshPc(TWO, s, s.m.threads[0]);
  }

  /** A full ring of capacity one, and after a producer's exchange the same ring with a second slot
      handed out. */
  ghost predicate Overruns(m: Real<int>, m1: Real<int>) {
    var full := Wrap(m.prod.tail - m.cons.tail);
    && full == TWO.capacity == 1 && Within(TWO, m)
    && |m.threads| == 3 == |m1.threads| && m.threads[0].Sized?
    && m1.threads[0].Copying? && m1.threads[0].call.Enqueue?
    && Wrap(m1.prod.tail - m1.cons.head) == 1 && Wrap(m1.prod.head - m1.cons.tail) == 2
  }

  lemma FooledClaim(s: Ideal<int>, p: Pc<int, Snap>)
    requires s.m.Shaped(TWO) && Stalled(s, p, MODULUS, MODULUS - 1)
    requires p == Sized(Enqueue([7], true), Snap(0, 0, 1), 1, 1)
    ensures !RoomyStep(TWO, s, Tick(0))
    ensures var s1 := IdealNext(TWO, s, Tick(0));
            && s1.m.prod == HeadTail(MODULUS + 1, MODULUS) && s1.m.cons == s.m.cons
            && s1.m.threads[0] == Copying(p.call, Snap(MODULUS, 0, 1), 1, 1, 0, [])
  {
    assert GoesThrough(TWO, s, 0);
    assert IdealNext(TWO, s, Tick(0)) == Claim(TWO, s, 0);
  }

  lemma FooledStep(s: Ideal<int>, p: Pc<int, Snap>, s1: Ideal<int>)
    requires s.m.Shaped(TWO) && Stalled(s, p, MODULUS, MODULUS - 1) && s1 == IdealNext(TWO, s, Tick(0))
    requires p == Sized(Enqueue([7], true), Snap(0, 0, 1), 1, 1)
    ensures !RoomyStep(TWO, s, Tick(0)) && Overruns(WrapState(s), WrapState(s1))
  {
    FirstThread(s, p, MODULUS, MODULUS - 1);
    FooledClaim(s, p);
    assert WrapState(s).prod == HeadTail(0, 0) && WrapState(s).cons == HeadTail(MODULUS - 1, MODULUS - 1);
    assert WrapState(s1).prod == HeadTail(1, 0) && WrapState(s1).cons == HeadTail(MODULUS - 1, MODULUS - 1);
    assert WrapState(s1).threads[0] == WrapPc(s1.m.threads[0]);
    OverrunWords(WrapState(s), WrapState(s1));
  }

  lemma OverrunWords(m: Real<int>, m1: Real<int>)
    requires m.prod == HeadTail(0, 0) && m.cons == HeadTail(MODULUS - 1, MODULUS - 1)
    requires m1.prod == HeadTail(1, 0) && m1.cons == HeadTail(MODULUS - 1, MODULUS - 1)
    requires |m.threads| == 3 == |m1.threads| && m.threads[0].Sized?
    requires m1.threads[0].Copying? && m1.threads[0].call.Enqueue?
    ensures Overruns(m, m1)
  {
  }

  /** The same one element earlier: the ring is full, the exchange goes through all the same, and
      the 32-bit ring of capacity one has one element queued and another slot handed out. */
  lemma StaleCasOverruns() returns (es: seq<Event<int>>)
    ensures TWO.Valid() && NewReal([0, 0], 3).Shaped(TWO)
    ensures Roomy(TWO, NewReal([0, 0], 3), es) && !Roomy(TWO, NewReal([0, 0], 3), es + [Tick(0)])
    ensures Overruns(After(es), After(es + [Tick(0)]))
  {
    var p: Pc<int, Snap> := Sized(Enqueue([7], true), Snap(0, 0, 1), 1, 1);
    NewTwo();
    es := StalledProducer(p);
    es := Rounds(New(), es, p, MODULUS - 1);
    es := EnqueuePast(New(), es, p, MODULUS - 1);
    Extend(es, Tick(0));
    FooledStep(IdealRun(TWO, New(), es), p, IdealNext(TWO, IdealRun(TWO, New(), es), Tick(0)));
  }
}
