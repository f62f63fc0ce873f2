/** The logger on top of the concurrent ring: many threads push while others take and log. All
    definitions here read the 32-bit machine; the unbounded one appears in proofs only. */
module ConcurrentLog {
  import opened Words
  import opened LogText
  import opened RingProtocol
  import opened RingInvariant
  import opened RingRefinement
  import opened RingQueue

  /** What the clock says to one call of `checkRotate`. */
  datatype Clock = Clock(stamp: string, timeOut: bool)

  /** The thread that returns from a call of the given side at this event, with its result. */
  function Returning<P>(c: Config, m: Real<P>, e: Event<P>, side: Side): Option<Pc<P, Word>>
    requires m.Shaped(c) && c.size > 0
  {
    if e.Tick? && e.thread < |m.threads| && m.threads[e.thread].On(side)
       && RealNext(c, m, e).threads[e.thread].Finished?
    then Some(RealNext(c, m, e).threads[e.thread])
    else None
  }

  /** The packets of all enqueues that have returned, in the order in which they returned; a call
      that found the ring full adds none. */
  function Published<P>(c: Config, m0: Real<P>, es: seq<Event<P>>): seq<P>
    requires m0.Shaped(c) && c.size > 0
  {
    if es == [] then []
    else
      var most := es[..|es| - 1];
      var r := Returning(c, RealRun(c, m0, most), es[|es| - 1], Producer);
      Published(c, m0, most) + (if r.Some? then Added(r.value) else [])
  }

  function Added<P>(p: Pc<P, Word>): seq<P>
    requires p.Finished?
  {
    if p.call.Enqueue? && p.n <= |p.call.items| then p.call.items[..p.n] else []
  }

  /** The log: each dequeue that returns is followed by a rotation over the packets that the
      consumer has copied into its own buffer, none if it found the ring empty. */
  function RingLog<P>(line: P -> string, rotateSize: Word, c: Config, m0: Real<P>,
                      es: seq<Event<P>>, clocks: seq<Clock>): Log
    requires m0.Shaped(c) && c.size > 0 && |es| <= |clocks|
  {
    if es == [] then Log([], "", 0)
    else
      var most, clock := es[..|es| - 1], clocks[|es| - 1];
      var l := RingLog(line, rotateSize, c, m0, most, clocks);
      var r := Returning(c, RealRun(c, m0, most), es[|es| - 1], Consumer);
      if r.None? then l else Rotate(rotateSize, clock.stamp, l, LinesOf(line, r.value.got), clock.timeOut)
  }

  /** What the slots between the two tails hold: packets that are queued, and packets that a
      consumer has claimed and not returned with. */
  function InRing<P>(c: Config, m: Real<P>): seq<P>
    requires m.Shaped(c) && c.size > 0
  {
    seq(Wrap(m.prod.tail - m.cons.tail), k requires 0 <= k => InSlot(c, m, k))
  }

  /** The slot `k` places behind the consumer tail. */
  function InSlot<P>(c: Config, m: Real<P>, k: nat): P
    requires m.Shaped(c) && c.size > 0
  {
    m.slots[(BitAnd(m.cons.tail, c.size - 1) + k) % c.size]
  }

  // ------------------------------------------------------------------ one event

  /** The log of claimed values up to the tail of a side. */
  function UpTo<P>(s: Ideal<P>, side: Side): seq<P>
    requires s.m.Own(side).tail <= |s.log|
  {
    s.log[..s.m.Own(side).tail]
  }

  /** The block that a publishing thread adds below the tail of its side. */
  lemma TailMoves<P>(c: Config, s: Ideal<P>, t: nat)
    requires t < |s.m.threads| && s.m.threads[t].Publishing?
    requires Counters(c, s.View()) && Counters(c, Publish(s, t).View()) && ThreadOk(c, s.View(), s.m.threads[t])
    ensures var (p, s1) := (s.m.threads[t], Publish(s, t));
            && p.n <= p.call.Max()
            && UpTo(s1, p.call.Side())
               == UpTo(s, p.call.Side()) + (if p.call.Enqueue? then p.call.items[..p.n] else p.got)
  {
    var p := s.m.threads[t];
    var lo, hi := p.snap.lo, p.snap.lo + p.n;
    assert s.log[..hi] == s.log[..lo] + s.log[lo..hi];
  }

  /** Nothing else moves a tail. */
  lemma TailStays<P>(c: Config, s: Ideal<P>, e: Event<P>, side: Side)
    requires Inv(c, s) && Counters(c, IdealNext(c, s, e).View())
    requires !(e.Tick? && e.thread < |s.m.threads| && s.m.threads[e.thread].Publishing?
               && s.m.threads[e.thread].call.Side() == side)
    ensures UpTo(IdealNext(c, s, e), side) == UpTo(s, side)
  {
    LogGrows(c, s, e);
    TailFixed(c, s, e, side);
    SamePrefix(s.log, IdealNext(c, s, e).log, 0, s.m.Own(side).tail);
  }

  lemma TailFixed<P>(c: Config, s: Ideal<P>, e: Event<P>, side: Side)
    requires s.m.Shaped(c) && c.size > 0
    requires !(e.Tick? && e.thread < |s.m.threads| && s.m.threads[e.thread].Publishing?
               && s.m.threads[e.thread].call.Side() == side)
    ensures IdealNext(c, s, e).m.Own(side).tail == s.m.Own(side).tail
  {
  }

  /** What a call of the given side has moved when it returns. */
  function Moved<P>(r: Option<Pc<P, Word>>, side: Side): seq<P>
    requires r.Some? ==> r.value.Finished?
  {
    if r.None? then [] else if side.Producer? then Added(r.value) else r.value.got
  }

  /** A call that returns at this event has moved exactly the block that its side's tail passes. */
  lemma ReturnMovesTail<P>(c: Config, s: Ideal<P>, e: Event<P>, side: Side)
    requires Inv(c, s) && WrapState(s).Shaped(c) && Inv(c, IdealNext(c, s, e))
    ensures UpTo(IdealNext(c, s, e), side)
            == UpTo(s, side) + Moved(Returning(c, WrapState(s), e, side), side)
  {
    NextCommutes(c, s, e);
    if e.Tick? && e.thread < |s.m.threads| && s.m.threads[e.thread].Publishing?
       && s.m.threads[e.thread].call.Side() == side {
      assert ThreadOk(c, s.View(), s.m.threads[e.thread]);
      TailMoves(c, s, e.thread);
      PublishReturns(c, s, e.thread);
    } else {
      TailStays(c, s, e, side);
      RefusalMovesNothing(c, s, e, side);
    }
  }

  lemma PublishReturns<P>(c: Config, s: Ideal<P>, t: nat)
    requires s.m.Shaped(c) && WrapState(s).Shaped(c) && c.size > 0
    requires t < |s.m.threads| && s.m.threads[t].Publishing? && s.m.threads[t].n <= s.m.threads[t].call.Max()
    requires RealNext(c, WrapState(s), Tick(t)) == WrapState(IdealNext(c, s, Tick(t)))
    ensures var p := s.m.threads[t];
            Moved(Returning(c, WrapState(s), Tick(t), p.call.Side()), p.call.Side())
            == (if p.call.Enqueue? then p.call.items[..p.n] else p.got)
  {
    assert WrapState(s).threads[t] == WrapPc(s.m.threads[t]);
  }

  lemma RefusalMovesNothing<P>(c: Config, s: Ideal<P>, e: Event<P>, side: Side)
    requires s.m.Shaped(c) && WrapState(s).Shaped(c) && c.size > 0
    requires RealNext(c, WrapState(s), e) == WrapState(IdealNext(c, s, e))
    requires !(e.Tick? && e.thread < |s.m.threads| && s.m.threads[e.thread].Publishing?
               && s.m.threads[e.thread].call.Side() == side)
    ensures Moved(Returning(c, WrapState(s), e, side), side) == []
  {
    if e.Tick? && e.thread < |s.m.threads| {
      assert WrapState(s).threads[e.thread] == WrapPc(s.m.threads[e.thread]);
    }
  }

  // ----------------------------------------------------------------- whole runs

  /** What has been published, and what has been logged, is the log of claimed values up to the
      producer tail and up to the consumer tail. */
  lemma {:induction false} RunMovesTails<P>(line: P -> string, rotateSize: Word, c: Config, s: Ideal<P>,
                                            es: seq<Event<P>>, clocks: seq<Clock>)
    requires Inv(c, s) && RoomyRun(c, s, es) && WrapState(s).Shaped(c) && |es| <= |clocks|
    requires s.m.prod.tail == 0 && s.m.cons.tail == 0
    ensures Inv(c, IdealRun(c, s, es))
    ensures Published(c, WrapState(s), es) == UpTo(IdealRun(c, s, es), Producer)
    ensures RingLog(line, rotateSize, c, WrapState(s), es, clocks).Text()
            == Concat(LinesOf(line, UpTo(IdealRun(c, s, es), Consumer)))
  {
    InvariantHolds(c, s, es);
    if es != [] {
      var most, e := es[..|es| - 1], es[|es| - 1];
      var s1 := IdealRun(c, s, most);
      RunMovesTails(line, rotateSize, c, s, most, clocks);
      RunRefines(c, s, most);
      InvariantHolds(c, s, most);
      WrapShaped(c, s1);
      ReturnMovesTail(c, s1, e, Producer);
      ReturnMovesTail(c, s1, e, Consumer);
      var l := RingLog(line, rotateSize, c, WrapState(s), most, clocks);
      LogStep(line, rotateSize, clocks[|es| - 1], l, UpTo(s1, Consumer), Returning(c, WrapState(s1), e, Consumer));
    }
  }

  lemma LogStep<P>(line: P -> string, rotateSize: Word, clock: Clock, l: Log, before: seq<P>, r: Option<Pc<P, Word>>)
    requires r.Some? ==> r.value.Finished?
    requires l.Text() == Concat(LinesOf(line, before))
    ensures (if r.None? then l
             else Rotate(rotateSize, clock.stamp, l, LinesOf(line, r.value.got), clock.timeOut)).Text()
            == Concat(LinesOf(line, before + Moved(r, Consumer)))
  {
    if r.None? {
      assert before + [] == before;
    } else {
      RotateConserves(rotateSize, clock.stamp, l, LinesOf(line, r.value.got), clock.timeOut);
      LinesOfAppend(line, before, r.value.got);
    }
  }

  lemma StoredAt<P>(c: Config, v: Shared<P>, at: nat)
    requires Counters(c, v) && Stored(c, v) && v.cons.tail <= at < v.prod.tail
    ensures v.slots[at % c.size] == v.log[at]
  {
  }

  lemma SlotIsLogged<P>(c: Config, s: Ideal<P>, k: nat, x: P)
    requires c.Valid() && s.m.Shaped(c) && WrapState(s).Shaped(c) && c.size > 0
    requires s.m.slots[(s.m.cons.tail + k) % c.size] == x
    ensures InSlot(c, WrapState(s), k) == x
  {
    SlotCommutes(c, s.m.cons.tail, k);
  }

  /** The slots between the tails hold the claimed values between the tails. */
  lemma InRingIsLogged<P>(c: Config, s: Ideal<P>)
    requires c.Valid() && Counters(c, s.View()) && Stored(c, s.View()) && s.m.Shaped(c) && WrapState(s).Shaped(c)
    ensures InRing(c, WrapState(s)) == s.log[s.m.cons.tail..s.m.prod.tail]
  {
    var m, n := WrapState(s), s.m.prod.tail - s.m.cons.tail;
    WordDistance(s.m.prod.tail, s.m.cons.tail);
    assert |InRing(c, m)| == n;
    forall k: nat | k < n
      ensures InRing(c, m)[k] == s.log[s.m.cons.tail..s.m.prod.tail][k]
    {
      StoredAt(c, s.View(), s.m.cons.tail + k);
      SlotIsLogged(c, s, k, s.log[s.m.cons.tail + k]);
    }
  }

  lemma LoggedAndHeld<P>(line: P -> string, s: Ideal<P>, text: string)
    requires s.m.cons.tail <= s.m.prod.tail <= |s.log| && text == Concat(LinesOf(line, UpTo(s, Consumer)))
    ensures text + Concat(LinesOf(line, s.log[s.m.cons.tail..s.m.prod.tail]))
            == Concat(LinesOf(line, UpTo(s, Producer)))
  {
    LinesOfAppend(line, UpTo(s, Consumer), s.log[s.m.cons.tail..s.m.prod.tail]);
    assert UpTo(s, Producer) == UpTo(s, Consumer) + s.log[s.m.cons.tail..s.m.prod.tail];
  }

  /** End to end, for every interleaving of any number of threads on the 32-bit ring: the files and
      the pending text, followed by the lines of the packets that the ring's slots still hold, are
      exactly the lines of all published packets, each once and in the order of publication. */
  lemma RingAndLogConserve<P>(line: P -> string, rotateSize: Word, c: Config, slots: seq<P>, threads: nat,
                              es: seq<Event<P>>, clocks: seq<Clock>)
    requires c.Valid() && c.size > 0 && |slots| == c.size && Roomy(c, NewReal(slots, threads), es)
    requires |es| <= |clocks|
    ensures var m0 := NewReal(slots, threads);
            RingLog(line, rotateSize, c, m0, es, clocks).Text() + Concat(LinesOf(line, InRing(c, RealRun(c, m0, es))))
            == Concat(LinesOf(line, Published(c, m0, es)))
  {
    var s0 := NewIdeal(slots, threads);
    NewStates(c, slots, threads);
    RoomyKeepsInv(c, s0, es);
    RunMovesTails(line, rotateSize, c, s0, es, clocks);
    var s := IdealRun(c, s0, es);
    WrapShaped(c, s);
    InRingIsLogged(c, s);
    LoggedAndHeld(line, s, RingLog(line, rotateSize, c, WrapState(s0), es, clocks).Text());
  }

  /** The ring's slots hold first the packets that consumers have claimed and not returned with,
      then the queue; and what has been published is what was pushed. */
  ghost predicate HoldsClaimedAndQueued<P>(c: Config, m: Real<P>, published: seq<P>, q: Fifo<P>, pushed: seq<P>)
    requires m.Shaped(c) && c.size > 0
  {
    var claimed := Wrap(m.cons.head - m.cons.tail);
    && published == pushed && claimed <= |q.taken|
    && InRing(c, m) == q.taken[|q.taken| - claimed..] + q.items
  }

  /** The same packets in the terms of the atomic queue. */
  lemma InRingIsClaimedAndQueued<P>(c: Config, slots: seq<P>, threads: nat, es: seq<Event<P>>)
    requires c.Valid() && c.size > 0 && |slots| == c.size && Roomy(c, NewReal(slots, threads), es)
    ensures var (m0, history) := (NewReal(slots, threads), Effects(c, NewIdeal(slots, threads), es));
            var end := ApplyAll(c.capacity, Fifo([], []), history);
            end.Some? && HoldsClaimedAndQueued(c, RealRun(c, m0, es), Published(c, m0, es), end.value, Pushed(history))
  {
    var s0 := NewIdeal(slots, threads);
    NewStates(c, slots, threads);
    RoomyKeepsInv(c, s0, es);
    RunIsQueueRun(c, s0, es);
    HistoryConserves(c.capacity, Effects(c, s0, es));
    RunMovesTails(_ => "", 0, c, s0, es, seq(|es|, _ => Clock("", false)));
    WrapShaped(c, IdealRun(c, s0, es));
    StateHoldsBoth(c, IdealRun(c, s0, es));
  }

  lemma StateHoldsBoth<P>(c: Config, s: Ideal<P>)
    requires Inv(c, s) && WrapState(s).Shaped(c)
    ensures var q := QueueOf(c, s);
            HoldsClaimedAndQueued(c, WrapState(s), UpTo(s, Producer), q, q.taken + q.items)
  {
    InRingIsLogged(c, s);
    WordDistance(s.m.cons.head, s.m.cons.tail);
    QueueParts(c, s);
  }

  lemma QueueParts<P>(c: Config, s: Ideal<P>)
    requires Counters(c, s.View())
    ensures var q := QueueOf(c, s);
            && UpTo(s, Producer) == q.taken + q.items && |q.taken| == s.m.cons.head
            && s.log[s.m.cons.tail..s.m.prod.tail] == q.taken[s.m.cons.tail..] + q.items
  {
  }

  lemma ClaimFits<P>(c: Config, s: Ideal<P>, t: nat)
    requires s.m.Shaped(c) && c.size > 0 && t < |s.m.threads|
    requires Counters(c, s.View()) && ThreadOk(c, s.View(), s.m.threads[t])
    requires s.m.threads[t].On(Consumer) && IdealStep(c, s, t).m.threads[t].Finished?
    ensures |IdealStep(c, s, t).m.threads[t].got| <= c.capacity
  {
  }

  lemma GotFits<P>(c: Config, s: Ideal<P>, e: Event<P>, r: Option<Pc<P, Word>>)
    requires Inv(c, s) && WrapState(s).Shaped(c)
    requires r == Returning(c, WrapState(s), e, Consumer) && r.Some?
    ensures |r.value.got| <= c.capacity
  {
    NextCommutes(c, s, e);
    assert ThreadOk(c, s.View(), s.m.threads[e.thread]);
    ReturnIsWrapped(c, s, e.thread, e, r.value);
    ClaimFits(c, s, e.thread);
  }

  lemma ReturnIsWrapped<P>(c: Config, s: Ideal<P>, t: nat, e: Event<P>, p: Pc<P, Word>)
    requires s.m.Shaped(c) && WrapState(s).Shaped(c) && c.size > 0 && t == e.thread
    requires RealNext(c, WrapState(s), e) == WrapState(IdealNext(c, s, e))
    requires Returning(c, WrapState(s), e, Consumer) == Some(p)
    ensures t < |s.m.threads| && s.m.threads[t].On(Consumer) && IdealStep(c, s, t).m.threads[t].Finished?
    ensures p.Finished? && p.got == IdealStep(c, s, t).m.threads[t].got
  {
    assert WrapState(s).threads[t] == WrapPc(s.m.threads[t]);
    assert p == WrapPc(IdealStep(c, s, t).m.threads[t]);
  }

  /** On the concurrent ring, too, no file is longer than the rotation size plus one line. */
  lemma {:induction false} RingFilesStayBounded<P>(line: P -> string, longest: nat, rotateSize: Word, c: Config,
                                                   s: Ideal<P>, es: seq<Event<P>>, clocks: seq<Clock>)
    requires Inv(c, s) && RoomyRun(c, s, es) && WrapState(s).Shaped(c) && |es| <= |clocks|
    requires forall p :: |line(p)| <= longest
    ensures Bounded(rotateSize, longest, RingLog(line, rotateSize, c, WrapState(s), es, clocks))
  {
    if es != [] {
      var most, e, clock := es[..|es| - 1], es[|es| - 1], clocks[|es| - 1];
      var s1 := IdealRun(c, s, most);
      var l := RingLog(line, rotateSize, c, WrapState(s), most, clocks);
      RingFilesStayBounded(line, longest, rotateSize, c, s, most, clocks);
      RunRefines(c, s, most);
      InvariantHolds(c, s, most);
      WrapShaped(c, s1);
      var r := Returning(c, WrapState(s1), e, Consumer);
      if r.Some? {
        GotFits(c, s1, e, r);
        RotateBound(rotateSize, longest, clock.stamp, l, LinesOf(line, r.value.got), clock.timeOut);
      }
    }
  }

  /** What a returning dequeue makes of the log `l`: new files bear the time stamp of that moment, and
      with a time-out there is one at least. */
  ghost predicate WritesAt(l: Log, l1: Log, clock: Clock) {
    var before := |l.files|;
    && l.files <= l1.files && (clock.timeOut ==> |l1.files| > before)
    && forall i :: before <= i < |l1.files| ==> l1.files[i].stamp == clock.stamp
  }

  lemma RotateWrites(rotateSize: Word, longest: nat, l: Log, l1: Log, lines: seq<string>, clock: Clock)
    requires Bounded(rotateSize, longest, l) && |lines| < MODULUS
    requires forall i :: 0 <= i < |lines| ==> |lines[i]| <= longest
    requires l1 == Rotate(rotateSize, clock.stamp, l, lines, clock.timeOut)
    ensures WritesAt(l, l1, clock)
  {
    RotateBound(rotateSize, longest, clock.stamp, l, lines, clock.timeOut);
  }

  lemma LastEvent<P>(line: P -> string, rotateSize: Word, c: Config, m: Real<P>, es: seq<Event<P>>, clocks: seq<Clock>,
                     l: Log, r: Option<Pc<P, Word>>)
    requires m.Shaped(c) && c.size > 0 && 0 < |es| <= |clocks|
    requires l == RingLog(line, rotateSize, c, m, es[..|es| - 1], clocks)
    requires r == Returning(c, RealRun(c, m, es[..|es| - 1]), es[|es| - 1], Consumer) && r.Some?
    ensures var clock := clocks[|es| - 1];
            RingLog(line, rotateSize, c, m, es, clocks)
            == Rotate(rotateSize, clock.stamp, l, LinesOf(line, r.value.got), clock.timeOut)
  {
  }

  /** The last event of any roomy schedule: if a consumer returns there, it does so. */
  lemma ReturnWrites<P>(line: P -> string, longest: nat, rotateSize: Word, c: Config,
                        s: Ideal<P>, es: seq<Event<P>>, clocks: seq<Clock>, l: Log, r: Option<Pc<P, Word>>, l1: Log)
    requires Inv(c, s) && RoomyRun(c, s, es) && WrapState(s).Shaped(c) && 0 < |es| <= |clocks|
    requires forall p :: |line(p)| <= longest
    requires l == RingLog(line, rotateSize, c, WrapState(s), es[..|es| - 1], clocks)
    requires r == Returning(c, RealRun(c, WrapState(s), es[..|es| - 1]), es[|es| - 1], Consumer) && r.Some?
    requires l1 == RingLog(line, rotateSize, c, WrapState(s), es, clocks)
    ensures WritesAt(l, l1, clocks[|es| - 1])
  {
    var most := es[..|es| - 1];
    RingFilesStayBounded(line, longest, rotateSize, c, s, most, clocks);
    RunRefines(c, s, most);
    InvariantHolds(c, s, most);
    WrapShaped(c, IdealRun(c, s, most));
    GotFits(c, IdealRun(c, s, most), es[|es| - 1], r);
    LastEvent(line, rotateSize, c, WrapState(s), es, clocks, l, r);
    RotateWrites(rotateSize, longest, l, l1, LinesOf(line, r.value.got), clocks[|es| - 1]);
  }
}
