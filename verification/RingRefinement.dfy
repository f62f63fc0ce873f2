/** The 32-bit ring machine is the ideal machine seen through `Wrap`, on every schedule; and the
    schedules on which it stays a ring of its capacity are exactly those in which every claim that
    goes through finds room at that moment. */
module RingRefinement {
  import opened Words
  import opened RingProtocol
  import opened RingInvariant

  function WrapPc<T>(p: Pc<T, Snap>): Pc<T, Word> {
    match p
    case Idle => Idle
    case Start(call) => Start(call)
    case HeadRead(call, snap) => HeadRead(call, Wrap(snap.lo))
    case Sized(call, snap, avail, n) => Sized(call, Wrap(snap.lo), avail, n)
    case Copying(call, snap, avail, n, i, got) => Copying(call, Wrap(snap.lo), avail, n, i, got)
    case Waiting(call, snap, avail, n, got) => Waiting(call, Wrap(snap.lo), avail, n, got)
    case Publishing(call, snap, avail, n, got) => Publishing(call, Wrap(snap.lo), avail, n, got)
    case Finished(call, snap, n, left, got) => Finished(call, Wrap(snap.lo), n, left, got)
  }

  function WrapHt(ht: HeadTail): HeadTail {
    HeadTail(Wrap(ht.head), Wrap(ht.tail))
  }

  /** What the memory of the 32-bit machine holds in an ideal state. */
  function WrapState<T>(s: Ideal<T>): (m: Real<T>)
    ensures |m.threads| == |s.m.threads|
    ensures forall t :: 0 <= t < |s.m.threads| ==> m.threads[t] == WrapPc(s.m.threads[t])
  {
    Machine(WrapHt(s.m.prod), WrapHt(s.m.cons), s.m.slots,
            seq(|s.m.threads|, t requires 0 <= t < |s.m.threads| => WrapPc(s.m.threads[t])))
  }

  lemma WrapShaped<T>(c: Config, s: Ideal<T>)
    requires s.m.Shaped(c)
    ensures WrapState(s).Shaped(c) && |WrapState(s).threads| == |s.m.threads|
  {
  }

  // ------------------------------------------------------------------ one step

  lemma WrapGoto<T>(s: Ideal<T>, t: nat, q: Pc<T, Snap>)
    requires t < |s.m.threads|
    ensures WrapState(s.Goto(t, q)) == WrapState(s).Goto(t, WrapPc(q))
  {
    assert WrapState(s.Goto(t, q)).threads == WrapState(s).threads[t := WrapPc(q)];
  }

  /** The size computation on words sees the word of the unbounded difference. */
  lemma LookCommutes<T>(c: Config, own: HeadTail, other: HeadTail, p: Pc<T, Snap>)
    requires p.Start? || p.HeadRead? || p.Waiting?
    ensures RealLook(c, WrapHt(own), WrapHt(other), WrapPc(p)) == WrapPc(IdealLook(c, own, other, p))
  {
    if p.HeadRead? {
      WrapDistance(c.Offset(p.call.Side()), other.tail, p.snap.lo);
    }
  }

  lemma LookStepCommutes<T>(c: Config, s: Ideal<T>, t: nat, p: Pc<T, Snap>)
    requires s.m.Shaped(c) && WrapState(s).Shaped(c) && c.size > 0
    requires t < |s.m.threads| && p == s.m.threads[t] && (p.Start? || p.HeadRead? || p.Waiting?)
    ensures RealStep(c, WrapState(s), t) == WrapState(IdealStep(c, s, t))
  {
    var own, other := s.m.Own(p.call.Side()), s.m.Other(p.call.Side());
    var (m, q) := (WrapState(s), IdealLook(c, own, other, p));
    LookCommutes(c, own, other, p);
    WrapGoto(s, t, q);
    assert m.threads[t] == WrapPc(p) && WrapPc(p).call == p.call;
    assert m.Own(p.call.Side()) == WrapHt(own) && m.Other(p.call.Side()) == WrapHt(other);
    assert RealStep(c, m, t) == m.Goto(t, WrapPc(q));
  }

  lemma WrapDifference(x: int, y: int)
    ensures Wrap(x) == Wrap(y) <==> (x - y) % MODULUS == 0
  {
  }

  /** Storing `read + n` over the head is storing `head + n` if the two words are equal. */
  lemma WrapMoves(head: nat, read: nat, n: nat)
    requires Wrap(head) == Wrap(read)
    ensures Wrap(Wrap(read) + n) == Wrap(head + n)
  {
    WrapDistance(n, head, 0);
  }

  /** A counter of a side and a thread change together. */
  lemma WrapMoved<T>(s: Ideal<T>, side: Side, ht: HeadTail, t: nat, q: Pc<T, Snap>, s': Ideal<T>)
    requires t < |s.m.threads| && s'.m == s.m.SetOwn(side, ht).Goto(t, q)
    ensures WrapState(s') == WrapState(s).SetOwn(side, WrapHt(ht)).Goto(t, WrapPc(q))
  {
    assert WrapState(s').threads == WrapState(s).threads[t := WrapPc(q)];
  }

  lemma ClaimCommutes<T>(c: Config, s: Ideal<T>, t: nat)
    requires t < |s.m.threads| && s.m.threads[t].Sized? && s.m.threads[t].Shaped()
    ensures RealClaim(c, WrapState(s), t)
            == WrapState(if GoesThrough(c, s, t) then Claim(c, s, t) else s.Goto(t, Start(s.m.threads[t].call)))
  {
    var p := s.m.threads[t];
    assert WrapState(s).threads[t] == WrapPc(p);
    assert WrapState(s).Own(p.call.Side()) == WrapHt(s.m.Own(p.call.Side()));
    if GoesThrough(c, s, t) {
      ExchangeCommutes(c, s, t, p, ClaimsFrom(c, s, t));
    } else {
      WrapGoto(s, t, Start(p.call));
    }
  }

  lemma ExchangeCommutes<T>(c: Config, s: Ideal<T>, t: nat, p: Pc<T, Snap>, at: nat)
    requires t < |s.m.threads| && p == s.m.threads[t] && p.Sized? && p.Shaped()
    requires GoesThrough(c, s, t) && at == ClaimsFrom(c, s, t)
    ensures RealClaim(c, WrapState(s), t) == WrapState(Claim(c, s, t))
  {
    var m, side := WrapState(s), p.call.Side();
    var ht := s.m.Own(side).(head := at + p.n);
    var q := Copying(p.call, p.snap.(lo := at), p.avail, p.n, 0, []);
    assert m.threads[t] == WrapPc(p) && m.Own(side) == WrapHt(s.m.Own(side));
    WrapMoves(at, p.snap.lo, p.n);
    assert m.Own(side).(head := Wrap(WrapPc(p).snap + p.n)) == WrapHt(ht);
    assert RealClaim(c, m, t) == m.SetOwn(side, WrapHt(ht)).Goto(t, WrapPc(q));
    WrapMoved(s, side, ht, t, q, Claim(c, s, t));
  }

  lemma CopyCommutes<T>(c: Config, s: Ideal<T>, t: nat, k: nat)
    requires t < |s.m.threads| && s.m.threads[t].Copying? && s.m.threads[t].Shaped() && k < |s.m.slots|
    ensures CopySlot(c, WrapState(s), t, k) == WrapState(s.(m := CopySlot(c, s.m, t, k)))
  {
    var p := s.m.threads[t];
    var got := if p.call.Enqueue? then p.got else p.got + [s.m.slots[k]];
    var q := AfterCopy(c, p.call, p.snap, p.avail, p.n, p.i + 1, got);
    assert WrapPc(q) == AfterCopy(c, p.call, Wrap(p.snap.lo), p.avail, p.n, p.i + 1, got);
    assert WrapState(s.(m := CopySlot(c, s.m, t, k))).threads == WrapState(s).threads[t := WrapPc(q)];
  }

  /** Masking the wrapped head selects the slot of the unbounded index. */
  lemma SlotCommutes(c: Config, lo: nat, i: nat)
    requires c.Valid()
    ensures c.size > 0 && (BitAnd(Wrap(lo), c.size - 1) + i) % c.size == (lo + i) % c.size
  {
    PowerDividesModulus(c.size);
    var k: nat :| c.size == Pow2(k);
    MaskIsModulo(Wrap(lo), k);
    WrapKeepsSlot(lo, c.size);
    DivMod(lo, c.size);
    ModAdd(lo % c.size + i, c.size, lo / c.size);
  }

  lemma CopyStepCommutes<T>(c: Config, s: Ideal<T>, t: nat)
    requires c.Valid() && s.m.Shaped(c) && WrapState(s).Shaped(c) && c.size > 0
    requires t < |s.m.threads| && s.m.threads[t].Copying?
    ensures RealStep(c, WrapState(s), t) == WrapState(IdealStep(c, s, t))
  {
    var p := s.m.threads[t];
    var k := (p.snap.lo + p.i) % c.size;
    SlotCommutes(c, p.snap.lo, p.i);
    CopyCommutes(c, s, t, k);
    assert WrapState(s).threads[t] == WrapPc(p);
    assert RealCopy(c, WrapState(s), t) == CopySlot(c, WrapState(s), t, k);
  }

  lemma PublishCommutes<T>(s: Ideal<T>, t: nat)
    requires t < |s.m.threads| && s.m.threads[t].Publishing?
    ensures RealPublish(WrapState(s), t) == WrapState(Publish(s, t))
  {
    var p, m := s.m.threads[t], WrapState(s);
    var side, q := p.call.Side(), Result(p);
    var ht := s.m.Own(side).(tail := p.snap.lo + p.n);
    assert m.threads[t] == WrapPc(p) && m.Own(side) == WrapHt(s.m.Own(side));
    WrapDistance(p.n, p.snap.lo, 0);
    assert m.Own(side).(tail := Wrap(WrapPc(p).snap + p.n)) == WrapHt(ht);
    assert RealPublish(m, t) == m.SetOwn(side, WrapHt(ht)).Goto(t, WrapPc(q));
    WrapMoved(s, side, ht, t, q, Publish(s, t));
  }

  lemma BeginCommutes<T>(c: Config, s: Ideal<T>, t: nat, call: Call<T>)
    requires s.m.Shaped(c) && t < |s.m.threads|
    ensures WrapState(s).MayBegin(c, t, call) == s.m.MayBegin(c, t, call)
  {
    forall u | 0 <= u < |s.m.threads|
      ensures WrapState(s).threads[u].On(call.Side()) == s.m.threads[u].On(call.Side())
    {
      assert WrapState(s).threads[u] == WrapPc(s.m.threads[u]);
    }
  }

  lemma StepCommutes<T>(c: Config, s: Ideal<T>, t: nat)
    requires c.Valid() && s.m.Shaped(c) && WrapState(s).Shaped(c) && c.size > 0 && t < |s.m.threads|
    ensures RealStep(c, WrapState(s), t) == WrapState(IdealStep(c, s, t))
  {
    var p := s.m.threads[t];
    if p.Start? || p.HeadRead? || p.Waiting? {
      LookStepCommutes(c, s, t, p);
    } else if p.Sized? {
      ClaimCommutes(c, s, t);
    } else if p.Copying? {
      CopyStepCommutes(c, s, t);
    } else if p.Publishing? {
      PublishCommutes(s, t);
    }
  }

  /** Each step of the 32-bit machine is the image of the ideal one's, with no condition. */
  lemma NextCommutes<T>(c: Config, s: Ideal<T>, e: Event<T>)
    requires c.Valid() && s.m.Shaped(c) && c.size > 0
    ensures WrapState(s).Shaped(c)
    ensures RealNext(c, WrapState(s), e) == WrapState(IdealNext(c, s, e))
  {
    WrapShaped(c, s);
    if e.thread < |s.m.threads| {
      if e.Begin? {
        BeginCommutes(c, s, e.thread, e.call);
        WrapGoto(s, e.thread, Start(e.call));
      } else {
        StepCommutes(c, s, e.thread);
      }
    }
  }

  /** Across any number of 2^32 wraps every schedule of the 32-bit machine ends in the wrapped
      image of the ideal machine's state. */
  lemma {:induction false} RunRefines<T>(c: Config, s: Ideal<T>, es: seq<Event<T>>)
    requires c.Valid() && s.m.Shaped(c) && c.size > 0
    ensures WrapState(s).Shaped(c)
    ensures RealRun(c, WrapState(s), es) == WrapState(IdealRun(c, s, es))
  {
    WrapShaped(c, s);
    if es != [] {
      var before := es[..|es| - 1];
      RunRefines(c, s, before);
      NextCommutes(c, IdealRun(c, s, before), es[|es| - 1]);
    }
  }

  lemma RefinesAt<T>(c: Config, s: Ideal<T>, es: seq<Event<T>>, j: nat)
    requires c.Valid() && s.m.Shaped(c) && c.size > 0 && j <= |es|
    ensures WrapState(s).Shaped(c)
    ensures RealAt(c, WrapState(s), es, j) == WrapState(IdealAt(c, s, es, j))
  {
    RunRefines(c, s, es[..j]);
  }

  // ---------------------------------------------------------- claims that find room

  predicate RealGoesThrough<T>(c: Config, m: Real<T>, t: nat)
    requires t < |m.threads| && m.threads[t].Sized?
  {
    var p := m.threads[t];
    c.Single(p.call.Side()) || m.Own(p.call.Side()).head == p.snap
  }

  /** What a size computation would see that reads both counters at this moment. */
  function RealUnclaimed<T>(c: Config, m: Real<T>, side: Side): Word {
    Wrap(c.Offset(side) + m.Other(side).tail - m.Own(side).head)
  }

  /** At this event no claim goes through in the 32-bit ring, or one that finds room for it, or
      elements, at this moment. */
  predicate FindsRoom<T>(c: Config, m: Real<T>, e: Event<T>) {
    e.Tick? && e.thread < |m.threads| && m.threads[e.thread].Sized? && RealGoesThrough(c, m, e.thread) ==>
      m.threads[e.thread].n <= RealUnclaimed(c, m, m.threads[e.thread].call.Side())
  }

  /** So does every claim of the schedule: the condition of the results about whole runs. */
  predicate Roomy<T>(c: Config, m0: Real<T>, es: seq<Event<T>>)
    requires m0.Shaped(c) && c.size > 0
  {
    es != [] ==>
      var before, e := es[..|es| - 1], es[|es| - 1];
      Roomy(c, m0, before) && FindsRoom(c, RealRun(c, m0, before), e)
  }

  lemma LimitBound<T>(c: Config, v: Shared<T>, side: Side)
    requires Counters(c, v)
    ensures 0 <= Unclaimed(c, v, side) <= c.capacity
  {
  }

  lemma UnclaimedIsExact<T>(c: Config, s: Ideal<T>, side: Side)
    requires Counters(c, s.View()) && c.size <= 0x8000_0000
    ensures 0 <= Unclaimed(c, s.View(), side) <= c.capacity
    ensures RealUnclaimed(c, WrapState(s), side) == Unclaimed(c, s.View(), side)
  {
    LimitBound(c, s.View(), side);
    SeenOnWords(c.Offset(side), s.m.Other(side).tail, s.m.Own(side).head);
  }

  lemma SeenOnWords(offset: nat, tail: nat, head: nat)
    requires head <= offset + tail < head + MODULUS
    ensures Wrap(offset + Wrap(tail) - Wrap(head)) == offset + tail - head
  {
    WrapDistance(offset, tail, head);
    WordDistance(offset + tail, head);
  }

  /** The 32-bit ring can tell: on words the condition is the one on unbounded counters. */
  lemma RoomIsExact<T>(c: Config, s: Ideal<T>, e: Event<T>)
    requires Inv(c, s)
    ensures FindsRoom(c, WrapState(s), e) <==> RoomyStep(c, s, e)
  {
    if e.Tick? && e.thread < |s.m.threads| && s.m.threads[e.thread].Sized? {
      assert WrapState(s).threads[e.thread] == WrapPc(s.m.threads[e.thread]);
      UnclaimedIsExact(c, s, s.m.threads[e.thread].call.Side());
    }
  }

  /** On a roomy schedule the invariant holds, and the 32-bit ring is its image. */
  lemma {:induction false} RoomyKeepsInv<T>(c: Config, s: Ideal<T>, es: seq<Event<T>>)
    requires Inv(c, s) && WrapState(s).Shaped(c) && Roomy(c, WrapState(s), es)
    ensures RoomyRun(c, s, es) && Inv(c, IdealRun(c, s, es))
    ensures RealRun(c, WrapState(s), es) == WrapState(IdealRun(c, s, es))
  {
    RunRefines(c, s, es);
    if es != [] {
      var before, e := es[..|es| - 1], es[|es| - 1];
      RoomyKeepsInv(c, s, before);
      RoomIsExact(c, IdealRun(c, s, before), e);
      StepKeepsInv(c, IdealRun(c, s, before), e);
    }
  }

  /** The same at every point of the schedule. */
  lemma {:induction false} RoomyAt<T>(c: Config, s: Ideal<T>, es: seq<Event<T>>, j: nat)
    requires Inv(c, s) && RoomyRun(c, s, es) && j <= |es|
    ensures Inv(c, IdealAt(c, s, es, j))
    ensures j < |es| ==> RoomyStep(c, IdealAt(c, s, es, j), es[j])
  {
    if j == |es| {
      AtEnds(c, s, es);
      InvariantHolds(c, s, es);
    } else if j == |es| - 1 {
      AtEnds(c, s, es);
      InvariantHolds(c, s, es[..j]);
    } else {
      RoomyAt(c, s, es[..|es| - 1], j);
      AtPrefix(c, s, es, j);
    }
  }

  lemma {:induction false} RoomyIsReal<T>(c: Config, s: Ideal<T>, es: seq<Event<T>>)
    requires Inv(c, s) && RoomyRun(c, s, es)
    ensures WrapState(s).Shaped(c) && Roomy(c, WrapState(s), es)
  {
    WrapShaped(c, s);
    if es != [] {
      var before := es[..|es| - 1];
      RoomyIsReal(c, s, before);
      RunRefines(c, s, before);
      InvariantHolds(c, s, before);
      RoomIsExact(c, IdealRun(c, s, before), es[|es| - 1]);
    }
  }

  // ------------------------------------------------ which schedules are roomy

  /** The snapshot of a thread on a multi side is younger than 2^32 - capacity claimed slots. */
  ghost predicate FreshPc<T>(c: Config, s: Ideal<T>, p: Pc<T, Snap>) {
    (p.HeadRead? || p.Sized?) && !c.Single(p.call.Side()) ==>
      s.m.Own(p.call.Side()).head - p.snap.lo < MODULUS - c.capacity
  }

  ghost predicate Fresh<T>(c: Config, s: Ideal<T>) {
    forall t :: 0 <= t < |s.m.threads| ==> FreshPc(c, s, s.m.threads[t])
  }

  /** Freshness in every state that the schedule passes through. */
  ghost predicate FreshRun<T>(c: Config, s: Ideal<T>, es: seq<Event<T>>)
    requires s.m.Shaped(c) && c.size > 0
  {
    Fresh(c, IdealRun(c, s, es)) && (es != [] ==> FreshRun(c, s, es[..|es| - 1]))
  }

  /** A claim that starts at the head its thread read saw the true distance to the bound set by
      the opposite tail, in 32 bits as in the unbounded numbers, and that was at most the
      capacity; so there is room for it. */
  lemma ClaimSawTrueDistance<T>(c: Config, s: Ideal<T>, t: nat)
    requires Inv(c, s) && t < |s.m.threads| && s.m.threads[t].Sized?
    requires s.m.threads[t].snap.lo == s.m.Own(s.m.threads[t].call.Side()).head
    ensures var p := s.m.threads[t];
            && p.snap.lo <= p.snap.seen <= p.snap.limit
            && p.avail == p.snap.limit - p.snap.lo == Wrap(Wrap(p.snap.limit) - Wrap(p.snap.lo))
            && 0 < p.n <= p.avail <= c.capacity && p.n <= Unclaimed(c, s.View(), p.call.Side())
  {
    var p := s.m.threads[t];
    assert ThreadOk(c, s.View(), p);
    LimitBound(c, s.View(), p.call.Side());
    WordDistance(p.snap.limit, p.snap.lo);
  }

  /** A claim goes through at another head than the one read only on a multi side whose head has
      moved by a multiple of 2^32. */
  lemma FooledMeansLapped<T>(c: Config, s: Ideal<T>, t: nat)
    requires Inv(c, s) && t < |s.m.threads| && s.m.threads[t].Sized? && GoesThrough(c, s, t)
    ensures var moved := s.m.Own(s.m.threads[t].call.Side()).head - s.m.threads[t].snap.lo;
            && moved >= 0 && moved % MODULUS == 0
            && (moved > 0 ==> moved >= MODULUS && !c.Single(s.m.threads[t].call.Side()))
  {
    assert ThreadOk(c, s.View(), s.m.threads[t]);
    var head, lo := s.m.Own(s.m.threads[t].call.Side()).head, s.m.threads[t].snap.lo;
    WrapDifference(head, lo);
    if head - lo < MODULUS {
      ModSmall(head - lo, MODULUS);
    }
  }

  lemma FreshIsRoomyStep<T>(c: Config, s: Ideal<T>, e: Event<T>)
    requires Inv(c, s) && Fresh(c, s)
    ensures RoomyStep(c, s, e)
  {
    if e.Tick? && e.thread < |s.m.threads| && s.m.threads[e.thread].Sized? && GoesThrough(c, s, e.thread) {
      assert FreshPc(c, s, s.m.threads[e.thread]);
      FooledMeansLapped(c, s, e.thread);
      ClaimSawTrueDistance(c, s, e.thread);
    }
  }

  /** A schedule in which every multi-side snapshot stays young is roomy. */
  lemma {:induction false} FreshIsRoomy<T>(c: Config, s: Ideal<T>, es: seq<Event<T>>)
    requires Inv(c, s) && FreshRun(c, s, es)
    ensures RoomyRun(c, s, es)
  {
    if es != [] {
      var before := es[..|es| - 1];
      FreshIsRoomy(c, s, before);
      InvariantHolds(c, s, before);
      FreshIsRoomyStep(c, IdealRun(c, s, before), es[|es| - 1]);
    }
  }

  /** A single producer with a single consumer needs no such promise. */
  lemma {:induction false} SingleIsFresh<T>(c: Config, s: Ideal<T>, es: seq<Event<T>>)
    requires s.m.Shaped(c) && c.size > 0
    requires c.singleProducer && c.singleConsumer
    ensures FreshRun(c, s, es)
  {
    if es != [] {
      SingleIsFresh(c, s, es[..|es| - 1]);
    }
  }

  // ------------------------------------------------- what a claim without room does

  /** The 32-bit ring is within its capacity: no more slots are handed out than it has, and no
      consumer has claimed what is not published. */
  predicate Within<T>(c: Config, m: Real<T>) {
    WithinWords(c, m.prod, m.cons)
  }

  predicate WithinWords(c: Config, prod: HeadTail, cons: HeadTail) {
    var (used, held) := (Wrap(prod.head - cons.tail), Wrap(prod.tail - cons.head));
    used <= c.capacity && held <= c.capacity
  }

  /** After every event of the schedule. */
  predicate StaysWithin<T>(c: Config, m0: Real<T>, es: seq<Event<T>>)
    requires m0.Shaped(c) && c.size > 0
  {
    Within(c, RealRun(c, m0, es)) && (es != [] ==> StaysWithin(c, m0, es[..|es| - 1]))
  }

  lemma InvIsWithin<T>(c: Config, s: Ideal<T>)
    requires Inv(c, s)
    ensures Within(c, WrapState(s))
  {
    OrderedWithin(c, s.m.prod, s.m.cons);
  }

  lemma OrderedWithin(c: Config, prod: HeadTail, cons: HeadTail)
    requires Ordered(c, prod, cons)
    ensures WithinWords(c, WrapHt(prod), WrapHt(cons))
  {
    WordDistance(prod.head, cons.tail);
    WordDistance(prod.tail, cons.head);
  }

  /** Fewer than 2^32 - capacity elements are asked for in each call. */
  ghost predicate AskLittle<T>(c: Config, es: seq<Event<T>>) {
    forall k :: 0 <= k < |es| && es[k].Begin? ==> es[k].call.Max() < MODULUS - c.capacity
  }

  ghost predicate AllAskLittle<T>(c: Config, s: Ideal<T>) {
    forall t :: 0 <= t < |s.m.threads| ==> AsksLittle(c, s.m.threads[t])
  }

  predicate AsksLittle<T>(c: Config, p: Pc<T, Snap>) {
    p.Active() ==> p.call.Max() < MODULUS - c.capacity
  }

  lemma NextAsksLittle<T>(c: Config, s: Ideal<T>, e: Event<T>)
    requires s.m.Shaped(c) && c.size > 0 && AllAskLittle(c, s)
    requires e.Begin? ==> e.call.Max() < MODULUS - c.capacity
    ensures AllAskLittle(c, IdealNext(c, s, e))
  {
    if e.thread < |s.m.threads| {
      var t, s1 := e.thread, IdealNext(c, s, e);
      assert AsksLittle(c, s.m.threads[t]);
      ThreadAsksLittle(c, s, e);
      forall u | 0 <= u < |s.m.threads|
        ensures AsksLittle(c, s1.m.threads[u])
      {
        assert AsksLittle(c, s.m.threads[u]);
      }
    }
  }

  lemma ThreadAsksLittle<T>(c: Config, s: Ideal<T>, e: Event<T>)
    requires s.m.Shaped(c) && c.size > 0 && e.thread < |s.m.threads| && AsksLittle(c, s.m.threads[e.thread])
    requires e.Begin? ==> e.call.Max() < MODULUS - c.capacity
    ensures AsksLittle(c, IdealNext(c, s, e).m.threads[e.thread])
    ensures forall u :: 0 <= u < |s.m.threads| && u != e.thread ==>
              IdealNext(c, s, e).m.threads[u] == s.m.threads[u]
  {
  }

  ghost predicate Ordered(c: Config, prod: HeadTail, cons: HeadTail) {
    cons.tail <= cons.head <= prod.tail <= prod.head <= cons.tail + c.capacity && c.capacity < 0x8000_0000
  }

  lemma ProducerWords(c: Config, prod: HeadTail, cons: HeadTail, n: nat)
    requires Ordered(c, prod, cons) && n < MODULUS - c.capacity
    ensures WithinWords(c, WrapHt(prod.(head := prod.head + n)), WrapHt(cons))
            <==> n <= c.capacity + cons.tail - prod.head
  {
    WordDistance(prod.head + n, cons.tail);
    WordDistance(prod.tail, cons.head);
  }

  lemma ConsumerWords(c: Config, prod: HeadTail, cons: HeadTail, n: nat)
    requires Ordered(c, prod, cons) && n < MODULUS - c.capacity
    ensures WithinWords(c, WrapHt(prod), WrapHt(cons.(head := cons.head + n))) <==> n <= prod.tail - cons.head
  {
    WordDistance(prod.head, cons.tail);
    if n <= prod.tail - cons.head {
      WordDistance(prod.tail, cons.head + n);
    } else {
      WordDeficit(prod.tail, cons.head + n);
    }
  }

  lemma ClaimedWords<T>(c: Config, s: Ideal<T>, t: nat, p: Pc<T, Snap>)
    requires t < |s.m.threads| && p == s.m.threads[t] && p.Sized? && p.Shaped()
    requires ClaimsFrom(c, s, t) == s.m.Own(p.call.Side()).head
    ensures WrapState(Claim(c, s, t)).prod
            == WrapHt(if p.call.Enqueue? then s.m.prod.(head := s.m.prod.head + p.n) else s.m.prod)
    ensures WrapState(Claim(c, s, t)).cons
            == WrapHt(if p.call.Enqueue? then s.m.cons else s.m.cons.(head := s.m.cons.head + p.n))
  {
  }

  /** A claim that goes through takes the 32-bit ring past its capacity exactly if there was no
      room for it. */
  lemma ClaimStaysWithin<T>(c: Config, s: Ideal<T>, t: nat, p: Pc<T, Snap>)
    requires c.Valid() && Counters(c, s.View()) && t < |s.m.threads| && p == s.m.threads[t] && p.Sized?
    requires ThreadOk(c, s.View(), p) && p.n < MODULUS - c.capacity
    ensures Within(c, WrapState(Claim(c, s, t))) <==> p.n <= Unclaimed(c, s.View(), p.call.Side())
  {
    ClaimsFromHead(c, s, t);
    ClaimedWords(c, s, t, p);
    if p.call.Enqueue? {
      ProducerWords(c, s.m.prod, s.m.cons, p.n);
    } else {
      ConsumerWords(c, s.m.prod, s.m.cons, p.n);
    }
  }

  /** The 32-bit ring stays within its capacity throughout a schedule if and only if every claim
      that goes through finds room at that moment. */
  lemma {:induction false} WithinExactly<T>(c: Config, s: Ideal<T>, es: seq<Event<T>>)
    requires Inv(c, s) && AllAskLittle(c, s) && AskLittle(c, es)
    ensures WrapState(s).Shaped(c) && c.size > 0
    ensures StaysWithin(c, WrapState(s), es) <==> Roomy(c, WrapState(s), es)
    ensures AllAskLittle(c, IdealRun(c, s, es))
  {
    WrapShaped(c, s);
    if es == [] {
      InvIsWithin(c, s);
    } else {
      var before, e := es[..|es| - 1], es[|es| - 1];
      var s1 := IdealRun(c, s, before);
      WithinExactly(c, s, before);
      NextAsksLittle(c, s1, e);
      RunRefines(c, s, es);
      if Roomy(c, WrapState(s), before) {
        RoomyKeepsInv(c, s, before);
        NextIsWithin(c, s1, e);
      }
    }
  }

  lemma NextIsWithin<T>(c: Config, s: Ideal<T>, e: Event<T>)
    requires Inv(c, s) && AllAskLittle(c, s)
    ensures Within(c, WrapState(IdealNext(c, s, e))) <==> FindsRoom(c, WrapState(s), e)
  {
    RoomIsExact(c, s, e);
    if RoomyStep(c, s, e) {
      StepKeepsInv(c, s, e);
      InvIsWithin(c, IdealNext(c, s, e));
    } else {
      var t := e.thread;
      assert ThreadOk(c, s.View(), s.m.threads[t]) && AsksLittle(c, s.m.threads[t]);
      ClaimStaysWithin(c, s, t, s.m.threads[t]);
    }
  }
}
