/** The ring cannot get stuck: some claim can always advance, claims drain, and a failed
    compare-and-swap means that a rival got through. */
module RingProgress {
  import opened Words
  import opened Totals
  import opened RingProtocol
  import opened RingInvariant
  import opened RingRefinement

  /** The next step of thread `t` moves its claim forward: it copies, publishes, or passes the
      wait loop. */
  predicate CanMove<T>(s: Ideal<T>, t: nat)
    requires t < |s.m.threads|
  {
    var p := s.m.threads[t];
    p.Copying? || p.Publishing? || (p.Waiting? && Wrap(s.m.Own(p.call.Side()).tail) == Wrap(p.snap.lo))
  }

  /** The steps a claim still needs: its copies, the wait, and the tail store. */
  function StepsLeft<T>(p: Pc<T, Snap>): nat {
    if p.Copying? && p.i <= p.n then p.n - p.i + 2
    else if p.Waiting? then 2
    else if p.Publishing? then 1
    else 0
  }

  function WorkLeft<T>(s: Ideal<T>): nat {
    Total(s.m.threads, p => StepsLeft(p))
  }

  /** Deadlock freedom: if any claim is outstanding, one of the same side can advance. */
  lemma SomeClaimMoves<T>(c: Config, s: Ideal<T>, t: nat) returns (u: nat)
    requires Inv(c, s) && t < |s.m.threads| && s.m.threads[t].Claims()
    ensures u < |s.m.threads| && s.m.threads[u].ClaimsOn(s.m.threads[t].call.Side()) && CanMove(s, u)
  {
    var side := s.m.threads[t].call.Side();
    var own := s.m.Own(side);
    assert ThreadOk(c, s.View(), s.m.threads[t]);
    assert Continues(own.head, s.m.threads, side, own.tail);
    var v: nat :| StartsAt(s.m.threads, side, v, own.tail);
    u := v;
  }

  /** Every advancing step uses up at least one unit of the remaining work. */
  lemma MovingIsWork<T>(c: Config, s: Ideal<T>, t: nat)
    requires Inv(c, s) && t < |s.m.threads| && CanMove(s, t)
    ensures WorkLeft(IdealNext(c, s, Tick(t))) < WorkLeft(s)
  {
    var q := MoveUsesStep(c, s, t);
    TotalUpdate(s.m.threads, p => StepsLeft(p), t, q);
  }

  lemma MoveUsesStep<T>(c: Config, s: Ideal<T>, t: nat) returns (q: Pc<T, Snap>)
    requires s.m.Shaped(c) && c.size > 0 && t < |s.m.threads| && CanMove(s, t)
    ensures IdealNext(c, s, Tick(t)).m.threads == s.m.threads[t := q]
    ensures StepsLeft(q) < StepsLeft(s.m.threads[t])
  {
    q := IdealStep(c, s, t).m.threads[t];
  }

  /** Side `side` gains a claim at this event. */
  predicate ClaimsNow<T>(c: Config, s: Ideal<T>, e: Event<T>, side: Side) {
    && e.Tick? && e.thread < |s.m.threads| && s.m.threads[e.thread].Sized?
    && s.m.threads[e.thread].call.Side() == side && GoesThrough(c, s, e.thread)
  }

  predicate SomeClaim<T>(c: Config, s: Ideal<T>, e: Event<T>) {
    ClaimsNow(c, s, e, Producer) || ClaimsNow(c, s, e, Consumer)
  }

  /** Only a new claim adds work: everything else leaves the measure alone or lowers it. */
  lemma OnlyClaimsAddWork<T>(c: Config, s: Ideal<T>, e: Event<T>)
    requires Inv(c, s) && !SomeClaim(c, s, e)
    ensures WorkLeft(IdealNext(c, s, e)) <= WorkLeft(s)
  {
    if e.thread < |s.m.threads| {
      var t := e.thread;
      assert ThreadOk(c, s.View(), s.m.threads[t]);
      var q := NoNewWork(c, s, e);
      TotalUpdate(s.m.threads, p => StepsLeft(p), t, q);
    }
  }

  lemma NoNewWork<T>(c: Config, s: Ideal<T>, e: Event<T>) returns (q: Pc<T, Snap>)
    requires s.m.Shaped(c) && c.size > 0 && e.thread < |s.m.threads| && !SomeClaim(c, s, e)
    ensures IdealNext(c, s, e).m.threads == s.m.threads[e.thread := q]
    ensures StepsLeft(q) <= StepsLeft(s.m.threads[e.thread])
  {
    q := IdealNext(c, s, e).m.threads[e.thread];
  }

  /** The work that a new claim brings: its copies, the wait, and the tail store. */
  function NewWork<T>(c: Config, s: Ideal<T>, e: Event<T>): nat {
    if SomeClaim(c, s, e) then s.m.threads[e.thread].n + 2 else 0
  }

  lemma ClaimAddsWork<T>(c: Config, s: Ideal<T>, e: Event<T>)
    requires Inv(c, s) && SomeClaim(c, s, e)
    ensures WorkLeft(IdealNext(c, s, e)) == WorkLeft(s) + NewWork(c, s, e)
  {
    var t := e.thread;
    var q := IdealNext(c, s, e).m.threads[t];
    assert IdealNext(c, s, e).m.threads == s.m.threads[t := q];
    TotalUpdate(s.m.threads, p => StepsLeft(p), t, q);
  }

  /** The event moves a claim forward. */
  predicate Moves<T>(s: Ideal<T>, e: Event<T>) {
    e.Tick? && e.thread < |s.m.threads| && CanMove(s, e.thread)
  }

  /** How many events of the schedule do, and how much work its claims bring. */
  function CountMoves<T>(c: Config, s: Ideal<T>, es: seq<Event<T>>): nat
    requires s.m.Shaped(c) && c.size > 0
  {
    if es == [] then 0
    else
      var before := es[..|es| - 1];
      CountMoves(c, s, before) + (if Moves(IdealRun(c, s, before), es[|es| - 1]) then 1 else 0)
  }

  function AddedWork<T>(c: Config, s: Ideal<T>, es: seq<Event<T>>): nat
    requires s.m.Shaped(c) && c.size > 0
  {
    if es == [] then 0
    else
      var before := es[..|es| - 1];
      AddedWork(c, s, before) + NewWork(c, IdealRun(c, s, before), es[|es| - 1])
  }

  /** Over a whole schedule: the events that move claims forward are at most the work there was and
      the work that new claims brought, less what is left. */
  lemma {:induction false} MovesAreBounded<T>(c: Config, s: Ideal<T>, es: seq<Event<T>>)
    requires Inv(c, s) && RoomyRun(c, s, es)
    ensures CountMoves(c, s, es) + WorkLeft(IdealRun(c, s, es)) <= WorkLeft(s) + AddedWork(c, s, es)
  {
    if es != [] {
      var before, e := es[..|es| - 1], es[|es| - 1];
      MovesAreBounded(c, s, before);
      InvariantHolds(c, s, before);
      MoveIsPaid(c, IdealRun(c, s, before), e);
    }
  }

  /** No claim goes through in the schedule. */
  predicate ClaimFree<T>(c: Config, s: Ideal<T>, es: seq<Event<T>>)
    requires s.m.Shaped(c) && c.size > 0
  {
    es != [] ==>
      var before, e := es[..|es| - 1], es[|es| - 1];
      ClaimFree(c, s, before) && !SomeClaim(c, IdealRun(c, s, before), e)
  }

  lemma {:induction false} ClaimFreeAddsNothing<T>(c: Config, s: Ideal<T>, es: seq<Event<T>>)
    requires s.m.Shaped(c) && c.size > 0 && ClaimFree(c, s, es)
    ensures RoomyRun(c, s, es) && AddedWork(c, s, es) == 0
  {
    if es != [] {
      ClaimFreeAddsNothing(c, s, es[..|es| - 1]);
    }
  }

  /** Without a new claim at most `WorkLeft(s)` events move a claim, whatever else the threads do and
      however long the schedule is. */
  lemma MovesWithoutClaims<T>(c: Config, s: Ideal<T>, es: seq<Event<T>>)
    requires Inv(c, s) && ClaimFree(c, s, es)
    ensures CountMoves(c, s, es) + WorkLeft(IdealRun(c, s, es)) <= WorkLeft(s)
  {
    ClaimFreeAddsNothing(c, s, es);
    MovesAreBounded(c, s, es);
  }

  lemma MoveIsPaid<T>(c: Config, s: Ideal<T>, e: Event<T>)
    requires Inv(c, s)
    ensures (if Moves(s, e) then 1 else 0) + WorkLeft(IdealNext(c, s, e)) <= WorkLeft(s) + NewWork(c, s, e)
  {
    if Moves(s, e) {
      MovingIsWork(c, s, e.thread);
    } else if SomeClaim(c, s, e) {
      ClaimAddsWork(c, s, e);
    } else {
      OnlyClaimsAddWork(c, s, e);
    }
  }

  /** No claim is outstanding; every claimed index is published. */
  ghost predicate Drained<T>(s: Ideal<T>) {
    && (forall t :: 0 <= t < |s.m.threads| ==> !s.m.threads[t].Claims())
    && s.m.prod.head == s.m.prod.tail && s.m.cons.head == s.m.cons.tail
  }

  lemma NoClaimsIsDrained<T>(c: Config, s: Ideal<T>)
    requires Inv(c, s) && forall t :: 0 <= t < |s.m.threads| ==> !s.m.threads[t].Claims()
    ensures Drained(s)
  {
    assert Continues(s.m.prod.head, s.m.threads, Producer, s.m.prod.tail);
    assert Continues(s.m.cons.head, s.m.threads, Consumer, s.m.cons.tail);
  }

  /** A schedule of claim-advancing steps only. */
  ghost predicate Advancing<T>(c: Config, s: Ideal<T>, es: seq<Event<T>>)
    requires s.m.Shaped(c) && c.size > 0
  {
    es != [] ==>
      var before, e := es[..|es| - 1], es[|es| - 1];
      && Advancing(c, s, before)
      && e.Tick? && e.thread < |s.m.threads| && CanMove(IdealRun(c, s, before), e.thread)
  }

  /** From every reachable state the outstanding claims can finish by their own steps, without
      any other thread moving, within the measure. */
  lemma {:induction false} Drain<T>(c: Config, s: Ideal<T>, done: seq<Event<T>>) returns (es: seq<Event<T>>)
    requires Inv(c, s) && RoomyRun(c, s, done) && Advancing(c, s, done)
    ensures done <= es && |es| <= |done| + WorkLeft(IdealRun(c, s, done))
    ensures Advancing(c, s, es) && RoomyRun(c, s, es) && Drained(IdealRun(c, s, es))
    decreases WorkLeft(IdealRun(c, s, done))
  {
    InvariantHolds(c, s, done);
    var s1 := IdealRun(c, s, done);
    if t: nat :| t < |s1.m.threads| && s1.m.threads[t].Claims() {
      var u := SomeClaimMoves(c, s1, t);
      var more := done + [Tick(u)];
      assert more[..|more| - 1] == done && more[|more| - 1] == Tick(u);
      MovingIsWork(c, s1, u);
      es := Drain(c, s, more);
    } else {
      NoClaimsIsDrained(c, s1);
      es := done;
    }
  }

  /** The same for the 32-bit ring: in every state that a roomy schedule reaches, the claiming
      threads alone can bring both tails up to their heads. */
  lemma RealRingDrains<T>(c: Config, s: Ideal<T>) returns (es: seq<Event<T>>)
    requires Inv(c, s)
    ensures WrapState(s).Shaped(c)
    ensures Advancing(c, s, es) && |es| <= WorkLeft(s)
    ensures var m := RealRun(c, WrapState(s), es);
            && m.prod.head == m.prod.tail && m.cons.head == m.cons.tail
            && forall t :: 0 <= t < |m.threads| ==> !m.threads[t].Claims()
  {
    es := Drain(c, s, []);
    RunRefines(c, s, es);
  }

  // ------------------------------------------------------------ failed exchanges

  /** Thread `t` has read its own head, and the head is no longer what it read. */
  predicate Overtaken<T>(s: Ideal<T>, t: nat) {
    && t < |s.m.threads| && (s.m.threads[t].HeadRead? || s.m.threads[t].Sized?)
    && s.m.Own(s.m.threads[t].call.Side()).head != s.m.threads[t].snap.lo
  }

  /** Since thread `t` read its head, another thread's claim on the same side succeeded. */
  ghost predicate RivalAt<T>(c: Config, s: Ideal<T>, e: Event<T>, t: nat, side: Side) {
    && ClaimsNow(c, s, e, side) && e.thread != t && t < |s.m.threads|
    && (s.m.threads[t].HeadRead? || s.m.threads[t].Sized?) && s.m.threads[t].call.Side() == side
  }

  /** `p` and `q` belong to one attempt at a claim: the head has not been read again. */
  ghost predicate SameAttempt<T>(p: Pc<T, Snap>, q: Pc<T, Snap>) {
    (p.HeadRead? || p.Sized?) && (q.HeadRead? || q.Sized?) && q.call == p.call && q.snap.lo == p.snap.lo
  }

  /** The rival of event `i` is what has kept thread `t` behind ever since, in one attempt: before
      the event the head was the one that `t` had read, and after it never again. */
  ghost predicate BehindSince<T>(c: Config, s: Ideal<T>, es: seq<Event<T>>, t: nat, i: nat)
    requires s.m.Shaped(c) && c.size > 0 && t < |s.m.threads| && i < |es|
  {
    var p := IdealRun(c, s, es).m.threads[t];
    && !Overtaken(IdealAt(c, s, es, i), t) && SameAttempt(p, IdealAt(c, s, es, i).m.threads[t])
    && forall j :: i < j <= |es| ==>
         Overtaken(IdealAt(c, s, es, j), t) && SameAttempt(p, IdealAt(c, s, es, j).m.threads[t])
  }

  /** A compare-and-swap fails only if another thread claimed since the head was read, so some
      thread of the side always makes progress. */
  lemma {:induction false} FailureMeansRival<T>(c: Config, s: Ideal<T>, es: seq<Event<T>>, t: nat) returns (i: nat)
    requires s.m.Shaped(c) && c.size > 0 && t < |s.m.threads| && s.m.threads[t].Idle?
    requires Overtaken(IdealRun(c, s, es), t)
    ensures i < |es| && BehindSince(c, s, es, t, i)
    ensures RivalAt(c, IdealAt(c, s, es, i), es[i], t, IdealRun(c, s, es).m.threads[t].call.Side())
  {
    var before, e := es[..|es| - 1], es[|es| - 1];
    var s1 := IdealRun(c, s, before);
    OvertakenBefore(c, s1, e, t);
    if Overtaken(s1, t) {
      i := FailureMeansRival(c, s, before, t);
      AtPrefix(c, s, es, i);
      StillBehind(c, s, es, t, i);
    } else {
      i := |es| - 1;
      AtEnds(c, s, es);
      FirstBehind(c, s, es, t, i, s1, IdealRun(c, s, es));
    }
  }

  lemma FirstBehind<T>(c: Config, s: Ideal<T>, es: seq<Event<T>>, t: nat, i: nat, s1: Ideal<T>, s2: Ideal<T>)
    requires s.m.Shaped(c) && c.size > 0 && t < |s.m.threads| && i + 1 == |es|
    requires s1 == IdealAt(c, s, es, i) && s2 == IdealAt(c, s, es, i + 1) && s2 == IdealRun(c, s, es)
    requires |s1.m.threads| == |s.m.threads| == |s2.m.threads|
    requires !Overtaken(s1, t) && Overtaken(s2, t) && SameAttempt(s2.m.threads[t], s1.m.threads[t])
    ensures BehindSince(c, s, es, t, i)
  {
    forall j | i < j <= |es|
      ensures IdealAt(c, s, es, j) == s2
    {
      assert j == i + 1;
    }
  }

  lemma StillBehind<T>(c: Config, s: Ideal<T>, es: seq<Event<T>>, t: nat, i: nat)
    requires s.m.Shaped(c) && c.size > 0 && t < |s.m.threads| && i < |es| - 1
    requires BehindSince(c, s, es[..|es| - 1], t, i) && Overtaken(IdealRun(c, s, es), t)
    requires SameAttempt(IdealRun(c, s, es).m.threads[t], IdealRun(c, s, es[..|es| - 1]).m.threads[t])
    ensures BehindSince(c, s, es, t, i)
  {
    AtEnds(c, s, es);
    AtPrefix(c, s, es, i);
    forall j | i < j < |es|
      ensures IdealAt(c, s, es[..|es| - 1], j) == IdealAt(c, s, es, j)
    {
      AtPrefix(c, s, es, j);
    }
  }

  lemma OvertakenBefore<T>(c: Config, s: Ideal<T>, e: Event<T>, t: nat)
    requires s.m.Shaped(c) && c.size > 0 && t < |s.m.threads|
    requires Overtaken(IdealNext(c, s, e), t)
    ensures SameAttempt(IdealNext(c, s, e).m.threads[t], s.m.threads[t])
    ensures Overtaken(s, t) || RivalAt(c, s, e, t, s.m.threads[t].call.Side())
  {
  }

  ghost predicate SameRead<T>(p: Pc<T, Word>, q: Pc<T, Word>) {
    p.Sized? && (q.HeadRead? || q.Sized?) && q.call == p.call && q.snap == p.snap
  }

  /** In the 32-bit ring, at event `i`: the head is the one that thread `t` has read, and another
      thread's claim on the same side goes through; `t` has not read the head again since. */
  ghost predicate RealRivalAt<T>(c: Config, m0: Real<T>, es: seq<Event<T>>, t: nat, i: nat)
    requires m0.Shaped(c) && c.size > 0 && t < |m0.threads| && i < |es|
  {
    var p, m, u := RealRun(c, m0, es).threads[t], RealAt(c, m0, es, i), es[i].thread;
    && p.Sized? && u != t && u < |m0.threads|
    && m.threads[u].Sized? && m.threads[u].call.Side() == p.call.Side()
    && RealAt(c, m0, es, i + 1).threads[u].Copying?
    && m.Own(p.call.Side()).head == p.snap
    && forall j :: i <= j <= |es| ==> SameRead(p, RealAt(c, m0, es, j).threads[t])
  }

  /** In the 32-bit ring: when the exchange of thread `t` is about to fail, a rival has claimed
      since the head was read. */
  lemma RealFailureMeansRival<T>(c: Config, slots: seq<T>, threads: nat, es: seq<Event<T>>, t: nat) returns (i: nat)
    requires c.Valid() && c.size > 0 && |slots| == c.size && t < threads
    requires var m := RealRun(c, NewReal(slots, threads), es);
             m.threads[t].Sized? && m.Own(m.threads[t].call.Side()).head != m.threads[t].snap
    ensures i < |es| && RealRivalAt(c, NewReal(slots, threads), es, t, i)
  {
    var s0, m0 := NewIdeal(slots, threads), NewReal(slots, threads);
    InitInv(c, slots, threads);
    assert WrapState(s0) == m0;
    RunRefines(c, s0, es);
    i := FailureMeansRival(c, s0, es, t);
    RivalIsReal(c, s0, es, t, i);
  }

  lemma RivalIsReal<T>(c: Config, s: Ideal<T>, es: seq<Event<T>>, t: nat, i: nat)
    requires c.Valid() && s.m.Shaped(c) && c.size > 0 && t < |s.m.threads| && i < |es| && WrapState(s).Shaped(c)
    requires IdealRun(c, s, es).m.threads[t].Sized? && BehindSince(c, s, es, t, i)
    requires RivalAt(c, IdealAt(c, s, es, i), es[i], t, IdealRun(c, s, es).m.threads[t].call.Side())
    ensures RealRivalAt(c, WrapState(s), es, t, i)
  {
    var p := IdealRun(c, s, es).m.threads[t];
    RunRefines(c, s, es);
    RivalClaims(c, s, es, i);
    RivalStates(c, s, es, t, i, p.call.Side());
    forall j | i <= j <= |es|
      ensures SameRead(WrapPc(p), RealAt(c, WrapState(s), es, j).threads[t])
    {
      ReadAt(c, s, es, t, j, p);
    }
  }

  lemma RivalStates<T>(c: Config, s: Ideal<T>, es: seq<Event<T>>, t: nat, i: nat, side: Side)
    requires c.Valid() && s.m.Shaped(c) && c.size > 0 && t < |s.m.threads| && i < |es| && WrapState(s).Shaped(c)
    requires RivalAt(c, IdealAt(c, s, es, i), es[i], t, side) && !Overtaken(IdealAt(c, s, es, i), t)
    requires IdealAt(c, s, es, i + 1).m.threads[es[i].thread].Copying?
    ensures var (m, u) := (RealAt(c, WrapState(s), es, i), es[i].thread);
            && u != t && u < |s.m.threads| && m.threads[u].Sized? && m.threads[u].call.Side() == side
            && RealAt(c, WrapState(s), es, i + 1).threads[u].Copying?
            && m.Own(side).head == Wrap(IdealAt(c, s, es, i).m.threads[t].snap.lo)
  {
    RefinesAt(c, s, es, i);
    RefinesAt(c, s, es, i + 1);
  }

  lemma ReadAt<T>(c: Config, s: Ideal<T>, es: seq<Event<T>>, t: nat, j: nat, p: Pc<T, Snap>)
    requires c.Valid() && s.m.Shaped(c) && c.size > 0 && t < |s.m.threads| && j <= |es| && WrapState(s).Shaped(c)
    requires p.Sized? && SameAttempt(p, IdealAt(c, s, es, j).m.threads[t])
    ensures SameRead(WrapPc(p), RealAt(c, WrapState(s), es, j).threads[t])
  {
    RefinesAt(c, s, es, j);
  }

  /** The rival holds its claim after event `i`. */
  lemma RivalClaims<T>(c: Config, s: Ideal<T>, es: seq<Event<T>>, i: nat)
    requires s.m.Shaped(c) && c.size > 0 && i < |es| && es[i].thread < |s.m.threads|
    requires SomeClaim(c, IdealAt(c, s, es, i), es[i])
    ensures IdealAt(c, s, es, i + 1).m.threads[es[i].thread].Copying?
  {
    assert es[..i + 1][..i] == es[..i];
    assert IdealAt(c, s, es, i + 1) == IdealNext(c, IdealAt(c, s, es, i), es[i]);
  }
}
