/** What a call on the 32-bit ring is granted, on every schedule, and that it comes to its answer. */
module RingCalls {
  import opened Words
  import opened RingProtocol
  import opened RingQueue

  // --------------------------------------------------------------------- what is granted

  /** Of `seen` elements a call takes as many as it asks for; if there are fewer, it takes none in
      fixed mode and all of them in variable mode. */
  predicate Fair<T>(call: Call<T>, seen: nat, n: nat) {
    n == if call.Max() <= seen then call.Max() else if call.fixed then 0 else seen
  }

  predicate HasLooked<T>(p: Pc<T, Word>) {
    p.Sized? || p.Claims() || p.Finished?
  }

  /** How many elements, or how much room, the size computation of the call has seen: what the
      caller is told is left, and what it got. */
  function Seen<T>(p: Pc<T, Word>): nat
    requires HasLooked(p)
  {
    if p.Finished? then p.n + p.left else p.avail
  }

  predicate FairPc<T>(p: Pc<T, Word>) {
    HasLooked(p) ==> Seen(p) < MODULUS && Fair(p.call, Seen(p), p.n)
  }

  lemma FairLook<T>(c: Config, own: HeadTail, other: HeadTail, p: Pc<T, Word>)
    requires (p.Start? || p.HeadRead? || p.Waiting?) && FairPc(p)
    ensures FairPc(RealLook(c, own, other, p))
  {
  }

  /** What is left after `n` of `avail` elements. */
  lemma FairRest(avail: nat, n: nat)
    requires n <= avail < MODULUS
    ensures n + Wrap(avail - n) == avail
  {
  }

  lemma FairTick<T>(c: Config, m: Real<T>, t: nat)
    requires m.Shaped(c) && c.size > 0 && t < |m.threads| && FairPc(m.threads[t])
    ensures FairPc(RealStep(c, m, t).threads[t])
  {
    var p := m.threads[t];
    if p.Start? || p.HeadRead? || p.Waiting? {
      FairLook(c, m.Own(p.call.Side()), m.Other(p.call.Side()), p);
    } else if p.Publishing? {
      FairRest(p.avail, p.n);
    }
  }

  lemma FairStep<T>(c: Config, m: Real<T>, e: Event<T>, t: nat)
    requires m.Shaped(c) && c.size > 0 && t < |m.threads| && FairPc(m.threads[t])
    ensures FairPc(RealNext(c, m, e).threads[t])
  {
    if e == Tick(t) {
      FairTick(c, m, t);
    } else {
      OthersStay(c, m, e, t);
    }
  }

  /** An event that is not a step of thread `t` leaves it where it is, or starts a call. */
  lemma OthersStay<T>(c: Config, m: Real<T>, e: Event<T>, t: nat)
    requires m.Shaped(c) && c.size > 0 && t < |m.threads| && e != Tick(t)
    ensures var q := RealNext(c, m, e).threads[t];
            q == m.threads[t] || (e.Begin? && e.thread == t && q == Start(e.call))
  {
  }

  /** Whatever the schedule, what a call takes is settled by what it saw. */
  lemma {:induction false} ResultsAreFair<T>(c: Config, m: Real<T>, es: seq<Event<T>>, t: nat)
    requires m.Shaped(c) && c.size > 0 && t < |m.threads| && m.threads[t].Idle?
    ensures FairPc(RealRun(c, m, es).threads[t])
  {
    if es != [] {
      ResultsAreFair(c, m, es[..|es| - 1], t);
      FairStep(c, RealRun(c, m, es[..|es| - 1]), es[|es| - 1], t);
    }
  }

  /** `p` and `q` belong to the same call, and to the same look of it. */
  ghost predicate SameLook<T>(p: Pc<T, Word>, q: Pc<T, Word>) {
    HasLooked(p) && HasLooked(q) && p.call == q.call && Seen(p) == Seen(q)
  }

  /** Thread `t` has looked: it does so at this event, or it has looked before. */
  lemma LookedNow<T>(c: Config, m: Real<T>, e: Event<T>, t: nat)
    requires m.Shaped(c) && c.size > 0 && t < |m.threads| && FairPc(m.threads[t])
    requires HasLooked(RealNext(c, m, e).threads[t])
    ensures var (p, q) := (m.threads[t], RealNext(c, m, e).threads[t]);
            SameLook(q, p) || (LooksAt(m, e, t, q.call) && Seen(q) == Entries(c, m, t))
  {
    if e == Tick(t) {
      var p := m.threads[t];
      if p.Publishing? {
        FairRest(p.avail, p.n);
      }
    } else {
      OthersStay(c, m, e, t);
    }
  }

  /** Event `i` is the look of the call that thread `t` is in or has returned from: what it has seen
      is what a size computation sees there, and ever since it is this same look. */
  ghost predicate LookedAt<T>(c: Config, m: Real<T>, es: seq<Event<T>>, i: nat, t: nat)
    requires m.Shaped(c) && c.size > 0 && i < |es| && t < |m.threads|
  {
    var p, m1 := RealRun(c, m, es).threads[t], RealAt(c, m, es, i);
    && HasLooked(p) && LooksAt(m1, es[i], t, p.call) && Seen(p) == Entries(c, m1, t)
    && forall j :: i < j <= |es| ==> SameLook(p, RealAt(c, m, es, j).threads[t])
  }

  lemma RealPrefix<T>(c: Config, m: Real<T>, es: seq<Event<T>>, j: nat)
    requires m.Shaped(c) && c.size > 0 && j < |es|
    ensures RealAt(c, m, es[..|es| - 1], j) == RealAt(c, m, es, j)
  {
    assert es[..|es| - 1][..j] == es[..j];
  }

  lemma RealEnds<T>(c: Config, m: Real<T>, es: seq<Event<T>>)
    requires m.Shaped(c) && c.size > 0
    ensures RealAt(c, m, es, |es|) == RealRun(c, m, es)
    ensures es != [] ==> RealAt(c, m, es, |es| - 1) == RealRun(c, m, es[..|es| - 1])
  {
    assert es[..|es|] == es;
  }

  /** Every call that has looked has a look in the schedule. With `ResultsAreFair`: a call that has
      returned took what it asked for, or else nothing in fixed mode and all in variable mode, of
      what a size computation saw at an event of this very call; and the count left that it reports
      is the rest of that. */
  lemma {:induction false} ResultHasLook<T>(c: Config, m: Real<T>, es: seq<Event<T>>, t: nat) returns (i: nat)
    requires m.Shaped(c) && c.size > 0 && t < |m.threads| && m.threads[t].Idle?
    requires HasLooked(RealRun(c, m, es).threads[t])
    ensures i < |es| && LookedAt(c, m, es, i, t)
  {
    var before, e := es[..|es| - 1], es[|es| - 1];
    var m1 := RealRun(c, m, before);
    ResultsAreFair(c, m, before, t);
    LookedNow(c, m1, e, t);
    RealEnds(c, m, es);
    if SameLook(RealRun(c, m, es).threads[t], m1.threads[t]) {
      i := ResultHasLook(c, m, before, t);
      StillLooked(c, m, es, i, t);
    } else {
      i := |es| - 1;
      FirstLooked(c, m, es, i, t, m1, RealRun(c, m, es));
    }
  }

  lemma FirstLooked<T>(c: Config, m: Real<T>, es: seq<Event<T>>, i: nat, t: nat, m1: Real<T>, m2: Real<T>)
    requires m.Shaped(c) && c.size > 0 && i + 1 == |es| && t < |m.threads| == |m1.threads| == |m2.threads|
    requires m1 == RealAt(c, m, es, i) && m2 == RealAt(c, m, es, i + 1) && m2 == RealRun(c, m, es)
    requires HasLooked(m2.threads[t]) && LooksAt(m1, es[i], t, m2.threads[t].call)
    requires Seen(m2.threads[t]) == Entries(c, m1, t)
    ensures LookedAt(c, m, es, i, t)
  {
    forall j | i < j <= |es|
      ensures RealAt(c, m, es, j) == m2
    {
      assert j == i + 1;
    }
  }

  lemma StillLooked<T>(c: Config, m: Real<T>, es: seq<Event<T>>, i: nat, t: nat)
    requires m.Shaped(c) && c.size > 0 && i < |es| - 1 && t < |m.threads|
    requires LookedAt(c, m, es[..|es| - 1], i, t)
    requires SameLook(RealRun(c, m, es).threads[t], RealRun(c, m, es[..|es| - 1]).threads[t])
    ensures LookedAt(c, m, es, i, t)
  {
    RealPrefix(c, m, es, i);
    forall j | i < j <= |es|
      ensures SameLook(RealRun(c, m, es).threads[t], RealAt(c, m, es, j).threads[t])
    {
      LookStands(c, m, es, i, t, j);
    }
  }

  lemma LookStands<T>(c: Config, m: Real<T>, es: seq<Event<T>>, i: nat, t: nat, j: nat)
    requires m.Shaped(c) && c.size > 0 && i < |es| - 1 && t < |m.threads| && i < j <= |es|
    requires LookedAt(c, m, es[..|es| - 1], i, t)
    requires SameLook(RealRun(c, m, es).threads[t], RealRun(c, m, es[..|es| - 1]).threads[t])
    ensures SameLook(RealRun(c, m, es).threads[t], RealAt(c, m, es, j).threads[t])
  {
    if j == |es| {
      RealEnds(c, m, es);
    } else {
      RealPrefix(c, m, es, j);
    }
  }

  // ----------------------------------------------------------------- calls get somewhere

  /** Thread `t` takes steps, and nobody else moves the head of its side meanwhile. */
  ghost predicate Unrivalled<T>(c: Config, m: Real<T>, es: seq<Event<T>>, t: nat, side: Side)
    requires m.Shaped(c) && c.size > 0
  {
    es != [] ==>
      var before, e := es[..|es| - 1], es[|es| - 1];
      var m1 := RealRun(c, m, before);
      && Unrivalled(c, m, before, t, side)
      && (e == Tick(t) || (e.thread != t && RealNext(c, m1, e).Own(side).head == m1.Own(side).head))
  }

  ghost function OwnTicks<T>(es: seq<Event<T>>, t: nat): nat {
    if es == [] then 0 else OwnTicks(es[..|es| - 1], t) + (if es[|es| - 1] == Tick(t) then 1 else 0)
  }

  /** How many steps of its own a call needs at most to claim or to be refused, while the head is
      `head`: with a stale snapshot the exchange fails first, and the call starts over. */
  function Needs<T>(p: Pc<T, Word>, head: nat): (n: nat)
    ensures n <= 5
  {
    if p.Start? then 3
    else if p.HeadRead? then (if p.snap == head then 2 else 5)
    else if p.Sized? then (if p.snap == head then 1 else 4)
    else 0
  }

  /** The call has claimed or returned, or it has used up a step of those it needs for each it
      took. */
  ghost predicate GetsOn<T>(p: Pc<T, Word>, p1: Pc<T, Word>, head: nat, head1: nat, ticks: nat) {
    var needs := Needs(p, head);
    p1.Claims() || p1.Finished?
    || (&& p1.Active() && p.Active() && p1.call.Side() == p.call.Side()
        && head1 == head && Needs(p1, head) + ticks <= needs)
  }

  lemma GetOnStep<T>(c: Config, m: Real<T>, t: nat, p: Pc<T, Word>, head: Word, ticks: nat)
    requires m.Shaped(c) && c.size > 0 && t < |m.threads| && p.Active()
    requires GetsOn(p, m.threads[t], head, m.Own(p.call.Side()).head, ticks)
    ensures var m1 := RealStep(c, m, t); GetsOn(p, m1.threads[t], head, m1.Own(p.call.Side()).head, ticks + 1)
  {
  }

  lemma {:induction false} CallGetsOn<T>(c: Config, m: Real<T>, es: seq<Event<T>>, t: nat, p: Pc<T, Word>, head: Word)
    requires m.Shaped(c) && c.size > 0 && t < |m.threads| && p == m.threads[t] && p.Active() && !p.Claims()
    requires head == m.Own(p.call.Side()).head && Unrivalled(c, m, es, t, p.call.Side())
    ensures var m1 := RealRun(c, m, es);
            GetsOn(p, m1.threads[t], head, m1.Own(p.call.Side()).head, OwnTicks(es, t))
  {
    if es != [] {
      var before, e := es[..|es| - 1], es[|es| - 1];
      var m1 := RealRun(c, m, before);
      CallGetsOn(c, m, before, t, p, head);
      if e == Tick(t) {
        GetOnStep(c, m1, t, p, head, OwnTicks(before, t));
      } else {
        OthersStay(c, m1, e, t);
      }
    }
  }

  /** Obstruction freedom: from any state whatever, a call claims its elements or returns within five
      steps of its own, if meanwhile nobody else moves the head of its side. */
  lemma CallClaimsOrReturns<T>(c: Config, m: Real<T>, es: seq<Event<T>>, t: nat)
    requires m.Shaped(c) && c.size > 0 && t < |m.threads| && m.threads[t].Active() && !m.threads[t].Claims()
    requires m.Own(m.threads[t].call.Side()).head < MODULUS
    requires Unrivalled(c, m, es, t, m.threads[t].call.Side()) && OwnTicks(es, t) >= 5
    ensures var p := RealRun(c, m, es).threads[t]; p.Claims() || p.Finished?
  {
    CallGetsOn(c, m, es, t, m.threads[t], m.Own(m.threads[t].call.Side()).head);
  }
}
