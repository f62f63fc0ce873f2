/** What every schedule of the ideal ring machine keeps: the counter order, the tiling of
    outstanding claims, slot contents, and what each thread knows. */
module RingInvariant {
  import opened Words
  import opened RingProtocol

  /** cons.tail <= cons.head <= prod.tail <= prod.head <= cons.tail + capacity. */
  ghost predicate Counters<T>(c: Config, v: Shared<T>) {
    var (prod, cons) := (v.prod, v.cons);
    && 0 < c.size && c.capacity < c.size == |v.slots| && |v.log| == prod.head
    && cons.tail <= cons.head <= prod.tail <= prod.head <= cons.tail + c.capacity
  }

  /** How many elements a claiming thread has copied. */
  function Copied<T, S>(p: Pc<T, S>): nat
    requires p.Claims()
  {
    if p.Copying? then p.i else p.n
  }

  /** A claim lies inside its side's window; what it has copied so far agrees with the log. */
  ghost predicate ClaimOk<T>(c: Config, v: Shared<T>, p: Pc<T, Snap>)
    requires p.Claims() && p.Shaped() && Counters(c, v)
  {
    var own := v.Own(p.call.Side());
    var lo, hi := p.snap.lo, p.snap.lo + p.n;
    && p.n > 0 && p.n == Grant(p.call.Max(), p.avail, p.call.fixed)
    && own.tail <= lo && hi <= own.head
    && (c.Single(p.call.Side()) ==> own.tail == lo && own.head == hi)
    && (p.Publishing? ==> own.tail == lo)
    && (p.call.Enqueue? ==> v.log[lo..hi] == p.call.items[..p.n])
    && (p.call.Enqueue? ==> forall k :: lo <= k < lo + Copied(p) ==> v.slots[k % c.size] == v.log[k])
    && (p.call.Dequeue? ==> p.got == v.log[lo..lo + Copied(p)])
  }

  /** What a thread that has looked at its own head and the opposite tail knows. The head it
      read may be stale and the limit old, but the head was not above the limit. */
  ghost predicate LookOk<T>(c: Config, v: Shared<T>, p: Pc<T, Snap>)
    requires p.HeadRead? || p.Sized?
  {
    var own := v.Own(p.call.Side());
    && p.snap.lo <= own.head
    && (c.Single(p.call.Side()) ==> p.snap.lo == own.head)
    && (p.Sized? ==>
          && p.n == Grant(p.call.Max(), p.avail, p.call.fixed)
          && p.snap.lo <= p.snap.seen <= p.snap.limit && p.avail == Wrap(p.snap.limit - p.snap.lo)
          && p.snap.limit <= v.Limit(c, p.call.Side()))
  }

  /** What a returned call has established. */
  ghost predicate ResultOk<T>(c: Config, v: Shared<T>, p: Pc<T, Snap>)
    requires p.Finished? && Counters(c, v)
  {
    var lo, hi := p.snap.lo, p.snap.lo + p.n;
    && p.n <= p.call.Max() && (p.call.fixed && p.n > 0 ==> p.n == p.call.Max())
    && (p.n > 0 ==>
          && hi <= v.Own(p.call.Side()).tail
          && (p.call.Enqueue? ==> v.log[lo..hi] == p.call.items[..p.n])
          && (p.call.Dequeue? ==> p.got == v.log[lo..hi]))
  }

  ghost predicate ThreadOk<T>(c: Config, v: Shared<T>, p: Pc<T, Snap>)
    requires Counters(c, v)
  {
    var max := if p.Idle? then 0 else p.call.Max();
    && p.Shaped() && max < MODULUS
    && (p.HeadRead? || p.Sized? ==> LookOk(c, v, p))
    && (p.Claims() ==> ClaimOk(c, v, p))
    && (p.Finished? ==> ResultOk(c, v, p))
  }

  ghost predicate Threads<T>(c: Config, s: Ideal<T>)
    requires Counters(c, s.View())
  {
    forall t :: 0 <= t < |s.m.threads| ==> ThreadOk(c, s.View(), s.m.threads[t])
  }

  /** Two threads do not both run a call on a single side, and claim no index twice. */
  ghost predicate Apart<T>(c: Config, p: Pc<T, Snap>, q: Pc<T, Snap>) {
    p.Active() && q.Active() && p.call.Side() == q.call.Side() ==>
      && !c.Single(p.call.Side())
      && (p.Claims() && q.Claims() ==> p.snap.lo + p.n <= q.snap.lo || q.snap.lo + q.n <= p.snap.lo)
  }

  ghost predicate Disjoint<T>(c: Config, threads: seq<Pc<T, Snap>>) {
    forall t, u :: 0 <= t < |threads| && 0 <= u < |threads| && t != u ==> Apart(c, threads[t], threads[u])
  }

  ghost predicate StartsAt<T>(threads: seq<Pc<T, Snap>>, side: Side, u: nat, x: nat) {
    u < |threads| && threads[u].ClaimsOn(side) && threads[u].snap.lo == x
  }

  /** The head is at `x`, or some outstanding claim begins there. */
  ghost predicate Continues<T>(head: nat, threads: seq<Pc<T, Snap>>, side: Side, x: nat) {
    x == head || exists u :: StartsAt(threads, side, u, x)
  }

  /** The claim of thread `t`, if it has one, ends at the head or where another begins. */
  ghost predicate Followed<T>(head: nat, threads: seq<Pc<T, Snap>>, side: Side, t: nat)
    requires t < |threads|
  {
    threads[t].ClaimsOn(side) ==> Continues(head, threads, side, threads[t].snap.lo + threads[t].n)
  }

  /** Outstanding claims follow one another without a gap from the tail to the head. */
  ghost predicate Tiled<T>(ht: HeadTail, threads: seq<Pc<T, Snap>>, side: Side) {
    && Continues(ht.head, threads, side, ht.tail)
    && forall t :: 0 <= t < |threads| ==> Followed(ht.head, threads, side, t)
  }

  /** Every published, unconsumed index holds its logged value in its slot. */
  ghost predicate Stored<T>(c: Config, v: Shared<T>)
    requires Counters(c, v)
  {
    forall k :: v.cons.tail <= k < v.prod.tail ==> v.slots[k % c.size] == v.log[k]
  }

  ghost predicate Inv<T>(c: Config, s: Ideal<T>) {
    var v := s.View();
    && c.Valid()
    && s.m.Shaped(c)
    && Counters(c, v)
    && Threads(c, s)
    && Disjoint(c, s.m.threads)
    && Tiled(v.prod, s.m.threads, Producer) && Tiled(v.cons, s.m.threads, Consumer)
    && Stored(c, v)
  }

  lemma InitInv<T>(c: Config, slots: seq<T>, threads: nat)
    requires c.Valid() && |slots| == c.size
    ensures c.size > 0 && Inv(c, NewIdeal(slots, threads))
  {
    PowerDividesModulus(c.size);
  }

  // ------------------------------------------------------------- thread-list lemmas

  /** Thread `t` may become `q`: no new activity on its side, and the same claim if any. */
  ghost predicate MayBecome<T>(p: Pc<T, Snap>, q: Pc<T, Snap>) {
    && (q.Active() ==> p.Active() && q.call.Side() == p.call.Side())
    && (q.Claims() ==> p.Claims() && q.snap.lo == p.snap.lo && q.n == p.n)
  }

  lemma DisjointUpdate<T>(c: Config, threads: seq<Pc<T, Snap>>, t: nat, q: Pc<T, Snap>)
    requires t < |threads| && Disjoint(c, threads)
    requires MayBecome(threads[t], q)
    ensures Disjoint(c, threads[t := q])
  {
    var threads' := threads[t := q];
    forall u, v | 0 <= u < |threads| && 0 <= v < |threads| && u != v
      ensures Apart(c, threads'[u], threads'[v])
    {
      assert Apart(c, threads[u], threads[v]);
    }
  }

  /** A claim that stays in place, or no claim on this side before and after. */
  ghost predicate SameClaim<T>(p: Pc<T, Snap>, q: Pc<T, Snap>, side: Side) {
    && (p.ClaimsOn(side) <==> q.ClaimsOn(side))
    && (p.ClaimsOn(side) ==> p.snap.lo == q.snap.lo && p.n == q.n)
  }

  lemma TiledUpdate<T>(ht: HeadTail, threads: seq<Pc<T, Snap>>, side: Side, t: nat, q: Pc<T, Snap>)
    requires t < |threads| && Tiled(ht, threads, side)
    requires SameClaim(threads[t], q, side)
    ensures Tiled(ht, threads[t := q], side)
  {
    var threads' := threads[t := q];
    forall x | Continues(ht.head, threads, side, x)
      ensures Continues(ht.head, threads', side, x)
    {
      if x != ht.head {
        var u: nat :| StartsAt(threads, side, u, x);
        assert StartsAt(threads', side, u, x);
      }
    }
    forall u | 0 <= u < |threads|
      ensures Followed(ht.head, threads', side, u)
    {
      assert Followed(ht.head, threads, side, u);
    }
  }

  /** A new claim at the head extends the tiling. */
  lemma TiledClaim<T>(ht: HeadTail, threads: seq<Pc<T, Snap>>, side: Side, t: nat, q: Pc<T, Snap>)
    requires t < |threads| && Tiled(ht, threads, side)
    requires !threads[t].ClaimsOn(side) && q.ClaimsOn(side) && q.snap.lo == ht.head
    ensures Tiled(ht.(head := ht.head + q.n), threads[t := q], side)
  {
    var threads' := threads[t := q];
    var head' := ht.head + q.n;
    assert StartsAt(threads', side, t, ht.head);
    forall x | Continues(ht.head, threads, side, x)
      ensures Continues(head', threads', side, x)
    {
      if x != ht.head {
        var u: nat :| StartsAt(threads, side, u, x);
        assert StartsAt(threads', side, u, x);
      }
    }
    forall u | 0 <= u < |threads|
      ensures Followed(head', threads', side, u)
    {
      assert Followed(ht.head, threads, side, u);
    }
  }

  /** Publishing the claim at the tail shortens the tiling by that claim. */
  lemma TiledPublish<T>(ht: HeadTail, threads: seq<Pc<T, Snap>>, side: Side, t: nat, q: Pc<T, Snap>)
    requires t < |threads| && Tiled(ht, threads, side)
    requires threads[t].ClaimsOn(side) && threads[t].snap.lo == ht.tail && threads[t].n > 0
    requires !q.ClaimsOn(side)
    requires forall u :: 0 <= u < |threads| && threads[u].ClaimsOn(side) ==> ht.tail < threads[u].snap.lo + threads[u].n
    ensures Tiled(ht.(tail := ht.tail + threads[t].n), threads[t := q], side)
  {
    var threads' := threads[t := q];
    forall x | Continues(ht.head, threads, side, x) && x != ht.tail
      ensures Continues(ht.head, threads', side, x)
    {
      if x != ht.head {
        var u: nat :| StartsAt(threads, side, u, x);
        assert StartsAt(threads', side, u, x);
      }
    }
    assert Followed(ht.head, threads, side, t);
    forall u | 0 <= u < |threads|
      ensures Followed(ht.head, threads', side, u)
    {
      assert Followed(ht.head, threads, side, u);
    }
  }

  /** Puts the parts of the invariant together after thread `t` has become `q`. */
  lemma Assemble<T>(c: Config, s: Ideal<T>, s': Ideal<T>, t: nat, q: Pc<T, Snap>)
    requires c.Valid() && s.m.Shaped(c) && t < |s.m.threads| && s'.m.threads == s.m.threads[t := q]
    requires Counters(c, s'.View()) && ThreadOk(c, s'.View(), q)
    requires forall u :: 0 <= u < |s.m.threads| && u != t ==> ThreadOk(c, s'.View(), s.m.threads[u])
    requires Disjoint(c, s.m.threads[t := q])
    requires Tiled(s'.m.prod, s.m.threads[t := q], Producer)
    requires Tiled(s'.m.cons, s.m.threads[t := q], Consumer)
    requires Stored(c, s'.View())
    ensures Inv(c, s')
  {
  }

  // ------------------------------------------------- steps that move no counter

  /** Thread `t` moves to `q` and keeps its claim or has none. */
  lemma QuietStep<T>(c: Config, s: Ideal<T>, t: nat, q: Pc<T, Snap>, s': Ideal<T>)
    requires Inv(c, s) && t < |s.m.threads| && s' == s.Goto(t, q)
    requires ThreadOk(c, s.View(), q)
    requires MayBecome(s.m.threads[t], q) && (s.m.threads[t].Claims() ==> q.Claims())
    ensures Inv(c, s')
  {
    assert s'.View() == s.View();
    DisjointUpdate(c, s.m.threads, t, q);
    TiledUpdate(s.m.prod, s.m.threads, Producer, t, q);
    TiledUpdate(s.m.cons, s.m.threads, Consumer, t, q);
  }

  lemma BeginStep<T>(c: Config, s: Ideal<T>, t: nat, call: Call<T>)
    requires Inv(c, s) && t < |s.m.threads| && s.m.MayBegin(c, t, call)
    ensures Inv(c, s.Goto(t, Start(call)))
  {
    var s' := s.Goto(t, Start(call));
    assert s'.View() == s.View();
    TiledUpdate(s.m.prod, s.m.threads, Producer, t, Start(call));
    TiledUpdate(s.m.cons, s.m.threads, Consumer, t, Start(call));
    forall u, v | 0 <= u < |s.m.threads| && 0 <= v < |s.m.threads| && u != v
      ensures Apart(c, s'.m.threads[u], s'.m.threads[v])
    {
      assert Apart(c, s.m.threads[u], s.m.threads[v]);
      assert c.Single(call.Side()) ==> !s.m.threads[u].On(call.Side()) && !s.m.threads[v].On(call.Side());
    }
  }

  // ------------------------------------------------------------- claiming indices

  /** The shared state after side `side` claims `n` indices; producers log their values. */
  function Claimed<T>(v: Shared<T>, side: Side, items: seq<T>, n: nat): Shared<T> {
    if side.Producer? then v.(prod := v.prod.(head := v.prod.head + n), log := v.log + items)
    else v.(cons := v.cons.(head := v.cons.head + n))
  }

  /** A head that moves forward leaves every other thread's knowledge true. */
  lemma HeadGrows<T>(c: Config, v: Shared<T>, side: Side, items: seq<T>, n: nat, p: Pc<T, Snap>)
    requires Counters(c, v) && Counters(c, Claimed(v, side, items, n)) && ThreadOk(c, v, p)
    requires p.On(side) ==> !c.Single(side)
    ensures ThreadOk(c, Claimed(v, side, items, n), p)
  {
    if p.Claims() {
      HeadGrowsClaim(c, v, side, items, n, p);
    } else if p.Finished? && p.n > 0 {
      LogKept(v, side, items, n, p.snap.lo, p.snap.lo + p.n);
    }
  }

  lemma HeadGrowsClaim<T>(c: Config, v: Shared<T>, side: Side, items: seq<T>, n: nat, p: Pc<T, Snap>)
    requires Counters(c, v) && Counters(c, Claimed(v, side, items, n)) && p.Claims() && p.Shaped()
    requires ClaimOk(c, v, p)
    requires p.On(side) ==> !c.Single(side)
    ensures ClaimOk(c, Claimed(v, side, items, n), p)
  {
    LogKept(v, side, items, n, p.snap.lo, p.snap.lo + p.n);
    LogKept(v, side, items, n, p.snap.lo, p.snap.lo + Copied(p));
  }

  lemma LogKept<T>(v: Shared<T>, side: Side, items: seq<T>, n: nat, lo: nat, hi: nat)
    requires lo <= hi <= |v.log|
    ensures |v.log| <= |Claimed(v, side, items, n).log|
    ensures Claimed(v, side, items, n).log[lo..hi] == v.log[lo..hi]
    ensures forall k :: lo <= k < hi ==> Claimed(v, side, items, n).log[k] == v.log[k]
  {
  }

  function ClaimItems<T>(p: Pc<T, Snap>): seq<T>
    requires p.Sized? && p.Shaped()
  {
    if p.call.Enqueue? then p.call.items[..p.n] else []
  }

  /** How many elements a side could claim at this moment. */
  function Unclaimed<T>(c: Config, v: Shared<T>, side: Side): int {
    v.Limit(c, side) - v.Own(side).head
  }

  /** A claim that goes through at this event finds room for it, or elements, at this moment. */
  ghost predicate RoomyStep<T>(c: Config, s: Ideal<T>, e: Event<T>) {
    e.Tick? && e.thread < |s.m.threads| && s.m.threads[e.thread].Sized? && GoesThrough(c, s, e.thread) ==>
      s.m.threads[e.thread].n <= Unclaimed(c, s.View(), s.m.threads[e.thread].call.Side())
  }

  /** So does every claim of the schedule. */
  ghost predicate RoomyRun<T>(c: Config, s: Ideal<T>, es: seq<Event<T>>)
    requires s.m.Shaped(c) && c.size > 0
  {
    es != [] ==>
      var before, e := es[..|es| - 1], es[|es| - 1];
      RoomyRun(c, s, before) && RoomyStep(c, IdealRun(c, s, before), e)
  }

  lemma ClaimOwn<T>(c: Config, v: Shared<T>, v': Shared<T>, p: Pc<T, Snap>, q: Pc<T, Snap>)
    requires Counters(c, v) && ThreadOk(c, v, p) && p.Sized? && p.n <= Unclaimed(c, v, p.call.Side())
    requires q == Copying(p.call, p.snap.(lo := v.Own(p.call.Side()).head), p.avail, p.n, 0, [])
    requires c.Single(p.call.Side()) ==> v.Own(p.call.Side()).tail == v.Own(p.call.Side()).head
    requires v' == Claimed(v, p.call.Side(), ClaimItems(p), p.n)
    ensures Counters(c, v') && ThreadOk(c, v', q)
    ensures Stored(c, v) ==> Stored(c, v')
  {
    assert Counters(c, v');
    if p.call.Enqueue? {
      assert v'.log[q.snap.lo..q.snap.lo + p.n] == ClaimItems(p);
    }
    assert v'.log[q.snap.lo..q.snap.lo] == [];
  }

  /** On a single side without an outstanding claim the tail stands at the head. */
  lemma SingleTail<T>(c: Config, s: Ideal<T>, t: nat)
    requires Inv(c, s) && t < |s.m.threads| && s.m.threads[t].Sized? && c.Single(s.m.threads[t].call.Side())
    ensures s.m.Own(s.m.threads[t].call.Side()).tail == s.m.Own(s.m.threads[t].call.Side()).head
  {
    var side := s.m.threads[t].call.Side();
    var ht := s.m.Own(side);
    forall u | 0 <= u < |s.m.threads| && u != t
      ensures !s.m.threads[u].On(side)
    {
      assert Apart(c, s.m.threads[t], s.m.threads[u]);
    }
    assert Continues(ht.head, s.m.threads, side, ht.tail);
  }

  lemma ClaimThreads<T>(c: Config, s: Ideal<T>, t: nat, items: seq<T>, n: nat)
    requires t < |s.m.threads| && Counters(c, s.View()) && Threads(c, s) && Disjoint(c, s.m.threads)
    requires s.m.threads[t].Active() && Counters(c, Claimed(s.View(), s.m.threads[t].call.Side(), items, n))
    ensures forall u :: 0 <= u < |s.m.threads| && u != t ==>
              ThreadOk(c, Claimed(s.View(), s.m.threads[t].call.Side(), items, n), s.m.threads[u])
  {
    var side := s.m.threads[t].call.Side();
    forall u | 0 <= u < |s.m.threads| && u != t
      ensures ThreadOk(c, Claimed(s.View(), side, items, n), s.m.threads[u])
    {
      assert Apart(c, s.m.threads[t], s.m.threads[u]);
      HeadGrows(c, s.View(), side, items, n, s.m.threads[u]);
    }
  }

  /** Under the invariant a claim always starts at the head. */
  lemma ClaimsFromHead<T>(c: Config, s: Ideal<T>, t: nat)
    requires Counters(c, s.View()) && t < |s.m.threads| && s.m.threads[t].Sized?
    requires ThreadOk(c, s.View(), s.m.threads[t])
    ensures ClaimsFrom(c, s, t) == s.m.Own(s.m.threads[t].call.Side()).head
  {
  }

  /** Thread `t` with the claim that it is about to make. */
  function Claiming<T>(s: Ideal<T>, t: nat): Pc<T, Snap>
    requires t < |s.m.threads| && s.m.threads[t].Sized?
  {
    var p := s.m.threads[t];
    Copying(p.call, p.snap.(lo := s.m.Own(p.call.Side()).head), p.avail, p.n, 0, [])
  }

  lemma ClaimShape<T>(c: Config, s: Ideal<T>, t: nat)
    requires t < |s.m.threads| && s.m.threads[t].Sized? && s.m.threads[t].Shaped()
    requires ClaimsFrom(c, s, t) == s.m.Own(s.m.threads[t].call.Side()).head
    ensures var p := s.m.threads[t];
            && Claim(c, s, t).View() == Claimed(s.View(), p.call.Side(), ClaimItems(p), p.n)
            && Claim(c, s, t).m.threads == s.m.threads[t := Claiming(s, t)]
  {
  }

  lemma ClaimTiles<T>(c: Config, s: Ideal<T>, t: nat)
    requires t < |s.m.threads| && s.m.threads[t].Sized? && s.m.threads[t].Shaped()
    requires ClaimsFrom(c, s, t) == s.m.Own(s.m.threads[t].call.Side()).head
    requires Tiled(s.m.prod, s.m.threads, Producer) && Tiled(s.m.cons, s.m.threads, Consumer)
    ensures Tiled(Claim(c, s, t).m.prod, Claim(c, s, t).m.threads, Producer)
    ensures Tiled(Claim(c, s, t).m.cons, Claim(c, s, t).m.threads, Consumer)
  {
    ClaimTilesOn(c, s, t, Producer);
    ClaimTilesOn(c, s, t, Consumer);
  }

  lemma ClaimTilesOn<T>(c: Config, s: Ideal<T>, t: nat, side: Side)
    requires t < |s.m.threads| && s.m.threads[t].Sized? && s.m.threads[t].Shaped()
    requires ClaimsFrom(c, s, t) == s.m.Own(s.m.threads[t].call.Side()).head
    requires Tiled(s.m.Own(side), s.m.threads, side)
    ensures Tiled(Claim(c, s, t).m.Own(side), Claim(c, s, t).m.threads, side)
  {
    if side == s.m.threads[t].call.Side() {
      TiledClaim(s.m.Own(side), s.m.threads, side, t, Claiming(s, t));
    } else {
      TiledUpdate(s.m.Own(side), s.m.threads, side, t, Claiming(s, t));
    }
  }

  lemma ClaimStep<T>(c: Config, s: Ideal<T>, t: nat)
    requires Inv(c, s) && t < |s.m.threads| && s.m.threads[t].Sized?
    requires s.m.threads[t].n <= Unclaimed(c, s.View(), s.m.threads[t].call.Side())
    ensures Inv(c, Claim(c, s, t))
  {
    var p, q := s.m.threads[t], Claiming(s, t);
    assert ThreadOk(c, s.View(), p);
    if c.Single(p.call.Side()) {
      SingleTail(c, s, t);
    }
    ClaimsFromHead(c, s, t);
    ClaimOwn(c, s.View(), Claimed(s.View(), p.call.Side(), ClaimItems(p), p.n), p, q);
    ClaimThreads(c, s, t, ClaimItems(p), p.n);
    ClaimDisjoint(c, s, t, q);
    ClaimTiles(c, s, t);
    ClaimShape(c, s, t);
    Assemble(c, s, Claim(c, s, t), t, q);
  }

  lemma ClaimDisjoint<T>(c: Config, s: Ideal<T>, t: nat, q: Pc<T, Snap>)
    requires Inv(c, s) && t < |s.m.threads| && s.m.threads[t].Sized? && q.Copying?
    requires q.call == s.m.threads[t].call && q.snap.lo == s.m.Own(q.call.Side()).head
    ensures Disjoint(c, s.m.threads[t := q])
  {
    var threads' := s.m.threads[t := q];
    forall u, v | 0 <= u < |threads'| && 0 <= v < |threads'| && u != v
      ensures Apart(c, threads'[u], threads'[v])
    {
      assert Apart(c, s.m.threads[u], s.m.threads[v]);
      assert ThreadOk(c, s.View(), s.m.threads[u]) && ThreadOk(c, s.View(), s.m.threads[v]);
    }
  }

  // --------------------------------------------------------------------- copying

  /** Writing index `k` of an outstanding producer claim touches no other live index. */
  lemma WriteIsPrivate<T>(c: Config, v: Shared<T>, k: nat, j: nat)
    requires Counters(c, v)
    requires v.prod.tail <= k < v.prod.head
    requires v.cons.tail <= j < v.prod.head && j != k
    ensures j % c.size != k % c.size
  {
    if j < k {
      SlotInjective(j, k, c.size);
    } else {
      SlotInjective(k, j, c.size);
    }
  }

  /** The shared state after the logged value of index `at` is stored in its slot. */
  function Written<T>(c: Config, v: Shared<T>, at: nat): Shared<T>
    requires Counters(c, v) && at < |v.log|
  {
    v.(slots := v.slots[at % c.size := v.log[at]])
  }

  /** Storing the logged value of an unpublished index keeps stored and written values. */
  lemma WriteKeeps<T>(c: Config, v: Shared<T>, at: nat, p: Pc<T, Snap>)
    requires Counters(c, v) && v.prod.tail <= at < v.prod.head && ThreadOk(c, v, p)
    ensures ThreadOk(c, Written(c, v, at), p)
  {
    if p.Claims() && p.call.Enqueue? {
      forall k | p.snap.lo <= k < p.snap.lo + Copied(p) && k != at
        ensures k % c.size != at % c.size
      {
        WriteIsPrivate(c, v, at, k);
      }
    }
  }

  lemma WriteStored<T>(c: Config, v: Shared<T>, at: nat)
    requires Counters(c, v) && v.prod.tail <= at < v.prod.head && Stored(c, v)
    ensures Stored(c, Written(c, v, at))
  {
    forall k | v.cons.tail <= k < v.prod.tail
      ensures k % c.size != at % c.size
    {
      WriteIsPrivate(c, v, at, k);
    }
  }

  /** The copying thread itself, one element further. */
  lemma CopyOwn<T>(c: Config, v: Shared<T>, v': Shared<T>, p: Pc<T, Snap>, q: Pc<T, Snap>, at: nat)
    requires Counters(c, v) && ThreadOk(c, v, p) && p.Copying? && p.call.Enqueue? && at == p.snap.lo + p.i
    requires at < |v.log| && v' == Written(c, v, at)
    requires q == AfterCopy(c, p.call, p.snap, p.avail, p.n, p.i + 1, p.got)
    ensures ThreadOk(c, v', q) && MayBecome(p, q) && q.Claims()
  {
    forall k | p.snap.lo <= k < at
      ensures k % c.size != at % c.size
    {
      WriteIsPrivate(c, v, at, k);
    }
  }

  /** The value that is written is the one logged for its index. */
  lemma CopyLogged<T>(c: Config, v: Shared<T>, p: Pc<T, Snap>, at: nat)
    requires Counters(c, v) && ThreadOk(c, v, p) && p.Copying? && p.call.Enqueue? && at == p.snap.lo + p.i
    ensures v.prod.tail <= at < v.prod.head && p.call.items[p.i] == v.log[at]
  {
    var lo, hi := p.snap.lo, p.snap.lo + p.n;
    assert v.log[at] == v.log[lo..hi][p.i] == p.call.items[..p.n][p.i];
  }

  lemma TakeOwn<T>(c: Config, v: Shared<T>, p: Pc<T, Snap>, q: Pc<T, Snap>, x: T)
    requires Counters(c, v) && ThreadOk(c, v, p) && p.Copying? && p.call.Dequeue?
    requires p.snap.lo + p.i < |v.log| && x == v.log[p.snap.lo + p.i]
    requires q == AfterCopy(c, p.call, p.snap, p.avail, p.n, p.i + 1, p.got + [x])
    ensures ThreadOk(c, v, q) && MayBecome(p, q) && q.Claims()
  {
    var at := p.snap.lo + p.i;
    assert v.log[p.snap.lo..at + 1] == v.log[p.snap.lo..at] + [v.log[at]];
  }

  lemma WriteShape<T>(c: Config, s: Ideal<T>, t: nat, at: nat)
    requires Counters(c, s.View())
    requires t < |s.m.threads| && s.m.threads[t].Copying? && s.m.threads[t].Shaped()
    requires s.m.threads[t].call.Enqueue? && at == s.m.threads[t].snap.lo + s.m.threads[t].i < |s.log|
    requires s.m.threads[t].call.items[s.m.threads[t].i] == s.log[at]
    ensures var p := s.m.threads[t];
            && CopyOne(c, s, t).View() == Written(c, s.View(), at)
            && CopyOne(c, s, t).m.threads
               == s.m.threads[t := AfterCopy(c, p.call, p.snap, p.avail, p.n, p.i + 1, p.got)]
  {
  }

  lemma WriteStep<T>(c: Config, s: Ideal<T>, t: nat)
    requires Inv(c, s) && t < |s.m.threads| && s.m.threads[t].Copying? && s.m.threads[t].call.Enqueue?
    ensures Inv(c, CopyOne(c, s, t))
  {
    var p := s.m.threads[t];
    var at := p.snap.lo + p.i;
    var q := AfterCopy(c, p.call, p.snap, p.avail, p.n, p.i + 1, p.got);
    assert ThreadOk(c, s.View(), p);
    CopyLogged(c, s.View(), p, at);
    CopyOwn(c, s.View(), Written(c, s.View(), at), p, q, at);
    SameClaims(c, s, t, q);
    WriteThreads(c, s, at);
    WriteStored(c, s.View(), at);
    WriteShape(c, s, t, at);
    Assemble(c, s, CopyOne(c, s, t), t, q);
  }

  lemma WriteThreads<T>(c: Config, s: Ideal<T>, at: nat)
    requires Counters(c, s.View()) && Threads(c, s) && s.m.prod.tail <= at < s.m.prod.head
    ensures forall u :: 0 <= u < |s.m.threads| ==> ThreadOk(c, Written(c, s.View(), at), s.m.threads[u])
  {
    forall u | 0 <= u < |s.m.threads|
      ensures ThreadOk(c, Written(c, s.View(), at), s.m.threads[u])
    {
      WriteKeeps(c, s.View(), at, s.m.threads[u]);
    }
  }

  /** A consumer copies the logged value of the index it has reached. */
  lemma TakenValue<T>(c: Config, s: Ideal<T>, t: nat) returns (x: T)
    requires Counters(c, s.View()) && Threads(c, s) && Stored(c, s.View())
    requires t < |s.m.threads| && s.m.threads[t].Copying? && s.m.threads[t].call.Dequeue?
    ensures var p := s.m.threads[t];
            var q := AfterCopy(c, p.call, p.snap, p.avail, p.n, p.i + 1, p.got + [x]);
            && CopyOne(c, s, t) == s.Goto(t, q)
            && ThreadOk(c, s.View(), q) && MayBecome(p, q) && q.Claims()
  {
    var p := s.m.threads[t];
    var at := p.snap.lo + p.i;
    assert ThreadOk(c, s.View(), p);
    x := s.log[at];
    assert s.m.slots[at % c.size] == s.log[at];
    TakeOwn(c, s.View(), p, AfterCopy(c, p.call, p.snap, p.avail, p.n, p.i + 1, p.got + [x]), x);
  }

  lemma TakeStep<T>(c: Config, s: Ideal<T>, t: nat)
    requires Inv(c, s) && t < |s.m.threads| && s.m.threads[t].Copying? && s.m.threads[t].call.Dequeue?
    ensures Inv(c, CopyOne(c, s, t))
  {
    var p := s.m.threads[t];
    var x := TakenValue(c, s, t);
    var q := AfterCopy(c, p.call, p.snap, p.avail, p.n, p.i + 1, p.got + [x]);
    QuietStep(c, s, t, q, CopyOne(c, s, t));
  }

  lemma SameClaims<T>(c: Config, s: Ideal<T>, t: nat, q: Pc<T, Snap>)
    requires t < |s.m.threads| && Disjoint(c, s.m.threads)
    requires Tiled(s.m.prod, s.m.threads, Producer) && Tiled(s.m.cons, s.m.threads, Consumer)
    requires MayBecome(s.m.threads[t], q) && (s.m.threads[t].Claims() ==> q.Claims())
    ensures Disjoint(c, s.m.threads[t := q])
    ensures Tiled(s.m.prod, s.m.threads[t := q], Producer) && Tiled(s.m.cons, s.m.threads[t := q], Consumer)
  {
    DisjointUpdate(c, s.m.threads, t, q);
    TiledUpdate(s.m.prod, s.m.threads, Producer, t, q);
    TiledUpdate(s.m.cons, s.m.threads, Consumer, t, q);
  }

  // ------------------------------------------------------------------ publishing

  function Published<T>(v: Shared<T>, side: Side, tail: nat): Shared<T> {
    if side.Producer? then v.(prod := v.prod.(tail := tail)) else v.(cons := v.cons.(tail := tail))
  }

  function Result<T>(p: Pc<T, Snap>): Pc<T, Snap>
    requires p.Claims()
  {
    Finished(p.call, p.snap, p.n, Wrap(p.avail - p.n), p.got)
  }

  lemma PublishOwn<T>(c: Config, v: Shared<T>, p: Pc<T, Snap>)
    requires Counters(c, v) && ThreadOk(c, v, p) && p.Publishing?
    ensures var v' := Published(v, p.call.Side(), p.snap.lo + p.n);
            Counters(c, v') && ThreadOk(c, v', Result(p))
    ensures p.n > 0 && v.Own(p.call.Side()).tail == p.snap.lo
  {
  }

  /** The tail passes only the publisher's own claim, so every other claim stays above it. */
  lemma PublishKeeps<T>(c: Config, v: Shared<T>, v': Shared<T>, side: Side, tail: nat, q: Pc<T, Snap>)
    requires Counters(c, v) && ThreadOk(c, v, q)
    requires v.Own(side).tail <= tail && v' == Published(v, side, tail) && Counters(c, v')
    requires q.ClaimsOn(side) ==> tail <= q.snap.lo && !c.Single(side) && v.Own(side).tail < q.snap.lo
    ensures ThreadOk(c, v', q)
  {
    if q.Claims() {
      PublishKeepsClaim(c, v, side, tail, q);
    }
  }

  lemma PublishKeepsClaim<T>(c: Config, v: Shared<T>, side: Side, tail: nat, q: Pc<T, Snap>)
    requires Counters(c, v) && q.Claims() && q.Shaped() && ClaimOk(c, v, q)
    requires v.Own(side).tail <= tail && Counters(c, Published(v, side, tail))
    requires q.ClaimsOn(side) ==> tail <= q.snap.lo && !c.Single(side) && v.Own(side).tail < q.snap.lo
    ensures ClaimOk(c, Published(v, side, tail), q)
  {
  }

  lemma PublishOthers<T>(c: Config, s: Ideal<T>, t: nat, u: nat)
    requires Counters(c, s.View()) && Threads(c, s) && Disjoint(c, s.m.threads)
    requires t < |s.m.threads| && s.m.threads[t].Publishing? && u < |s.m.threads|
    requires u != t && s.m.threads[u].ClaimsOn(s.m.threads[t].call.Side())
    ensures var p := s.m.threads[t];
            && p.snap.lo + p.n <= s.m.threads[u].snap.lo && s.m.threads[u].n > 0
            && s.m.Own(p.call.Side()).tail < s.m.threads[u].snap.lo && !c.Single(p.call.Side())
  {
    assert ThreadOk(c, s.View(), s.m.threads[t]) && ThreadOk(c, s.View(), s.m.threads[u]);
    assert Apart(c, s.m.threads[t], s.m.threads[u]);
  }

  lemma PublishThreads<T>(c: Config, s: Ideal<T>, t: nat, v': Shared<T>)
    requires Counters(c, s.View()) && Threads(c, s) && Disjoint(c, s.m.threads)
    requires t < |s.m.threads| && s.m.threads[t].Publishing? && Counters(c, v')
    requires v' == Published(s.View(), s.m.threads[t].call.Side(), s.m.threads[t].snap.lo + s.m.threads[t].n)
    ensures forall u :: 0 <= u < |s.m.threads| && u != t ==> ThreadOk(c, v', s.m.threads[u])
  {
    forall u | 0 <= u < |s.m.threads| && u != t
      ensures ThreadOk(c, v', s.m.threads[u])
    {
      PublishOther(c, s, t, u, v');
    }
  }

  lemma PublishOther<T>(c: Config, s: Ideal<T>, t: nat, u: nat, v': Shared<T>)
    requires Counters(c, s.View()) && Threads(c, s) && Disjoint(c, s.m.threads)
    requires t < |s.m.threads| && s.m.threads[t].Publishing? && u < |s.m.threads| && u != t && Counters(c, v')
    requires v' == Published(s.View(), s.m.threads[t].call.Side(), s.m.threads[t].snap.lo + s.m.threads[t].n)
    ensures ThreadOk(c, v', s.m.threads[u])
  {
    var p, q := s.m.threads[t], s.m.threads[u];
    PublishOwn(c, s.View(), p);
    if q.ClaimsOn(p.call.Side()) {
      PublishOthers(c, s, t, u);
    }
    PublishKeeps(c, s.View(), v', p.call.Side(), p.snap.lo + p.n, q);
  }

  lemma PublishTiles<T>(c: Config, s: Ideal<T>, t: nat)
    requires Counters(c, s.View()) && Threads(c, s) && Disjoint(c, s.m.threads)
    requires t < |s.m.threads| && s.m.threads[t].Publishing?
    requires Tiled(s.m.prod, s.m.threads, Producer) && Tiled(s.m.cons, s.m.threads, Consumer)
    ensures Tiled(Publish(s, t).m.prod, Publish(s, t).m.threads, Producer)
    ensures Tiled(Publish(s, t).m.cons, Publish(s, t).m.threads, Consumer)
  {
    PublishTilesOn(c, s, t, Producer);
    PublishTilesOn(c, s, t, Consumer);
  }

  lemma PublishTilesOn<T>(c: Config, s: Ideal<T>, t: nat, side: Side)
    requires Counters(c, s.View()) && Threads(c, s) && Disjoint(c, s.m.threads)
    requires t < |s.m.threads| && s.m.threads[t].Publishing?
    requires Tiled(s.m.Own(side), s.m.threads, side)
    ensures Tiled(Publish(s, t).m.Own(side), Publish(s, t).m.threads, side)
  {
    var p := s.m.threads[t];
    if side == p.call.Side() {
      PublishOwn(c, s.View(), p);
      OthersAbove(c, s, t, side);
      TiledPublish(s.m.Own(side), s.m.threads, side, t, Result(p));
    } else {
      TiledUpdate(s.m.Own(side), s.m.threads, side, t, Result(p));
    }
  }

  lemma OthersAbove<T>(c: Config, s: Ideal<T>, t: nat, side: Side)
    requires Counters(c, s.View()) && Threads(c, s) && Disjoint(c, s.m.threads)
    requires t < |s.m.threads| && s.m.threads[t].Publishing? && side == s.m.threads[t].call.Side()
    ensures forall u :: 0 <= u < |s.m.threads| && s.m.threads[u].ClaimsOn(side) ==>
              s.m.Own(side).tail < s.m.threads[u].snap.lo + s.m.threads[u].n
  {
    PublishOwn(c, s.View(), s.m.threads[t]);
    forall u | 0 <= u < |s.m.threads| && s.m.threads[u].ClaimsOn(side) && u != t
      ensures s.m.Own(side).tail < s.m.threads[u].snap.lo + s.m.threads[u].n
    {
      PublishOthers(c, s, t, u);
    }
  }

  lemma PublishStored<T>(c: Config, v: Shared<T>, p: Pc<T, Snap>)
    requires Counters(c, v) && ThreadOk(c, v, p) && p.Publishing? && Stored(c, v)
    requires Counters(c, Published(v, p.call.Side(), p.snap.lo + p.n))
    ensures Stored(c, Published(v, p.call.Side(), p.snap.lo + p.n))
  {
  }

  lemma PublishShape<T>(s: Ideal<T>, t: nat)
    requires t < |s.m.threads| && s.m.threads[t].Publishing?
    ensures var p := s.m.threads[t];
            && Publish(s, t).View() == Published(s.View(), p.call.Side(), p.snap.lo + p.n)
            && Publish(s, t).m.threads == s.m.threads[t := Result(p)]
  {
  }

  lemma PublishStep<T>(c: Config, s: Ideal<T>, t: nat)
    requires Inv(c, s) && t < |s.m.threads| && s.m.threads[t].Publishing?
    ensures Inv(c, Publish(s, t))
  {
    var p := s.m.threads[t];
    assert ThreadOk(c, s.View(), p);
    PublishOwn(c, s.View(), p);
    PublishThreads(c, s, t, Published(s.View(), p.call.Side(), p.snap.lo + p.n));
    PublishStored(c, s.View(), p);
    DisjointUpdate(c, s.m.threads, t, Result(p));
    PublishTiles(c, s, t);
    PublishShape(s, t);
    Assemble(c, s, Publish(s, t), t, Result(p));
  }

  // ------------------------------------------------------------------ every step

  lemma LookStep<T>(c: Config, s: Ideal<T>, t: nat)
    requires Inv(c, s) && t < |s.m.threads|
    requires s.m.threads[t].Start? || s.m.threads[t].HeadRead? || s.m.threads[t].Waiting?
    ensures Inv(c, IdealStep(c, s, t))
  {
    var p := s.m.threads[t];
    var q := IdealLook(c, s.m.Own(p.call.Side()), s.m.Other(p.call.Side()), p);
    LookOwn(c, s.View(), p, q, s.m.Own(p.call.Side()), s.m.Other(p.call.Side()));
    QuietStep(c, s, t, q, IdealStep(c, s, t));
  }

  /** The word test of the wait loop decides whether all earlier claims are published. */
  lemma WaitIsExact<T>(c: Config, v: Shared<T>, p: Pc<T, Snap>)
    requires c.size <= 0x8000_0000 && Counters(c, v) && ThreadOk(c, v, p) && p.Waiting?
    ensures var tail := v.Own(p.call.Side()).tail;
            Wrap(tail) == Wrap(p.snap.lo) <==> tail == p.snap.lo
  {
    WrapInjective(v.Own(p.call.Side()).tail, p.snap.lo);
  }

  lemma LookOwn<T>(c: Config, v: Shared<T>, p: Pc<T, Snap>, q: Pc<T, Snap>, own: HeadTail, other: HeadTail)
    requires p.Start? || p.HeadRead? || p.Waiting?
    requires c.size <= 0x8000_0000 && Counters(c, v) && ThreadOk(c, v, p)
    requires own == v.Own(p.call.Side()) && other == (if p.call.Side().Producer? then v.cons else v.prod)
    requires q == IdealLook(c, own, other, p)
    ensures ThreadOk(c, v, q) && MayBecome(p, q) && (p.Claims() ==> q.Claims())
  {
    if p.Waiting? {
      WaitIsExact(c, v, p);
    }
  }

  lemma ClaimOrRetry<T>(c: Config, s: Ideal<T>, t: nat)
    requires Inv(c, s) && t < |s.m.threads| && s.m.threads[t].Sized? && RoomyStep(c, s, Tick(t))
    ensures Inv(c, IdealStep(c, s, t))
  {
    if GoesThrough(c, s, t) {
      ClaimStep(c, s, t);
    } else {
      assert ThreadOk(c, s.View(), s.m.threads[t]);
      QuietStep(c, s, t, Start(s.m.threads[t].call), IdealStep(c, s, t));
    }
  }

  lemma CopyStep<T>(c: Config, s: Ideal<T>, t: nat)
    requires Inv(c, s) && t < |s.m.threads| && s.m.threads[t].Copying?
    ensures Inv(c, IdealStep(c, s, t))
  {
    var p := s.m.threads[t];
    if p.call.Enqueue? {
      WriteStep(c, s, t);
    } else {
      TakeStep(c, s, t);
    }
  }

  lemma StepKeepsInv<T>(c: Config, s: Ideal<T>, e: Event<T>)
    requires Inv(c, s) && RoomyStep(c, s, e)
    ensures Inv(c, IdealNext(c, s, e))
  {
    if e.thread < |s.m.threads| {
      var t := e.thread;
      var p := s.m.threads[t];
      if e.Begin? {
        if s.m.MayBegin(c, t, e.call) {
          BeginStep(c, s, t, e.call);
        }
      } else if p.Start? || p.HeadRead? || p.Waiting? {
        LookStep(c, s, t);
      } else if p.Sized? {
        ClaimOrRetry(c, s, t);
      } else if p.Copying? {
        CopyStep(c, s, t);
      } else if p.Publishing? {
        PublishStep(c, s, t);
      }
    }
  }

  /** Every schedule of any number of threads in which each claim that goes through finds room
      keeps the invariant. */
  lemma {:induction false} InvariantHolds<T>(c: Config, s: Ideal<T>, es: seq<Event<T>>)
    requires Inv(c, s) && RoomyRun(c, s, es)
    ensures Inv(c, IdealRun(c, s, es))
  {
    if es != [] {
      InvariantHolds(c, s, es[..|es| - 1]);
      StepKeepsInv(c, IdealRun(c, s, es[..|es| - 1]), es[|es| - 1]);
    }
  }

  // ----------------------------------------------------------- the order of the counters

  /** The counters are in order and within the capacity, after every event of the schedule. */
  ghost predicate StaysOrdered<T>(c: Config, s: Ideal<T>, es: seq<Event<T>>)
    requires s.m.Shaped(c) && c.size > 0
  {
    && Counters(c, IdealRun(c, s, es).View())
    && (es != [] ==> StaysOrdered(c, s, es[..|es| - 1]))
  }

  /** They stay so if and only if every claim that goes through finds room at that moment. */
  lemma {:induction false} OrderExactly<T>(c: Config, s: Ideal<T>, es: seq<Event<T>>)
    requires Inv(c, s)
    ensures StaysOrdered(c, s, es) <==> RoomyRun(c, s, es)
  {
    if es != [] {
      var before, e := es[..|es| - 1], es[|es| - 1];
      OrderExactly(c, s, before);
      if RoomyRun(c, s, before) {
        var s1 := IdealRun(c, s, before);
        InvariantHolds(c, s, before);
        if RoomyStep(c, s1, e) {
          StepKeepsInv(c, s1, e);
        } else {
          assert ThreadOk(c, s1.View(), s1.m.threads[e.thread]);
          ClaimsFromHead(c, s1, e.thread);
          CrowdedClaim(c, s1, e.thread, s1.m.threads[e.thread]);
        }
      }
    }
  }

  lemma CrowdedClaim<T>(c: Config, s: Ideal<T>, t: nat, p: Pc<T, Snap>)
    requires t < |s.m.threads| && p == s.m.threads[t] && p.Sized? && p.Shaped()
    requires ClaimsFrom(c, s, t) == s.m.Own(p.call.Side()).head && p.n > Unclaimed(c, s.View(), p.call.Side())
    ensures !Counters(c, Claim(c, s, t).View())
  {
  }
}
