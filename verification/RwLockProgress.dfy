/** What the reader/writer lock grants: readers side by side, a trylock that answers, calls that are
    not given up, and releases that undo what was acquired. */
module RwLockProgress {
  import Totals
  import opened RwLocks

  lemma OneMore<D>(s: Lock<D>, es: seq<Event<D>>, e: Event<D>)
    ensures Run(s, es + [e]) == Next(Run(s, es), e)
  {
    assert (es + [e])[..|es|] == es;
  }

  lemma {:induction false} RunKeepsSafe<D>(s: Lock<D>, es: seq<Event<D>>)
    requires Safe(s)
    ensures Safe(Run(s, es))
  {
    if es != [] {
      RunKeepsSafe(s, es[..|es| - 1]);
      NextKeepsSafe(Run(s, es[..|es| - 1]), es[|es| - 1]);
    }
  }

  // ------------------------------------------------------- threads that are left alone

  predicate AsksToRead<D>(p: Pc<D>) {
    p.ReadWait? || p.ReadSaw?
  }

  predicate AsksToWrite<D>(p: Pc<D>) {
    p.WriteWait? || p.WriteSaw?
  }

  ghost predicate NoWriter<D>(s: Lock<D>) {
    forall u :: 0 <= u < |s.threads| ==> !s.threads[u].Writing?
  }

  ghost predicate NoHolder<D>(s: Lock<D>) {
    forall u :: 0 <= u < |s.threads| ==> !s.threads[u].Reading? && !s.threads[u].Writing?
  }

  /** Thread `t` only takes steps, and nothing that the others do at the same time changes the
      lock word. */
  ghost predicate Undisturbed<D>(s: Lock<D>, es: seq<Event<D>>, t: nat) {
    es != [] ==>
      var before, e := es[..|es| - 1], es[|es| - 1];
      var s1 := Run(s, before);
      Undisturbed(s, before, t) && (e == Tick(t) || (e.thread != t && Next(s1, e).cnt == s1.cnt))
  }

  /** How many steps thread `t` takes. */
  ghost function OwnTicks<D>(es: seq<Event<D>>, t: nat): nat {
    if es == [] then 0 else OwnTicks(es[..|es| - 1], t) + (if es[|es| - 1] == Tick(t) then 1 else 0)
  }

  /** How many steps of its own a thread needs at most, while the word is `cnt`. */
  function Needs<D>(p: Pc<D>, cnt: Int32): (n: nat)
    ensures n <= 3
  {
    if p.ReadSaw? then (if p.x == cnt then 1 else if cnt < 0 then 2 else 3)
    else if p.ReadWait? then (if cnt < 0 then 1 else 2)
    else if p.WriteSaw? then 1
    else if p.WriteWait? then 2
    else 0
  }

  lemma OthersStay<D>(s: Lock<D>, e: Event<D>, t: nat)
    requires t < |s.threads| && e.thread != t
    ensures Next(s, e).threads[t] == s.threads[t]
  {
  }

  /** Without a writer the word counts the readers, and another one can be counted. */
  lemma WordOfReaders<D>(s: Lock<D>, t: nat)
    requires Safe(s) && t < |s.threads|
    ensures NoWriter(s) <==> s.cnt >= 0
    ensures s.cnt >= 0 ==> s.cnt == Readers(s)
    ensures s.cnt >= 0 && !s.threads[t].Reading? ==> Wrap32(s.cnt + 1) == s.cnt + 1
  {
    Totals.TotalZero(s.threads, WriteWeight<D>);
    Recount(s, t, Reading(s.data));
  }

  /** How far an undisturbed read call has come after some of its own steps: it has returned, or
      each step has used up one of those it needs. */
  ghost predicate ReadsOn<D>(cnt: Int32, cnt1: Int32, p: Pc<D>, p1: Pc<D>, ticks: nat) {
    var needs := Needs(p, cnt);
    AsksToRead(p) &&
    if p1.Reading? then cnt >= 0 && cnt1 == cnt + 1
    else if p1.Refused? then cnt < 0 && cnt1 == cnt && p.tryOnly
    else
      && AsksToRead(p1) && p1.tryOnly == p.tryOnly && cnt1 == cnt && (p1.ReadSaw? ==> p1.x >= 0)
      && Needs(p1, cnt) + ticks <= needs
  }

  lemma {:induction false} ReadGoesOn<D>(s: Lock<D>, es: seq<Event<D>>, t: nat)
    requires Safe(s) && t < |s.threads| && AsksToRead(s.threads[t]) && Undisturbed(s, es, t)
    requires s.cnt >= 0 || s.threads[t].tryOnly
    ensures ReadsOn(s.cnt, Run(s, es).cnt, s.threads[t], Run(s, es).threads[t], OwnTicks(es, t))
  {
    if es == [] {
      assert KnowsData(s, s.threads[t]);
    } else {
      var before, e := es[..|es| - 1], es[|es| - 1];
      var s1 := Run(s, before);
      ReadGoesOn(s, before, t);
      RunKeepsSafe(s, before);
      if e == Tick(t) {
        WordOfReaders(s1, t);
        ReadStep(s, s1, t, OwnTicks(before, t));
      } else {
        OthersStay(s1, e, t);
      }
    }
  }

  lemma ReadStep<D>(s: Lock<D>, s1: Lock<D>, t: nat, ticks: nat)
    requires t < |s.threads| == |s1.threads| && (s.cnt >= 0 || (AsksToRead(s.threads[t]) && s.threads[t].tryOnly))
    requires ReadsOn(s.cnt, s1.cnt, s.threads[t], s1.threads[t], ticks)
    requires s1.cnt >= 0 && !s1.threads[t].Reading? ==> Wrap32(s1.cnt + 1) == s1.cnt + 1
    ensures ReadsOn(s.cnt, Step(s1, t).cnt, s.threads[t], Step(s1, t).threads[t], ticks + 1)
  {
  }

  /** Readers do not exclude one another: with no writer a read call that nobody disturbs is in
      after three steps of its own, however many readers there are and however stale the value is
      that it has loaded, and it is counted. */
  lemma ReaderGetsIn<D>(s: Lock<D>, es: seq<Event<D>>, t: nat)
    requires Safe(s) && NoWriter(s) && t < |s.threads| && AsksToRead(s.threads[t])
    requires Undisturbed(s, es, t) && OwnTicks(es, t) >= 3
    ensures var s1 := Run(s, es);
            s1.threads[t] == Reading(s1.data) && s1.cnt == s.cnt + 1 && Readers(s1) == Readers(s) + 1
  {
    var s1 := Run(s, es);
    WordOfReaders(s, t);
    ReadGoesOn(s, es, t);
    RunKeepsSafe(s, es);
    WordOfReaders(s1, t);
    assert KnowsData(s1, s1.threads[t]);
  }

  /** A trylock that nobody disturbs answers after three steps of its own: it refuses exactly if
      a writer holds the lock. */
  lemma TrylockAnswers<D>(s: Lock<D>, es: seq<Event<D>>, t: nat)
    requires Safe(s) && t < |s.threads| && AsksToRead(s.threads[t]) && s.threads[t].tryOnly
    requires Undisturbed(s, es, t) && OwnTicks(es, t) >= 3
    ensures var p := Run(s, es).threads[t]; if NoWriter(s) then p.Reading? else p.Refused?
  {
    WordOfReaders(s, t);
    ReadGoesOn(s, es, t);
  }

  // ------------------------------------------------------------------------ writers

  lemma {:induction false} WriteGoesOn<D>(s: Lock<D>, es: seq<Event<D>>, t: nat)
    requires t < |s.threads| && AsksToWrite(s.threads[t]) && s.cnt == 0 && Undisturbed(s, es, t)
    ensures var (s1, p1) := (Run(s, es), Run(s, es).threads[t]);
            if p1.Writing? then s1.cnt == -1
            else s1.cnt == 0 && AsksToWrite(p1) && Needs(p1, 0) + OwnTicks(es, t) <= Needs(s.threads[t], 0)
  {
    if es != [] {
      var before, e := es[..|es| - 1], es[|es| - 1];
      WriteGoesOn(s, before, t);
      if e != Tick(t) {
        OthersStay(Run(s, before), e, t);
      }
    }
  }

  /** A write call that nobody disturbs takes a free lock within two steps of its own. */
  lemma WriterGetsIn<D>(s: Lock<D>, es: seq<Event<D>>, t: nat)
    requires Safe(s) && NoHolder(s) && t < |s.threads| && AsksToWrite(s.threads[t])
    requires Undisturbed(s, es, t) && OwnTicks(es, t) >= 2
    ensures Run(s, es).threads[t].Writing? && Run(s, es).cnt == -1
  {
    ReleasedIsZero(s);
    WriteGoesOn(s, es, t);
  }

  // ------------------------------------------------------------- what a thread keeps

  /** Where a thread can be that was at `p` and has neither begun nor released since: a holder
      holds on, a blocking call asks until it holds, and only a trylock can be refused. */
  ghost predicate Stays<D>(p: Pc<D>, p1: Pc<D>) {
    if AsksToRead(p) then
      (AsksToRead(p1) && p1.tryOnly == p.tryOnly) || p1.Reading? || (p.tryOnly && p1.Refused?)
    else if AsksToWrite(p) then AsksToWrite(p1) || p1.Writing?
    else p1 == p
  }

  lemma {:induction false} CallIsKept<D>(s: Lock<D>, es: seq<Event<D>>, t: nat)
    requires t < |s.threads|
    requires forall j :: 0 <= j < |es| && es[j].thread == t ==> es[j].Tick? || es[j].Store?
    ensures Stays(s.threads[t], Run(s, es).threads[t])
  {
    if es != [] {
      var before, e := es[..|es| - 1], es[|es| - 1];
      CallIsKept(s, before, t);
      if e.thread != t {
        OthersStay(Run(s, before), e, t);
      }
    }
  }

  /** A release takes its holder out, and nobody else. */
  lemma ReleaseTakesOut<D>(s: Lock<D>, t: nat)
    requires Safe(s) && t < |s.threads| && (s.threads[t].Reading? || s.threads[t].Writing?)
    ensures var s1 := Next(s, Unlock(t));
            && Safe(s1) && s1.threads == s.threads[t := Outside] && s1.data == s.data
            && Readers(s1) == Readers(s) - (if s.threads[t].Reading? then 1 else 0)
            && (s.threads[t].Writing? ==> NoHolder(s1))
  {
    UnlockKeepsSafe(s, t);
    Recount(s, t, Outside);
    Counted(s, t);
    ReleasedIsZero(Next(s, Unlock(t)));
  }

  // ---------------------------------------------------------------- whole sections

  /** A call of thread `t` that begins with `e` and takes `k` steps. */
  function Enters<D>(e: Event<D>, k: nat): seq<Event<D>> {
    if k == 0 then [e] else Enters(e, k - 1) + [Tick(e.thread)]
  }

  lemma EntersSteps<D>(s: Lock<D>, e: Event<D>)
    requires e.thread < |s.threads|
    ensures Run(s, Enters(e, 2)) == Step(Step(Next(s, e), e.thread), e.thread)
  {
    var t := e.thread;
    assert [e][..0] == [] && Run(s, Enters(e, 0)) == Next(s, e);
    OneMore(s, Enters(e, 0), Tick(t));
    OneMore(s, Enters(e, 1), Tick(t));
  }

  lemma GoneOn<D>(s: Lock<D>, t: nat, p: Pc<D>, q: Pc<D>)
    requires t < |s.threads|
    ensures s.Goto(t, p).Goto(t, q) == s.Goto(t, q)
  {
  }

  /** The two steps of a read call. */
  lemma TwoReadSteps<D>(s: Lock<D>, t: nat, tryOnly: bool)
    requires t < |s.threads| && s.cnt >= 0
    ensures Step(Step(s.Goto(t, ReadWait(tryOnly)), t), t) == s.Goto(t, Reading(s.data)).(cnt := Wrap32(s.cnt + 1))
  {
    GoneOn(s, t, ReadWait(tryOnly), ReadSaw(tryOnly, s.cnt));
    GoneOn(s, t, ReadSaw(tryOnly, s.cnt), Reading(s.data));
  }

  lemma TwoWriteSteps<D>(s: Lock<D>, t: nat)
    requires t < |s.threads| && s.cnt == 0
    ensures Step(Step(s.Goto(t, WriteWait), t), t) == s.Goto(t, Writing).(cnt := -1)
  {
    GoneOn(s, t, WriteWait, WriteSaw);
    GoneOn(s, t, WriteSaw, Writing);
  }

  lemma ReadRelease<D>(s: Lock<D>, s1: Lock<D>, t: nat)
    requires t < |s.threads| && Wrap32(s.cnt + 1) == s.cnt + 1
    requires s1 == s.Goto(t, Reading(s.data)).(cnt := s.cnt + 1)
    ensures Next(s1, Unlock(t)) == s.Goto(t, Outside)
  {
    GoneOn(s, t, Reading(s.data), Outside);
  }

  lemma WriteRelease<D>(s: Lock<D>, s1: Lock<D>, t: nat, value: D)
    requires t < |s.threads| && s.cnt == 0 && s1 == s.Goto(t, Writing).(cnt := -1)
    ensures Next(Next(s1, Store(t, value)), Unlock(t)) == s.Goto(t, Outside).(data := value)
  {
    GoneOn(s, t, Writing, Outside);
  }

  /** A read section beside any number of others: two steps lead in, everything else stays as it
      was, and the release undoes it. */
  lemma ReadSection<D>(s: Lock<D>, t: nat, tryOnly: bool, es: seq<Event<D>>)
    requires Safe(s) && NoWriter(s) && t < |s.threads| && (s.threads[t].Outside? || s.threads[t].Refused?)
    requires es == Enters(BeginRead(t, tryOnly), 2)
    ensures Wrap32(s.cnt + 1) == s.cnt + 1 && Run(s, es) == s.Goto(t, Reading(s.data)).(cnt := s.cnt + 1)
    ensures Run(s, es + [Unlock(t)]) == s.Goto(t, Outside)
  {
    WordOfReaders(s, t);
    EntersSteps(s, BeginRead(t, tryOnly));
    TwoReadSteps(s, t, tryOnly);
    OneMore(s, es, Unlock(t));
    ReadRelease(s, Run(s, es), t);
  }

  /** While a writer holds the lock, a trylock is refused and leaves the lock as it was. */
  lemma RefusedSection<D>(s: Lock<D>, t: nat)
    requires Safe(s) && !NoWriter(s) && t < |s.threads| && (s.threads[t].Outside? || s.threads[t].Refused?)
    ensures Run(s, Enters(BeginRead(t, true), 2)) == s.Goto(t, Refused)
  {
    WordOfReaders(s, t);
    EntersSteps(s, BeginRead(t, true));
    GoneOn(s, t, ReadWait(true), Refused);
  }

  /** A write section on a free lock: what it stores is all that is left of it. */
  lemma WriteSection<D>(s: Lock<D>, t: nat, value: D, es: seq<Event<D>>)
    requires Safe(s) && NoHolder(s) && t < |s.threads| && (s.threads[t].Outside? || s.threads[t].Refused?)
    requires es == Enters(BeginWrite(t), 2)
    ensures Run(s, es) == s.Goto(t, Writing).(cnt := -1)
    ensures Run(s, es + [Store(t, value)] + [Unlock(t)]) == s.Goto(t, Outside).(data := value)
  {
    ReleasedIsZero(s);
    EntersSteps(s, BeginWrite(t));
    TwoWriteSteps(s, t);
    OneMore(s, es, Store(t, value));
    OneMore(s, es + [Store(t, value)], Unlock(t));
    WriteRelease(s, Run(s, es), t, value);
  }
}
