/** The reader/writer spin lock of rwlock.h: the lock word as one thread works on it, and a step
    machine for any number of threads. */
module RwLocks {
  import opened Totals

  const INT_MAX: int := 0x7FFF_FFFF

  type Int32 = x: int | -0x8000_0000 <= x <= 0x7FFF_FFFF

  /** What a signed 32-bit variable holds after `x` is stored in it. */
  function Wrap32(x: int): Int32 {
    (x + 0x8000_0000) % 0x1_0000_0000 - 0x8000_0000
  }

  class RwLock {
    /** -1 while a writer holds the lock, otherwise the number of readers. */
    var cnt: Int32

    constructor ()
      ensures cnt == 0
    {
      cnt := 0;
    }

    method AtomicCAS(expected: Int32, desired: Int32) returns (success: bool)
      modifies this
      ensures success == (old(cnt) == expected)
      ensures cnt == if success then desired else old(cnt)
    {
      success := cnt == expected;
      if success {
        cnt := desired;
      }
    }

    /** With no other thread at work the call returns only if no writer holds the lock. */
    method ReadLock()
      requires cnt >= 0
      modifies this
      ensures cnt == Wrap32(old(cnt) + 1)
    {
      var success := false;
      while !success
        invariant cnt == if success then Wrap32(old(cnt) + 1) else old(cnt)
        decreases !success
      {
        var x: int := cnt;
        if x >= 0 {
          success := AtomicCAS(x, Wrap32(x + 1));
        }
      }
    }

    method ReadTrylock() returns (acquired: bool)
      modifies this
      ensures acquired == (old(cnt) >= 0)
      ensures cnt == if acquired then Wrap32(old(cnt) + 1) else old(cnt)
    {
      var success := false;
      while !success
        invariant success ==> old(cnt) >= 0
        invariant cnt == if success then Wrap32(old(cnt) + 1) else old(cnt)
        decreases !success
      {
        var x: int := cnt;
        if x < 0 {
          return false;
        }
        success := AtomicCAS(x, Wrap32(x + 1));
      }
      return true;
    }

    method ReadUnlock()
      modifies this
      ensures cnt == Wrap32(old(cnt) - 1)
    {
      cnt := Wrap32(cnt - 1);
    }

    /** With no other thread at work the call returns only if the lock is free. */
    method WriteLock()
      requires cnt == 0
      modifies this
      ensures cnt == -1
    {
      var success := false;
      while !success
        invariant cnt == if success then -1 else 0
        decreases !success
      {
        var x := cnt;
        if x == 0 {
          success := AtomicCAS(0, -1);
        }
      }
    }

    method WriteUnlock()
      modifies this
      ensures cnt == Wrap32(old(cnt) + 1)
    {
      cnt := Wrap32(cnt + 1);
    }
  }

  // ---------------------------------------------------------------- the step machine

  /** Where a thread stands. `Saw` states hold the value loaded from the lock word; a reader
      remembers the protected data as it found it. */
  datatype Pc<D> =
    | Outside
    | ReadWait(tryOnly: bool)
    | ReadSaw(tryOnly: bool, x: Int32)
    | Reading(seen: D)
    | Refused
    | WriteWait
    | WriteSaw
    | Writing
  {
    predicate Waits() {
      ReadWait? || ReadSaw? || WriteWait? || WriteSaw?
    }
  }

  datatype Lock<D> = Lock(cnt: Int32, data: D, threads: seq<Pc<D>>) {
    function Goto(t: nat, pc: Pc<D>): Lock<D>
      requires t < |threads|
    {
      this.(threads := threads[t := pc])
    }
  }

  datatype Event<D> =
    | BeginRead(thread: nat, tryOnly: bool)
    | BeginWrite(thread: nat)
    | Tick(thread: nat)
    | Unlock(thread: nat)
    | Store(thread: nat, value: D)

  /** One load or one compare-and-swap of the acquiring loops. */
  function Step<D>(s: Lock<D>, t: nat): (s': Lock<D>)
    requires t < |s.threads|
    ensures |s'.threads| == |s.threads|
  {
    match s.threads[t]
    case ReadWait(tryOnly) =>
      if s.cnt >= 0 then s.Goto(t, ReadSaw(tryOnly, s.cnt))
      else if tryOnly then s.Goto(t, Refused)
      else s
    case ReadSaw(tryOnly, x) =>
      if s.cnt == x then s.(cnt := Wrap32(x + 1)).Goto(t, Reading(s.data)) else s.Goto(t, ReadWait(tryOnly))
    case WriteWait => if s.cnt == 0 then s.Goto(t, WriteSaw) else s
    case WriteSaw => if s.cnt == 0 then s.(cnt := -1).Goto(t, Writing) else s.Goto(t, WriteWait)
    case _ => s
  }

  /** Threads release only what they hold, and store only under the write lock. */
  function Next<D>(s: Lock<D>, e: Event<D>): (s': Lock<D>)
    ensures |s'.threads| == |s.threads|
  {
    if e.thread >= |s.threads| then s
    else
      var p := s.threads[e.thread];
      match e
      case BeginRead(t, tryOnly) => if p.Outside? || p.Refused? then s.Goto(t, ReadWait(tryOnly)) else s
      case BeginWrite(t) => if p.Outside? || p.Refused? then s.Goto(t, WriteWait) else s
      case Tick(t) => Step(s, t)
      case Unlock(t) =>
        if p.Reading? then s.(cnt := Wrap32(s.cnt - 1)).Goto(t, Outside)
        else if p.Writing? then s.(cnt := Wrap32(s.cnt + 1)).Goto(t, Outside)
        else s
      case Store(t, value) => if p.Writing? then s.(data := value) else s
  }

  function Run<D>(s: Lock<D>, es: seq<Event<D>>): (s': Lock<D>)
    ensures |s'.threads| == |s.threads|
  {
    if es == [] then s else Next(Run(s, es[..|es| - 1]), es[|es| - 1])
  }

  /** The state after the first `j` events. */
  function At<D>(s: Lock<D>, es: seq<Event<D>>, j: nat): (s': Lock<D>)
    requires j <= |es|
    ensures |s'.threads| == |s.threads|
  {
    Run(s, es[..j])
  }

  lemma AtPrefix<D>(s: Lock<D>, es: seq<Event<D>>, j: nat)
    requires j < |es|
    ensures At(s, es[..|es| - 1], j) == At(s, es, j)
  {
    assert es[..|es| - 1][..j] == es[..j];
  }

  lemma AtEnds<D>(s: Lock<D>, es: seq<Event<D>>)
    ensures At(s, es, |es|) == Run(s, es)
    ensures es != [] ==> At(s, es, |es| - 1) == Run(s, es[..|es| - 1])
  {
    assert es[..|es|] == es;
  }

  function NewLock<D>(data: D, threads: nat): Lock<D> {
    Lock(0, data, seq(threads, _ => Outside))
  }

  function ReadWeight<D>(p: Pc<D>): nat {
    if p.Reading? then 1 else 0
  }

  function WriteWeight<D>(p: Pc<D>): nat {
    if p.Writing? then 1 else 0
  }

  function Readers<D>(s: Lock<D>): nat {
    Total(s.threads, ReadWeight<D>)
  }

  function Writers<D>(s: Lock<D>): nat {
    Total(s.threads, WriteWeight<D>)
  }

  /** Either no writer and the word counts the readers, or one writer, no reader and -1. */
  ghost predicate Safe<D>(s: Lock<D>) {
    var (readers, writers) := (Readers(s), Writers(s));
    && |s.threads| <= INT_MAX
    && ((writers == 0 && s.cnt == readers) || (writers == 1 && readers == 0 && s.cnt == -1))
    && forall t :: 0 <= t < |s.threads| ==> KnowsData(s, s.threads[t])
  }

  /** A reader still finds the data as it was when the read section began. */
  ghost predicate KnowsData<D>(s: Lock<D>, p: Pc<D>) {
    && (p.Reading? ==> p.seen == s.data)
    && (p.ReadSaw? ==> p.x >= 0)
  }

  /** How a change of one thread's place changes the two counts. */
  lemma Recount<D>(s: Lock<D>, t: nat, q: Pc<D>)
    requires t < |s.threads|
    ensures Readers(s.Goto(t, q)) + (if s.threads[t].Reading? then 1 else 0)
            == Readers(s) + (if q.Reading? then 1 else 0)
    ensures Writers(s.Goto(t, q)) + (if s.threads[t].Writing? then 1 else 0)
            == Writers(s) + (if q.Writing? then 1 else 0)
    ensures Readers(s.Goto(t, q)) <= |s.threads|
  {
    TotalUpdate(s.threads, ReadWeight<D>, t, q);
    TotalUpdate(s.threads, WriteWeight<D>, t, q);
    TotalAtMost(s.Goto(t, q).threads, ReadWeight<D>);
  }

  lemma Counted<D>(s: Lock<D>, t: nat)
    requires t < |s.threads|
    ensures s.threads[t].Reading? ==> Readers(s) > 0
    ensures s.threads[t].Writing? ==> Writers(s) > 0
  {
    TotalBound(s.threads, ReadWeight<D>, t);
    TotalBound(s.threads, WriteWeight<D>, t);
  }

  lemma InitSafe<D>(data: D, threads: nat)
    requires threads <= INT_MAX
    ensures Safe(NewLock(data, threads))
  {
    var s := NewLock(data, threads);
    TotalZero(s.threads, ReadWeight<D>);
    TotalZero(s.threads, WriteWeight<D>);
  }

  /** Moving thread `t` to `q` with a new lock word that fits the new counts is safe. */
  lemma MoveSafe<D>(s: Lock<D>, t: nat, q: Pc<D>, cnt: Int32)
    requires Safe(s) && t < |s.threads| && KnowsData(s, q)
    requires var readers := Readers(s.Goto(t, q));
             var writers := Writers(s.Goto(t, q));
             (writers == 0 && cnt == readers) || (writers == 1 && readers == 0 && cnt == -1)
    ensures Safe(s.Goto(t, q).(cnt := cnt))
  {
    var s' := s.Goto(t, q).(cnt := cnt);
    forall u | 0 <= u < |s'.threads|
      ensures KnowsData(s', s'.threads[u])
    {
      assert KnowsData(s, s.threads[u]);
    }
  }

  lemma StepKeepsSafe<D>(s: Lock<D>, t: nat)
    requires Safe(s) && t < |s.threads|
    ensures Safe(Step(s, t))
  {
    assert KnowsData(s, s.threads[t]);
    var s' := Step(s, t);
    var q := s'.threads[t];
    assert s' == s.Goto(t, q).(cnt := s'.cnt);
    Recount(s, t, q);
    MoveSafe(s, t, q, s'.cnt);
  }

  lemma UnlockKeepsSafe<D>(s: Lock<D>, t: nat)
    requires Safe(s) && t < |s.threads|
    ensures Safe(Next(s, Unlock(t)))
  {
    var s' := Next(s, Unlock(t));
    Recount(s, t, Outside);
    Counted(s, t);
    if s.threads[t].Reading? || s.threads[t].Writing? {
      MoveSafe(s, t, Outside, s'.cnt);
    }
  }

  lemma StoreKeepsSafe<D>(s: Lock<D>, t: nat, value: D)
    requires Safe(s) && t < |s.threads|
    ensures Safe(Next(s, Store(t, value)))
  {
    if s.threads[t].Writing? {
      Counted(s, t);
      TotalZero(s.threads, ReadWeight<D>);
      var s' := Next(s, Store(t, value));
      assert Readers(s') == Readers(s) && Writers(s') == Writers(s);
      forall u | 0 <= u < |s'.threads|
        ensures KnowsData(s', s'.threads[u])
      {
        assert KnowsData(s, s.threads[u]);
      }
    }
  }

  lemma NextKeepsSafe<D>(s: Lock<D>, e: Event<D>)
    requires Safe(s)
    ensures Safe(Next(s, e))
  {
    if e.thread < |s.threads| {
      var t := e.thread;
      match e
      case BeginRead(_, tryOnly) =>
        Recount(s, t, ReadWait(tryOnly));
        if s.threads[t].Outside? || s.threads[t].Refused? {
          MoveSafe(s, t, ReadWait(tryOnly), s.cnt);
        }
      case BeginWrite(_) =>
        Recount(s, t, WriteWait);
        if s.threads[t].Outside? || s.threads[t].Refused? {
          MoveSafe(s, t, WriteWait, s.cnt);
        }
      case Tick(_) => StepKeepsSafe(s, t);
      case Unlock(_) => UnlockKeepsSafe(s, t);
      case Store(_, value) => StoreKeepsSafe(s, t, value);
    }
  }

  /** Every run of fewer than 2^31 threads excludes writers from readers and from one another,
      and no read section ever sees the data change. */
  lemma {:induction false} LockIsSafe<D>(data: D, threads: nat, es: seq<Event<D>>)
    requires threads <= INT_MAX
    ensures Safe(Run(NewLock(data, threads), es))
  {
    if es == [] {
      InitSafe(data, threads);
    } else {
      LockIsSafe(data, threads, es[..|es| - 1]);
      NextKeepsSafe(Run(NewLock(data, threads), es[..|es| - 1]), es[|es| - 1]);
    }
  }

  /** What safety means for any two threads: a writer is alone. */
  lemma WriterIsAlone<D>(s: Lock<D>, t: nat, u: nat)
    requires Safe(s) && t < |s.threads| && u < |s.threads| && t != u && s.threads[t].Writing?
    ensures !s.threads[u].Writing? && !s.threads[u].Reading?
  {
    Counted(s, t);
    Counted(s, u);
    Recount(s, t, Outside);
    Counted(s.Goto(t, Outside), u);
  }

  /** The bound on the threads is needed: one more reader than INT_MAX turns the word negative,
      as if a writer held the lock; below it the count is exact. */
  lemma ReaderCountFits(x: Int32)
    requires x >= 0
    ensures Wrap32(x + 1) == x + 1 <==> x < INT_MAX
    ensures x == INT_MAX ==> Wrap32(x + 1) < 0
  {
  }

  // ------------------------------------------------------------------- no deadlock

  /** Once every holder has released, the word is back to 0 ... */
  lemma ReleasedIsZero<D>(s: Lock<D>)
    requires Safe(s)
    ensures (forall t :: 0 <= t < |s.threads| ==> !s.threads[t].Reading? && !s.threads[t].Writing?) <==> s.cnt == 0
  {
    TotalZero(s.threads, ReadWeight<D>);
    TotalZero(s.threads, WriteWeight<D>);
  }

  /** ... and any waiting thread acquires the lock within three steps of its own, even if the
      value it loaded is stale. So in every reachable state with a waiting thread either some
      thread holds the lock or an acquire can succeed. */
  lemma FreeLockIsTaken<D>(s: Lock<D>, t: nat) returns (steps: nat)
    requires Safe(s) && t < |s.threads| && s.threads[t].Waits()
    requires forall u :: 0 <= u < |s.threads| ==> !s.threads[u].Reading? && !s.threads[u].Writing?
    ensures steps <= 3
    ensures var s' := Run(s, seq(steps, _ => Tick(t)));
            if s.threads[t].ReadWait? || s.threads[t].ReadSaw? then s'.threads[t].Reading? else s'.threads[t].Writing?
  {
    ReleasedIsZero(s);
    var s1 := Step(s, t);
    var s2 := Step(s1, t);
    RunTicks(s, t);
    steps := if s1.threads[t].Reading? || s1.threads[t].Writing? then 1
             else if s2.threads[t].Reading? || s2.threads[t].Writing? then 2
             else 3;
  }

  lemma RunTicks<D>(s: Lock<D>, t: nat)
    requires t < |s.threads|
    ensures Run(s, seq(1, _ => Tick(t))) == Step(s, t)
    ensures Run(s, seq(2, _ => Tick(t))) == Step(Step(s, t), t)
    ensures Run(s, seq(3, _ => Tick(t))) == Step(Step(Step(s, t), t), t)
  {
    var es: seq<Event<D>> := seq(3, _ => Tick(t));
    assert es[..2] == seq(2, _ => Tick(t)) && es[..2][..1] == seq(1, _ => Tick(t));
    assert es[..2][..1][..0] == [];
  }

  // --------------------------------------------------- failed exchanges and refusals

  /** The value thread `t` has loaded is no longer in the lock word: its exchange will fail. */
  predicate Stale<D>(s: Lock<D>, t: nat) {
    t < |s.threads| &&
    ((s.threads[t].ReadSaw? && s.cnt != s.threads[t].x) || (s.threads[t].WriteSaw? && s.cnt != 0))
  }

  /** Another thread changes the lock word while `t` sits between its load and its exchange. */
  predicate ChangedBy<D>(s: Lock<D>, e: Event<D>, t: nat) {
    t < |s.threads| && e.thread != t && Next(s, e).cnt != s.cnt
    && (s.threads[t].ReadSaw? || s.threads[t].WriteSaw?)
  }

  /** Since event `i` the value that `t` loaded has been stale, in one and the same attempt. */
  ghost predicate StaleSince<D>(s: Lock<D>, es: seq<Event<D>>, t: nat, i: nat)
    requires t < |s.threads| && i < |es|
  {
    var p := Run(s, es).threads[t];
    && !Stale(At(s, es, i), t) && At(s, es, i).threads[t] == p
    && forall j :: i < j <= |es| ==> Stale(At(s, es, j), t) && At(s, es, j).threads[t] == p
  }

  /** An exchange that is about to fail: another thread changed the word since the load, at an
      event before which the loaded value was current and after which it has been stale. */
  lemma {:induction false} FailureMeansChange<D>(s: Lock<D>, es: seq<Event<D>>, t: nat) returns (i: nat)
    requires t < |s.threads| && s.threads[t].Outside? && Stale(Run(s, es), t)
    ensures i < |es| && ChangedBy(At(s, es, i), es[i], t) && StaleSince(s, es, t, i)
  {
    var before := es[..|es| - 1];
    AtEnds(s, es);
    StaleStep(Run(s, before), es[|es| - 1], t);
    if Stale(Run(s, before), t) {
      i := FailureMeansChange(s, before, t);
      StillStale(s, es, t, i);
    } else {
      i := |es| - 1;
    }
  }

  /** The exchange is in sight before the event as after it. */
  lemma StaleStep<D>(s: Lock<D>, e: Event<D>, t: nat)
    requires t < |s.threads| && Stale(Next(s, e), t)
    ensures Next(s, e).threads[t] == s.threads[t]
    ensures Stale(s, t) || ChangedBy(s, e, t)
  {
  }

  lemma StillStale<D>(s: Lock<D>, es: seq<Event<D>>, t: nat, i: nat)
    requires t < |s.threads| && i < |es| - 1 && StaleSince(s, es[..|es| - 1], t, i)
    requires Stale(Run(s, es), t) && Run(s, es).threads[t] == Run(s, es[..|es| - 1]).threads[t]
    ensures StaleSince(s, es, t, i) && At(s, es[..|es| - 1], i) == At(s, es, i)
  {
    AtEnds(s, es);
    AtPrefix(s, es, i);
    forall j | i < j < |es|
      ensures At(s, es[..|es| - 1], j) == At(s, es, j)
    {
      AtPrefix(s, es, j);
    }
  }

  /** A trylock refuses only if a writer held the lock when it looked: at the event that ended
      this very call, after which it has stood refused. */
  lemma {:induction false} RefusalMeansWriter<D>(data: D, threads: nat, es: seq<Event<D>>, t: nat) returns (i: nat)
    requires threads <= INT_MAX && t < threads && Run(NewLock(data, threads), es).threads[t].Refused?
    ensures i < |es| && es[i] == Tick(t)
    ensures var s := At(NewLock(data, threads), es, i);
            s.threads[t] == ReadWait(true) && Writers(s) == 1
    ensures forall j :: i < j <= |es| ==> At(NewLock(data, threads), es, j).threads[t].Refused?
  {
    var before, s0 := es[..|es| - 1], NewLock(data, threads);
    var s := Run(s0, before);
    LockIsSafe(data, threads, before);
    AtEnds(s0, es);
    if s.threads[t].Refused? {
      i := RefusalMeansWriter(data, threads, before, t);
      AtPrefix(s0, es, i);
      forall j | i < j < |es|
        ensures At(s0, before, j) == At(s0, es, j)
      {
        AtPrefix(s0, es, j);
      }
    } else {
      i := |es| - 1;
    }
  }
}
