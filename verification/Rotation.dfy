/** When `checkRotate` takes packets, when it writes files, and when its time-outs fire. */
module Rotation {
  import opened Words
  import opened LogText

  // ---------------------------------------------------------- what leaves the ring

  /** A call empties the queue, or takes exactly its 2^26 oldest packets if there are more. */
  lemma TakesOldest<P>(line: P -> string, s: Logger<P>, now: Word, stamp: string) returns (taken: seq<P>)
    ensures var left := Check(line, s, now, stamp).queue;
            && taken + left == s.queue
            && if |s.queue| <= 0x400_0000 then left == [] else |taken| == 0x400_0000
    ensures Check(line, s, now, stamp).log.Text() == s.log.Text() + Concat(LinesOf(line, taken))
  {
    taken := s.queue[..s.BatchSize()];
    RotateConserves(s.rotateSize, stamp, s.log, LinesOf(line, taken), s.TimedOut(now));
  }

  lemma OneMoreOp<P>(line: P -> string, s: Logger<P>, ops: seq<Op<P>>, op: Op<P>)
    ensures RunOps(line, s, ops + [op]) == RunOp(line, RunOps(line, s, ops), op)
    ensures op.CheckRotate? ==> Accepted(line, s, ops + [op]) == Accepted(line, s, ops)
  {
    assert (ops + [op])[..|ops|] == ops;
  }

  /** After a call that finds at most 2^26 packets queued, the queue is empty and every line
      accepted so far has been logged. */
  lemma EverythingIsLogged<P>(line: P -> string, s: Logger<P>, ops: seq<Op<P>>, now: Word, stamp: string)
    requires |RunOps(line, s, ops).queue| <= 0x400_0000
    ensures var s1 := RunOps(line, s, ops + [CheckRotate(now, stamp)]);
            && s1.queue == []
            && s1.log.Text() == s.log.Text() + Concat(LinesOf(line, s.queue + Accepted(line, s, ops)))
  {
    var op := CheckRotate(now, stamp);
    OneMoreOp(line, s, ops, op);
    NothingIsLost(line, s, ops + [op]);
    var taken := TakesOldest(line, RunOps(line, s, ops), now, stamp);
    var text := RunOps(line, s, ops + [op]).log.Text();
    assert text + "" == text;
  }

  // ------------------------------------------------------------- the time-out file

  /** The pending text and all lines but the last stay within the limit. */
  predicate FitsOneFile(rotateSize: Word, pending: string, lines: seq<string>) {
    lines == [] || |pending| + |Concat(lines[..|lines| - 1])| <= rotateSize
  }

  /** The loop over `lines` has led from `l` to `l1`: it has written no file exactly if the text in
      front of the last line is within the limit. */
  ghost predicate FileIfNeeded(rotateSize: Word, l: Log, l1: Log, lines: seq<string>) {
    var fits := FitsOneFile(rotateSize, l.buf, lines);
    && l.files <= l1.files && l1.serial <= |lines| && l1.serial == |l1.files| - |l.files|
    && (l1.serial == 0 <==> fits)
    && (fits ==> l1.files == l.files && l1.buf == l.buf + Concat(lines))
  }

  lemma OneMoreFits(rotateSize: Word, pending: string, most: seq<string>, line: string)
    ensures FitsOneFile(rotateSize, pending, most + [line]) <==> |pending + Concat(most)| <= rotateSize
    ensures FitsOneFile(rotateSize, pending, most + [line]) ==> most == [] || FitsOneFile(rotateSize, pending, most)
    ensures pending + Concat(most + [line]) == pending + Concat(most) + line
  {
    assert (most + [line])[..|most|] == most;
    if most != [] {
      assert |Concat(most)| == |Concat(most[..|most| - 1])| + |most[|most| - 1]|;
    }
  }

  lemma FileStep(rotateSize: Word, stamp: string, l: Log, l1: Log, most: seq<string>, line: string)
    requires FileIfNeeded(rotateSize, l, l1, most) && |most| + 1 < MODULUS
    ensures FileIfNeeded(rotateSize, l, AddLine(rotateSize, stamp, l1, line), most + [line])
  {
    OneMoreFits(rotateSize, l.buf, most, line);
    assert |most + [line]| == |most| + 1;
  }

  lemma {:induction false} NoFileExactly(rotateSize: Word, stamp: string, l: Log, lines: seq<string>)
    requires l.serial == 0 && |lines| < MODULUS
    ensures FileIfNeeded(rotateSize, l, AddLines(rotateSize, stamp, l, lines), lines)
  {
    if lines == [] {
      assert l.buf + "" == l.buf;
    } else {
      var most, last := lines[..|lines| - 1], lines[|lines| - 1];
      NoFileExactly(rotateSize, stamp, l, most);
      FileStep(rotateSize, stamp, l, AddLines(rotateSize, stamp, l, most), most, last);
      assert most + [last] == lines;
    }
  }

  /** A time-out writes one file with everything that is pending and the whole batch, exactly if
      the text in front of the last line is within the limit; otherwise it leaves it at the files
      that the limit calls for, of which there is one at least. */
  lemma TimeOutFile(rotateSize: Word, longest: nat, stamp: string, l: Log, lines: seq<string>)
    requires Bounded(rotateSize, longest, l) && |lines| < MODULUS
    requires forall i :: 0 <= i < |lines| ==> |lines[i]| <= longest
    ensures var l1 := Rotate(rotateSize, stamp, l, lines, true);
            if FitsOneFile(rotateSize, l.buf, lines)
            then l1.buf == "" && l1.files == l.files + [File(stamp, 0, l.buf + Concat(lines))]
            else Grew(rotateSize, stamp, l, l1) && |l1.files| > |l.files|
  {
    var l0 := l.(serial := 0);
    NoFileExactly(rotateSize, stamp, l0, lines);
    AddLinesBound(rotateSize, longest, stamp, l0, lines);
  }

  /** Without a time-out a file is written exactly if that text is over the limit. */
  lemma SizeFile(rotateSize: Word, stamp: string, l: Log, lines: seq<string>)
    requires |lines| < MODULUS
    ensures Rotate(rotateSize, stamp, l, lines, false).files == l.files <==> FitsOneFile(rotateSize, l.buf, lines)
  {
    NoFileExactly(rotateSize, stamp, l.(serial := 0), lines);
  }

  /** After a time-out call that finds at most 2^26 packets queued and writes one file, every line
      accepted so far is in the files. */
  lemma TimeOutFlushes<P>(line: P -> string, s: Logger<P>, ops: seq<Op<P>>, now: Word, stamp: string,
                          s1: Logger<P>, s2: Logger<P>)
    requires s1 == RunOps(line, s, ops) && s2 == RunOps(line, s, ops + [CheckRotate(now, stamp)])
    requires |s1.queue| <= 0x400_0000 && Wrap(now - s1.startTime) > Wrap(s1.rotateCnt * s1.rotateCycle)
    requires FitsOneFile(s1.rotateSize, s1.log.buf, LinesOf(line, s1.queue))
    ensures s2.queue == [] && s2.log.buf == "" && |s2.log.files| == |s1.log.files| + 1
    ensures Texts(s2.log.files) == s.log.Text() + Concat(LinesOf(line, s.queue + Accepted(line, s, ops)))
  {
    OneMoreOp(line, s, ops, CheckRotate(now, stamp));
    EverythingIsLogged(line, s, ops, now, stamp);
    CheckWritesOne(line, s1, now, stamp);
    assert Texts(s2.log.files) + "" == Texts(s2.log.files);
  }

  lemma CheckWritesOne<P>(line: P -> string, s: Logger<P>, now: Word, stamp: string)
    requires |s.queue| <= 0x400_0000 && s.TimedOut(now)
    requires FitsOneFile(s.rotateSize, s.log.buf, LinesOf(line, s.queue))
    ensures var l1 := Check(line, s, now, stamp).log;
            l1.buf == "" && l1.files == s.log.files + [File(stamp, 0, s.log.buf + Concat(LinesOf(line, s.queue)))]
  {
    assert s.queue[..s.BatchSize()] == s.queue;
    NoFileExactly(s.rotateSize, stamp, s.log.(serial := 0), LinesOf(line, s.queue));
  }

  // ------------------------------------------------------------------ whole lines

  /** The text is made of the lines of packets. */
  ghost predicate IsLines<P(!new)>(line: P -> string, text: string) {
    exists ps: seq<P> :: text == Concat(LinesOf(line, ps))
  }

  /** No line is cut in two: every file, and the pending text, is made of whole lines. */
  ghost predicate Whole<P(!new)>(line: P -> string, l: Log) {
    && IsLines(line, l.buf)
    && forall i :: 0 <= i < |l.files| ==> IsLines(line, l.files[i].text)
  }

  lemma LinesJoin<P(!new)>(line: P -> string, text: string, p: P)
    requires IsLines(line, text)
    ensures IsLines(line, text + line(p)) && IsLines(line, "")
  {
    var ps: seq<P> :| text == Concat(LinesOf(line, ps));
    LinesOfAppend(line, ps, [p]);
    assert LinesOf(line, [p]) == [line(p)] && Concat([line(p)]) == "" + line(p) == line(p);
    assert text + line(p) == Concat(LinesOf(line, ps + [p]));
    assert LinesOf(line, []) == [] && "" == Concat(LinesOf(line, []));
  }

  lemma {:induction false} LoopKeepsWhole<P(!new)>(line: P -> string, rotateSize: Word, stamp: string,
                                                   l: Log, ps: seq<P>)
    requires Whole(line, l)
    ensures Whole(line, AddLines(rotateSize, stamp, l, LinesOf(line, ps)))
  {
    if ps == [] {
      assert LinesOf(line, ps) == [];
    } else {
      var most, p := ps[..|ps| - 1], ps[|ps| - 1];
      LoopKeepsWhole(line, rotateSize, stamp, l, most);
      OneMoreLine(line, rotateSize, stamp, l, most, p);
      assert ps == most + [p];
      var l1 := AddLines(rotateSize, stamp, l, LinesOf(line, most));
      LinesJoin(line, l1.buf, p);
      LinesJoin(line, "", p);
      assert "" + line(p) == line(p);
    }
  }

  lemma {:induction false} FilesHoldWholeLines<P(!new)>(line: P -> string, s: Logger<P>, ops: seq<Op<P>>)
    requires Whole(line, s.log)
    ensures Whole(line, RunOps(line, s, ops).log)
  {
    if ops != [] {
      var s1 := RunOps(line, s, ops[..|ops| - 1]);
      FilesHoldWholeLines(line, s, ops[..|ops| - 1]);
      match ops[|ops| - 1]
      case PushBack(_) =>
      case CheckRotate(now, stamp) =>
        LoopKeepsWhole(line, s1.rotateSize, stamp, s1.log.(serial := 0), s1.queue[..s1.BatchSize()]);
        assert LinesOf<P>(line, []) == [] && "" == Concat(LinesOf<P>(line, []));
    }
  }

  // ------------------------------------------------------------ when time-outs fire

  /** How many time-outs fire at calls that are made `elapsed` after the start: at most one at each
      call, the next one once that many whole cycles have gone by. */
  function Fired(cycle: nat, elapsed: seq<nat>): nat {
    if elapsed == [] then 0
    else
      var before := Fired(cycle, elapsed[..|elapsed| - 1]);
      if elapsed[|elapsed| - 1] > before * cycle then before + 1 else before
  }

  /** The times of the calls in a run, counted from the start. */
  function CallTimes<P>(start: Word, ops: seq<Op<P>>): seq<nat>
    requires forall k :: 0 <= k < |ops| && ops[k].CheckRotate? ==> start <= ops[k].now
  {
    if ops == [] then []
    else
      var last := ops[|ops| - 1];
      CallTimes(start, ops[..|ops| - 1]) + (if last.CheckRotate? then [last.now - start] else [])
  }

  /** On words the test is the one on unbounded numbers, at every time, exactly if the product fits in
      a word (or wraps to the largest word, so that it never fires); otherwise it fires too early at
      some time. */
  lemma TimeOutTestIsExact<P>(s: Logger<P>)
    ensures (forall now: Word :: s.TimedOut(now) <==> Wrap(now - s.startTime) > s.rotateCnt * s.rotateCycle)
            <==> s.rotateCnt * s.rotateCycle < MODULUS || Wrap(s.rotateCnt * s.rotateCycle) == MODULUS - 1
  {
    var product, late := s.rotateCnt * s.rotateCycle, Wrap(s.startTime - 1);
    if product < MODULUS {
      ModSmall(product, MODULUS);
    } else if Wrap(product) != MODULUS - 1 {
      assert Wrap(late - s.startTime) == MODULUS - 1;
      assert s.TimedOut(late);
    }
  }

  lemma ProductGrows(m: nat, n: nat, cycle: nat)
    requires m <= n
    ensures m * cycle <= n * cycle
  {
  }

  /** One more call, when the cycles of the `fired` time-outs so far fit in a word. */
  lemma CheckCounts<P>(line: P -> string, s: Logger<P>, now: Word, stamp: string, fired: nat)
    requires s.rotateCnt == Wrap(fired) && fired * s.rotateCycle < MODULUS && s.startTime <= now
    ensures s.TimedOut(now) <==> now - s.startTime > fired * s.rotateCycle
    ensures Check(line, s, now, stamp).rotateCnt
            == Wrap(if now - s.startTime > fired * s.rotateCycle then fired + 1 else fired)
  {
    if s.rotateCycle == 0 {
      assert s.rotateCnt * s.rotateCycle == 0 == fired * s.rotateCycle;
    } else {
      ProductGrows(1, s.rotateCycle, fired);
      assert fired == 1 * fired <= s.rotateCycle * fired;
      ModSmall(fired, MODULUS);
    }
    ModSmall(fired * s.rotateCycle, MODULUS);
    ModSmall(now - s.startTime, MODULUS);
  }

  lemma SettingsStay<P>(line: P -> string, s: Logger<P>, op: Op<P>)
    ensures var s1 := RunOp(line, s, op);
            && s1.startTime == s.startTime && s1.rotateCycle == s.rotateCycle
            && (op.PushBack? ==> s1.rotateCnt == s.rotateCnt)
  {
  }

  lemma OneMoreCall(cycle: nat, times: seq<nat>, d: nat)
    ensures Fired(cycle, times + [d])
            == if d > Fired(cycle, times) * cycle then Fired(cycle, times) + 1 else Fired(cycle, times)
    ensures Fired(cycle, times) * cycle <= Fired(cycle, times + [d]) * cycle
  {
    assert (times + [d])[..|times|] == times;
    ProductGrows(Fired(cycle, times), Fired(cycle, times + [d]), cycle);
  }

  /** The logger counts the time-outs that fire, as long as their cycles fit in a word. */
  lemma {:induction false} CountsTimeOuts<P>(line: P -> string, s: Logger<P>, ops: seq<Op<P>>)
    requires s.rotateCnt == 0
    requires forall k :: 0 <= k < |ops| && ops[k].CheckRotate? ==> s.startTime <= ops[k].now
    requires Fired(s.rotateCycle, CallTimes(s.startTime, ops)) * s.rotateCycle < MODULUS
    ensures var s1 := RunOps(line, s, ops);
            && s1.startTime == s.startTime && s1.rotateCycle == s.rotateCycle
            && s1.rotateCnt == Wrap(Fired(s.rotateCycle, CallTimes(s.startTime, ops)))
  {
    if ops != [] {
      var before, last := ops[..|ops| - 1], ops[|ops| - 1];
      var s1, times := RunOps(line, s, before), CallTimes(s.startTime, before);
      SettingsStay(line, s1, last);
      if last.CheckRotate? {
        OneMoreCall(s.rotateCycle, times, last.now - s.startTime);
        CountsTimeOuts(line, s, before);
        CheckCounts(line, s1, last.now, last.stamp, Fired(s.rotateCycle, times));
      } else {
        assert CallTimes(s.startTime, ops) == times + [] == times;
        CountsTimeOuts(line, s, before);
      }
    }
  }

  /** So the next call is a time-out exactly if more whole cycles have gone by than time-outs have
      fired, and then it writes a file. */
  lemma FiresWhenDue<P>(line: P -> string, longest: nat, s: Logger<P>, ops: seq<Op<P>>, now: Word, stamp: string)
    requires s.rotateCnt == 0 && s.startTime <= now
    requires forall k :: 0 <= k < |ops| && ops[k].CheckRotate? ==> s.startTime <= ops[k].now
    requires Fired(s.rotateCycle, CallTimes(s.startTime, ops)) * s.rotateCycle < MODULUS
    requires Bounded(s.rotateSize, longest, s.log) && forall p :: |line(p)| <= longest
    ensures var (s1, fired) := (RunOps(line, s, ops), Fired(s.rotateCycle, CallTimes(s.startTime, ops)));
            && (s1.TimedOut(now) <==> now - s.startTime > fired * s.rotateCycle)
            && (s1.TimedOut(now) ==>
                  |RunOps(line, s, ops + [CheckRotate(now, stamp)]).log.files| > |s1.log.files|)
  {
    var s1, fired := RunOps(line, s, ops), Fired(s.rotateCycle, CallTimes(s.startTime, ops));
    CountsTimeOuts(line, s, ops);
    CheckCounts(line, s1, now, stamp, fired);
    OneMoreOp(line, s, ops, CheckRotate(now, stamp));
    FilesStayBounded(line, longest, s, ops);
    var batch := LinesOf(line, s1.queue[..s1.BatchSize()]);
    RotateBound(s1.rotateSize, longest, stamp, s1.log, batch, s1.TimedOut(now));
  }

  ghost predicate InOrder(elapsed: seq<nat>) {
    forall i, j :: 0 <= i <= j < |elapsed| ==> elapsed[i] <= elapsed[j]
  }

  /** How many whole cycles have begun, the one that begins now not counted. */
  function Due(cycle: nat, elapsed: nat): nat
    requires cycle > 0
  {
    (elapsed + (cycle - 1)) / cycle
  }

  lemma DueExact(cycle: nat, elapsed: nat, n: nat)
    requires cycle > 0
    ensures elapsed > n * cycle <==> Due(cycle, elapsed) > n
  {
    var x := elapsed + (cycle - 1);
    var q := Due(cycle, elapsed);
    DivMod(x, cycle);
    if q > n {
      ProductGrows(n + 1, q, cycle);
      assert (n + 1) * cycle == n * cycle + cycle;
    } else {
      ProductGrows(q, n, cycle);
    }
  }

  lemma DueGrows(cycle: nat, e: nat, e1: nat)
    requires cycle > 0 && e <= e1
    ensures Due(cycle, e) <= Due(cycle, e1)
    ensures e1 <= e + cycle ==> Due(cycle, e1) <= Due(cycle, e) + 1
  {
    var (d, d1) := (Due(cycle, e), Due(cycle, e1));
    if d > 0 {
      DueExact(cycle, e, d - 1);
      DueExact(cycle, e1, d - 1);
    }
    if d1 > d + 1 {
      DueExact(cycle, e, d);
      DueExact(cycle, e1, d + 1);
      assert (d + 1) * cycle == d * cycle + cycle;
    }
  }

  /** How many time-outs there can be if the count has kept pace up to call `i` and every later call
      fires. */
  function Pace(cycle: nat, elapsed: seq<nat>, i: nat): nat
    requires cycle > 0 && i <= |elapsed|
  {
    (if i == 0 then 0 else Due(cycle, elapsed[i - 1])) + (|elapsed| - i)
  }

  /** The k-th time-out has fired exactly if none of these bounds is below k: the count is the least
      of them. */
  lemma {:induction false} FiredExactly(cycle: nat, elapsed: seq<nat>, k: nat)
    requires cycle > 0 && InOrder(elapsed)
    ensures Fired(cycle, elapsed) >= k <==> forall i :: 0 <= i <= |elapsed| ==> k <= Pace(cycle, elapsed, i)
  {
    if elapsed == [] {
      assert Pace(cycle, elapsed, 0) == 0;
    } else {
      var n := |elapsed| - 1;
      var before := elapsed[..n];
      assert forall i :: 0 <= i <= n ==> Pace(cycle, elapsed, i) == Pace(cycle, before, i) + 1;
      FiredStep(cycle, elapsed);
      if k > 0 {
        FiredExactly(cycle, before, k - 1);
      }
    }
  }

  /** The count is one more than before, but not more than is due. */
  lemma FiredStep(cycle: nat, elapsed: seq<nat>)
    requires cycle > 0 && InOrder(elapsed) && elapsed != []
    ensures var (before, due) := (Fired(cycle, elapsed[..|elapsed| - 1]), Due(cycle, elapsed[|elapsed| - 1]));
            Fired(cycle, elapsed) == if before + 1 <= due then before + 1 else due
    ensures Pace(cycle, elapsed, |elapsed|) == Due(cycle, elapsed[|elapsed| - 1])
  {
    var n := |elapsed| - 1;
    DueExact(cycle, elapsed[n], Fired(cycle, elapsed[..n]));
    FiredWithinDue(cycle, elapsed[..n], elapsed[n]);
  }

  lemma {:induction false} FiredWithinDue(cycle: nat, elapsed: seq<nat>, now: nat)
    requires cycle > 0 && InOrder(elapsed) && (elapsed != [] ==> elapsed[|elapsed| - 1] <= now)
    ensures Fired(cycle, elapsed) <= Due(cycle, now)
  {
    if elapsed != [] {
      var n := |elapsed| - 1;
      FiredWithinDue(cycle, elapsed[..n], elapsed[n]);
      DueExact(cycle, elapsed[n], Fired(cycle, elapsed[..n]));
      DueGrows(cycle, elapsed[n], now);
    }
  }

  /** With a call in every cycle the time-outs keep pace with the clock: the k-th fires at the first
      call that is made more than k - 1 cycles after the start. */
  lemma {:induction false} KeepsPace(cycle: nat, elapsed: seq<nat>)
    requires cycle > 0 && InOrder(elapsed) && elapsed != [] && elapsed[0] <= cycle
    requires forall j :: 0 < j < |elapsed| ==> elapsed[j] <= elapsed[j - 1] + cycle
    ensures Fired(cycle, elapsed) == Due(cycle, elapsed[|elapsed| - 1])
  {
    var n := |elapsed| - 1;
    FiredStep(cycle, elapsed);
    if n > 0 {
      KeepsPace(cycle, elapsed[..n]);
      DueGrows(cycle, elapsed[n - 1], elapsed[n]);
    } else {
      DueExact(cycle, elapsed[0], 1);
      assert elapsed[..0] == [];
    }
  }
}
