/** The class of logger.cpp over the ring, refined against `LogText`. */
module Loggers {
  import opened Words
  import opened LogText
  import opened Rotation
  import opened PacketLine
  import opened LineReader
  import opened BuffRings

  /** The size that `init` asks for is not rounded up. */
  lemma RequestedSize()
    ensures PowerOfTwo(2 * VECTOR_THRESHOLD)
  {
    PowersToThirtyTwo();
    assert Pow2(30) == 2 * Pow2(29) && Pow2(29) == 2 * Pow2(28) && Pow2(28) == 2 * Pow2(27);
    assert 2 * VECTOR_THRESHOLD == Pow2(27);
  }

  /** What `init` sets up. */
  function Initial(rotateSize: Word, rotateCycle: Word, now: Word): Logger<Packet> {
    Logger(rotateSize, rotateCycle, now, 2 * VECTOR_THRESHOLD - 1, 0, Log([], "", 0), [])
  }

  /** A logger's whole life: the files, the pending text and the lines of the queued packets are
      together the lines of the accepted packets in order, each once, and no file is longer than
      the rotation size plus one line. */
  lemma LoggerKeepsEveryLine(rotateSize: Word, rotateCycle: Word, now: Word, ops: seq<Op<Packet>>)
    ensures var s0 := Initial(rotateSize, rotateCycle, now);
            var s := RunOps(Line, s0, ops);
            && Texts(s.log.files) + s.log.buf + Concat(LinesOf(Line, s.queue))
               == Concat(LinesOf(Line, Accepted(Line, s0, ops)))
            && Bounded(rotateSize, LONGEST_LINE, s.log)
  {
    var s0 := Initial(rotateSize, rotateCycle, now);
    forall p: Packet
      ensures |Line(p)| <= LONGEST_LINE
    {
      LineLength(p);
    }
    NothingIsLost(Line, s0, ops);
    FilesStayBounded(Line, LONGEST_LINE, s0, ops);
    assert s0.queue + Accepted(Line, s0, ops) == Accepted(Line, s0, ops);
  }

  /** The log reads back: from the files and the pending text, and the lines of what is queued, the
      line reader gets exactly the accepted packets in order. */
  lemma LogReadsBack(rotateSize: Word, rotateCycle: Word, now: Word, ops: seq<Op<Packet>>,
                     s: Logger<Packet>, accepted: seq<Packet>)
    requires s == RunOps(Line, Initial(rotateSize, rotateCycle, now), ops)
    requires accepted == Accepted(Line, Initial(rotateSize, rotateCycle, now), ops)
    ensures ReadAll(Texts(s.log.files) + s.log.buf + Concat(LinesOf(Line, s.queue))) == Read(Got(accepted, ""))
  {
    LoggerKeepsEveryLine(rotateSize, rotateCycle, now, ops);
    LogReads(accepted);
  }

  /** After a call that finds at most 2^26 packets queued, it gets them from the files and the pending
      text alone. */
  lemma LoggedReadsBack(rotateSize: Word, rotateCycle: Word, now: Word, ops: seq<Op<Packet>>,
                        at: Word, stamp: string, s0: Logger<Packet>)
    requires s0 == Initial(rotateSize, rotateCycle, now) && |RunOps(Line, s0, ops).queue| <= 0x400_0000
    ensures var l := RunOps(Line, s0, ops + [CheckRotate(at, stamp)]).log;
            ReadAll(Texts(l.files) + l.buf) == Read(Got(Accepted(Line, s0, ops), ""))
  {
    EverythingIsLogged(Line, s0, ops, at, stamp);
    LogReads(Accepted(Line, s0, ops));
    assert s0.queue + Accepted(Line, s0, ops) == Accepted(Line, s0, ops);
    FromNothing(Concat(LinesOf(Line, Accepted(Line, s0, ops))), s0.log);
  }

  /** When the calls of a logger are time-outs, from its creation on and from the clock alone. */
  lemma LoggerTimesOut(rotateSize: Word, rotateCycle: Word, start: Word, ops: seq<Op<Packet>>,
                       now: Word, stamp: string, s: Logger<Packet>, fired: nat)
    requires start <= now && forall k :: 0 <= k < |ops| && ops[k].CheckRotate? ==> start <= ops[k].now
    requires s == RunOps(Line, Initial(rotateSize, rotateCycle, start), ops)
    requires fired == Fired(rotateCycle, CallTimes(start, ops)) && fired * rotateCycle < MODULUS
    ensures s.TimedOut(now) <==> now - start > fired * rotateCycle
    ensures s.TimedOut(now) ==> |Check(Line, s, now, stamp).log.files| > |s.log.files|
  {
    forall p: Packet
      ensures |Line(p)| <= LONGEST_LINE
    {
      LineLength(p);
    }
    FiresWhenDue(Line, LONGEST_LINE, Initial(rotateSize, rotateCycle, start), ops, now, stamp);
    OneMoreOp(Line, Initial(rotateSize, rotateCycle, start), ops, CheckRotate(now, stamp));
  }

  lemma FromNothing(text: string, l: Log)
    requires l == Log([], "", 0)
    ensures l.Text() + text == text
  {
  }

  class BasicBusinessLogger {
    const rotateSize: Word
    const rotateCycle: Word
    const startTime: Word
    const data: BuffRing<Packet>

    var rotateCnt: Word
    var fileGenTime: string
    var buf: string
    var serialCnt: Word

    /** The files on disk, in the order of their creation. */
    var files: seq<File>

    ghost predicate Valid()
      reads this, data, data.prod, data.cons, data.data
    {
      data.Valid() && !data.fixed
    }

    function CurrentLog(): Log
      reads this
    {
      Log(files, buf, serialCnt)
    }

    ghost function View(): Logger<Packet>
      reads this, data
    {
      Logger(rotateSize, rotateCycle, startTime, data.capacity, rotateCnt, CurrentLog(), data.contents)
    }

    /** `init`, at time `now`. */
    constructor (rotateSize: Word, rotateCycle: Word, now: Word)
      ensures Valid() && fresh(data) && fresh(data.prod) && fresh(data.cons) && fresh(data.data)
      ensures View() == Initial(rotateSize, rotateCycle, now)
    {
      RequestedSize();
      this.rotateSize, this.rotateCycle, this.startTime := rotateSize, rotateCycle, now;
      rotateCnt, fileGenTime, buf, serialCnt, files := 0, "", "", 0, [];
      data := new BuffRing<Packet>(2 * VECTOR_THRESHOLD, false, false, true);
    }

    /** Queues a packet; one that meets a full ring is dropped. */
    method PushBack(p: Packet)
      requires Valid()
      modifies data.prod, data.data, data`contents
      ensures Valid() && View() == Push(old(View()), p)
    {
      var taken, freeSpace := data.DoEnqueue([p], 1);
    }

    method MakeCsvLog(p: Packet)
      modifies `buf
      ensures buf == old(buf) + Line(p)
    {
      buf := buf + Line(p);
    }

    method OutputFile()
      modifies `buf, `files
      ensures CurrentLog() == Output(old(CurrentLog()), fileGenTime)
    {
      files := files + [File(fileGenTime, serialCnt, buf)];
      buf := "";
    }

    /** One turn of the rotation loop. */
    method LogPacket(p: Packet)
      modifies `buf, `files, `serialCnt
      ensures CurrentLog() == AddLine(rotateSize, fileGenTime, old(CurrentLog()), Line(p))
    {
      if |buf| > rotateSize {
        OutputFile();
        serialCnt := Wrap(serialCnt + 1);
      }
      MakeCsvLog(p);
    }

    /** `checkRotate` after its dequeue. */
    method LogBatch(batch: array<Packet>, howMuch: Word, stamp: string, isTimeOut: bool)
      requires howMuch <= batch.Length
      modifies `buf, `files, `serialCnt, `fileGenTime
      ensures CurrentLog()
              == Rotate(rotateSize, stamp, old(CurrentLog()), LinesOf(Line, batch[..howMuch]), isTimeOut)
    {
      serialCnt := 0;
      fileGenTime := stamp;
      ghost var log0 := CurrentLog();
      var i: Word := 0;
      while i < howMuch
        invariant i <= howMuch && fileGenTime == stamp
        invariant CurrentLog() == AddLines(rotateSize, stamp, log0, LinesOf(Line, batch[..i]))
      {
        OneMoreLine(Line, rotateSize, stamp, log0, batch[..i], batch[i]);
        assert batch[..i + 1] == batch[..i] + [batch[i]];
        LogPacket(batch[i]);
        i := i + 1;
      }
      if isTimeOut && serialCnt == 0 {
        OutputFile();
      }
    }

    /** The oldest packets, as many as fit the batch array. */
    method TakeBatch() returns (batch: array<Packet>, howMuch: Word)
      requires Valid()
      modifies data.cons, data`contents
      ensures Valid() && fresh(batch)
      ensures howMuch == old(View()).BatchSize() && howMuch <= batch.Length
      ensures data.contents == [] || howMuch == VECTOR_THRESHOLD
      ensures batch[..howMuch] == old(data.contents)[..howMuch] && data.contents == old(data.contents)[howMuch..]
    {
      batch := new Packet[VECTOR_THRESHOLD];
      var available;
      howMuch, available := data.DoDequeue(batch, VECTOR_THRESHOLD);
    }

    /** Logs the queued packets. `now` and `stamp` are what the clock says; the caller must find
        the condition of logger.cpp:260 true. */
    method CheckRotate(now: Word, stamp: string)
      requires Valid() && View().Triggered(now)
      modifies this, data.cons, data`contents
      ensures Valid() && View() == Check(Line, old(View()), now, stamp)
    {
      var isTimeOut := false;
      if Wrap(now - startTime) > Wrap(rotateCnt * rotateCycle) {
        isTimeOut := true;
        rotateCnt := Wrap(rotateCnt + 1);
      }
      ghost var s0 := old(View());
      assert isTimeOut == s0.TimedOut(now);
      var batch := new Packet[0];
      var howMuch: Word := 0;
      if isTimeOut || data.RingFreeCount() <= VECTOR_THRESHOLD {
        batch, howMuch := TakeBatch();
      }
      LogBatch(batch, howMuch, stamp, isTimeOut);
      assert CurrentLog() == Rotate(rotateSize, stamp, s0.log, LinesOf(Line, s0.queue[..howMuch]), isTimeOut);
    }
  }
}
