/** The value level of logger.cpp: log lines, rotation, and what a whole run preserves. */
module LogText {
  import opened Words

  function Concat(lines: seq<string>): string {
    if lines == [] then [] else Concat(lines[..|lines| - 1]) + lines[|lines| - 1]
  }

  lemma {:induction false} ConcatAppend(a: seq<string>, b: seq<string>)
    ensures Concat(a + b) == Concat(a) + Concat(b)
  {
    if b == [] {
      assert a + b == a;
    } else {
      var most, last := b[..|b| - 1], b[|b| - 1];
      ConcatAppend(a, most);
      assert (a + b)[..|a + b| - 1] == a + most && (a + b)[|a + b| - 1] == last;
      assert Concat(a) + (Concat(most) + last) == (Concat(a) + Concat(most)) + last;
    }
  }

  /** One output file: the time stamp and serial number of its name, and its text. */
  datatype File = File(stamp: string, serial: Word, text: string)

  function Texts(files: seq<File>): string {
    if files == [] then [] else Texts(files[..|files| - 1]) + files[|files| - 1].text
  }

  /** The files written so far, the pending text and the serial number of the next file. */
  datatype Log = Log(files: seq<File>, buf: string, serial: Word) {
    /** Everything that has been logged, in order. */
    function Text(): string {
      Texts(files) + buf
    }
  }

  function Output(l: Log, stamp: string): Log {
    l.(files := l.files + [File(stamp, l.serial, l.buf)], buf := "")
  }

  /** One turn of the rotation loop: a file first if the pending text is over the limit. */
  function AddLine(rotateSize: Word, stamp: string, l: Log, line: string): Log {
    var l1 := if |l.buf| > rotateSize then Output(l, stamp).(serial := Wrap(l.serial + 1)) else l;
    l1.(buf := l1.buf + line)
  }

  function AddLines(rotateSize: Word, stamp: string, l: Log, lines: seq<string>): Log {
    if lines == [] then l
    else AddLine(rotateSize, stamp, AddLines(rotateSize, stamp, l, lines[..|lines| - 1]), lines[|lines| - 1])
  }

  /** `checkRotate` after its dequeue: log the batch, and on a time-out without a size-triggered
      file write out what is pending. */
  function Rotate(rotateSize: Word, stamp: string, l: Log, lines: seq<string>, timeOut: bool): Log {
    var l1 := AddLines(rotateSize, stamp, l.(serial := 0), lines);
    if timeOut && l1.serial == 0 then Output(l1, stamp) else l1
  }

  // ------------------------------------------------------------------ conservation

  lemma OutputKeepsText(l: Log, stamp: string)
    ensures Output(l, stamp).Text() == l.Text()
  {
    var files := l.files + [File(stamp, l.serial, l.buf)];
    assert files[..|files| - 1] == l.files;
  }

  lemma AddLineText(rotateSize: Word, stamp: string, l: Log, line: string)
    ensures AddLine(rotateSize, stamp, l, line).Text() == l.Text() + line
  {
    OutputKeepsText(l, stamp);
    var l1 := if |l.buf| > rotateSize then Output(l, stamp) else l;
    assert Texts(l1.files) + (l1.buf + line) == (Texts(l1.files) + l1.buf) + line;
  }

  lemma {:induction false} AddLinesText(rotateSize: Word, stamp: string, l: Log, lines: seq<string>)
    ensures AddLines(rotateSize, stamp, l, lines).Text() == l.Text() + Concat(lines)
  {
    if lines != [] {
      var most, last := lines[..|lines| - 1], lines[|lines| - 1];
      AddLinesText(rotateSize, stamp, l, most);
      AddLineText(rotateSize, stamp, AddLines(rotateSize, stamp, l, most), last);
      assert l.Text() + (Concat(most) + last) == (l.Text() + Concat(most)) + last;
    }
  }

  /** Rotation moves text from the buffer to files and loses none of it. */
  lemma RotateConserves(rotateSize: Word, stamp: string, l: Log, lines: seq<string>, timeOut: bool)
    ensures Rotate(rotateSize, stamp, l, lines, timeOut).Text() == l.Text() + Concat(lines)
  {
    AddLinesText(rotateSize, stamp, l.(serial := 0), lines);
    OutputKeepsText(AddLines(rotateSize, stamp, l.(serial := 0), lines), stamp);
  }

  // ---------------------------------------------------------------- rotation bound

  /** No text is longer than the limit plus one line of at most `longest` characters. */
  ghost predicate Bounded(rotateSize: Word, longest: nat, l: Log) {
    && |l.buf| <= rotateSize + longest
    && forall i :: 0 <= i < |l.files| ==> |l.files[i].text| <= rotateSize + longest
  }

  /** `l1` extends `l0` by files numbered from 0 with the same stamp, each over the limit. */
  ghost predicate Grew(rotateSize: Word, stamp: string, l0: Log, l1: Log) {
    && l0.files <= l1.files
    && l1.serial == |l1.files| - |l0.files|
    && forall i :: |l0.files| <= i < |l1.files| ==>
         && l1.files[i].serial == i - |l0.files| && l1.files[i].stamp == stamp
         && |l1.files[i].text| > rotateSize
  }

  lemma {:induction false} AddLinesBound(rotateSize: Word, longest: nat, stamp: string, l: Log, lines: seq<string>)
    requires Bounded(rotateSize, longest, l) && l.serial == 0 && |lines| < MODULUS
    requires forall i :: 0 <= i < |lines| ==> |lines[i]| <= longest
    ensures var l1 := AddLines(rotateSize, stamp, l, lines);
            Bounded(rotateSize, longest, l1) && Grew(rotateSize, stamp, l, l1) && l1.serial <= |lines|
  {
    if lines != [] {
      AddLinesBound(rotateSize, longest, stamp, l, lines[..|lines| - 1]);
    }
  }

  /** Every call keeps the pending text and every file within the limit plus one line. The files
      that one call writes either all exceed the limit, or there is one, written on a time-out,
      which leaves nothing pending; they are numbered 0, 1, 2 and so on, so their names differ. */
  lemma RotateBound(rotateSize: Word, longest: nat, stamp: string, l: Log, lines: seq<string>, timeOut: bool)
    requires Bounded(rotateSize, longest, l) && |lines| < MODULUS
    requires forall i :: 0 <= i < |lines| ==> |lines[i]| <= longest
    ensures var l1 := Rotate(rotateSize, stamp, l, lines, timeOut);
            && Bounded(rotateSize, longest, l1)
            && (Grew(rotateSize, stamp, l, l1)
                || (timeOut && l1.buf == "" && l1.files == l.files + [File(stamp, 0, l.buf + Concat(lines))]))
            && (timeOut ==> |l1.files| > |l.files|)
  {
    var l0 := l.(serial := 0);
    var l1 := AddLines(rotateSize, stamp, l0, lines);
    AddLinesBound(rotateSize, longest, stamp, l0, lines);
    if l1.serial == 0 {
      AddLinesText(rotateSize, stamp, l0, lines);
      var written := Texts(l.files);
      assert l1.files == l.files;
      assert written + l.buf + Concat(lines) == written + (l.buf + Concat(lines));
      assert l1.buf == (written + l1.buf)[|written|..];
      assert l.buf + Concat(lines) == (written + (l.buf + Concat(lines)))[|written|..];
    }
  }

  // --------------------------------------------------------------------- whole runs

  const VECTOR_THRESHOLD: Word := 0x400_0000

  /** The whole logger: its settings, its log and the packets queued in its ring. */
  datatype Logger<P> = Logger(rotateSize: Word, rotateCycle: Word, startTime: Word,
                              capacity: Word, rotateCnt: Word, log: Log, queue: seq<P>) {
    /** The 32-bit time-out test. */
    predicate TimedOut(now: Word) {
      Wrap(now - startTime) > Wrap(rotateCnt * rotateCycle)
    }

    /** The condition under which `checkRotate` assigns the variables that it then reads. */
    predicate Triggered(now: Word) {
      TimedOut(now) || capacity - |queue| <= VECTOR_THRESHOLD
    }

    /** How many packets one call takes out of the ring. */
    function BatchSize(): (n: nat)
      ensures n <= |queue|
    {
      if |queue| > VECTOR_THRESHOLD then VECTOR_THRESHOLD else |queue|
    }
  }

  function LinesOf<P>(line: P -> string, ps: seq<P>): (lines: seq<string>) {
    seq(|ps|, i requires 0 <= i < |ps| => line(ps[i]))
  }

  lemma LinesOfAppend<P>(line: P -> string, a: seq<P>, b: seq<P>)
    ensures Concat(LinesOf(line, a + b)) == Concat(LinesOf(line, a)) + Concat(LinesOf(line, b))
  {
    assert LinesOf(line, a + b) == LinesOf(line, a) + LinesOf(line, b);
    ConcatAppend(LinesOf(line, a), LinesOf(line, b));
  }

  lemma OneMoreLine<P>(line: P -> string, rotateSize: Word, stamp: string, l: Log, ps: seq<P>, p: P)
    ensures AddLines(rotateSize, stamp, l, LinesOf(line, ps + [p]))
            == AddLine(rotateSize, stamp, AddLines(rotateSize, stamp, l, LinesOf(line, ps)), line(p))
  {
    assert LinesOf(line, ps + [p]) == LinesOf(line, ps) + [line(p)];
    assert LinesOf(line, ps + [p])[..|ps|] == LinesOf(line, ps);
  }

  function Push<P>(s: Logger<P>, p: P): Logger<P> {
    if |s.queue| < s.capacity then s.(queue := s.queue + [p]) else s
  }

  function Check<P>(line: P -> string, s: Logger<P>, now: Word, stamp: string): Logger<P> {
    var n := s.BatchSize();
    s.(rotateCnt := if s.TimedOut(now) then Wrap(s.rotateCnt + 1) else s.rotateCnt,
       log := Rotate(s.rotateSize, stamp, s.log, LinesOf(line, s.queue[..n]), s.TimedOut(now)),
       queue := s.queue[n..])
  }

  datatype Op<P> = PushBack(p: P) | CheckRotate(now: Word, stamp: string)

  function RunOp<P>(line: P -> string, s: Logger<P>, op: Op<P>): Logger<P> {
    match op
    case PushBack(p) => Push(s, p)
    case CheckRotate(now, stamp) => Check(line, s, now, stamp)
  }

  function RunOps<P>(line: P -> string, s: Logger<P>, ops: seq<Op<P>>): Logger<P> {
    if ops == [] then s else RunOp(line, RunOps(line, s, ops[..|ops| - 1]), ops[|ops| - 1])
  }

  /** The packets whose push found room, in order. */
  function Accepted<P>(line: P -> string, s: Logger<P>, ops: seq<Op<P>>): seq<P> {
    if ops == [] then []
    else
      var before := RunOps(line, s, ops[..|ops| - 1]);
      var last := ops[|ops| - 1];
      Accepted(line, s, ops[..|ops| - 1])
      + (if last.PushBack? && |before.queue| < before.capacity then [last.p] else [])
  }

  /** What has been logged and what is still queued, as one text. */
  function AllText<P>(line: P -> string, s: Logger<P>): string {
    s.log.Text() + Concat(LinesOf(line, s.queue))
  }

  lemma CheckConserves<P>(line: P -> string, s: Logger<P>, now: Word, stamp: string)
    ensures AllText(line, Check(line, s, now, stamp)) == AllText(line, s)
  {
    var n := s.BatchSize();
    RotateConserves(s.rotateSize, stamp, s.log, LinesOf(line, s.queue[..n]), s.TimedOut(now));
    LinesOfAppend(line, s.queue[..n], s.queue[n..]);
    assert s.queue == s.queue[..n] + s.queue[n..];
  }

  lemma PushText<P>(line: P -> string, text1: string, queue1: seq<P>, text0: string, queue0: seq<P>, p: P)
    requires text1 + Concat(LinesOf(line, queue1)) == text0 + Concat(LinesOf(line, queue0))
    ensures text1 + Concat(LinesOf(line, queue1 + [p])) == text0 + Concat(LinesOf(line, queue0 + [p]))
  {
    LinesOfAppend(line, queue1, [p]);
    LinesOfAppend(line, queue0, [p]);
    var last := Concat(LinesOf(line, [p]));
    var (a, b) := (Concat(LinesOf(line, queue1)), Concat(LinesOf(line, queue0)));
    assert text1 + (a + last) == (text1 + a) + last;
    assert text0 + (b + last) == (text0 + b) + last;
  }

  /** Over every sequence of pushes and rotations: the files written so far, then the pending
      text, then the lines of the packets still queued, are exactly the lines of the accepted
      packets in acceptance order. */
  lemma {:induction false} NothingIsLost<P>(line: P -> string, s: Logger<P>, ops: seq<Op<P>>)
    ensures AllText(line, RunOps(line, s, ops))
            == s.log.Text() + Concat(LinesOf(line, s.queue + Accepted(line, s, ops)))
  {
    if ops == [] {
      assert s.queue + [] == s.queue;
    } else {
      var before, op := ops[..|ops| - 1], ops[|ops| - 1];
      var s1 := RunOps(line, s, before);
      var got := s.queue + Accepted(line, s, before);
      NothingIsLost(line, s, before);
      match op
      case CheckRotate(now, stamp) =>
        CheckConserves(line, s1, now, stamp);
        assert s.queue + Accepted(line, s, ops) == got;
      case PushBack(p) =>
        if |s1.queue| < s1.capacity {
          assert s.queue + Accepted(line, s, ops) == got + [p];
          PushText(line, s1.log.Text(), s1.queue, s.log.Text(), got, p);
        } else {
          assert s.queue + Accepted(line, s, ops) == got;
        }
    }
  }

  /** The bound holds throughout every run. */
  lemma {:induction false} FilesStayBounded<P>(line: P -> string, longest: nat, s: Logger<P>, ops: seq<Op<P>>)
    requires Bounded(s.rotateSize, longest, s.log)
    requires forall p :: |line(p)| <= longest
    ensures var s1 := RunOps(line, s, ops);
            s1.rotateSize == s.rotateSize && Bounded(s1.rotateSize, longest, s1.log)
  {
    if ops != [] {
      var s1 := RunOps(line, s, ops[..|ops| - 1]);
      FilesStayBounded(line, longest, s, ops[..|ops| - 1]);
      match ops[|ops| - 1]
      case CheckRotate(now, stamp) =>
        var batch := LinesOf(line, s1.queue[..s1.BatchSize()]);
        RotateBound(s1.rotateSize, longest, stamp, s1.log, batch, s1.TimedOut(now));
      case PushBack(_) =>
    }
  }
}
