/** What each key of the line editor does to the text around the cursor, to the place in the history
    and to the line that is returned; and what series of keys do. */
module EditorKeys {
  import opened Lines
  import opened Terminal
  import opened Hints
  import opened Listing
  import opened Editors

  /** The text in front of the cursor and the text behind it. */
  predicate Around(e: Editor, before: string, after: string) {
    e.cmd == before + after && e.index == |before|
  }

  lemma AroundCursor(e: Editor)
    requires Shaped(e)
    ensures Around(e, e.cmd[..e.index], e.cmd[e.index..])
  {
  }

  /** Everything but the command, the typed text and the cursor is as it was. */
  predicate OnlyText(e: Editor, e1: Editor) {
    e1.prompt == e.prompt && e1.history == e.history && e1.curr == e.curr && e1.hints == e.hints
  }

  function Press(c: char): Input {
    Input(c, NUL, NUL, "")
  }

  function Arrow(c: char): Input {
    Input(ESCAPE, '[', c, "")
  }

  // ------------------------------------------------------------------- text and cursor

  /** A printable character goes in at the cursor. */
  lemma CharInserts(e: Editor, i: Input, before: string, after: string)
    requires Shaped(e) && Around(e, before, after) && ' ' <= i.c <= '~'
    ensures var r := ReadLine(e, i);
            && Around(r.e, before + [i.c], after) && r.e.cmdBuffer == r.e.cmd && OnlyText(e, r.e) && r.line == ""
  {
    assert e.cmd[..e.index] == before && e.cmd[e.index..] == after;
  }

  /** Both erase keys take away the character in front of the cursor, if there is one. */
  lemma EraseRemoves(e: Editor, i: Input, before: string, after: string)
    requires Shaped(e) && Around(e, before, after) && (i.c == '\U{7F}' || i.c == '\U{8}')
    ensures var r := ReadLine(e, i);
            && Around(r.e, if before == "" then "" else before[..|before| - 1], after)
            && r.e.cmdBuffer == e.cmdBuffer && OnlyText(e, r.e) && r.line == ""
  {
    if before != "" {
      assert e.cmd[..e.index - 1] == before[..|before| - 1] && e.cmd[e.index..] == after;
    }
  }

  /** The arrow keys to the left and to the right move the cursor over one character, if there is
      one, and change nothing. */
  lemma ArrowsMove(e: Editor, before: string, after: string)
    requires Shaped(e) && Around(e, before, after)
    ensures var (left, right) := (ReadLine(e, Arrow('D')), ReadLine(e, Arrow('C')));
            && left.e == e.(index := if before == "" then 0 else |before| - 1, lastKey := 0x1B)
            && right.e == e.(index := if after == "" then |e.cmd| else |before| + 1, lastKey := 0x1B)
            && left.line == right.line == ""
  {
  }

  /** Any other two bytes behind an escape byte, and an arrow in an empty history, do nothing. */
  lemma OtherEscapes(e: Editor, i: Input)
    requires Shaped(e) && i.c == '\U{1B}'
    requires i.b0 != '[' || i.b1 !in "ABCD" || (i.b1 in "AB" && e.history == [])
    ensures ReadLine(e, i) == Step(e.(lastKey := 0x1B), "", "")
  {
  }

  // ------------------------------------------------------------------------ completion

  /** A single match replaces the command, with a blank behind it. With several, a second tab lists
      them and appends what they agree on. A tab does nothing else. */
  lemma TabCompletes(e: Editor, i: Input)
    requires Shaped(e) && i.c == '\t'
    ensures var (r, matches) := (ReadLine(e, i), Matching(e.cmd, e.hints));
            && OnlyText(e, r.e) && r.e.cmdBuffer == e.cmdBuffer && r.line == ""
            && (|matches| == 1 ==> Around(r.e, matches[0] + " ", ""))
            && (|matches| > 1 && e.lastKey == '\t' as int ==>
                  Around(r.e, e.cmd + Completion(e.cmd, e.hints), ""))
            && (|matches| == 0 || (|matches| > 1 && e.lastKey != '\t' as int) ==>
                  r.e == e.(lastKey := '\t' as int) && r.out == "")
  {
    var matches := Matching(e.cmd, e.hints);
    assert |matches| == 1 ==> (matches[0] + " ") + "" == matches[0] + " ";
    assert (e.cmd + Completion(e.cmd, e.hints)) + "" == e.cmd + Completion(e.cmd, e.hints);
  }

  /** What the second tab writes for a command without a blank: on rows of their own all matches in
      order, and then the prompt and the completed command. */
  lemma TabLists(e: Editor, i: Input) returns (at: seq<nat>, list: string)
    requires Shaped(e) && i.c == '\t' && e.lastKey == '\t' as int
    requires e.cmd != "" && ' ' !in e.cmd && |Matching(e.cmd, e.hints)| > 1
    ensures CollectsAt(e.cmd, e.hints, Matching(e.cmd, e.hints), at) && Lists(list, Matching(e.cmd, e.hints))
    ensures ReadLine(e, i).out == "\n" + list + "\n" + e.prompt + ReadLine(e, i).e.cmd
  {
    list := Possible(e.cmd, e.hints);
    var starts;
    at, starts := ListingShowsMatches(e.cmd, e.hints);
  }

  // ------------------------------------------------------------------------ the history

  /** Going up from a place in the history leads one entry back, or two if the first of them is what
      the row shows already; at the oldest entry it stays. */
  lemma UpGoesBack(e: Editor)
    requires Shaped(e) && e.history != []
    ensures var r := ReadLine(e, Arrow('A'));
            && r.e.curr < |e.history| && Around(r.e, e.history[r.e.curr], "")
            && r.e.cmdBuffer == e.cmdBuffer && r.e.history == e.history && r.line == ""
            && (e.curr == 0 ==> r.e.curr == 0)
            && (e.curr > 0 ==> r.e.curr == e.curr - 1 || (r.e.curr + 2 == e.curr && e.history[e.curr - 1] == e.cmd))
            && (e.curr > 1 && r.e.curr == e.curr - 1 ==> e.history[e.curr - 1] != e.cmd)
  {
  }

  /** Going down leads to the next entry; from the newest one to the typed text, if there is any. */
  lemma DownGoesOn(e: Editor)
    requires Shaped(e) && e.history != []
    ensures var r := ReadLine(e, Arrow('B'));
            && r.e.cmdBuffer == e.cmdBuffer && r.e.history == e.history && r.line == ""
            && (if e.curr == |e.history| then r.e == e.(lastKey := 0x1B) else r.e.curr == e.curr + 1)
            && (e.curr + 1 < |e.history| ==> Around(r.e, e.history[e.curr + 1], ""))
            && (e.curr + 1 == |e.history| ==>
                  if e.cmdBuffer != "" then Around(r.e, e.cmdBuffer, "") else r.e.cmd == e.cmd && r.e.index == e.index)
  {
  }

  // ------------------------------------------------------------------------- the return key

  /** `line` is `cmd` from position `at` on, without the spaces in front and the blanks behind. */
  ghost predicate TrimsAt(cmd: string, line: string, at: nat) {
    && at + |line| <= |cmd| && line == cmd[at..at + |line|]
    && (forall k :: 0 <= k < at ==> cmd[k] == ' ')
    && (forall k :: at + |line| <= k < |cmd| ==> cmd[k] in " \t\n\r")
    && (line != "" ==> line[0] != ' ' && line[|line| - 1] !in " \t\n\r")
  }

  ghost predicate Trims(cmd: string, line: string) {
    exists at: nat :: TrimsAt(cmd, line, at)
  }

  /** That settles the line. */
  lemma TrimsOnce(cmd: string, line: string, line1: string)
    requires Trims(cmd, line) && Trims(cmd, line1)
    ensures line == line1
  {
    var at: nat :| TrimsAt(cmd, line, at);
    var at1: nat :| TrimsAt(cmd, line1, at1);
    if line != "" {
      assert cmd[at] == line[0] && cmd[at + |line| - 1] == line[|line| - 1];
    }
    if line1 != "" {
      assert cmd[at1] == line1[0] && cmd[at1 + |line1| - 1] == line1[|line1| - 1];
    }
  }

  /** The return key returns the command on the row, trimmed. The history grows by it if it is not
      empty, not `exit` and not the newest entry, and else stays as it is; the text starts anew. */
  lemma EnterReturns(e: Editor)
    requires Shaped(e) && MayEnter(e)
    ensures var r := OnEnter(e);
            && Trims(e.cmd, r.line)
            && (if r.line == "" || r.line == "exit" || r.line == e.history[|e.history| - 1]
                then r.e.history == e.history else r.e.history == e.history + [r.line])
            && r.e.cmd == "" && r.e.cmdBuffer == "" && r.e.index == 0
            && r.e.curr == (if r.line == "" then e.curr else |r.e.history|)
            && r.e.prompt == e.prompt && r.e.hints == e.hints
            && r.out == (if r.line == "" then "\n" + e.prompt else "\n")
  {
    TrimmedTrims(e.cmd);
  }

  lemma BlankIs(c: char)
    ensures Blank(c) <==> c in " \t\n\r"
  {
    assert " \t\n\r" == [' ', '\t', '\n', '\r'];
  }

  lemma TrimmedTrims(cmd: string)
    ensures Trims(cmd, TrimRight(TrimSpaces(cmd)))
  {
    var t := TrimSpaces(cmd);
    TrimSpacesEnds(cmd);
    TrimRightEnds(t);
    PartTrims(cmd, t, TrimRight(t), |cmd| - |t|);
  }

  lemma PartTrims(cmd: string, t: string, line: string, at: nat)
    requires at + |t| == |cmd| && t == cmd[at..] && RightTrimmed(t, line)
    requires (t == "" || t[0] != ' ') && forall k :: 0 <= k < at ==> cmd[k] == ' '
    ensures Trims(cmd, line)
  {
    forall k | at + |line| <= k < |cmd|
      ensures cmd[k] in " \t\n\r"
    {
      assert cmd[k] == t[k - at];
      BlankIs(t[k - at]);
    }
    if line != "" {
      BlankIs(line[|line| - 1]);
      assert line[0] == t[0];
    }
    assert line == t[..|line|] == cmd[at..at + |line|];
    assert TrimsAt(cmd, line, at);
  }

  lemma EnterKey(e: Editor, i: Input)
    requires Shaped(e) && MayEnter(e) && i.c == '\n'
    ensures Trims(e.cmd, ReadLine(e, i).line)
  {
    EnterReturns(e);
  }

  // --------------------------------------------------------------------- whole sessions

  /** A turn leaves what `readLine` leaves, and returns what it returns. */
  lemma LastTurn(e: Editor, inputs: seq<Input>, e1: Editor, i: Input)
    requires Shaped(e) && |e.history| > 0 && inputs != [] && i == inputs[|inputs| - 1]
    requires e1 == Session(e, inputs[..|inputs| - 1]).e
    ensures Session(e, inputs).e == ReadLine(e1, i).e && Session(e, inputs).line == ReadLine(e1, i).line
  {
  }

  lemma KeyKeepsPrompt(e: Editor, i: Input)
    requires Shaped(e) && |e.history| > 0
    ensures ReadLine(e, i).e.prompt == e.prompt && ReadLine(e, i).e.hints == e.hints
  {
  }

  lemma {:induction false} PromptStays(e: Editor, inputs: seq<Input>)
    requires Shaped(e) && |e.history| > 0
    ensures Session(e, inputs).e.prompt == e.prompt && Session(e, inputs).e.hints == e.hints
  {
    if inputs != [] {
      var e1 := Session(e, inputs[..|inputs| - 1]).e;
      PromptStays(e, inputs[..|inputs| - 1]);
      LastTurn(e, inputs, e1, inputs[|inputs| - 1]);
      KeyKeepsPrompt(e1, inputs[|inputs| - 1]);
    }
  }

  /** At every turn of a session: the return key returns the text that the row showed behind the
      prompt before the key, trimmed; no other key returns anything. */
  lemma SessionReturnsRow(e: Editor, inputs: seq<Input>, s: Screen) returns (text: string, col: nat)
    requires WellFormed(e) && Agrees(e, s) && |e.history| > 0 && inputs != []
    requires forall k :: 0 <= k < |inputs| ==> Supported(inputs[k].c) && WholeLines(inputs[k].reply)
    ensures Shows(Feed(s, Session(e, inputs[..|inputs| - 1]).out), e.prompt + text, col)
    ensures var line := Session(e, inputs).line;
            if inputs[|inputs| - 1].c == '\n' then Trims(text, line) else line == ""
  {
    var most, last := inputs[..|inputs| - 1], inputs[|inputs| - 1];
    var e1 := Session(e, most).e;
    ScreenAlwaysAgrees(e, most, s);
    PromptStays(e, most);
    text, col := e1.cmd, |e1.prompt| + e1.index;
    LastTurn(e, inputs, e1, last);
    if last.c == '\n' {
      EnterKey(e1, last);
    } else {
      OnlyEnterReturns(e1, last);
    }
  }

  lemma OneMoreKey(e: Editor, inputs: seq<Input>, i: Input)
    requires Shaped(e) && |e.history| > 0
    ensures Session(e, inputs + [i]).e == ReadLine(Session(e, inputs).e, i).e
    ensures Session(e, inputs + [i]).line == ReadLine(Session(e, inputs).e, i).line
  {
    assert (inputs + [i])[..|inputs|] == inputs;
    LastTurn(e, inputs + [i], Session(e, inputs).e, i);
  }

  /** The keys that type a text. */
  function Typed(text: string): seq<Input> {
    seq(|text|, k requires 0 <= k < |text| => Press(text[k]))
  }

  /** The same key `n` times. */
  function Times(i: Input, n: nat): seq<Input> {
    seq(n, _ => i)
  }

  /** What holds at first and is led on by each key holds behind all of them. */
  lemma {:induction false} EachKey(e: Editor, inputs: seq<Input>, holds: (Editor, nat) -> bool)
    requires Shaped(e) && |e.history| > 0 && holds(e, 0)
    requires forall e1: Editor, k: nat {:trigger ReadLine(e1, inputs[k]), holds(e1, k)} ::
               Shaped(e1) && |e1.history| > 0 && k < |inputs| && holds(e1, k) ==>
                 holds(ReadLine(e1, inputs[k]).e, k + 1)
    ensures holds(Session(e, inputs).e, |inputs|)
  {
    if inputs != [] {
      var most, last := inputs[..|inputs| - 1], inputs[|inputs| - 1];
      EachKey(e, most, holds);
      LastTurn(e, inputs, Session(e, most).e, last);
    }
  }

  /** Typing puts a text in at the cursor. */
  lemma TypingInserts(e: Editor, text: string, before: string, after: string)
    requires Shaped(e) && |e.history| > 0 && Around(e, before, after) && Printable(text)
    ensures var e1 := Session(e, Typed(text)).e;
            Around(e1, before + text, after) && OnlyText(e, e1) && (text != "" ==> e1.cmdBuffer == e1.cmd)
  {
    var holds := (e1: Editor, k: nat) =>
      k <= |text| && Around(e1, before + text[..k], after) && OnlyText(e, e1) && (k > 0 ==> e1.cmdBuffer == e1.cmd);
    assert before + text[..0] == before && text[..|text|] == text;
    forall e1: Editor, k: nat {:trigger ReadLine(e1, Typed(text)[k]), holds(e1, k)} |
      Shaped(e1) && |e1.history| > 0 && k < |text| && holds(e1, k)
      ensures holds(ReadLine(e1, Typed(text)[k]).e, k + 1)
    {
      assert before + text[..k + 1] == before + text[..k] + [text[k]];
      TypeStep(e, e1, ReadLine(e1, Press(text[k])), text[k], before + text[..k], before + text[..k + 1], after);
    }
    EachKey(e, Typed(text), holds);
  }

  lemma TypeStep(e: Editor, e1: Editor, r: Step, c: char, before: string, more: string, after: string)
    requires Shaped(e1) && ' ' <= c <= '~' && r == ReadLine(e1, Press(c)) && more == before + [c]
    requires Around(e1, before, after) && OnlyText(e, e1)
    ensures Around(r.e, more, after) && OnlyText(e, r.e) && r.e.cmdBuffer == r.e.cmd
  {
    CharInserts(e1, Press(c), before, after);
  }

  lemma OneMoreTime(i: Input, n: nat)
    ensures Times(i, n + 1) == Times(i, n) + [i]
  {
  }

  lemma EachTime(e: Editor, i: Input, n: nat, holds: (Editor, nat) -> bool)
    requires Shaped(e) && |e.history| > 0 && holds(e, 0)
    requires forall e1: Editor, k: nat {:trigger ReadLine(e1, i), holds(e1, k)} ::
               Shaped(e1) && |e1.history| > 0 && k < n && holds(e1, k) ==> holds(ReadLine(e1, i).e, k + 1)
    ensures holds(Session(e, Times(i, n)).e, n)
  {
    EachKey(e, Times(i, n), holds);
  }

  /** A text without its last `n` characters. */
  function DropLast(s: string, n: nat): string {
    if n <= |s| then s[..|s| - n] else ""
  }

  /** `n` erase keys take away `n` characters in front of the cursor, or all there are. */
  lemma ErasingRemoves(e: Editor, n: nat, before: string, after: string)
    requires Shaped(e) && |e.history| > 0 && Around(e, before, after)
    ensures var e1 := Session(e, Times(Press('\U{7F}'), n)).e; Around(e1, DropLast(before, n), after) && OnlyText(e, e1)
  {
    var holds := (e1: Editor, k: nat) => Around(e1, DropLast(before, k), after) && OnlyText(e, e1);
    assert DropLast(before, 0) == before;
    forall e1: Editor, k: nat {:trigger ReadLine(e1, Press('\U{7F}')), holds(e1, k)} |
      Shaped(e1) && |e1.history| > 0 && k < n && holds(e1, k)
      ensures holds(ReadLine(e1, Press('\U{7F}')).e, k + 1)
    {
      EraseStep(e, e1, ReadLine(e1, Press('\U{7F}')), before, k + 1, after);
    }
    EachTime(e, Press('\U{7F}'), n, holds);
  }

  lemma EraseStep(e: Editor, e1: Editor, r: Step, before: string, n: nat, after: string)
    requires Shaped(e1) && r == ReadLine(e1, Press('\U{7F}')) && n > 0
    requires Around(e1, DropLast(before, n - 1), after) && OnlyText(e, e1)
    ensures Around(r.e, DropLast(before, n), after) && OnlyText(e, r.e)
  {
    EraseRemoves(e1, Press('\U{7F}'), DropLast(before, n - 1), after);
    DropOneMore(before, n);
  }

  lemma DropOneMore(s: string, n: nat)
    requires n > 0
    ensures var t := DropLast(s, n - 1); DropLast(s, n) == if t == "" then "" else t[..|t| - 1]
  {
  }

  /** What is typed into a fresh row is what the return key returns, trimmed. */
  lemma TypedIsReturned(e: Editor, text: string)
    requires Shaped(e) && |e.history| > 0 && e.cmd == "" && Printable(text)
    ensures Trims(text, Session(e, Typed(text) + [Press('\n')]).line)
  {
    TypingInserts(e, text, "", "");
    OneMoreKey(e, Typed(text), Press('\n'));
    var e1 := Session(e, Typed(text)).e;
    EnterStep(e1, ReadLine(e1, Press('\n')), text);
  }

  lemma EnterStep(e: Editor, r: Step, text: string)
    requires Shaped(e) && |e.history| > 0 && r == ReadLine(e, Press('\n')) && Around(e, "" + text, "")
    ensures Trims(text, r.line)
  {
    assert "" + text + "" == text;
    EnterKey(e, Press('\n'));
  }

  // ------------------------------------------------------------ walks through the history

  /** No entry is the same as the one in front of it. */
  ghost predicate NoRepeats(history: seq<string>) {
    forall k :: 0 < k < |history| ==> history[k - 1] != history[k]
  }

  /** Sessions never add an entry that is the same as the one in front of it. */
  lemma {:induction false} NoRepeatsStays(e: Editor, inputs: seq<Input>)
    requires Shaped(e) && |e.history| > 0 && NoRepeats(e.history)
    ensures NoRepeats(Session(e, inputs).e.history)
  {
    if inputs != [] {
      var before, i := Session(e, inputs[..|inputs| - 1]).e, inputs[|inputs| - 1];
      NoRepeatsStays(e, inputs[..|inputs| - 1]);
      LastTurn(e, inputs, before, i);
      KeyRepeatsNothing(before, i);
    }
  }

  lemma KeyRepeatsNothing(e: Editor, i: Input)
    requires Shaped(e) && |e.history| > 0 && NoRepeats(e.history)
    ensures NoRepeats(ReadLine(e, i).e.history)
  {
    if i.c == '\n' {
      EnterReturns(e);
    }
  }

  /** The place in the history after `n` steps up from its end. */
  function Back(size: nat, n: nat): nat {
    if n <= size then size - n else 0
  }

  /** The row shows the entry at the place, with the cursor behind it. */
  predicate Recalls(e: Editor, e1: Editor, place: nat) {
    && place < |e.history| && e1.curr == place && Around(e1, e.history[place], "")
    && e1.cmdBuffer == e.cmdBuffer && e1.history == e.history
  }

  /** From the end of the history the up key recalls the entries one by one, newest first, down to
      the oldest one. */
  lemma {:induction false} UpRecalls(e: Editor, n: nat)
    requires Shaped(e) && NoRepeats(e.history) && n > 0
    requires e.history != [] && e.curr == |e.history| && e.cmd != e.history[|e.history| - 1]
    ensures Recalls(e, Session(e, Times(Arrow('A'), n)).e, Back(|e.history|, n))
  {
    var keys := Times(Arrow('A'), n - 1);
    var e1 := Session(e, keys).e;
    OneMoreTime(Arrow('A'), n - 1);
    OneMoreKey(e, keys, Arrow('A'));
    if n > 1 {
      UpRecalls(e, n - 1);
      assert e1.cmd == e.history[e1.curr];
    }
    UpGoesBack(e1);
  }

  /** `k` entries further on than in `e`. */
  predicate RecallsOn(e: Editor, e1: Editor, k: nat) {
    var place := e.curr + k;
    Recalls(e, e1, place)
  }

  /** From an entry the down key recalls the newer ones one by one, up to the newest ... */
  lemma {:induction false} DownRecalls(e: Editor, n: nat)
    requires Shaped(e) && e.curr + n < |e.history| && Recalls(e, e, e.curr)
    ensures RecallsOn(e, Session(e, Times(Arrow('B'), n)).e, n)
  {
    if n > 0 {
      var e1 := Session(e, Times(Arrow('B'), n - 1)).e;
      DownRecalls(e, n - 1);
      OneMoreTime(Arrow('B'), n - 1);
      OneMoreKey(e, Times(Arrow('B'), n - 1), Arrow('B'));
      DownStep(e, e1, ReadLine(e1, Arrow('B')), n - 1);
    }
  }

  lemma DownStep(e: Editor, e1: Editor, r: Step, k: nat)
    requires Shaped(e1) && e.curr + k + 1 < |e.history| && RecallsOn(e, e1, k) && r == ReadLine(e1, Arrow('B'))
    ensures RecallsOn(e, r.e, k + 1)
  {
    DownGoesOn(e1);
  }

  /** ... and then the typed text, if there is any. */
  lemma DownReturns(e: Editor, n: nat, e1: Editor)
    requires Shaped(e) && e.curr + n == |e.history| && Recalls(e, e, e.curr) && e.cmdBuffer != ""
    requires e1 == Session(e, Times(Arrow('B'), n)).e
    ensures e1.curr == |e.history| && Around(e1, e.cmdBuffer, "")
  {
    var e0 := Session(e, Times(Arrow('B'), n - 1)).e;
    DownRecalls(e, n - 1);
    OneMoreTime(Arrow('B'), n - 1);
    OneMoreKey(e, Times(Arrow('B'), n - 1), Arrow('B'));
    LastDownStep(e, e0, ReadLine(e0, Arrow('B')), n - 1);
  }

  lemma LastDownStep(e: Editor, e1: Editor, r: Step, k: nat)
    requires Shaped(e1) && e.curr + k + 1 == |e.history| && RecallsOn(e, e1, k) && r == ReadLine(e1, Arrow('B'))
    requires e.cmdBuffer != ""
    ensures r.e.curr == |e.history| && Around(r.e, e.cmdBuffer, "")
  {
    DownGoesOn(e1);
  }

  /** A new session starts behind its newest entry. */
  lemma FirstUp(prompt: string, history: seq<string>, hints: seq<string>, lastKey: int, n: nat)
    requires NoRepeats(history) && 0 < n <= |history| && history[|history| - 1] != ""
    ensures var e := Session(Start(prompt, history, hints, lastKey), Times(Arrow('A'), n)).e;
            e.cmd == history[|history| - n]
  {
    var e := Start(prompt, history, hints, lastKey);
    UpRecalls(e, n);
    assert history[|history| - n] + "" == history[|history| - n];
  }
}
