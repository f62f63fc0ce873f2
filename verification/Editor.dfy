/** The line editor of access_cmdline.cpp as a state machine over keys, and its terminal image. */
module Editors {
  import opened Lines
  import opened Terminal
  import opened Hints
  import opened Listing

  const TAB: char := '\t'
  const DELETE: char := '\U{7F}'
  const ESCAPE: char := '\U{1B}'

  /** The fields of `CmdLine`. `lastKey` starts uninitialized, so it may be anything at first. */
  datatype Editor = Editor(prompt: string, cmd: string, cmdBuffer: string, index: nat,
                           history: seq<string>, curr: nat, lastKey: int, hints: seq<string>)

  /** One turn's input: the byte read, the two bytes read behind an escape byte, and what the
      caller answers to a finished command. */
  datatype Input = Input(c: char, b0: char, b1: char, reply: string)

  /** The new state, the bytes written and the line returned. */
  datatype Step = Step(e: Editor, out: string, line: string)

  /** The two indices are within their bounds. */
  predicate Shaped(e: Editor) {
    e.curr <= |e.history| && e.index <= |e.cmd|
  }

  /** What the return key makes of the command. */
  function CommandOf(e: Editor): string {
    TrimRight(TrimSpaces(e.cmd))
  }

  /** A command that is not blank is compared with the last history entry, which must exist. */
  predicate MayEnter(e: Editor) {
    CommandOf(e) == "" || |e.history| > 0
  }

  /** `backSpace(n)`. */
  function BackSpace(n: nat): string {
    Repeat(BACKSPACE, n) + Repeat(' ', n) + Repeat(BACKSPACE, n)
  }

  /** `clearLine`. */
  function ClearLine(e: Editor): string
    requires Shaped(e)
  {
    var r := |e.cmd| - e.index;
    Repeat(' ', r) + Repeat(BACKSPACE, r) + BackSpace(e.index)
  }

  /** Clears the line and writes another command. */
  function Replace(e: Editor, text: string): (r: Step)
    requires Shaped(e)
    ensures Shaped(r.e) && |r.e.history| >= |e.history|
  {
    Step(e.(cmd := text, index := |text|), ClearLine(e) + text, "")
  }

  function OnEnter(e: Editor): (r: Step)
    requires Shaped(e) && MayEnter(e)
    ensures Shaped(r.e) && |r.e.history| >= |e.history|
  {
    var line := CommandOf(e);
    var e1 := e.(cmd := "", cmdBuffer := "", index := 0);
    if line == "" then Step(e1, "\n" + e.prompt, line)
    else
      var history := if e.history[|e.history| - 1] != line && line != "exit" then e.history + [line] else e.history;
      Step(e1.(history := history, curr := |history|), "\n", line)
  }

  /** `listing` is what `compareHints` says to list. */
  function OnTab(e: Editor, listing: string): (r: Step)
    requires Shaped(e)
    ensures Shaped(r.e) && |r.e.history| >= |e.history|
  {
    var common := Matching(e.cmd, e.hints);
    if |common| > 1 && e.lastKey == TAB as int then
      var cmd := e.cmd + Completion(e.cmd, e.hints);
      Step(e.(cmd := cmd, index := |cmd|), "\n" + listing + "\n" + e.prompt + cmd, "")
    else if |common| == 1 then Replace(e, common[0] + " ")
    else Step(e, "", "")
  }

  function OnErase(e: Editor): (r: Step)
    requires Shaped(e)
    ensures Shaped(r.e) && |r.e.history| >= |e.history|
  {
    if e.index == 0 then Step(e, "", "")
    else
      var cmd := e.cmd[..e.index - 1] + e.cmd[e.index..];
      Step(e.(cmd := cmd, index := e.index - 1), ClearLine(e) + cmd + Repeat(BACKSPACE, |e.cmd| - e.index), "")
  }

  function OnUp(e: Editor): (r: Step)
    requires Shaped(e) && |e.history| > 0
    ensures Shaped(r.e) && |r.e.history| >= |e.history|
  {
    var above := if e.curr > 0 then e.curr - 1 else 0;
    var curr := if e.curr > 1 && e.history[above] == e.cmd then above - 1 else above;
    var step := Replace(e, e.history[curr]);
    step.(e := step.e.(curr := curr))
  }

  function OnDown(e: Editor): (r: Step)
    requires Shaped(e)
    ensures Shaped(r.e) && |r.e.history| >= |e.history|
  {
    if e.curr == |e.history| then Step(e, "", "")
    else
      var step :=
        if e.curr < |e.history| - 1 then Replace(e, e.history[e.curr + 1])
        else if e.cmdBuffer != "" then Replace(e, e.cmdBuffer)
        else Step(e, "", "");
      step.(e := step.e.(curr := e.curr + 1))
  }

  function OnLeft(e: Editor): (r: Step)
    requires Shaped(e) && e.index > 0
    ensures Shaped(r.e) && |r.e.history| >= |e.history|
  {
    Step(e.(index := e.index - 1), [BACKSPACE], "")
  }

  function OnRight(e: Editor): (r: Step)
    requires Shaped(e) && e.index < |e.cmd|
    ensures Shaped(r.e) && |r.e.history| >= |e.history|
  {
    Step(e.(index := e.index + 1), [e.cmd[e.index]], "")
  }

  function OnEscape(e: Editor, b0: char, b1: char): (r: Step)
    requires Shaped(e)
    ensures Shaped(r.e) && |r.e.history| >= |e.history|
  {
    if b0 == '[' && b1 == 'A' && |e.history| > 0 then OnUp(e)
    else if b0 == '[' && b1 == 'B' && |e.history| > 0 then OnDown(e)
    else if b0 == '[' && b1 == 'D' && e.index > 0 then OnLeft(e)
    else if b0 == '[' && b1 == 'C' && e.index < |e.cmd| then OnRight(e)
    else Step(e, "", "")
  }

  function OnChar(e: Editor, c: char): (r: Step)
    requires Shaped(e)
    ensures Shaped(r.e) && |r.e.history| >= |e.history|
  {
    var cmd := e.cmd[..e.index] + [c] + e.cmd[e.index..];
    Step(e.(cmd := cmd, cmdBuffer := cmd, index := e.index + 1),
         ClearLine(e) + cmd + Repeat(BACKSPACE, |e.cmd| - e.index), "")
  }

  predicate IsPrint(c: char) {
    ' ' <= c <= '~'
  }

  /** The keys that `readLine` knows. */
  predicate Supported(c: char) {
    c == '\n' || c == TAB || c == DELETE || c == BACKSPACE || c == ESCAPE || IsPrint(c)
  }

  function OnKey(e: Editor, i: Input): (r: Step)
    requires Shaped(e) && (i.c == '\n' ==> MayEnter(e))
    ensures Shaped(r.e) && |r.e.history| >= |e.history|
  {
    if i.c == '\n' then OnEnter(e)
    else if i.c == TAB then OnTab(e, Possible(e.cmd, e.hints))
    else if i.c == DELETE || i.c == BACKSPACE then OnErase(e)
    else if i.c == ESCAPE then OnEscape(e, i.b0, i.b1)
    else if IsPrint(i.c) then OnChar(e, i.c)
    else Step(e, "len = 1\n", "")
  }

  /** `readLine`. */
  function ReadLine(e: Editor, i: Input): (r: Step)
    requires Shaped(e) && (i.c == '\n' ==> MayEnter(e))
    ensures Shaped(r.e) && |r.e.history| >= |e.history|
  {
    var step := OnKey(e, i);
    step.(e := step.e.(lastKey := i.c as int))
  }

  /** One turn of the caller's loop: it answers a finished command and writes the prompt again. */
  function Turn(e: Editor, i: Input): (r: Step)
    requires Shaped(e) && (i.c == '\n' ==> MayEnter(e))
    ensures Shaped(r.e) && |r.e.history| >= |e.history|
  {
    var step := ReadLine(e, i);
    if step.line == "" then step else step.(out := step.out + i.reply + e.prompt)
  }

  /** The turns of a session, and all that was written. */
  function Session(e: Editor, inputs: seq<Input>): (r: Step)
    requires Shaped(e) && |e.history| > 0
    ensures Shaped(r.e) && |r.e.history| >= |e.history|
  {
    if inputs == [] then Step(e, "", "")
    else
      var before := Session(e, inputs[..|inputs| - 1]);
      var last := Turn(before.e, inputs[|inputs| - 1]);
      Step(last.e, before.out + last.out, last.line)
  }

  /** `init`, with whatever the history file held; it writes the prompt. */
  function Start(prompt: string, history: seq<string>, hints: seq<string>, lastKey: int): Editor {
    Editor(prompt, "", "", 0, history, |history|, lastKey, hints)
  }

  // ---------------------------------------------------------------- the terminal image

  predicate AllPrintable(texts: seq<string>) {
    forall k :: 0 <= k < |texts| ==> Printable(texts[k])
  }

  predicate WellFormed(e: Editor) {
    && Shaped(e)
    && Printable(e.prompt) && Printable(e.cmd) && Printable(e.cmdBuffer)
    && AllPrintable(e.history) && AllPrintable(e.hints)
  }

  /** The row shows the prompt and the command, with the cursor at the editing position. */
  ghost predicate Agrees(e: Editor, s: Screen) {
    Shows(s, e.prompt + e.cmd, |e.prompt| + e.index)
  }

  /** The command is cleared from the row, and the prompt stays. */
  lemma ClearLineShows(e: Editor, s: Screen)
    requires WellFormed(e) && Agrees(e, s)
    ensures Shows(Feed(s, ClearLine(e)), e.prompt, |e.prompt|)
  {
    var text, col, r, i := e.prompt + e.cmd, |e.prompt| + e.index, |e.cmd| - e.index, e.index;
    var (spaces, left, left2, spaces2) := (Repeat(' ', r), Repeat(BACKSPACE, r), Repeat(BACKSPACE, i), Repeat(' ', i));
    var s1 := Feed(s, spaces);
    var s2 := Feed(s1, left);
    var s3 := Feed(s2, left2);
    var s4 := Feed(s3, spaces2);
    ShowsBlanks(s, text, col, r);
    ShowsLeft(s1, text[..col], col + r, r);
    ShowsLeft(s2, text[..col], col, i);
    ShowsBlanks(s3, text[..col], |e.prompt|, i);
    ShowsLeft(s4, e.prompt, |e.prompt| + i, i);
    FeedAppend(s, spaces, left);
    FeedAppend(s2, left2, spaces2);
    FeedAppend(s2, left2 + spaces2, left2);
    FeedAppend(s, spaces + left, BackSpace(i));
    assert text[..col][..|e.prompt|] == e.prompt;
  }

  /** Clearing the line, writing `text` and stepping back `n` shows `text`. */
  lemma RewriteShows(e: Editor, text: string, n: nat, s: Screen)
    requires WellFormed(e) && Agrees(e, s) && Printable(text) && n <= |text|
    ensures Shows(Feed(s, ClearLine(e) + text + Repeat(BACKSPACE, n)), e.prompt + text, |e.prompt| + |text| - n)
  {
    var s1 := Feed(s, ClearLine(e));
    ClearLineShows(e, s);
    ShowsText(s1, e.prompt, text);
    ShowsLeft(Feed(s1, text), e.prompt + text, |e.prompt| + |text|, n);
    FeedAppend(s, ClearLine(e), text);
    FeedAppend(s, ClearLine(e) + text, Repeat(BACKSPACE, n));
  }

  lemma ReplaceAgrees(e: Editor, text: string, s: Screen)
    requires WellFormed(e) && Agrees(e, s) && Printable(text)
    ensures Agrees(Replace(e, text).e, Feed(s, Replace(e, text).out))
  {
    RewriteShows(e, text, 0, s);
    assert ClearLine(e) + text + Repeat(BACKSPACE, 0) == ClearLine(e) + text;
  }

  /** A new row on which the prompt and a command are written. */
  lemma FreshRowShows(s: Screen, out: string, prompt: string, cmd: string)
    requires out != "" && out[|out| - 1] == '\n' && Printable(prompt) && Printable(cmd)
    ensures Shows(Feed(s, out + prompt + cmd), prompt + cmd, |prompt| + |cmd|)
  {
    FeedNewline(s, out);
    ShowsText(Feed(s, out), "", prompt);
    ShowsText(Feed(Feed(s, out), prompt), prompt, cmd);
    FeedAppend(s, out, prompt);
    FeedAppend(s, out + prompt, cmd);
    assert "" + prompt == prompt;
  }

  // ------------------------------------------------------------------ one key at a time

  lemma PrintableParts(s: string, i: nat, j: nat)
    requires Printable(s) && i <= j <= |s|
    ensures Printable(s[i..j]) && Printable(s[i..]) && Printable(s[..j])
  {
  }

  lemma {:induction false} TrimRightPrintable(s: string)
    requires Printable(s)
    ensures Printable(TrimRight(s))
  {
    if s != "" && Blank(s[|s| - 1]) {
      TrimRightPrintable(s[..|s| - 1]);
    }
  }

  lemma {:induction false} TrimmedIsPrintable(s: string)
    requires Printable(s)
    ensures Printable(TrimRight(TrimSpaces(s)))
  {
    if s == "" || s[0] != ' ' {
      TrimRightPrintable(s);
    } else {
      TrimmedIsPrintable(s[1..]);
    }
  }

  lemma CompletionIsPrintable(cmd: string, hints: seq<string>)
    requires AllPrintable(hints)
    ensures Printable(Completion(cmd, hints))
    ensures |Matching(cmd, hints)| == 1 ==> Printable(Matching(cmd, hints)[0])
  {
    var common := Matching(cmd, hints);
    if |common| > 0 {
      assert common[0] in hints;
      var r := AgreedFrom(common, |cmd|, ShortestLength(common));
      AgreedStops(common, |cmd|, ShortestLength(common));
      forall j | 0 <= j < |r|
        ensures r[j] == common[0][|cmd| + j]
      {
        assert Agree(common, |cmd| + j);
      }
    }
  }

  /** `step` leaves a well-formed editor whose image is on the screen. */
  ghost predicate Good(step: Step, s: Screen) {
    WellFormed(step.e) && Agrees(step.e, Feed(s, step.out))
  }

  lemma Remembers(step: Step, key: int, s: Screen)
    requires Good(step, s)
    ensures Good(step.(e := step.e.(lastKey := key)), s)
  {
  }

  lemma ReplaceGood(e: Editor, text: string, s: Screen)
    requires WellFormed(e) && Agrees(e, s) && Printable(text)
    ensures Good(Replace(e, text), s)
  {
    ReplaceAgrees(e, text, s);
  }

  /** The answer of the caller ends its line. */
  predicate WholeLines(reply: string) {
    reply == "" || reply[|reply| - 1] == '\n'
  }

  lemma EnterState(e: Editor)
    requires WellFormed(e) && MayEnter(e)
    ensures WellFormed(OnEnter(e).e) && OnEnter(e).e.cmd == "" && OnEnter(e).e.prompt == e.prompt
  {
    var line := CommandOf(e);
    TrimmedIsPrintable(e.cmd);
    var h := e.history + [line];
    assert AllPrintable(h);
  }

  lemma EnterGood(e: Editor, i: Input, s: Screen)
    requires WellFormed(e) && MayEnter(e) && i.c == '\n' && WholeLines(i.reply)
    ensures Good(Turn(e, i), s)
  {
    EnterState(e);
    var out := "\n" + i.reply;
    assert out[|out| - 1] == '\n';
    FreshRowShows(s, out, e.prompt, "");
    FreshRowShows(s, "\n", e.prompt, "");
    assert out + e.prompt + "" == out + e.prompt && "\n" + e.prompt + "" == "\n" + e.prompt;
    assert e.prompt + "" == e.prompt;
  }

  lemma TabGood(e: Editor, listing: string, s: Screen)
    requires WellFormed(e) && Agrees(e, s)
    ensures Good(OnTab(e, listing), s)
  {
    var common := Matching(e.cmd, e.hints);
    CompletionIsPrintable(e.cmd, e.hints);
    if |common| > 1 && e.lastKey == TAB as int {
      var cmd, out := e.cmd + Completion(e.cmd, e.hints), "\n" + listing + "\n";
      assert out[|out| - 1] == '\n';
      FreshRowShows(s, out, e.prompt, cmd);
    } else if |common| == 1 {
      ReplaceGood(e, common[0] + " ", s);
    } else {
      assert Feed(s, "") == s;
    }
  }

  lemma EraseGood(e: Editor, s: Screen)
    requires WellFormed(e) && Agrees(e, s)
    ensures Good(OnErase(e), s)
  {
    if e.index > 0 {
      PrintableParts(e.cmd, e.index - 1, e.index);
      PrintableParts(e.cmd, e.index, |e.cmd|);
      RewriteShows(e, e.cmd[..e.index - 1] + e.cmd[e.index..], |e.cmd| - e.index, s);
    }
  }

  lemma CharGood(e: Editor, c: char, s: Screen)
    requires WellFormed(e) && Agrees(e, s) && IsPrint(c)
    ensures Good(OnChar(e, c), s)
  {
    PrintableParts(e.cmd, e.index, |e.cmd|);
    RewriteShows(e, e.cmd[..e.index] + [c] + e.cmd[e.index..], |e.cmd| - e.index, s);
  }

  lemma UpGood(e: Editor, s: Screen)
    requires WellFormed(e) && Agrees(e, s) && |e.history| > 0
    ensures Good(OnUp(e), s)
  {
    var curr := OnUp(e).e.curr;
    ReplaceGood(e, e.history[curr], s);
  }

  lemma DownGood(e: Editor, s: Screen)
    requires WellFormed(e) && Agrees(e, s)
    ensures Good(OnDown(e), s)
  {
    if e.curr < |e.history| - 1 {
      ReplaceGood(e, e.history[e.curr + 1], s);
    } else if e.curr == |e.history| - 1 && e.cmdBuffer != "" {
      ReplaceGood(e, e.cmdBuffer, s);
    } else {
      assert Feed(s, "") == s;
    }
  }

  lemma LeftGood(e: Editor, s: Screen)
    requires WellFormed(e) && Agrees(e, s) && e.index > 0
    ensures Good(OnLeft(e), s)
  {
    ShowsLeft(s, e.prompt + e.cmd, |e.prompt| + e.index, 1);
    assert Repeat(BACKSPACE, 1) == [BACKSPACE];
  }

  lemma RightGood(e: Editor, s: Screen)
    requires WellFormed(e) && Agrees(e, s) && e.index < |e.cmd|
    ensures Good(OnRight(e), s)
  {
    ShowsRight(s, e.prompt + e.cmd, |e.prompt| + e.index);
  }

  lemma EscapeGood(e: Editor, b0: char, b1: char, s: Screen)
    requires WellFormed(e) && Agrees(e, s)
    ensures Good(OnEscape(e, b0, b1), s)
  {
    if b0 == '[' && b1 == 'A' && |e.history| > 0 {
      UpGood(e, s);
    } else if b0 == '[' && b1 == 'B' && |e.history| > 0 {
      DownGood(e, s);
    } else if b0 == '[' && b1 == 'D' && e.index > 0 {
      LeftGood(e, s);
    } else if b0 == '[' && b1 == 'C' && e.index < |e.cmd| {
      RightGood(e, s);
    } else {
      assert Feed(s, "") == s;
    }
  }

  lemma KeyGood(e: Editor, i: Input, s: Screen)
    requires WellFormed(e) && Agrees(e, s) && Supported(i.c) && i.c != '\n'
    ensures Good(OnKey(e, i), s)
  {
    if i.c == TAB {
      TabGood(e, Possible(e.cmd, e.hints), s);
    } else if i.c == DELETE || i.c == BACKSPACE {
      EraseGood(e, s);
    } else if i.c == ESCAPE {
      EscapeGood(e, i.b0, i.b1, s);
    } else {
      CharGood(e, i.c, s);
    }
  }

  /** Only the return key finishes a command. */
  lemma OnlyEnterReturns(e: Editor, i: Input)
    requires Shaped(e) && i.c != '\n'
    ensures OnKey(e, i).line == ""
  {
  }

  /** Every supported key keeps the image. */
  lemma TurnGood(e: Editor, i: Input, s: Screen)
    requires WellFormed(e) && Agrees(e, s) && Supported(i.c) && WholeLines(i.reply)
    requires i.c == '\n' ==> MayEnter(e)
    ensures Good(Turn(e, i), s)
  {
    if i.c == '\n' {
      EnterGood(e, i, s);
    } else {
      KeyGood(e, i, s);
      OnlyEnterReturns(e, i);
      Remembers(OnKey(e, i), i.c as int, s);
    }
  }

  // -------------------------------------------------------------------- whole sessions

  lemma StartAgrees(prompt: string, history: seq<string>, hints: seq<string>, lastKey: int)
    requires Printable(prompt) && AllPrintable(history) && AllPrintable(hints)
    ensures var e := Start(prompt, history, hints, lastKey);
            WellFormed(e) && Agrees(e, Feed(Grid("", 0), prompt))
  {
    ShowsText(Grid("", 0), "", prompt);
    assert "" + prompt == prompt + "" == prompt;
  }

  /** After every sequence of supported keys the terminal row reads the prompt and the command,
      the cursor stands at the editing position, and that position and the place in the history
      are within their bounds. */
  lemma {:induction false} ScreenAlwaysAgrees(e: Editor, inputs: seq<Input>, s: Screen)
    requires WellFormed(e) && Agrees(e, s) && |e.history| > 0
    requires forall k :: 0 <= k < |inputs| ==> Supported(inputs[k].c) && WholeLines(inputs[k].reply)
    ensures Good(Session(e, inputs), s)
  {
    if inputs == [] {
      assert Feed(s, "") == s;
    } else {
      var before := Session(e, inputs[..|inputs| - 1]);
      var i := inputs[|inputs| - 1];
      ScreenAlwaysAgrees(e, inputs[..|inputs| - 1], s);
      TurnGood(before.e, i, Feed(s, before.out));
      FeedAppend(s, before.out, Turn(before.e, i).out);
    }
  }

  /** Any other key prints a message over the row. The image survives only where there is nothing
      to show: an empty prompt and a blank command with the cursor in front. */
  lemma UnsupportedKey(e: Editor, i: Input, s: Screen)
    requires WellFormed(e) && !Supported(i.c)
    ensures Agrees(ReadLine(e, i).e, Feed(s, ReadLine(e, i).out))
            <==> e.prompt == "" && e.index == 0 && forall k :: 0 <= k < |e.cmd| ==> e.cmd[k] == ' '
  {
    FeedNewline(s, "len = 1\n");
    var s1: Screen, text := Grid("", 0), e.prompt + e.cmd;
    assert forall k: nat :: s1.Cell(k) == ' ';
    if Shows(s1, text, |e.prompt| + e.index) {
      assert text == e.cmd;
      forall k | 0 <= k < |e.cmd|
        ensures e.cmd[k] == ' '
      {
        assert s1.Cell(k) == text[k];
      }
    }
  }

  // --------------------------------------------------------------- what keys undo

  /** Erasing undoes typing. */
  lemma EraseUndoesChar(e: Editor, c: char)
    requires Shaped(e)
    ensures var e1 := OnErase(OnChar(e, c).e).e;
            e1.cmd == e.cmd && e1.index == e.index && e1.history == e.history && e1.curr == e.curr
  {
    var cmd := OnChar(e, c).e.cmd;
    assert cmd[..e.index] == e.cmd[..e.index] && cmd[e.index + 1..] == e.cmd[e.index..];
    assert e.cmd == e.cmd[..e.index] + e.cmd[e.index..];
  }

  /** Going up from the end of the history and down again gives the command back exactly if it is
      what was typed last or what the history ends in; erasing and completing do not count as
      typing. */
  lemma UpThenDown(e: Editor)
    requires Shaped(e) && |e.history| > 0 && e.curr == |e.history|
    ensures var last := e.history[|e.history| - 1];
            OnDown(OnUp(e).e).e.cmd == e.cmd
            <==> (|e.history| > 1 && last == e.cmd)
                 || (if e.cmdBuffer == "" then last == e.cmd else e.cmdBuffer == e.cmd)
  {
  }

  /** The command just finished is what the next up key shows. */
  lemma UpRecallsCommand(e: Editor)
    requires Shaped(e) && MayEnter(e) && OnEnter(e).line != "" && OnEnter(e).line != "exit"
    ensures OnUp(OnEnter(e).e).e.cmd == OnEnter(e).line
    ensures e.history <= OnEnter(e).e.history
  {
  }
}
