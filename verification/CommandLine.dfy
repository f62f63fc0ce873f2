/** The class of access_cmdline.cpp, refined against the editor, the hints and the history file. */
module CommandLines {
  import opened Lines
  import opened Terminal
  import opened Hints
  import opened Listing
  import opened HistoryFile
  import opened Editors

  class CmdLine {
    var prompt: string
    var cmd: string
    var cmdBuffer: string
    var index: nat
    var history: seq<string>
    var curr: nat
    var lastKey: int
    var hints: seq<string>

    /** Everything written to the terminal so far. */
    var out: string

    function View(): Editor
      reads this
    {
      Editor(prompt, cmd, cmdBuffer, index, history, curr, lastKey, hints)
    }

    ghost predicate Valid()
      reads this
    {
      Shaped(View())
    }

    /** The object is what `step` says, and has written what `step` says behind `before`. */
    ghost predicate After(step: Step, before: string)
      reads this
    {
      View() == step.e && out == before + step.out
    }

    /** `init`. After an empty history file no command must be entered. */
    constructor (prompt: string, file: HistoryFile.File, lastKey: int)
      ensures View() == Start(prompt, Read(file), [], lastKey) && out == prompt
      ensures Valid()
    {
      this.prompt, cmd, cmdBuffer, index, hints := prompt, "", "", 0, [];
      history, curr, this.lastKey, out := [], 0, lastKey, "";
      new;
      WriteLine(prompt);
      ReadHistory(file);
      curr := |history|;
    }

    method Left(n: nat)
      modifies `out
      ensures out == old(out) + Repeat(BACKSPACE, n)
    {
      out := out + Repeat(BACKSPACE, n);
    }

    method Space(n: nat)
      modifies `out
      ensures out == old(out) + Repeat(' ', n)
    {
      out := out + Repeat(' ', n);
    }

    method WriteLine(text: string)
      modifies `out
      ensures out == old(out) + text
    {
      out := out + text;
    }

    method BackSpaces(n: nat)
      modifies `out
      ensures out == old(out) + BackSpace(n)
    {
      Left(n);
      Space(n);
      Left(n);
    }

    method ClearRow()
      requires Valid()
      modifies `out
      ensures out == old(out) + ClearLine(View())
    {
      var r := |cmd| - index;
      Space(r);
      Left(r);
      BackSpaces(index);
    }

    /** The matching loop of `compareHints`. */
    method CollectHints() returns (common: seq<string>, possible: string, lenMin: nat)
      ensures common == Common(cmd, hints) && possible == Layout(common) && lenMin == ShortestLength(common)
    {
      var willSubCmd := ' ' in cmd;
      var haveSpace := false;
      common, possible, lenMin := [], "", LENGTH_CAP;
      var i := 0;
      while i < |hints|
        invariant i <= |hints| && haveSpace == AnySpace(hints[..i])
        invariant common == Common(cmd, hints[..i])
        invariant possible == Layout(common) && lenMin == ShortestLength(common)
      {
        OneMoreHint(cmd, hints, i);
        var hint := hints[i];
        if ' ' in hint {
          haveSpace := true;
        }
        if |hint| > |cmd| && hint[..|cmd|] == cmd && (willSubCmd || !haveSpace) {
          OneMoreLength(common, hint);
          OneMoreLaidOut(common, hint);
          common := common + [hint];
          possible := ListHint(possible, hint, |common|);
          if |hint| < lenMin {
            lenMin := |hint|;
          }
        }
        i := i + 1;
      }
      assert hints[..i] == hints;
    }

    /** Appends the match that is the `i`-th to the list. */
    static method ListHint(possible0: string, hint: string, i: nat) returns (possible: string)
      requires i > 0
      ensures possible == possible0 + hint + Separator(i - 1)
    {
      possible := possible0 + hint;
      possible := possible + " ";
      if i % 4 == 0 {
        possible := possible + "\n";
      }
      assert possible0 + hint + " " + "\n" == possible0 + hint + " \n";
    }

    /** The loop that erases the main command. */
    static method EraseMainCommands(possible0: string, mainCmd: string, n: nat) returns (possible: string)
      ensures possible == EraseTimes(possible0, mainCmd, n)
    {
      possible := possible0;
      var i := 0;
      while i < n
        invariant i <= n && EraseTimes(possible, mainCmd, n - i) == EraseTimes(possible0, mainCmd, n)
      {
        possible := EraseFirst(possible, mainCmd);
        i := i + 1;
      }
    }

    /** `compareHints`: the matching hints, the list of them and the completion. */
    method CompareHints() returns (common: seq<string>, possible: string, append: string)
      ensures common == Matching(cmd, hints) && possible == Possible(cmd, hints) && append == Completion(cmd, hints)
    {
      common, possible, append := [], "", "";
      if cmd == "" {
        return;
      }
      var lenMin;
      common, possible, lenMin := CollectHints();
      if |common| < 2 {
        return;
      }
      if ' ' in cmd {
        possible := EraseMainCommands(possible, MainCommand(cmd), |common|);
      }
      ShortestIsShortest(common);
      append := CompleteCommon(common, lenMin);
    }

    /** The character loop of `compareHints`. */
    method CompleteCommon(common: seq<string>, lenMin: nat) returns (append: string)
      requires |common| > 0 && forall k :: 0 <= k < |common| ==> lenMin <= |common[k]|
      ensures append == AgreedFrom(common, |cmd|, lenMin)
    {
      append := "";
      var i := |cmd|;
      while i < lenMin
        invariant append + AgreedFrom(common, i, lenMin) == AgreedFrom(common, |cmd|, lenMin)
      {
        var x := common[0][i];
        var k := 0;
        while k < |common|
          invariant k <= |common|
          invariant x == common[0][i] || x == NUL
          invariant x != NUL ==> forall j :: 0 <= j < k ==> common[j][i] == common[0][i]
          invariant x == NUL ==> common[0][i] == NUL || !Agree(common, i)
        {
          if common[k][i] != x {
            x := NUL;
            break;
          }
          k := k + 1;
        }
        if x == NUL {
          return;
        }
        assert Agree(common, i);
        assert append + ([x] + AgreedFrom(common, i + 1, lenMin)) == (append + [x]) + AgreedFrom(common, i + 1, lenMin);
        append := append + [x];
        i := i + 1;
      }
    }

    method ReadEnter() returns (line: string)
      requires Valid() && MayEnter(View())
      modifies this
      ensures After(OnEnter(old(View())), old(out)) && line == OnEnter(old(View())).line
    {
      WriteLine("\n");
      cmd := TrimSpaces(cmd);
      cmd := TrimRight(cmd);
      if cmd == "" {
        WriteLine(prompt);
      } else if history[|history| - 1] != cmd {
        if cmd != "exit" {
          history := history + [cmd];
        }
        curr := |history|;
      } else {
        curr := |history|;
      }
      line := cmd;
      cmd := "";
      cmdBuffer := "";
      index := 0;
    }

    method ReadTab()
      requires Valid()
      modifies this
      ensures After(OnTab(old(View()), Possible(old(cmd), old(hints))), old(out))
    {
      var common, possible, append := CompareHints();
      if |common| > 1 && lastKey == TAB as int {
        ListMatches("\n" + possible + "\n", append);
      } else if |common| == 1 {
        OneMatchListed(common[0]);
        assert common == [common[0]];
        ReplaceCmd(possible);
      }
    }

    /** Writes the list, the prompt and the completed command. */
    method ListMatches(list: string, append: string)
      modifies `cmd, `index, `out
      ensures cmd == old(cmd) + append && index == |cmd|
      ensures out == old(out) + (list + prompt + cmd)
    {
      WriteLine(list);
      WriteLine(prompt);
      cmd := cmd + append;
      index := |cmd|;
      WriteLine(cmd);
    }

    /** `clearLine`, `writeLine` and the assignments that follow them. */
    method ReplaceCmd(text: string)
      requires Valid()
      modifies `cmd, `index, `out
      ensures After(Replace(old(View()), text), old(out))
    {
      ClearRow();
      WriteLine(text);
      cmd := text;
      index := |cmd|;
    }

    method ReadErase()
      requires Valid()
      modifies this
      ensures After(OnErase(old(View())), old(out))
    {
      if index > 0 {
        ClearRow();
        var lastPart := cmd[index..];
        index := index - 1;
        cmd := cmd[..index] + cmd[index + 1..];
        WriteLine(cmd);
        Left(|lastPart|);
      }
    }

    method ReadChar(c: char)
      requires Valid()
      modifies this
      ensures After(OnChar(old(View()), c), old(out))
    {
      ClearRow();
      var lastPart := cmd[index..];
      cmd := cmd[..index] + [c] + cmd[index..];
      cmdBuffer := cmd;
      WriteLine(cmd);
      assert out == old(out) + (ClearLine(old(View())) + cmd);
      Left(|lastPart|);
      index := index + 1;
    }

    method ReadUp()
      requires Valid() && |history| > 0
      modifies this
      ensures After(OnUp(old(View())), old(out))
    {
      if curr != 0 {
        curr := curr - 1;
        if history[curr] == cmd && curr != 0 {
          curr := curr - 1;
        }
      }
      ReplaceCmd(history[curr]);
    }

    method ReadDown()
      requires Valid()
      modifies this
      ensures After(OnDown(old(View())), old(out))
    {
      if curr == |history| {
      } else if curr == |history| - 1 {
        if |cmdBuffer| != 0 {
          ReplaceCmd(cmdBuffer);
        }
        curr := curr + 1;
      } else {
        curr := curr + 1;
        ReplaceCmd(history[curr]);
      }
    }

    method ReadEscape(b0: char, b1: char)
      requires Valid()
      modifies this
      ensures After(OnEscape(old(View()), b0, b1), old(out))
    {
      if b0 == '[' && b1 == 'A' && |history| > 0 {
        ReadUp();
      } else if b0 == '[' && b1 == 'B' && |history| > 0 {
        ReadDown();
      } else if b0 == '[' && b1 == 'D' && index > 0 {
        WriteLine([BACKSPACE]);
        index := index - 1;
      } else if b0 == '[' && b1 == 'C' && index < |cmd| {
        WriteLine([cmd[index]]);
        index := index + 1;
      }
    }

    method ReadKey(i: Input) returns (line: string)
      requires Valid() && (i.c == '\n' ==> MayEnter(View()))
      modifies this
      ensures Valid() && After(ReadLine(old(View()), i), old(out)) && line == ReadLine(old(View()), i).line
    {
      line := "";
      if i.c == '\n' {
        line := ReadEnter();
      } else if i.c == TAB {
        ReadTab();
      } else if i.c == DELETE || i.c == BACKSPACE {
        ReadErase();
      } else if i.c == ESCAPE {
        ReadEscape(i.b0, i.b1);
      } else if IsPrint(i.c) {
        ReadChar(i.c);
      } else {
        WriteLine("len = 1\n");
      }
      lastKey := i.c as int;
    }

    /** `readHistory` into an empty history. */
    method ReadHistory(file: HistoryFile.File)
      requires history == []
      modifies `history
      ensures history == Read(file)
    {
      match file
      case Missing => history := ["help"];
      case Present(text) =>
        var tmp := ReadEntries(text);
        var i := 0;
        ghost var reversed := Reverse(tmp);
        while i < |tmp|
          invariant i <= |tmp| && i < KEPT && history == reversed[..i]
        {
          assert reversed[..i + 1] == reversed[..i] + [tmp[|tmp| - 1 - i]];
          history := history + [tmp[|tmp| - 1 - i]];
          if i > 500 {
            break;
          }
          i := i + 1;
        }
    }

    /** The body of the `fgets` loop. */
    static method TakeEntry(tmp0: seq<string>, chunk: string) returns (tmp: seq<string>)
      ensures tmp == tmp0 + Entry(chunk)
    {
      var buf := CString(chunk);
      tmp := tmp0;
      if |buf| > 0 {
        tmp := tmp + [TrimRight(buf)];
      }
    }

    /** The `fgets` loop. */
    method ReadEntries(text: string) returns (tmp: seq<string>)
      ensures tmp == Entries(text)
    {
      tmp := [];
      var rest := text;
      while rest != ""
        invariant tmp + Entries(rest) == Entries(text)
        decreases |rest|
      {
        var n := ChunkLength(rest, 0);
        NextChunk(tmp, rest, n);
        tmp := TakeEntry(tmp, rest[..n]);
        rest := rest[n..];
      }
    }

    /** `writeBackHistory`. */
    method WriteBackHistory() returns (text: string)
      ensures text == Written(history, KEPT)
    {
      text := "";
      var i := 0;
      while i < |history|
        invariant i <= |history| && i < KEPT && text == Written(history, i)
      {
        WrittenGrows(history, i);
        text := text + WrittenLine(history[|history| - 1 - i]);
        if i > 500 {
          return;
        }
        i := i + 1;
      }
      WrittenAll(history, KEPT);
    }
  }

  lemma NextChunk(tmp: seq<string>, rest: string, n: nat)
    requires rest != "" && n == ChunkLength(rest, 0)
    ensures tmp + Entries(rest) == (tmp + Entry(rest[..n])) + Entries(rest[n..])
  {
    FirstChunk(rest, n, rest[..n], rest[n..]);
    Regroup(tmp, Entry(rest[..n]), Entries(rest[n..]), Entries(rest));
  }

  lemma OneMoreHint(cmd: string, hints: seq<string>, i: nat)
    requires i < |hints|
    ensures AnySpace(hints[..i + 1]) <==> AnySpace(hints[..i]) || HasSpace(hints[i])
    ensures Common(cmd, hints[..i + 1])
            == Common(cmd, hints[..i])
               + (if Matches(cmd, hints[i]) && (HasSpace(cmd) || !AnySpace(hints[..i + 1])) then [hints[i]] else [])
  {
    var next := hints[..i + 1];
    assert next[..i] == hints[..i] && next[i] == hints[i];
    if AnySpace(hints[..i]) {
      var k :| 0 <= k < i && HasSpace(hints[..i][k]);
      assert HasSpace(next[k]);
    } else if HasSpace(hints[i]) {
      assert HasSpace(next[i]);
    }
  }

  lemma OneMoreLaidOut(common: seq<string>, hint: string)
    ensures Layout(common + [hint]) == Layout(common) + hint + Separator(|common|)
  {
    assert (common + [hint])[..|common|] == common;
  }

  lemma OneMatchListed(hint: string)
    ensures Layout([hint]) == hint + " "
  {
    OneMoreLaidOut([], hint);
    assert [] + [hint] == [hint] && "" + hint == hint;
  }

  lemma OneMoreLength(common: seq<string>, hint: string)
    ensures ShortestLength(common + [hint])
            == if |hint| < ShortestLength(common) then |hint| else ShortestLength(common)
  {
    assert (common + [hint])[..|common|] == common;
  }
}
