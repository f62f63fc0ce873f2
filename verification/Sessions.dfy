/** What one session of the command line leaves for the next. */
module Sessions {
  import opened Lines
  import opened Terminal
  import opened HistoryFile
  import opened Editors

  /** Entries as `readLine` adds them: printable, and without blanks at the end. */
  ghost predicate Clean(history: seq<string>) {
    forall k :: 0 <= k < |history| ==> Printable(history[k]) && TrimRight(history[k]) == history[k]
  }

  lemma TrimTwice(s: string)
    ensures TrimRight(TrimRight(s)) == TrimRight(s)
  {
    TrimRightEnds(s);
    TrimUnique(TrimRight(s), TrimRight(s));
  }

  lemma EnterKeepsClean(e: Editor)
    requires WellFormed(e) && MayEnter(e) && Clean(e.history)
    ensures Clean(OnEnter(e).e.history)
  {
    TrimmedIsPrintable(e.cmd);
    TrimTwice(TrimSpaces(e.cmd));
  }

  /** No other key touches the history. */
  lemma OnlyEnterAdds(e: Editor, i: Input)
    requires Shaped(e) && i.c != '\n'
    ensures OnKey(e, i).e.history == e.history
  {
  }

  lemma {:induction false} SessionKeepsClean(e: Editor, inputs: seq<Input>, s: Screen)
    requires WellFormed(e) && Agrees(e, s) && |e.history| > 0 && Clean(e.history)
    requires forall k :: 0 <= k < |inputs| ==> Supported(inputs[k].c) && WholeLines(inputs[k].reply)
    ensures Clean(Session(e, inputs).e.history)
  {
    if inputs != [] {
      var most, i := inputs[..|inputs| - 1], inputs[|inputs| - 1];
      var before := Session(e, most).e;
      SessionKeepsClean(e, most, s);
      ScreenAlwaysAgrees(e, most, s);
      if i.c == '\n' {
        EnterKeepsClean(before);
      } else {
        OnlyEnterAdds(before, i);
      }
    }
  }

  /** A session that starts with clean entries: the next one gets the newest 502 entries back
      exactly if none of them is longer than 1022 characters. */
  lemma NextSessionRemembers(e: Editor, inputs: seq<Input>, s: Screen)
    requires WellFormed(e) && Agrees(e, s) && |e.history| > 0 && Clean(e.history)
    requires forall k :: 0 <= k < |inputs| ==> Supported(inputs[k].c) && WholeLines(inputs[k].reply)
    ensures var kept := Newest(Session(e, inputs).e.history, KEPT);
            Read(Present(Written(Session(e, inputs).e.history, KEPT))) == kept
            <==> forall k :: 0 <= k < |kept| ==> |kept[k]| <= 1022
  {
    var history := Session(e, inputs).e.history;
    var kept := Newest(history, KEPT);
    SessionKeepsClean(e, inputs, s);
    HistoryRoundTrip(history);
    forall k | 0 <= k < |kept|
      ensures Survives(kept[k]) <==> |kept[k]| <= 1022
    {
      var at := if |history| <= KEPT then k else |history| - KEPT + k;
      assert kept[k] == history[at];
    }
  }
}
