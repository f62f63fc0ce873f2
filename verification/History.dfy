/** The history file, `readHistory` and `writeBackHistory` of access_cmdline.cpp. */
module HistoryFile {
  import opened Lines

  /** What `i > 500` at the end of a loop body that starts with `i == 0` lets through. */
  const KEPT: nat := 502

  /** One less than the buffer given to `fgets`. */
  const CHUNK: nat := 1023

  /** How much one `fgets` reads of a non-empty rest of a file: up to and with the first newline,
      at most 1023 characters. */
  function ChunkLength(file: string, i: nat): (n: nat)
    requires i < |file| && i < CHUNK
    ensures i < n <= |file| && n <= CHUNK
    decreases |file| - i
  {
    if file[i] == '\n' || i + 1 == |file| || i + 1 == CHUNK then i + 1 else ChunkLength(file, i + 1)
  }

  lemma {:induction false} ChunkEnds(file: string, i: nat)
    requires i < |file| && i < CHUNK
    ensures var n := ChunkLength(file, i);
            && (forall k :: i <= k < n - 1 ==> file[k] != '\n')
            && (n == |file| || n == CHUNK || file[n - 1] == '\n')
    decreases |file| - i
  {
    if file[i] == '\n' || i + 1 == |file| || i + 1 == CHUNK {
    } else {
      ChunkEnds(file, i + 1);
    }
  }

  /** The entry that one chunk gives; a chunk that starts with a NUL gives none. */
  function Entry(chunk: string): seq<string> {
    if CString(chunk) == "" then [] else [TrimRight(CString(chunk))]
  }

  /** The entries of a file in the order of its lines. */
  function Entries(file: string): seq<string> {
    if file == "" then []
    else
      var n := ChunkLength(file, 0);
      Entry(file[..n]) + Entries(file[n..])
  }

  function Reverse<T>(s: seq<T>): (r: seq<T>)
    ensures |r| == |s| && forall k :: 0 <= k < |s| ==> r[k] == s[|s| - 1 - k]
  {
    if s == [] then [] else Reverse(s[1..]) + [s[0]]
  }

  function Take<T>(s: seq<T>, n: nat): seq<T> {
    if |s| <= n then s else s[..n]
  }

  /** A file that may not exist. */
  datatype File = Missing | Present(text: string)

  /** `readHistory` into an empty list. */
  function Read(f: File): seq<string> {
    match f
    case Missing => ["help"]
    case Present(text) => Take(Reverse(Entries(text)), KEPT)
  }

  /** The line written for an entry. */
  function WrittenLine(e: string): string {
    CString(e) + "\n"
  }

  /** The newest `n` entries, newest first, one line each. */
  function Written(history: seq<string>, n: nat): string {
    if history == [] || n == 0 then ""
    else WrittenLine(history[|history| - 1]) + Written(history[..|history| - 1], n - 1)
  }

  /** Writing goes on from entry to entry. */
  lemma {:induction false} WrittenGrows(history: seq<string>, i: nat)
    requires i < |history|
    ensures Written(history, i + 1) == Written(history, i) + WrittenLine(history[|history| - 1 - i])
  {
    if i > 0 {
      var most, line := history[..|history| - 1], WrittenLine(history[|history| - 1]);
      WrittenGrows(most, i - 1);
      assert most[|most| - i] == history[|history| - 1 - i];
      assert Written(history, i + 1) == line + Written(most, i);
    }
  }

  lemma {:induction false} WrittenAll(history: seq<string>, n: nat)
    requires |history| <= n
    ensures Written(history, n) == Written(history, |history|)
  {
    if history != [] {
      WrittenAll(history[..|history| - 1], n - 1);
    }
  }

  /** The newest `n` entries in their order. */
  function Newest(history: seq<string>, n: nat): seq<string> {
    if |history| <= n then history else history[|history| - n..]
  }

  // -------------------------------------------------------------------- round trip

  /** The entries that survive being written and read. */
  predicate Survives(e: string) {
    '\n' !in e && NUL !in e && TrimRight(e) == e && |e| <= 1022
  }

  predicate IsLine(line: string) {
    line != "" && line[|line| - 1] == '\n' && NUL !in line
  }

  lemma LineIsLine(e: string)
    ensures IsLine(WrittenLine(e)) && CString(WrittenLine(e)) == WrittenLine(e)
  {
    CStringEnds(e);
    CStringOfText(WrittenLine(e));
  }

  /** Trimming does not see the newline. */
  lemma TrimLine(e: string)
    ensures TrimRight(e + "\n") == TrimRight(e)
  {
    TrimRightEnds(e);
    TrimUnique(e + "\n", TrimRight(e));
  }

  /** A chunk boundary never lies across the end of a line. */
  lemma ChunkOfLine(line: string, rest: string, i: nat)
    requires line != "" && line[|line| - 1] == '\n' && i < |line| && i < CHUNK
    ensures ChunkLength(line + rest, i) == ChunkLength(line, i)
    decreases |line| - i
  {
    if line[i] != '\n' && i + 1 < CHUNK {
      ChunkOfLine(line, rest, i + 1);
    }
  }

  lemma FirstChunk(file: string, n: nat, chunk: string, rest: string)
    requires file != "" && n == ChunkLength(file, 0) && chunk == file[..n] && rest == file[n..]
    ensures Entries(file) == Entry(chunk) + Entries(rest)
  {
  }

  lemma Regroup(a: seq<string>, b: seq<string>, c: seq<string>, bc: seq<string>)
    requires bc == b + c
    ensures a + bc == (a + b) + c
  {
  }

  lemma {:induction false} EntriesOfLine(line: string, rest: string)
    requires line != "" && line[|line| - 1] == '\n'
    ensures Entries(line + rest) == Entries(line) + Entries(rest)
    decreases |line|
  {
    var n := ChunkLength(line, 0);
    var (chunk, tail) := (line[..n], line[n..]);
    ChunkOfLine(line, rest, 0);
    FirstChunk(line + rest, n, chunk, tail + rest);
    FirstChunk(line, n, chunk, tail);
    if tail == "" {
      assert tail + rest == rest;
      Regroup(Entry(chunk), [], Entries(rest), Entries(rest));
    } else {
      EntriesOfLine(tail, rest);
      Regroup(Entry(chunk), Entries(tail), Entries(rest), Entries(tail + rest));
    }
  }

  /** Every line gives at least one entry, and the last is shorter than the line. */
  lemma {:induction false} LastEntry(line: string)
    requires IsLine(line)
    ensures Entries(line) != [] && |Entries(line)[|Entries(line)| - 1]| < |line|
    decreases |line|
  {
    var n := ChunkLength(line, 0);
    var (chunk, tail) := (line[..n], line[n..]);
    CStringOfText(chunk);
    FirstChunk(line, n, chunk, tail);
    if tail == "" {
      TrimRightEnds(chunk);
      assert chunk == line && Blank(chunk[n - 1]);
    } else {
      assert IsLine(tail);
      LastEntry(tail);
    }
  }

  /** What reading gives for an entry that was written. */
  function ReadBack(e: string): seq<string> {
    Entries(WrittenLine(e))
  }

  /** An entry that is read in one chunk. */
  lemma WholeLine(e: string)
    requires WrittenLine(e) != "" && ChunkLength(WrittenLine(e), 0) == |WrittenLine(e)|
    ensures ReadBack(e) == [TrimRight(CString(e))]
    ensures '\n' !in CString(e) && |CString(e)| < CHUNK
  {
    var (line, text) := (WrittenLine(e), CString(e));
    LineIsLine(e);
    TrimLine(text);
    FirstChunk(line, |line|, line, "");
    ChunkEnds(line, 0);
    forall k | 0 <= k < |text|
      ensures text[k] != '\n'
    {
      assert line[k] == text[k];
    }
  }

  /** An entry that is cut into several chunks. */
  lemma SplitLine(e: string)
    requires WrittenLine(e) != "" && ChunkLength(WrittenLine(e), 0) < |WrittenLine(e)|
    ensures |ReadBack(e)| >= 2 && |ReadBack(e)[|ReadBack(e)| - 1]| < |e|
    ensures '\n' in CString(e) || |CString(e)| >= CHUNK
  {
    var (line, text) := (WrittenLine(e), CString(e));
    var n := ChunkLength(line, 0);
    var (chunk, tail) := (line[..n], line[n..]);
    LineIsLine(e);
    CStringEnds(e);
    CStringOfText(chunk);
    FirstChunk(line, n, chunk, tail);
    assert IsLine(tail);
    LastEntry(tail);
    ChunkEnds(line, 0);
    if n < CHUNK {
      assert line[n - 1] == text[n - 1];
    }
  }

  /** An entry comes back as itself alone exactly if it survives, and it is never the last of
      several. */
  lemma EntryRoundTrip(e: string)
    ensures ReadBack(e) != []
    ensures ReadBack(e) == [e] <==> Survives(e)
    ensures ReadBack(e) == [e] <==> ReadBack(e)[|ReadBack(e)| - 1] == e
  {
    LineIsLine(e);
    CStringEnds(e);
    if ChunkLength(WrittenLine(e), 0) == |WrittenLine(e)| {
      WholeLine(e);
      TrimRightEnds(CString(e));
      assert CString(e) == e <==> NUL !in e;
    } else {
      SplitLine(e);
    }
  }

  /** What is read for a list of entries, oldest first, without the limit. */
  function Echo(read: string -> seq<string>, history: seq<string>): seq<string> {
    if history == [] then []
    else Echo(read, history[..|history| - 1]) + Reverse(read(history[|history| - 1]))
  }

  lemma ReverseAppend<T>(a: seq<T>, b: seq<T>)
    ensures Reverse(a + b) == Reverse(b) + Reverse(a)
  {
  }

  lemma OneLineMore(history: seq<string>, n: nat, most: seq<string>, e: string)
    requires history == most + [e] && n > 0
    ensures Reverse(Entries(Written(history, n))) == Reverse(Entries(Written(most, n - 1))) + Reverse(ReadBack(e))
  {
    var (line, older) := (WrittenLine(e), Written(most, n - 1));
    LineIsLine(e);
    assert history[..|most|] == most && Written(history, n) == line + older;
    EntriesOfLine(line, older);
    ReverseAppend(Entries(line), Entries(older));
  }

  /** What is read of a file with the newest `n` entries, without the limit. */
  function Reread(history: seq<string>, n: nat): seq<string> {
    Reverse(Entries(Written(history, n)))
  }

  /** `reread` grows by one entry's `read` at a time. */
  ghost predicate Stepwise(reread: (seq<string>, nat) -> seq<string>, read: string -> seq<string>) {
    && (forall n :: reread([], n) == [])
    && forall most, e, n {:trigger reread(most + [e], n)} :: n > 0 ==>
         reread(most + [e], n) == reread(most, n - 1) + Reverse(read(e))
  }

  lemma RereadIsStepwise()
    ensures Stepwise(Reread, ReadBack)
  {
    forall most: seq<string>, e: string, n: nat | n > 0
      ensures Reread(most + [e], n) == Reread(most, n - 1) + Reverse(ReadBack(e))
    {
      OneLineMore(most + [e], n, most, e);
    }
  }

  lemma {:induction false} ReadsEcho(reread: (seq<string>, nat) -> seq<string>, read: string -> seq<string>,
                                     history: seq<string>, n: nat)
    requires Stepwise(reread, read) && |history| <= n
    ensures reread(history, n) == Echo(read, history)
  {
    if history != [] {
      var most, e := history[..|history| - 1], history[|history| - 1];
      ReadsEcho(reread, read, most, n - 1);
      assert history == most + [e];
    }
  }

  lemma {:induction false} WritesNewest(history: seq<string>, n: nat)
    ensures Written(history, n) == Written(Newest(history, n), n)
  {
    if history != [] && n > 0 {
      var most := history[..|history| - 1];
      WritesNewest(most, n - 1);
      if |history| > n {
        assert Newest(history, n)[..n - 1] == Newest(most, n - 1);
      }
    }
  }

  lemma EchoStep(most: seq<string>, e: string, echo: seq<string>, last: seq<string>)
    requires |most| <= |echo| && (most <= echo ==> echo == most)
    requires last != [] && (last == [e] <==> last[0] == e)
    ensures most + [e] <= echo + last <==> most <= echo && last == [e]
    ensures most + [e] <= echo + last ==> echo + last == most + [e]
  {
    if most + [e] <= echo + last {
      assert most == (most + [e])[..|most|] == (echo + last)[..|most|] == echo[..|most|];
      assert e == (echo + last)[|most|] == last[0];
    }
  }

  /** How `read` must treat single entries for the next lemma. */
  ghost predicate NeverLast(read: string -> seq<string>) {
    forall e :: read(e) != [] && (read(e) == [e] <==> read(e)[|read(e)| - 1] == e)
  }

  ghost predicate Faithful(read: string -> seq<string>, history: seq<string>) {
    forall k :: 0 <= k < |history| ==> read(history[k]) == [history[k]]
  }

  lemma FaithfulStep(read: string -> seq<string>, most: seq<string>, e: string)
    ensures Faithful(read, most + [e]) <==> Faithful(read, most) && read(e) == [e]
  {
    assert (most + [e])[|most|] == e;
    assert forall k :: 0 <= k < |most| ==> (most + [e])[k] == most[k];
  }

  /** A list is a prefix of its echo exactly if each entry is read back faithfully, and then it
      is all of it. */
  lemma {:induction false} EchoExact(read: string -> seq<string>, history: seq<string>)
    requires NeverLast(read)
    ensures |history| <= |Echo(read, history)|
    ensures history <= Echo(read, history) <==> Faithful(read, history)
    ensures history <= Echo(read, history) ==> Echo(read, history) == history
  {
    if history != [] {
      var most, e := history[..|history| - 1], history[|history| - 1];
      EchoExact(read, most);
      assert history == most + [e];
      EchoStep(most, e, Echo(read, most), Reverse(read(e)));
      FaithfulStep(read, most, e);
    }
  }

  ghost predicate AllSurvive(history: seq<string>) {
    forall k :: 0 <= k < |history| ==> Survives(history[k])
  }

  lemma ReadBackExact(history: seq<string>)
    ensures NeverLast(ReadBack) && (Faithful(ReadBack, history) <==> AllSurvive(history))
  {
    forall e: string
      ensures ReadBack(e) != [] && (ReadBack(e) == [e] <==> ReadBack(e)[|ReadBack(e)| - 1] == e)
      ensures ReadBack(e) == [e] <==> Survives(e)
    {
      EntryRoundTrip(e);
    }
  }

  /** Reading back what was written restores the newest 502 entries in their order exactly if
      each of them has no newline and no NUL, does not end in a blank and has at most 1022
      characters. */
  lemma HistoryRoundTrip(history: seq<string>)
    ensures var kept := Newest(history, KEPT);
            Read(Present(Written(history, KEPT))) == kept <==> AllSurvive(kept)
  {
    var kept := Newest(history, KEPT);
    WritesNewest(history, KEPT);
    RereadIsStepwise();
    ReadsEcho(Reread, ReadBack, kept, KEPT);
    assert Reread(kept, KEPT) == Echo(ReadBack, kept);
    ReadBackExact(kept);
    EchoExact(ReadBack, kept);
  }

  lemma WrittenIsKept(history: seq<string>, kept: seq<string>)
    requires kept == Newest(history, KEPT) && AllSurvive(kept)
    ensures Reverse(Entries(Written(history, KEPT))) == kept
  {
    WritesNewest(history, KEPT);
    RereadIsStepwise();
    ReadsEcho(Reread, ReadBack, kept, KEPT);
    assert Reread(kept, KEPT) == Echo(ReadBack, kept);
    ReadBackExact(kept);
    EchoExact(ReadBack, kept);
  }

  /** The file itself holds the newest entries in front: the k-th entry that is read from it is the
      k-th newest, for up to 502 entries. */
  lemma FileHoldsNewestFirst(history: seq<string>, entries: seq<string>, k: nat)
    requires AllSurvive(Newest(history, KEPT)) && entries == Entries(Written(history, KEPT))
    ensures |entries| == if |history| <= 502 then |history| else 502
    ensures k < |entries| ==> entries[k] == history[|history| - 1 - k]
  {
    var kept := Newest(history, KEPT);
    WrittenIsKept(history, kept);
    ReverseAt(entries, kept, k);
    NewestAt(history, entries, kept, k);
  }

  lemma ReverseAt<T>(s: seq<T>, r: seq<T>, k: nat)
    requires r == Reverse(s)
    ensures |r| == |s| && (k < |s| ==> r[|s| - 1 - k] == s[k])
  {
    if k < |s| {
      assert r[|s| - 1 - k] == s[|s| - 1 - (|s| - 1 - k)];
    }
  }

  lemma NewestAt(history: seq<string>, entries: seq<string>, kept: seq<string>, k: nat)
    requires kept == Newest(history, KEPT) && |kept| == |entries|
    requires k < |entries| ==> kept[|entries| - 1 - k] == entries[k]
    ensures |entries| == if |history| <= 502 then |history| else 502
    ensures k < |entries| ==> entries[k] == history[|history| - 1 - k]
  {
  }

  /** Reading gives the entries of the file from the last to the first, 502 at most; without a file
      there is the one entry `help`. */
  lemma ReadReverses(text: string, entries: seq<string>, k: nat)
    requires entries == Entries(text)
    ensures |Read(Present(text))| == if |entries| <= 502 then |entries| else 502
    ensures k < |Read(Present(text))| ==> Read(Present(text))[k] == entries[|entries| - 1 - k]
    ensures Read(Missing) == ["help"]
  {
    assert Read(Present(text)) == Take(Reverse(entries), KEPT);
  }
}
