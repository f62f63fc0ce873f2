/** The terminal row as the line editor's output leaves it: what the escape-free control
    characters and the printable characters do to one row that is never wrapped. */
module Terminal {

  const BACKSPACE: char := '\U{8}'

  /** The part of the row that was written so far, blank beyond, and the cursor's column. */
  datatype Grid = Grid(row: string, col: nat) {
    function Cell(i: nat): char {
      if i < |row| then row[i] else ' '
    }
  }

  type Screen = s: Grid | s.col <= |s.row| witness Grid("", 0)

  function Put(s: Screen, c: char): Screen {
    if c == BACKSPACE then s.(col := if s.col > 0 then s.col - 1 else 0)
    else if c == '\n' then Grid("", 0)
    else if s.col < |s.row| then Grid(s.row[s.col := c], s.col + 1)
    else Grid(s.row + [c], s.col + 1)
  }

  function Feed(s: Screen, out: string): Screen {
    if out == "" then s else Put(Feed(s, out[..|out| - 1]), out[|out| - 1])
  }

  predicate Printable(s: string) {
    forall i :: 0 <= i < |s| ==> ' ' <= s[i] <= '~'
  }

  /** The row reads `text` followed by blanks, with the cursor at `col`. */
  ghost predicate Shows(s: Screen, text: string, col: nat) {
    s.col == col && forall i: nat :: s.Cell(i) == if i < |text| then text[i] else ' '
  }

  function Repeat(c: char, n: nat): (r: string)
    ensures |r| == n && forall i :: 0 <= i < n ==> r[i] == c
  {
    seq(n, _ => c)
  }

  lemma {:induction false} FeedAppend(s: Screen, a: string, b: string)
    ensures Feed(s, a + b) == Feed(Feed(s, a), b)
  {
    if b == "" {
      assert a + b == a;
    } else {
      var most, c := b[..|b| - 1], b[|b| - 1];
      FeedAppend(s, a, most);
      assert (a + b)[..|a + b| - 1] == a + most && (a + b)[|a + b| - 1] == c;
    }
  }

  lemma PutCell(s: Screen, c: char, i: nat)
    requires ' ' <= c <= '~'
    ensures Put(s, c).col == s.col + 1
    ensures Put(s, c).Cell(i) == if i == s.col then c else s.Cell(i)
  {
  }

  /** Printable text replaces the cells from the cursor on. */
  lemma {:induction false} FeedText(s: Screen, t: string, i: nat)
    requires Printable(t)
    ensures Feed(s, t).col == s.col + |t|
    ensures Feed(s, t).Cell(i) == if s.col <= i < s.col + |t| then t[i - s.col] else s.Cell(i)
  {
    if t != "" {
      var most := t[..|t| - 1];
      FeedText(s, most, i);
      PutCell(Feed(s, most), t[|t| - 1], i);
    }
  }

  /** Backspaces move the cursor and leave the cells alone. */
  lemma {:induction false} FeedLeft(s: Screen, n: nat)
    requires n <= s.col
    ensures Feed(s, Repeat(BACKSPACE, n)) == s.(col := s.col - n)
  {
    if n > 0 {
      var all := Repeat(BACKSPACE, n);
      assert all[..n - 1] == Repeat(BACKSPACE, n - 1);
      FeedLeft(s, n - 1);
    }
  }

  /** Whatever ends in a newline leaves an empty row. */
  lemma FeedNewline(s: Screen, out: string)
    requires out != "" && out[|out| - 1] == '\n'
    ensures Feed(s, out) == Grid("", 0) && Shows(Feed(s, out), "", 0)
  {
  }

  /** Typing behind the text. */
  lemma ShowsText(s: Screen, text: string, t: string)
    requires Shows(s, text, |text|) && Printable(t)
    ensures Shows(Feed(s, t), text + t, |text| + |t|)
  {
    FeedText(s, t, 0);
    forall i: nat
      ensures Feed(s, t).Cell(i) == if i < |text + t| then (text + t)[i] else ' '
    {
      FeedText(s, t, i);
      assert s.Cell(i) == if i < |text| then text[i] else ' ';
    }
  }

  lemma ShowsLeft(s: Screen, text: string, col: nat, n: nat)
    requires Shows(s, text, col) && n <= col
    ensures Shows(Feed(s, Repeat(BACKSPACE, n)), text, col - n)
  {
    FeedLeft(s, n);
    var s1 := Feed(s, Repeat(BACKSPACE, n));
    assert forall i: nat :: s1.Cell(i) == s.Cell(i);
  }

  /** Rewriting the character under the cursor moves the cursor to the right. */
  lemma ShowsRight(s: Screen, text: string, col: nat)
    requires Shows(s, text, col) && col < |text| && Printable(text)
    ensures Shows(Feed(s, [text[col]]), text, col + 1)
  {
    var t := [text[col]];
    FeedText(s, t, 0);
    forall i: nat
      ensures Feed(s, t).Cell(i) == if i < |text| then text[i] else ' '
    {
      FeedText(s, t, i);
      assert s.Cell(i) == if i < |text| then text[i] else ' ';
    }
  }

  /** Spaces blank the cells behind a prefix: from the cursor to the end of the text. */
  lemma ShowsBlanks(s: Screen, text: string, col: nat, n: nat)
    requires Shows(s, text, col) && col <= |text| <= col + n
    ensures Shows(Feed(s, Repeat(' ', n)), text[..col], col + n)
  {
    var t := Repeat(' ', n);
    FeedText(s, t, 0);
    forall i: nat
      ensures Feed(s, t).Cell(i) == if i < col then text[..col][i] else ' '
    {
      FeedText(s, t, i);
      assert s.Cell(i) == if i < |text| then text[i] else ' ';
    }
  }
}
