/** String trimming as the command line does it. */
module Lines {

  const NUL: char := '\0'

  predicate Blank(c: char) {
    c == ' ' || c == '\t' || c == '\n' || c == '\r'
  }

  /** `cmdRTrim`: erases the blanks behind the last non-blank character. */
  function TrimRight(s: string): string {
    if s == "" || !Blank(s[|s| - 1]) then s else TrimRight(s[..|s| - 1])
  }

  /** Erases the spaces in front of the first character that is not a space. */
  function TrimSpaces(s: string): string {
    if s == "" || s[0] != ' ' then s else TrimSpaces(s[1..])
  }

  /** `t` is what right-trimming must leave of `s`. */
  ghost predicate RightTrimmed(s: string, t: string) {
    && t <= s && (t == "" || !Blank(t[|t| - 1]))
    && forall k :: |t| <= k < |s| ==> Blank(s[k])
  }

  lemma {:induction false} TrimRightEnds(s: string)
    ensures RightTrimmed(s, TrimRight(s))
  {
    if s != "" && Blank(s[|s| - 1]) {
      TrimRightEnds(s[..|s| - 1]);
    }
  }

  /** Right-trimming is settled by what is left. */
  lemma TrimUnique(s: string, t: string)
    requires RightTrimmed(s, t)
    ensures TrimRight(s) == t
  {
    var r := TrimRight(s);
    TrimRightEnds(s);
    assert r == s[..|r|] && t == s[..|t|];
    assert |r| <= |t| && |t| <= |r|;
  }

  /** `TrimSpaces` drops spaces from the front and stops at the first other character. */
  lemma {:induction false} TrimSpacesEnds(s: string)
    ensures var t := TrimSpaces(s);
            && |t| <= |s| && t == s[|s| - |t|..] && (t == "" || t[0] != ' ')
            && forall k :: 0 <= k < |s| - |t| ==> s[k] == ' '
  {
    if s != "" && s[0] == ' ' {
      TrimSpacesEnds(s[1..]);
    }
  }

  /** What C sees of a string: the characters in front of the first NUL. */
  function CString(s: string): string {
    if s == "" || s[0] == NUL then "" else [s[0]] + CString(s[1..])
  }

  lemma {:induction false} CStringEnds(s: string)
    ensures var t := CString(s);
            t <= s && NUL !in t && (t != s ==> s[|t|] == NUL)
  {
    if s != "" && s[0] != NUL {
      CStringEnds(s[1..]);
    }
  }

  lemma CStringOfText(s: string)
    requires NUL !in s
    ensures CString(s) == s
  {
    CStringEnds(s);
  }
}
