/** The list of matches that a second tab shows, `compareHints` of access_cmdline.cpp. */
module Listing {
  import opened Lines
  import opened Hints

  // ------------------------------------------------------------- searching and erasing

  predicate OccursAt(s: string, w: string, p: nat) {
    p + |w| <= |s| && s[p..p + |w|] == w
  }

  ghost predicate Occurs(s: string, w: string) {
    exists p: nat :: OccursAt(s, w, p)
  }

  /** `find` from position `i` on; -1 stands for `npos`. */
  function FindFrom(s: string, w: string, i: nat): (r: int)
    requires i <= |s|
    ensures -1 <= r <= |s|
    decreases |s| - i
  {
    if OccursAt(s, w, i) then i else if i == |s| then -1 else FindFrom(s, w, i + 1)
  }

  lemma {:induction false} FindIsFirst(s: string, w: string, i: nat)
    requires i <= |s|
    ensures var r := FindFrom(s, w, i);
            if r < 0 then forall q: nat :: i <= q ==> !OccursAt(s, w, q)
            else i <= r && OccursAt(s, w, r) && forall q: nat :: i <= q < r ==> !OccursAt(s, w, q)
    decreases |s| - i
  {
    if !OccursAt(s, w, i) && i < |s| {
      FindIsFirst(s, w, i + 1);
    }
  }

  /** `find` followed by `erase` of as many characters as `w` has. */
  function EraseFirst(s: string, w: string): string {
    var n := FindFrom(s, CString(w), 0);
    if n < 0 then s else s[..n] + s[if n + |w| < |s| then n + |w| else |s|..]
  }

  function EraseTimes(s: string, w: string, n: nat): string
    decreases n
  {
    if n == 0 then s else EraseTimes(EraseFirst(s, w), w, n - 1)
  }

  /** Each of the `n` searches finds something; `erase` throws on `npos`. */
  ghost predicate AllFound(s: string, w: string, n: nat)
    decreases n
  {
    n > 0 ==> FindFrom(s, CString(w), 0) >= 0 && AllFound(EraseFirst(s, w), w, n - 1)
  }

  // --------------------------------------------------------------------------- layout

  /** What follows the match with index `k`: a blank, and a line break behind every fourth. */
  function Separator(k: nat): string {
    if (k + 1) % 4 == 0 then " \n" else " "
  }

  function Layout(common: seq<string>): string {
    if common == [] then ""
    else Layout(common[..|common| - 1]) + common[|common| - 1] + Separator(|common| - 1)
  }

  /** The item with index `k` is read between `from` and `to`: its text, one blank, and behind every
      fourth a newline. */
  predicate ItemAt(list: string, item: string, from: nat, to: nat, k: nat) {
    var end := from + |item|;
    && to == end + (if k % 4 == 3 then 2 else 1) && to <= |list|
    && list[from..end] == item && list[end] == ' ' && (k % 4 == 3 ==> list[end + 1] == '\n')
  }

  /** Reading the list from the left gives the items in their order, one behind the other from
      beginning to end, and nothing else. */
  predicate ListsAt(list: string, items: seq<string>, starts: seq<nat>) {
    && |starts| == |items| + 1 && starts[0] == 0 && starts[|items|] == |list|
    && forall k :: 0 <= k < |items| ==> ItemAt(list, items[k], starts[k], starts[k + 1], k)
  }

  ghost predicate Lists(list: string, items: seq<string>) {
    exists starts :: ListsAt(list, items, starts)
  }

  lemma {:induction false} LayoutLists(items: seq<string>) returns (starts: seq<nat>)
    ensures ListsAt(Layout(items), items, starts)
  {
    if items == [] {
      starts := [0];
    } else {
      var most, item := items[..|items| - 1], items[|items| - 1];
      starts := LayoutLists(most);
      starts := ListsStep(Layout(most), most, starts, item);
      assert most + [item] == items;
    }
  }

  lemma ListsStep(front: string, most: seq<string>, starts0: seq<nat>, item: string) returns (starts: seq<nat>)
    requires ListsAt(front, most, starts0)
    ensures ListsAt(front + item + Separator(|most|), most + [item], starts)
  {
    var items, list := most + [item], front + item + Separator(|most|);
    starts := starts0 + [|list|];
    assert list == front + (item + Separator(|most|));
    forall k | 0 <= k < |most|
      ensures ItemAt(list, items[k], starts[k], starts[k + 1], k)
    {
      assert ItemAt(front, most[k], starts0[k], starts0[k + 1], k);
      ItemStays(front, item + Separator(|most|), most[k], starts0[k], starts0[k + 1], k);
    }
    ItemBehind(front, item, |most|);
  }

  lemma ItemStays(front: string, more: string, item: string, from: nat, to: nat, k: nat)
    requires ItemAt(front, item, from, to, k)
    ensures ItemAt(front + more, item, from, to, k)
  {
    assert (front + more)[from..from + |item|] == front[from..from + |item|];
  }

  lemma ItemBehind(front: string, item: string, k: nat)
    ensures var list := front + (item + Separator(k)); ItemAt(list, item, |front|, |list|, k)
  {
    var list := front + (item + Separator(k));
    assert list[|front|..|front| + |item|] == item;
  }

  /** There is one text only that lists the items. */
  lemma {:induction false} ListsOnce(list: string, items: seq<string>, starts: seq<nat>)
    requires ListsAt(list, items, starts)
    ensures list == Layout(items)
  {
    if items != [] {
      var n := |items| - 1;
      ListsFront(list, items, starts, n);
      ListsOnce(list[..starts[n]], items[..n], starts[..n + 1]);
      assert ItemAt(list, items[n], starts[n], starts[n + 1], n);
      ItemEnds(list, items[n], starts[n], n);
    }
  }

  lemma ListsFront(list: string, items: seq<string>, starts: seq<nat>, n: nat)
    requires ListsAt(list, items, starts) && n <= |items|
    ensures starts[n] <= |list| && ListsAt(list[..starts[n]], items[..n], starts[..n + 1])
  {
    StartsGrow(list, items, starts, n, |items|);
    forall k | 0 <= k < n
      ensures ItemAt(list[..starts[n]], items[k], starts[k], starts[k + 1], k)
    {
      StartsGrow(list, items, starts, k + 1, n);
      assert ItemAt(list, items[k], starts[k], starts[k + 1], k);
      ItemInFront(list, items[k], starts[k], starts[k + 1], k, starts[n]);
    }
  }

  lemma ItemInFront(list: string, item: string, from: nat, to: nat, k: nat, end: nat)
    requires ItemAt(list, item, from, to, k) && to <= end <= |list|
    ensures ItemAt(list[..end], item, from, to, k)
  {
    assert list[..end][from..from + |item|] == list[from..from + |item|];
  }

  lemma ItemEnds(list: string, item: string, from: nat, k: nat)
    requires ItemAt(list, item, from, |list|, k)
    ensures list == list[..from] + item + Separator(k)
  {
    var end := from + |item|;
    assert list == list[..from] + list[from..end] + list[end..];
    assert list[end..] == Separator(k);
  }

  lemma {:induction false} StartsGrow(list: string, items: seq<string>, starts: seq<nat>, j: nat, n: nat)
    requires ListsAt(list, items, starts) && j <= n <= |items|
    ensures starts[j] <= starts[n]
    decreases n - j
  {
    if j < n {
      assert ItemAt(list, items[j], starts[j], starts[j + 1], j);
      StartsGrow(list, items, starts, j + 1, n);
    }
  }

  lemma ListsExactly(list: string, items: seq<string>)
    ensures Lists(list, items) <==> list == Layout(items)
  {
    var starts := LayoutLists(items);
    if starts1 :| ListsAt(list, items, starts1) {
      ListsOnce(list, items, starts1);
    }
  }

  /** The part of a two-word command in front of the blank. */
  function MainCommand(cmd: string): string {
    if cmd == "" || cmd[0] == ' ' then "" else [cmd[0]] + MainCommand(cmd[1..])
  }

  /** The list for a command: the matches, and for a two-word command with as many occurrences
      of its main command erased as there are matches, each time the first one. */
  function Possible(cmd: string, hints: seq<string>): string {
    var common := Matching(cmd, hints);
    if |common| >= 2 && HasSpace(cmd) then EraseTimes(Layout(common), MainCommand(cmd), |common|)
    else Layout(common)
  }

  /** What that is for: the matches without their main commands. */
  function Shortened(common: seq<string>, n: nat): seq<string>
    requires forall k :: 0 <= k < |common| ==> n <= |common[k]|
  {
    seq(|common|, k requires 0 <= k < |common| => common[k][n..])
  }

  // ----------------------------------------------------- when the erasures hit their aim

  /** From segment `j` on: each rest with the word in front and its separator behind. */
  function Worded(w: string, rests: seq<string>, j: nat): string
    requires j <= |rests|
    decreases |rests| - j
  {
    if j == |rests| then "" else w + (rests[j] + Separator(j)) + Worded(w, rests, j + 1)
  }

  predicate IsSeparator(c: char) {
    c == ' ' || c == '\n'
  }

  /** A word that no separator is part of. */
  predicate IsWord(w: string) {
    w != "" && NUL !in w && forall k :: 0 <= k < |w| ==> !IsSeparator(w[k])
  }

  /** Text that is empty or ends in a separator. */
  predicate Closed(x: string) {
    x == "" || IsSeparator(x[|x| - 1])
  }

  lemma NoSeparatorAt(s: string, w: string, p: nat)
    requires IsWord(w) && OccursAt(s, w, p)
    ensures forall i :: p <= i < p + |w| ==> !IsSeparator(s[i])
  {
    forall i | p <= i < p + |w|
      ensures !IsSeparator(s[i])
    {
      assert s[i] == s[p..p + |w|][i - p] == w[i - p];
    }
  }

  /** Between closed text and anything behind it a word cannot lie across. */
  lemma OccursInParts(x: string, y: string, w: string, p: nat)
    requires IsWord(w) && Closed(x) && OccursAt(x + y, w, p)
    ensures if p < |x| then OccursAt(x, w, p) && p + |w| < |x| else OccursAt(y, w, p - |x|)
  {
    NoSeparatorAt(x + y, w, p);
    if p < |x| {
      assert IsSeparator((x + y)[|x| - 1]);
      assert (x + y)[p..p + |w|] == x[p..p + |w|];
    } else {
      assert (x + y)[p..p + |w|] == y[p - |x|..p - |x| + |w|];
    }
  }

  lemma OccursLeft(x: string, y: string, w: string, p: nat)
    ensures OccursAt(x, w, p) ==> OccursAt(x + y, w, p)
    ensures OccursAt(y, w, p) ==> OccursAt(x + y, w, |x| + p)
  {
    if OccursAt(x, w, p) {
      assert (x + y)[p..p + |w|] == x[p..p + |w|];
    }
    if OccursAt(y, w, p) {
      assert (x + y)[|x| + p..|x| + p + |w|] == y[p..p + |w|];
    }
  }

  /** Adding a rest and its separator to closed text adds the occurrences in the rest. */
  lemma OccursInSegment(x: string, rest: string, k: nat, w: string)
    requires IsWord(w) && Closed(x)
    ensures Closed(x + (rest + Separator(k)))
    ensures Occurs(x + (rest + Separator(k)), w) <==> Occurs(x, w) || Occurs(rest, w)
  {
    var sep := Separator(k);
    if p: nat :| OccursAt(x + (rest + sep), w, p) {
      OccursInParts(x, rest + sep, w, p);
      if !OccursAt(x, w, p) {
        NotInSeparator(rest, k, w, p - |x|);
      }
    }
    if p: nat :| OccursAt(x, w, p) {
      OccursLeft(x, rest + sep, w, p);
    }
    if p: nat :| OccursAt(rest, w, p) {
      OccursLeft(rest, sep, w, p);
      OccursLeft(x, rest + sep, w, p);
    }
  }

  lemma NotInSeparator(rest: string, k: nat, w: string, p: nat)
    requires IsWord(w) && OccursAt(rest + Separator(k), w, p)
    ensures OccursAt(rest, w, p)
  {
    var s := rest + Separator(k);
    NoSeparatorAt(s, w, p);
    assert forall i :: |rest| <= i < |s| ==> IsSeparator(s[i]);
    assert !IsSeparator(s[p + |w| - 1]);
    assert s[p..p + |w|] == rest[p..p + |w|];
  }

  /** The first search in closed text followed by worded segments: inside the text if the word
      occurs there, and else the word of the first segment. */
  lemma FirstHit(x: string, w: string, y: string) returns (p: nat)
    requires IsWord(w) && Closed(x)
    ensures FindFrom(x + (w + y), w, 0) == p
    ensures if Occurs(x, w) then p + |w| < |x| else p == |x|
  {
    var s := x + (w + y);
    FindIsFirst(s, w, 0);
    assert OccursAt(w, w, 0);
    OccursLeft(w, y, w, 0);
    OccursLeft(x, w + y, w, 0);
    p := FindFrom(s, w, 0);
    OccursInParts(x, w + y, w, p);
    if q: nat :| OccursAt(x, w, q) {
      OccursLeft(x, w + y, w, q);
    }
  }

  lemma CutInside(x: string, w: string, y: string, p: nat)
    requires p + |w| < |x| && Closed(x)
    ensures var (s, x1) := (x + (w + y), x[..p] + x[p + |w|..]);
            Closed(x1) && s[..p] + s[p + |w|..] == x1 + (w + y)
  {
    var x1 := x[..p] + x[p + |w|..];
    assert x1[|x1| - 1] == x[p + |w|..][|x| - p - |w| - 1] == x[|x| - 1];
    assert (x + (w + y))[..p] == x[..p] && (x + (w + y))[p + |w|..] == x[p + |w|..] + (w + y);
  }

  lemma CutWord(x: string, w: string, y: string)
    ensures var s := x + (w + y); s[..|x|] + s[|x| + |w|..] == x + y
  {
    var s := x + (w + y);
    assert s[..|x|] == x && s[|x| + |w|..] == y;
  }

  lemma EraseAt(s: string, w: string, p: nat)
    requires FindFrom(s, CString(w), 0) == p && p + |w| <= |s|
    ensures EraseFirst(s, w) == s[..p] + s[p + |w|..]
  {
  }

  /** One erasure in closed text followed by worded segments. */
  lemma EraseHit(x: string, w: string, y: string) returns (x1: string)
    requires IsWord(w) && Closed(x)
    ensures FindFrom(x + (w + y), CString(w), 0) >= 0
    ensures Occurs(x, w) ==> Closed(x1) && EraseFirst(x + (w + y), w) == x1 + (w + y)
    ensures !Occurs(x, w) ==> EraseFirst(x + (w + y), w) == x + y
  {
    CStringOfText(w);
    var p := FirstHit(x, w, y);
    EraseAt(x + (w + y), w, p);
    x1 := x;
    if Occurs(x, w) {
      x1 := x[..p] + x[p + |w|..];
      CutInside(x, w, y, p);
    } else {
      CutWord(x, w, y);
    }
  }

  /** From segment `j` on, without the words. */
  function Bare(rests: seq<string>, j: nat): string
    requires j <= |rests|
    decreases |rests| - j
  {
    if j == |rests| then "" else (rests[j] + Separator(j)) + Bare(rests, j + 1)
  }

  /** The word has nowhere to be found but in front of the segments that are left. */
  ghost predicate Clean(x: string, w: string, rests: seq<string>, j: nat) {
    !Occurs(x, w) && forall k :: j <= k < |rests| - 1 ==> !Occurs(rests[k], w)
  }

  /** The text still has the word of the last segment. */
  ghost predicate EndsWorded(y: string, w: string, rests: seq<string>)
    requires rests != []
  {
    var last := w + (rests[|rests| - 1] + Separator(|rests| - 1));
    exists z :: y == z + last
  }

  lemma WordedStep(x: string, w: string, rests: seq<string>, j: nat)
    requires j < |rests|
    ensures var (seg, tail) := (rests[j] + Separator(j), Worded(w, rests, j + 1));
            && x + Worded(w, rests, j) == x + (w + (seg + tail))
            && x + (seg + tail) == (x + seg) + tail
            && x + Worded(w, rests, j) == (x + (w + seg)) + tail
            && x + Bare(rests, j) == (x + seg) + Bare(rests, j + 1)
  {
    var (seg, tail, bare) := (rests[j] + Separator(j), Worded(w, rests, j + 1), Bare(rests, j + 1));
    assert w + seg + tail == w + (seg + tail);
    assert x + (seg + bare) == (x + seg) + bare;
  }

  lemma {:induction false} WordedEnds(x: string, w: string, rests: seq<string>, j: nat)
    requires j < |rests|
    ensures EndsWorded(x + Worded(w, rests, j), w, rests)
    decreases |rests| - j
  {
    var seg := w + (rests[j] + Separator(j));
    WordedStep(x, w, rests, j);
    if j == |rests| - 1 {
      assert Worded(w, rests, j + 1) == "" && (x + seg) + "" == x + seg;
    } else {
      WordedEnds(x + seg, w, rests, j + 1);
    }
  }

  /** What `n` erasures make of closed text `x` and the segments from `j` on. */
  ghost predicate Outcome(y: string, x: string, w: string, rests: seq<string>, j: nat, n: nat)
    requires j <= |rests| && rests != []
  {
    var bare := x + Bare(rests, j);
    if n == |rests| - j && (n == 0 || Clean(x, w, rests, j)) then y == bare else EndsWorded(y, w, rests)
  }

  lemma OneErasure(s: string, s1: string, w: string, n: nat)
    requires n > 0 && FindFrom(s, CString(w), 0) >= 0 && s1 == EraseFirst(s, w)
    ensures EraseTimes(s, w, n) == EraseTimes(s1, w, n - 1)
    ensures AllFound(s1, w, n - 1) ==> AllFound(s, w, n)
  {
  }

  lemma OutcomeInside(y: string, x: string, x1: string, w: string, rests: seq<string>, j: nat, n: nat)
    requires j < |rests| && 0 < n <= |rests| - j && Occurs(x, w)
    requires Outcome(y, x1, w, rests, j, n - 1)
    ensures Outcome(y, x, w, rests, j, n)
  {
  }

  lemma OutcomeInFront(y: string, x: string, x1: string, w: string, rests: seq<string>, j: nat, n: nat)
    requires IsWord(w) && Closed(x) && j < |rests| && 0 < n <= |rests| - j && !Occurs(x, w)
    requires x1 == x + (rests[j] + Separator(j)) && Outcome(y, x1, w, rests, j + 1, n - 1)
    ensures Outcome(y, x, w, rests, j, n)
  {
    OccursInSegment(x, rests[j], j, w);
    WordedStep(x, w, rests, j);
  }

  /** A string made of closed text and the worded segments from `j` on. */
  ghost predicate Parts(s: string, x: string, w: string, rests: seq<string>, j: nat) {
    var whole := if j <= |rests| then x + Worded(w, rests, j) else "";
    Closed(x) && j <= |rests| && s == whole
  }

  /** What one erasure does: it hits the text, or the word of the next segment. */
  ghost predicate Hit(x: string, x1: string, w: string, rests: seq<string>, j: nat, k: nat) {
    var inside := Occurs(x, w);
    j < |rests| && if inside then k == j else k == j + 1 && x1 == x + (rests[j] + Separator(j))
  }

  lemma EraseSegment(s: string, x: string, w: string, rests: seq<string>, j: nat) returns (x1: string, k: nat)
    requires IsWord(w) && j < |rests| && Parts(s, x, w, rests, j)
    ensures FindFrom(s, CString(w), 0) >= 0 && Parts(EraseFirst(s, w), x1, w, rests, k)
    ensures Hit(x, x1, w, rests, j, k)
  {
    var seg, tail := rests[j] + Separator(j), Worded(w, rests, j + 1);
    WordedStep(x, w, rests, j);
    x1 := EraseHit(x, w, seg + tail);
    k := j;
    if Occurs(x, w) {
      WordedStep(x1, w, rests, j);
    } else {
      OccursInSegment(x, rests[j], j, w);
      x1, k := x + seg, j + 1;
    }
  }

  /** None of `n` erasures fails, and their outcome is the one above. */
  ghost predicate Erased(s: string, x: string, w: string, rests: seq<string>, j: nat, n: nat) {
    var y := EraseTimes(s, w, n);
    AllFound(s, w, n) && j <= |rests| && rests != [] && Outcome(y, x, w, rests, j, n)
  }

  lemma OutcomeStep(y: string, x: string, x1: string, w: string, rests: seq<string>, j: nat, k: nat, n: nat)
    requires IsWord(w) && Closed(x) && j < |rests| && 0 < n <= |rests| - j && k <= |rests|
    requires Hit(x, x1, w, rests, j, k) && Outcome(y, x1, w, rests, k, n - 1)
    ensures Outcome(y, x, w, rests, j, n)
  {
    if Occurs(x, w) {
      OutcomeInside(y, x, x1, w, rests, j, n);
    } else {
      OutcomeInFront(y, x, x1, w, rests, j, n);
    }
  }

  lemma ErasedStep(s: string, s1: string, x: string, x1: string, w: string, rests: seq<string>, j: nat, k: nat, n: nat)
    requires IsWord(w) && Closed(x) && j < |rests| && 0 < n <= |rests| - j
    requires FindFrom(s, CString(w), 0) >= 0 && s1 == EraseFirst(s, w) && Hit(x, x1, w, rests, j, k)
    requires Erased(s1, x1, w, rests, k, n - 1)
    ensures Erased(s, x, w, rests, j, n)
  {
    OneErasure(s, s1, w, n);
    OutcomeStep(EraseTimes(s1, w, n - 1), x, x1, w, rests, j, k, n);
  }

  /** `n` erasures in closed text `x` and the worded segments from `j` on, at most one for each
      segment. None fails. If there is one for each segment and the word is found nowhere else,
      they remove exactly the words in front; otherwise the last word stays. */
  lemma {:induction false} EraseSegments(s: string, x: string, w: string, rests: seq<string>, j: nat, n: nat)
    requires IsWord(w) && Parts(s, x, w, rests, j) && n <= |rests| - j && rests != []
    ensures Erased(s, x, w, rests, j, n)
    decreases n
  {
    if n == 0 {
      NothingErased(s, x, w, rests, j);
    } else {
      var x1, k := EraseSegment(s, x, w, rests, j);
      EraseSegments(EraseFirst(s, w), x1, w, rests, k, n - 1);
      ErasedStep(s, EraseFirst(s, w), x, x1, w, rests, j, k, n);
    }
  }

  lemma NothingErased(s: string, x: string, w: string, rests: seq<string>, j: nat)
    requires Parts(s, x, w, rests, j) && rests != []
    ensures Erased(s, x, w, rests, j, 0)
  {
    if j < |rests| {
      WordedEnds(x, w, rests, j);
    }
  }

  // ------------------------------------------------------------------- the whole list

  lemma {:induction false} MainCommandIsWord(cmd: string)
    ensures MainCommand(cmd) <= cmd && ' ' !in MainCommand(cmd)
    ensures HasSpace(cmd) ==> |MainCommand(cmd)| < |cmd| && cmd[|MainCommand(cmd)|] == ' '
  {
    if cmd != "" && cmd[0] != ' ' {
      MainCommandIsWord(cmd[1..]);
    }
  }

  /** Every match starts with the main command. */
  lemma MatchesAreWorded(cmd: string, common: seq<string>)
    requires forall k :: 0 <= k < |common| ==> Matches(cmd, common[k])
    ensures var w := MainCommand(cmd);
            && (forall k :: 0 <= k < |common| ==> |w| <= |common[k]|)
            && forall k :: 0 <= k < |common| ==> common[k] == w + Shortened(common, |w|)[k]
  {
    var w := MainCommand(cmd);
    MainCommandIsWord(cmd);
    forall k | 0 <= k < |common|
      ensures |w| <= |common[k]| && common[k][..|w|] == w
    {
      assert common[k][..|cmd|] == cmd && common[k][..|w|] == cmd[..|w|];
    }
    forall k | 0 <= k < |common|
      ensures common[k] == w + Shortened(common, |w|)[k]
    {
      assert common[k] == common[k][..|w|] + common[k][|w|..];
    }
  }

  /** The layout of a list is the layout of its front with the worded segments behind. */
  lemma {:induction false} LayoutIsWorded(common: seq<string>, w: string, rests: seq<string>, j: nat)
    requires |rests| == |common| && j <= |common|
    requires forall k :: 0 <= k < |common| ==> common[k] == w + rests[k]
    ensures Layout(common) == Layout(common[..j]) + Worded(w, rests, j)
    decreases |common| - j
  {
    if j == |common| {
      assert common[..j] == common;
    } else {
      LayoutIsWorded(common, w, rests, j + 1);
      assert common[..j + 1][..j] == common[..j];
      var (front, tail) := (Layout(common[..j]), Worded(w, rests, j + 1));
      assert Layout(common[..j + 1]) == front + (w + rests[j]) + Separator(j);
      Rebracket(front, w, rests[j], Separator(j), tail);
    }
  }

  lemma Rebracket(front: string, w: string, rest: string, sep: string, tail: string)
    ensures front + (w + rest) + sep + tail == front + (w + (rest + sep) + tail)
  {
  }

  lemma LayoutIsBare(rests: seq<string>)
    ensures Layout(rests) == Bare(rests, 0)
  {
    LayoutIsWorded(rests, "", rests, 0);
    BareIsWorded(rests, 0);
  }

  lemma {:induction false} BareIsWorded(rests: seq<string>, j: nat)
    requires j <= |rests|
    ensures Worded("", rests, j) == Bare(rests, j)
    decreases |rests| - j
  {
    if j < |rests| {
      BareIsWorded(rests, j + 1);
      assert "" + (rests[j] + Separator(j)) == rests[j] + Separator(j);
    }
  }

  /** The word in front of the last segment is not a separator, so the two outcomes differ. */
  lemma BareIsNotWorded(w: string, rests: seq<string>)
    requires IsWord(w) && |rests| >= 2
    ensures !EndsWorded(Bare(rests, 0), w, rests)
  {
    var n := |rests|;
    var last := rests[n - 1] + Separator(n - 1);
    var z := BareEnds(rests, 0);
    var bare := z + last;
    assert bare[|bare| - |last| - 1] == z[|z| - 1];
    forall z1
      ensures bare != z1 + (w + last)
    {
      var worded := z1 + (w + last);
      assert worded[|worded| - |last| - 1] == w[|w| - 1];
    }
  }

  lemma {:induction false} BareEnds(rests: seq<string>, j: nat) returns (z: string)
    requires j + 2 <= |rests|
    ensures z != "" && IsSeparator(z[|z| - 1])
    ensures Bare(rests, j) == z + (rests[|rests| - 1] + Separator(|rests| - 1))
    decreases |rests| - j
  {
    var seg := rests[j] + Separator(j);
    if j + 2 == |rests| {
      z := seg;
      var last := rests[j + 1] + Separator(j + 1);
      assert Bare(rests, j + 2) == "" && Bare(rests, j + 1) == last + "" == last;
    } else {
      var z1 := BareEnds(rests, j + 1);
      z := seg + z1;
    }
  }

  /** The list for a two-word command of printable words: no search comes back empty, so no
      erasure throws, and the list shows the matches without their main commands exactly if the
      main command occurs in the rest of none of them but the last. */
  lemma ListingIsShortened(cmd: string, hints: seq<string>)
    requires HasSpace(cmd) && IsWord(MainCommand(cmd)) && |Matching(cmd, hints)| >= 2
    ensures var (common, w) := (Matching(cmd, hints), MainCommand(cmd));
            && (forall k :: 0 <= k < |common| ==> |w| <= |common[k]|)
            && AllFound(Layout(common), w, |common|)
            && (Lists(Possible(cmd, hints), Shortened(common, |w|))
                <==> forall k :: 0 <= k < |common| - 1 ==> !Occurs(Shortened(common, |w|)[k], w))
  {
    var (common, w) := (Matching(cmd, hints), MainCommand(cmd));
    MatchesAreWorded(cmd, common);
    var rests := Shortened(common, |w|);
    LayoutIsWorded(common, w, rests, 0);
    assert Layout(common) == "" + Worded(w, rests, 0);
    EraseSegments(Layout(common), "", w, rests, 0, |common|);
    LayoutIsBare(rests);
    assert "" + Bare(rests, 0) == Bare(rests, 0);
    BareIsNotWorded(w, rests);
    assert !Occurs("", w);
    ListsExactly(Possible(cmd, hints), rests);
  }

  /** The list for a command without a blank shows every hint that was collected, in the order of the
      hints, and nothing else. */
  lemma ListingShowsMatches(cmd: string, hints: seq<string>) returns (at: seq<nat>, starts: seq<nat>)
    requires cmd != "" && ' ' !in cmd
    ensures CollectsAt(cmd, hints, Matching(cmd, hints), at)
    ensures ListsAt(Possible(cmd, hints), Matching(cmd, hints), starts)
  {
    at := CommonByIndex(cmd, hints);
    starts := LayoutLists(Matching(cmd, hints));
  }

  /** A command that starts with a blank has an empty main command, and nothing is erased. */
  lemma {:induction false} EmptyWordErasesNothing(s: string, n: nat)
    ensures EraseTimes(s, "", n) == s && AllFound(s, "", n)
    decreases n
  {
    if n > 0 {
      assert OccursAt(s, "", 0);
      assert EraseFirst(s, "") == s[..0] + s[0..] == s;
      EmptyWordErasesNothing(s, n - 1);
    }
  }

  lemma TwoMatches(cmd: string, hint0: string, hint1: string)
    requires HasSpace(cmd) && Matches(cmd, hint0) && Matches(cmd, hint1)
    ensures Matching(cmd, [hint0, hint1]) == [hint0, hint1]
  {
    var hints := [hint0, hint1];
    assert hints[..1] == [hint0] && [hint0][..0] == [];
    assert Common(cmd, [hint0]) == [] + [hint0] == [hint0];
    assert [hint0] + [hint1] == hints;
  }

  /** It can go wrong: if the rest of the first of two matches has the main command in it, the
      second erasure hits that rest. */
  lemma RepeatedWordMisses(cmd: string, hint0: string, hint1: string, p: nat)
    requires HasSpace(cmd) && IsWord(MainCommand(cmd)) && Matches(cmd, hint0) && Matches(cmd, hint1)
    requires |MainCommand(cmd)| <= p && OccursAt(hint0, MainCommand(cmd), p)
    ensures var (hints, n) := ([hint0, hint1], |MainCommand(cmd)|);
            && Matching(cmd, hints) == hints && n <= |hint0| && n <= |hint1|
            && !Lists(Possible(cmd, hints), Shortened(hints, n))
  {
    var w, hints := MainCommand(cmd), [hint0, hint1];
    TwoMatches(cmd, hint0, hint1);
    ListingIsShortened(cmd, hints);
    OccursBehind(hint0, w, p);
    assert Shortened(hints, |w|)[0] == hint0[|w|..];
  }

  lemma OccursBehind(s: string, w: string, p: nat)
    requires |w| <= p && OccursAt(s, w, p)
    ensures Occurs(s[|w|..], w)
  {
    assert s[|w|..][p - |w|..p] == s[p..p + |w|];
    assert OccursAt(s[|w|..], w, p - |w|);
  }

  /** For example the command `a ` with the hints `a ba` and `a bb`. */
  lemma ListingCanMiss()
    ensures var (hints, n) := (["a ba", "a bb"], |MainCommand("a ")|);
            && Matching("a ", hints) == hints && n == 1
            && !Lists(Possible("a ", hints), Shortened(hints, n))
  {
    var cmd, hint0, hint1 := "a ", "a ba", "a bb";
    assert cmd[1..] == " " && MainCommand(" ") == "" && MainCommand(cmd) == ['a'] + "" == "a";
    assert cmd[1] == ' ';
    assert hint0[..2] == cmd && hint1[..2] == cmd;
    assert hint0[3..4] == "a";
    RepeatedWordMisses(cmd, hint0, hint1, 3);
  }
}
