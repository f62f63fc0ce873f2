/** Command completion, `compareHints` of access_cmdline.cpp. */
module Hints {
  import opened Lines

  /** The initial value of `len_min`. */
  const LENGTH_CAP: nat := 65535

  predicate HasSpace(s: string) {
    ' ' in s
  }

  predicate AnySpace(hints: seq<string>) {
    exists i :: 0 <= i < |hints| && HasSpace(hints[i])
  }

  /** A hint is matched when it is strictly longer than the command and starts with it. */
  predicate Matches(cmd: string, hint: string) {
    |cmd| < |hint| && hint[..|cmd|] == cmd
  }

  /** The hints collected for a command. Once a hint with a space has been met, a command without
      a space matches nothing further. */
  function Common(cmd: string, hints: seq<string>): (common: seq<string>)
    ensures forall k :: 0 <= k < |common| ==> Matches(cmd, common[k]) && common[k] in hints
  {
    if hints == [] then []
    else
      var last := hints[|hints| - 1];
      Common(cmd, hints[..|hints| - 1])
      + (if Matches(cmd, last) && (HasSpace(cmd) || !AnySpace(hints)) then [last] else [])
  }

  /** An empty command matches nothing. */
  function Matching(cmd: string, hints: seq<string>): seq<string> {
    if cmd == "" then [] else Common(cmd, hints)
  }

  /** A hint is collected for a command: it is the command with more behind it, and if the command has
      no blank then neither has this hint nor one in front of it. */
  ghost predicate Collected(cmd: string, hints: seq<string>, j: nat) {
    && j < |hints| && |hints[j]| > |cmd| && hints[j][..|cmd|] == cmd
    && (' ' in cmd || forall i :: 0 <= i <= j ==> ' ' !in hints[i])
  }

  /** The matches are those hints, each once and in their order: match `k` is hint `at[k]`. */
  ghost predicate CollectsAt(cmd: string, hints: seq<string>, common: seq<string>, at: seq<nat>) {
    && |at| == |common|
    && (forall k :: 0 <= k < |at| ==> Collected(cmd, hints, at[k]) && common[k] == hints[at[k]])
    && (forall k, l :: 0 <= k < l < |at| ==> at[k] < at[l])
    && forall j: nat :: Collected(cmd, hints, j) ==> j in at
  }

  lemma {:induction false} CommonByIndex(cmd: string, hints: seq<string>) returns (at: seq<nat>)
    ensures CollectsAt(cmd, hints, Common(cmd, hints), at)
  {
    at := [];
    if hints != [] {
      var most, last := hints[..|hints| - 1], hints[|hints| - 1];
      at := CommonByIndex(cmd, most);
      AnySpaceByIndex(hints);
      assert hints == most + [last] && Common(cmd, most) + [] == Common(cmd, most);
      CollectsStep(cmd, most, last, Common(cmd, most), at);
      if Collected(cmd, hints, |most|) {
        at := at + [|most|];
      }
    }
  }

  lemma CollectsStep(cmd: string, most: seq<string>, last: string, common: seq<string>, at: seq<nat>)
    requires CollectsAt(cmd, most, common, at)
    ensures if Collected(cmd, most + [last], |most|) then CollectsAt(cmd, most + [last], common + [last], at + [|most|])
            else CollectsAt(cmd, most + [last], common, at)
  {
    var hints := most + [last];
    forall j: nat | j < |most|
      ensures Collected(cmd, hints, j) <==> Collected(cmd, most, j)
    {
      assert hints[j] == most[j];
      assert forall i :: 0 <= i <= j ==> hints[i] == most[i];
    }
  }

  lemma AnySpaceByIndex(hints: seq<string>)
    ensures AnySpace(hints) <==> exists i :: 0 <= i < |hints| && ' ' in hints[i]
  {
    if i :| 0 <= i < |hints| && ' ' in hints[i] {
      assert HasSpace(hints[i]);
    }
  }

  /** The same collection with the space test made for each hint by itself. */
  function Offered(cmd: string, hints: seq<string>): seq<string> {
    if hints == [] then []
    else
      var last := hints[|hints| - 1];
      Offered(cmd, hints[..|hints| - 1])
      + (if Matches(cmd, last) && (HasSpace(cmd) || !HasSpace(last)) then [last] else [])
  }

  /** A single-word hint that comes after a hint of two words. */
  ghost predicate Shadowed(cmd: string, hints: seq<string>, j: nat) {
    j < |hints| && Matches(cmd, hints[j]) && !HasSpace(hints[j]) && AnySpace(hints[..j])
  }

  /** `have_space` is never reset, so the order of the hints matters: what is collected is the
      collection with a test per hint exactly if no matching single-word hint follows a hint of
      two words, or the command itself has a space. */
  lemma {:induction false} StickyFlag(cmd: string, hints: seq<string>)
    ensures |Common(cmd, hints)| <= |Offered(cmd, hints)|
    ensures Common(cmd, hints) == Offered(cmd, hints)
            <==> (HasSpace(cmd) || forall j: nat :: !Shadowed(cmd, hints, j))
  {
    if hints != [] {
      var most, n := hints[..|hints| - 1], |hints| - 1;
      var last := hints[n];
      StickyFlag(cmd, most);
      assert forall j: nat | j < n :: most[..j] == hints[..j];
      assert forall j: nat :: Shadowed(cmd, hints, j)
                              <==> (Shadowed(cmd, most, j) || (j == n && Shadowed(cmd, hints, n)));
      assert AnySpace(hints) <==> (AnySpace(most) || HasSpace(last)) by {
        if HasSpace(last) {
          assert HasSpace(hints[n]);
        } else if AnySpace(most) {
          var i :| 0 <= i < |most| && HasSpace(most[i]);
          assert HasSpace(hints[i]);
        }
      }
      assert most == hints[..n];
      var (c, o) := (Common(cmd, most), Offered(cmd, most));
      if !HasSpace(cmd) && Shadowed(cmd, hints, n) {
        assert Common(cmd, hints) == c + [] && Offered(cmd, hints) == o + [last];
      } else if Matches(cmd, last) && (HasSpace(cmd) || !HasSpace(last)) {
        assert Common(cmd, hints) == c + [last] && Offered(cmd, hints) == o + [last];
        assert c == (c + [last])[..|c|] && o == (o + [last])[..|o|];
      } else {
        assert Common(cmd, hints) == c + [] == c && Offered(cmd, hints) == o + [] == o;
      }
    }
  }

  /** For example the command `a` is not offered the hint `ab` behind the hint `b c`. */
  lemma StickyFlagDrops()
    ensures Common("a", ["b c", "ab"]) == [] && Offered("a", ["b c", "ab"]) == ["ab"]
  {
    var first, second := "b c", "ab";
    var hints := [first, second];
    assert hints[..1] == [first];
    assert first[1] == ' ' && HasSpace(hints[0]) && AnySpace(hints);
    assert second[..1] == "a" && !HasSpace(second) && !HasSpace("a");
    assert first[..1] == "b" && "b"[0] != "a"[0];
    assert !Matches("a", first) && Matches("a", second);
    assert Common("a", [first]) == Common("a", []) + [] && Offered("a", [first]) == Offered("a", []) + [];
    assert Common("a", hints) == Common("a", [first]) + [];
    assert Offered("a", hints) == Offered("a", [first]) + [second];
  }

  /** Every string has a position `i` and all agree with the first there. */
  predicate Agree(common: seq<string>, i: nat)
    requires |common| > 0
  {
    forall k :: 0 <= k < |common| ==> i < |common[k]| && i < |common[0]| && common[k][i] == common[0][i]
  }

  /** `len_min`. */
  function ShortestLength(common: seq<string>): nat {
    if common == [] then LENGTH_CAP
    else
      var n := ShortestLength(common[..|common| - 1]);
      var last := |common[|common| - 1]|;
      if last < n then last else n
  }

  ghost predicate IsShortest(common: seq<string>, n: nat) {
    && n <= LENGTH_CAP && (forall k :: 0 <= k < |common| ==> n <= |common[k]|)
    && (n == LENGTH_CAP || exists k :: 0 <= k < |common| && n == |common[k]|)
  }

  lemma {:induction false} ShortestIsShortest(common: seq<string>)
    ensures IsShortest(common, ShortestLength(common))
  {
    if common != [] {
      var most := common[..|common| - 1];
      ShortestIsShortest(most);
      assert common == most + [common[|common| - 1]];
      assert common[|common| - 1] in common;
    }
  }

  /** The characters from position `i` on in which all agree, up to `limit` or a NUL. */
  function AgreedFrom(common: seq<string>, i: nat, limit: nat): string
    requires |common| > 0
    decreases limit - i
  {
    if i < limit && Agree(common, i) && common[0][i] != NUL
    then [common[0][i]] + AgreedFrom(common, i + 1, limit)
    else ""
  }

  /** The completion for several matches. */
  function Completion(cmd: string, hints: seq<string>): string {
    var common := Matching(cmd, hints);
    if |common| < 2 then "" else AgreedFrom(common, |cmd|, ShortestLength(common))
  }

  /** `r` holds the characters from position `i` on that all agree on, and ends at `limit`, at a
      disagreement or at a NUL. */
  ghost predicate Stops(common: seq<string>, i: nat, limit: nat, r: string)
    requires |common| > 0
  {
    && i + |r| <= |common[0]|
    && (forall j :: i <= j < i + |r| ==> Agree(common, j) && r[j - i] == common[0][j] != NUL)
    && (r == "" || i + |r| <= limit)
    && (i + |r| < limit && Agree(common, i + |r|) ==> common[0][i + |r|] == NUL)
  }

  lemma {:induction false} AgreedStops(common: seq<string>, i: nat, limit: nat)
    requires |common| > 0 && i <= |common[0]|
    ensures Stops(common, i, limit, AgreedFrom(common, i, limit))
    decreases limit - i
  {
    if i < limit && Agree(common, i) && common[0][i] != NUL {
      var r, r1 := AgreedFrom(common, i, limit), AgreedFrom(common, i + 1, limit);
      AgreedStops(common, i + 1, limit);
      forall j | i <= j < i + |r|
        ensures Agree(common, j) && r[j - i] == common[0][j] != NUL
      {
        if j > i {
          assert r[j - i] == r1[j - (i + 1)];
        }
      }
    }
  }

  ghost predicate SharedPrefix(common: seq<string>, p: string) {
    forall k :: 0 <= k < |common| ==> p <= common[k]
  }

  ghost predicate LongestSharedPrefix(common: seq<string>, p: string) {
    SharedPrefix(common, p) && forall q :: SharedPrefix(common, q) ==> |q| <= |p|
  }

  lemma SharedIsAgreed(common: seq<string>, n: nat)
    requires |common| > 0 && n <= |common[0]|
    ensures SharedPrefix(common, common[0][..n]) <==> forall j :: 0 <= j < n ==> Agree(common, j)
  {
    var p := common[0][..n];
    if SharedPrefix(common, p) {
      forall j, k | 0 <= j < n && 0 <= k < |common|
        ensures j < |common[k]| && common[k][j] == common[0][j]
      {
        assert p <= common[k] && common[k][j] == p[j];
      }
    }
    if forall j :: 0 <= j < n ==> Agree(common, j) {
      forall k | 0 <= k < |common|
        ensures p <= common[k]
      {
        assert n > 0 ==> Agree(common, n - 1);
        forall j | 0 <= j < n
          ensures common[k][j] == p[j]
        {
          assert Agree(common, j);
        }
      }
    }
  }

  lemma Joined(first: string, cmd: string, r: string)
    requires cmd <= first && |cmd| + |r| <= |first|
    requires forall j :: |cmd| <= j < |cmd| + |r| ==> r[j - |cmd|] == first[j]
    ensures cmd + r == first[..|cmd| + |r|]
  {
  }

  lemma CompletionIsShared(common: seq<string>, cmd: string, limit: nat, r: string, lcp: string)
    requires |common| > 0 && cmd <= common[0] && Stops(common, |cmd|, limit, r)
    requires SharedPrefix(common, cmd) && LongestSharedPrefix(common, lcp)
    ensures cmd + r <= lcp
  {
    var first := common[0];
    Joined(first, cmd, r);
    SharedIsAgreed(common, |cmd|);
    SharedIsAgreed(common, |cmd| + |r|);
    assert SharedPrefix(common, cmd + r);
    assert lcp <= first;
  }

  /** A completion that stops early met a NUL or the cap. */
  lemma EarlyStop(common: seq<string>, cmd: string, limit: nat, r: string, lcp: string)
    requires |common| > 0 && IsShortest(common, limit) && Stops(common, |cmd|, limit, r)
    requires SharedPrefix(common, lcp) && |cmd| + |r| < |lcp|
    ensures lcp[|cmd| + |r|] == NUL || |cmd| + |r| >= LENGTH_CAP
  {
    var first, n := common[0], |cmd| + |r|;
    assert lcp <= first && lcp == first[..|lcp|];
    SharedIsAgreed(common, |lcp|);
    assert Agree(common, n);
    if limit != LENGTH_CAP {
      var k :| 0 <= k < |common| && limit == |common[k]|;
      assert lcp <= common[k];
    }
  }

  /** With two or more matches, the command and its completion together are the longest common
      prefix of the matches, exactly if that prefix has no NUL behind the command and does not
      run past the cap on lengths. */
  lemma CompletionIsLongestPrefix(cmd: string, hints: seq<string>, lcp: string)
    requires |Matching(cmd, hints)| >= 2 && LongestSharedPrefix(Matching(cmd, hints), lcp)
    ensures cmd <= lcp
    ensures cmd + Completion(cmd, hints) == lcp
            <==> NUL !in lcp[|cmd|..] && (|lcp| <= 65535 || lcp == cmd)
  {
    var (common, r) := (Matching(cmd, hints), Completion(cmd, hints));
    var limit := ShortestLength(common);
    ShortestIsShortest(common);
    AgreedStops(common, |cmd|, limit);
    assert SharedPrefix(common, cmd);
    CompletionExact(common, cmd, limit, r, lcp);
  }

  lemma CompletionExact(common: seq<string>, cmd: string, limit: nat, r: string, lcp: string)
    requires |common| > 0 && IsShortest(common, limit) && Stops(common, |cmd|, limit, r)
    requires SharedPrefix(common, cmd) && LongestSharedPrefix(common, lcp)
    ensures cmd <= lcp
    ensures cmd + r == lcp <==> NUL !in lcp[|cmd|..] && (|lcp| <= LENGTH_CAP || lcp == cmd)
  {
    CompletionIsShared(common, cmd, limit, r, lcp);
    if |cmd| + |r| < |lcp| {
      EarlyStop(common, cmd, limit, r, lcp);
      assert lcp[|cmd| + |r|] == lcp[|cmd|..][|r|];
    } else {
      assert cmd + r == lcp && lcp[|cmd|..] == r;
      forall j | 0 <= j < |r|
        ensures r[j] != NUL
      {
        assert Agree(common, |cmd| + j);
      }
    }
  }
}
