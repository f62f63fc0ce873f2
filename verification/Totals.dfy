/** Sums over a list of threads. */
module Totals {

  function Total<A>(xs: seq<A>, w: A -> nat): nat {
    if xs == [] then 0 else Total(xs[..|xs| - 1], w) + w(xs[|xs| - 1])
  }

  lemma {:induction false} TotalUpdate<A>(xs: seq<A>, w: A -> nat, i: nat, a: A)
    requires i < |xs|
    ensures Total(xs[i := a], w) + w(xs[i]) == Total(xs, w) + w(a)
  {
    var last := |xs| - 1;
    if i == last {
      assert xs[i := a][..last] == xs[..last];
    } else {
      TotalUpdate(xs[..last], w, i, a);
      assert xs[i := a][..last] == xs[..last][i := a];
    }
  }

  lemma {:induction false} TotalZero<A>(xs: seq<A>, w: A -> nat)
    ensures Total(xs, w) == 0 <==> forall i :: 0 <= i < |xs| ==> w(xs[i]) == 0
  {
    if xs != [] {
      TotalZero(xs[..|xs| - 1], w);
      assert forall i :: 0 <= i < |xs| - 1 ==> xs[..|xs| - 1][i] == xs[i];
      if Total(xs, w) == 0 {
        forall i | 0 <= i < |xs|
          ensures w(xs[i]) == 0
        {
          if i < |xs| - 1 {
            assert w(xs[..|xs| - 1][i]) == 0;
          }
        }
      }
    }
  }

  lemma {:induction false} TotalBound<A>(xs: seq<A>, w: A -> nat, i: nat)
    requires i < |xs|
    ensures w(xs[i]) <= Total(xs, w)
  {
    if i < |xs| - 1 {
      TotalBound(xs[..|xs| - 1], w, i);
    }
  }

  lemma {:induction false} TotalAtMost<A>(xs: seq<A>, w: A -> nat)
    requires forall i :: 0 <= i < |xs| ==> w(xs[i]) <= 1
    ensures Total(xs, w) <= |xs|
  {
    if xs != [] {
      TotalAtMost(xs[..|xs| - 1], w);
    }
  }
}
