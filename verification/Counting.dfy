/** Sums of a weight over the threads of a step system. */
module Counting {

  ghost function Sum<T>(s: seq<T>, w: T -> nat): nat
  {
    if s == [] then 0 else Sum(s[..|s| - 1], w) + w(s[|s| - 1])
  }

  /** One thread moves: only its own weight changes. */
  lemma {:induction false} SumUpdate<T>(s: seq<T>, w: T -> nat, i: nat, x: T)
    requires i < |s|
    ensures Sum(s[i := x], w) + w(s[i]) == Sum(s, w) + w(x)
    decreases |s|
  {
    var n := |s| - 1;
    if i == n {
      assert s[i := x][..n] == s[..n];
    } else {
      assert s[i := x][..n] == s[..n][i := x];
      SumUpdate(s[..n], w, i, x);
    }
  }

  lemma {:induction false} SumAtLeast<T>(s: seq<T>, w: T -> nat, i: nat)
    requires i < |s|
    ensures Sum(s, w) >= w(s[i])
    decreases |s|
  {
    if i < |s| - 1 {
      SumAtLeast(s[..|s| - 1], w, i);
    }
  }

  lemma {:induction false} SumPositive<T>(s: seq<T>, w: T -> nat) returns (i: nat)
    requires Sum(s, w) > 0
    ensures i < |s| && w(s[i]) > 0
    decreases |s|
  {
    var n := |s| - 1;
    if w(s[n]) > 0 {
      i := n;
    } else {
      i := SumPositive(s[..n], w);
    }
  }

  lemma {:induction false} SumZero<T>(s: seq<T>, w: T -> nat)
    requires forall i :: 0 <= i < |s| ==> w(s[i]) == 0
    ensures Sum(s, w) == 0
    decreases |s|
  {
    if s != [] {
      SumZero(s[..|s| - 1], w);
    }
  }

  lemma {:induction false} SumTwo<T>(s: seq<T>, w: T -> nat, i: nat, j: nat)
    requires i < j < |s|
    ensures Sum(s, w) >= w(s[i]) + w(s[j])
    decreases |s|
  {
    var n := |s| - 1;
    if j == n {
      SumAtLeast(s[..n], w, i);
    } else {
      SumTwo(s[..n], w, i, j);
    }
  }
}
