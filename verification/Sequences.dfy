/** Sequences without repetitions, and two laws of sequences that the proofs use by name. */
module Sequences {

  ghost predicate NoDup<T>(s: seq<T>)
  {
    forall i, j :: 0 <= i < j < |s| ==> s[i] != s[j]
  }

  lemma SplitLast<T>(s: seq<T>, n: nat)
    requires n + 1 == |s|
    ensures s == s[..n] + [s[n]]
  {}

  lemma SetTwice<T>(s: seq<T>, i: nat, x: T, y: T)
    requires i < |s|
    ensures s[i := x][i := y] == s[i := y]
  {}
}
