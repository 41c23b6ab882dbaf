/**
 The longest non-decreasing subsequence by patience sorting: piles whose elements point back
 to the top the previous pile had when they were placed.
 */
module PatienceSort {

  datatype LISElement = LISElement(value: int, prev: nat)

  // ---------- What is to be found ----------

  /** out is the non-decreasing subsequence of a at the places js. */
  ghost predicate Picks(a: seq<int>, js: seq<nat>, out: seq<int>)
  {
    && |js| == |out|
    && (forall k :: 0 <= k < |js| ==> js[k] < |a| && out[k] == a[js[k]])
    && (forall k, l :: 0 <= k < l < |js| ==> js[k] < js[l] && out[k] <= out[l])
  }

  ghost predicate IsSubsequence(a: seq<int>, out: seq<int>)
  {
    exists js: seq<nat> :: Picks(a, js, out)
  }

  ghost predicate IsLongest(a: seq<int>, out: seq<int>)
  {
    && IsSubsequence(a, out)
    && forall other: seq<int> :: IsSubsequence(a, other) ==> |other| <= |out|
  }

  lemma LengthIsUnique(a: seq<int>, out: seq<int>, out': seq<int>)
    requires IsLongest(a, out) && IsLongest(a, out')
    ensures |out| == |out'|
  {}

  // ---------- The piles ----------

  type Piles = seq<seq<LISElement>>

  ghost predicate Shape(piles: Piles, at: seq<seq<nat>>)
  {
    |at| == |piles| && forall p {:trigger piles[p]} {:trigger at[p]} :: 0 <= p < |piles| ==> |at[p]| == |piles[p]| > 0
  }

  function Top(piles: Piles, p: nat): int
    requires p < |piles| && piles[p] != []
  {
    piles[p][|piles[p]| - 1].value
  }

  /** The element q of pile p came from a[at[p][q]] and points to an earlier one that is not larger. */
  ghost predicate Placed(a: seq<int>, piles: Piles, at: seq<seq<nat>>, p: nat, q: nat)
    requires Shape(piles, at)
  {
    p < |piles| && q < |piles[p]| && at[p][q] < |a| && piles[p][q].value == a[at[p][q]] &&
    (p > 0 ==>
       var r := piles[p][q].prev;
       r < |piles[p - 1]| && at[p - 1][r] < at[p][q] && piles[p - 1][r].value <= piles[p][q].value)
  }

  ghost predicate AllPlaced(a: seq<int>, piles: Piles, at: seq<seq<nat>>)
    requires Shape(piles, at)
  {
    forall p: nat, q: nat {:trigger Placed(a, piles, at, p, q)} ::
      p < |piles| && q < |piles[p]| ==> Placed(a, piles, at, p, q)
  }

  ghost predicate Nonempty(piles: Piles)
  {
    forall p {:trigger piles[p]} :: 0 <= p < |piles| ==> piles[p] != []
  }

  ghost predicate TopsSorted(piles: Piles)
    requires Nonempty(piles)
  {
    forall p: nat, q: nat {:trigger Top(piles, p), Top(piles, q)} :: p < q < |piles| ==> Top(piles, p) <= Top(piles, q)
  }

  /** Each element of a has a pile whose top is not larger; along a non-decreasing pair piles grow. */
  ghost predicate Ranked(a: seq<int>, piles: Piles, rank: seq<nat>)
    requires Nonempty(piles)
  {
    && |rank| == |a|
    && (forall i :: 0 <= i < |a| ==> rank[i] < |piles| && Top(piles, rank[i]) <= a[i])
    && (forall i, j :: 0 <= i < j < |a| && a[i] <= a[j] ==> rank[i] < rank[j])
  }

  ghost predicate Inv(a: seq<int>, piles: Piles, at: seq<seq<nat>>, rank: seq<nat>)
  {
    && Shape(piles, at) && Nonempty(piles)
    && AllPlaced(a, piles, at) && TopsSorted(piles) && Ranked(a, piles, rank)
  }

  /** No non-decreasing subsequence is longer than the number of piles. */
  lemma {:induction false} NoLonger(a: seq<int>, piles: Piles, rank: seq<nat>, js: seq<nat>, out: seq<int>)
    requires Nonempty(piles) && Ranked(a, piles, rank) && Picks(a, js, out)
    ensures |out| <= |piles|
    ensures out != [] ==> rank[js[|js| - 1]] >= |js| - 1
  {
    if |out| > 1 {
      var n := |js| - 1;
      NoLonger(a, piles, rank, js[..n], out[..n]);
      assert js[n - 1] < js[n] && out[n - 1] <= out[n];
    }
    if out != [] {
      assert rank[js[|js| - 1]] < |piles|;
    }
  }

  // ---------- Placing one element ----------

  /** The piles with e put on pile r, which is new when r is the number of piles. */
  function Put(piles: Piles, r: nat, e: LISElement): Piles
    requires r <= |piles|
  {
    if r == |piles| then piles + [[e]] else piles[r := piles[r] + [e]]
  }

  ghost function PutAt(at: seq<seq<nat>>, r: nat, i: nat): seq<seq<nat>>
    requires r <= |at|
  {
    if r == |at| then at + [[i]] else at[r := at[r] + [i]]
  }

  /** r is the first pile whose top is larger than x. */
  ghost predicate FirstLarger(piles: Piles, x: int, r: nat)
    requires Nonempty(piles)
  {
    && r <= |piles|
    && (forall p: nat {:trigger Top(piles, p)} :: p < r ==> Top(piles, p) <= x)
    && (forall p: nat {:trigger Top(piles, p)} :: r <= p < |piles| ==> Top(piles, p) > x)
  }

  /** The new element points to the present top of the pile before. */
  ghost predicate PointsBack(piles: Piles, r: nat, e: LISElement)
  {
    r <= |piles| && (r > 0 ==> e.prev == |piles[r - 1]| - 1)
  }

  lemma PutTops(piles: Piles, r: nat, e: LISElement)
    requires Nonempty(piles) && FirstLarger(piles, e.value, r)
    ensures var piles' := Put(piles, r, e);
            && Nonempty(piles') && |piles'| >= |piles| && Top(piles', r) == e.value
            && (forall p: nat {:trigger Top(piles', p)} :: p < |piles'| && p != r ==>
                  p < |piles| && Top(piles', p) == Top(piles, p))
            && (forall p: nat {:trigger Top(piles, p)} :: p < |piles| ==> Top(piles', p) <= Top(piles, p))
  {}

  lemma PutSorted(piles: Piles, r: nat, e: LISElement)
    requires Nonempty(piles) && FirstLarger(piles, e.value, r) && TopsSorted(piles)
    ensures Nonempty(Put(piles, r, e)) && TopsSorted(Put(piles, r, e))
  {
    PutTops(piles, r, e);
  }

  lemma PutRanked(a: seq<int>, piles: Piles, rank: seq<nat>, r: nat, e: LISElement)
    requires Nonempty(piles) && FirstLarger(piles, e.value, r) && Ranked(a, piles, rank)
    ensures Nonempty(Put(piles, r, e)) && Ranked(a + [e.value], Put(piles, r, e), rank + [r])
  {
    PutTops(piles, r, e);
    var b, rank', piles' := a + [e.value], rank + [r], Put(piles, r, e);
    forall i | 0 <= i < |b|
      ensures rank'[i] < |piles'| && Top(piles', rank'[i]) <= b[i]
    {
      assert i < |a| ==> Top(piles, rank[i]) <= a[i];
    }
    forall i, j | 0 <= i < j < |b| && b[i] <= b[j]
      ensures rank'[i] < rank'[j]
    {
      if j == |a| {
        assert Top(piles, rank[i]) <= a[i];
      }
    }
  }

  lemma PutShape(piles: Piles, at: seq<seq<nat>>, r: nat, e: LISElement, i: nat)
    requires Shape(piles, at) && r <= |piles|
    ensures Shape(Put(piles, r, e), PutAt(at, r, i))
  {}

  lemma PutPlaced(a: seq<int>, piles: Piles, at: seq<seq<nat>>, r: nat, e: LISElement)
    requires Shape(piles, at) && Nonempty(piles) && AllPlaced(a, piles, at)
    requires FirstLarger(piles, e.value, r) && PointsBack(piles, r, e)
    ensures Shape(Put(piles, r, e), PutAt(at, r, |a|))
    ensures AllPlaced(a + [e.value], Put(piles, r, e), PutAt(at, r, |a|))
  {
    PutShape(piles, at, r, e, |a|);
    var b, piles', at' := a + [e.value], Put(piles, r, e), PutAt(at, r, |a|);
    forall p: nat, q: nat {:trigger Placed(b, piles', at', p, q)} | p < |piles'| && q < |piles'[p]|
      ensures Placed(b, piles', at', p, q)
    {
      if p < |piles| && q < |piles[p]| {
        assert Placed(a, piles, at, p, q);
      } else if r > 0 {
        assert Placed(a, piles, at, r - 1, e.prev);
        assert Top(piles, r - 1) <= e.value;
      }
    }
  }

  lemma PutKeepsInv(a: seq<int>, piles: Piles, at: seq<seq<nat>>, rank: seq<nat>, r: nat, e: LISElement)
    requires Inv(a, piles, at, rank) && FirstLarger(piles, e.value, r) && PointsBack(piles, r, e)
    ensures Inv(a + [e.value], Put(piles, r, e), PutAt(at, r, |a|), rank + [r])
  {
    PutPlaced(a, piles, at, r, e);
    PutSorted(piles, r, e);
    PutRanked(a, piles, rank, r, e);
  }

  // ---------- Following the pointers ----------

  /** The values from element q of pile p back to the first pile. */
  function Trail(piles: Piles, p: nat, q: nat): seq<int>
    requires p < |piles| && q < |piles[p]|
    decreases p
  {
    var e := piles[p][q];
    if p == 0 then [e.value]
    else if e.prev < |piles[p - 1]| then [e.value] + Trail(piles, p - 1, e.prev)
    else [e.value]
  }

  function Reversed(s: seq<int>): (r: seq<int>)
    ensures |r| == |s| && forall i :: 0 <= i < |s| ==> r[i] == s[|s| - 1 - i]
  {
    seq(|s|, i requires 0 <= i < |s| => s[|s| - 1 - i])
  }

  /** Read backwards, the trail is a non-decreasing subsequence with one element per pile. */
  lemma {:induction false} TrailPicks(a: seq<int>, piles: Piles, at: seq<seq<nat>>, p: nat, q: nat)
    returns (js: seq<nat>)
    requires Shape(piles, at) && AllPlaced(a, piles, at) && p < |piles| && q < |piles[p]|
    ensures |Trail(piles, p, q)| == p + 1 && Picks(a, js, Reversed(Trail(piles, p, q)))
    ensures |js| == p + 1 && js[p] == at[p][q] && Reversed(Trail(piles, p, q))[p] == piles[p][q].value
    decreases p
  {
    assert Placed(a, piles, at, p, q);
    var e := piles[p][q];
    if p == 0 {
      js := [at[p][q]];
    } else {
      var rest := TrailPicks(a, piles, at, p - 1, e.prev);
      js := rest + [at[p][q]];
      assert Reversed(Trail(piles, p, q)) == Reversed(Trail(piles, p - 1, e.prev)) + [e.value];
    }
  }

  lemma {:induction false} TrailIsLongest(a: seq<int>, piles: Piles, at: seq<seq<nat>>, rank: seq<nat>, q: nat)
    requires Inv(a, piles, at, rank) && a != [] && piles != [] && q < |piles[|piles| - 1]|
    ensures IsLongest(a, Reversed(Trail(piles, |piles| - 1, q))) && |Trail(piles, |piles| - 1, q)| == |piles|
  {
    var js := TrailPicks(a, piles, at, |piles| - 1, q);
    forall other: seq<int> | IsSubsequence(a, other)
      ensures |other| <= |piles|
    {
      var ks: seq<nat> :| Picks(a, ks, other);
      NoLonger(a, piles, rank, ks, other);
    }
  }

  /** One step of the walk. */
  lemma {:induction false} TrailStep(a: seq<int>, piles: Piles, at: seq<seq<nat>>, p: nat, q: nat)
    requires Shape(piles, at) && AllPlaced(a, piles, at) && 0 < p < |piles| && q < |piles[p]|
    ensures piles[p][q].prev < |piles[p - 1]|
    ensures Trail(piles, p, q) == [piles[p][q].value] + Trail(piles, p - 1, piles[p][q].prev)
  {
    assert Placed(a, piles, at, p, q);
  }

  lemma {:induction false} FollowStep(a: seq<int>, piles: Piles, at: seq<seq<nat>>, p: nat, q: nat, out: seq<int>,
                                      whole: seq<int>)
    requires Shape(piles, at) && AllPlaced(a, piles, at) && 0 < p < |piles| && q < |piles[p]|
    requires out + Trail(piles, p, q)[1..] == whole
    ensures var q' := piles[p][q].prev;
            q' < |piles[p - 1]| && out + [piles[p - 1][q'].value] + Trail(piles, p - 1, q')[1..] == whole
  {
    TrailStep(a, piles, at, p, q);
    var q' := piles[p][q].prev;
    var tail := Trail(piles, p - 1, q');
    assert Trail(piles, p, q)[1..] == tail;
    assert tail == [piles[p - 1][q'].value] + tail[1..];
  }

  /** The piles once the first element of the last pile was replaced by element q of pile p. */
  ghost function Overwritten(piles: Piles, p: nat, q: nat): Piles
    requires p < |piles| && q < |piles[p]| && piles[|piles| - 1] != []
  {
    piles[|piles| - 1 := piles[|piles| - 1][0 := piles[p][q]]]
  }

  lemma NothingOverwritten(piles: Piles)
    requires piles != [] && piles[|piles| - 1] != []
    ensures Overwritten(piles, |piles| - 1, 0) == piles
  {
    var pile := piles[|piles| - 1];
    assert pile[0 := pile[0]] == pile;
  }

  lemma OverwrittenAgain(piles: Piles, p: nat, q: nat, p': nat, q': nat)
    requires p < |piles| && q < |piles[p]| && p' < |piles| && q' < |piles[p']| && piles[|piles| - 1] != []
    ensures var last, now := |piles| - 1, Overwritten(piles, p, q);
            now[last][0] == piles[p][q] && now[last := now[last][0 := piles[p'][q']]] == Overwritten(piles, p', q')
  {
    var last, now := |piles| - 1, Overwritten(piles, p, q);
    assert now[last][0 := piles[p'][q']] == piles[last][0 := piles[p'][q']];
  }

  lemma PutOnNew(piles: Piles, e: LISElement)
    ensures (piles + [[]])[|piles| := [] + [e]] == Put(piles, |piles|, e)
  {
    assert [] + [e] == [e];
  }

  // ---------- The program ----------

  class LongestIncreasingSubsequence {
    var piles: Piles

    constructor ()
      ensures piles == []
    {
      piles := [];
    }

    /** Binary search for the first pile whose top is larger than val. */
    method FindPile(val: int) returns (r: nat)
      requires Nonempty(piles) && TopsSorted(piles)
      ensures FirstLarger(piles, val, r)
    {
      var lo: int, hi: int := -1, |piles|;
      while lo + 1 != hi
        invariant -1 <= lo < hi <= |piles|
        invariant forall p: nat {:trigger Top(piles, p)} :: p <= lo ==> Top(piles, p) <= val
        invariant forall p: nat {:trigger Top(piles, p)} :: hi <= p < |piles| ==> Top(piles, p) > val
        decreases hi - lo
      {
        var m := lo + (hi - lo) / 2;
        if Top(piles, m) <= val {
          lo := m;
        } else {
          hi := m;
        }
      }
      r := hi;
    }

    method PatienceSort(input: seq<int>) returns (ghost at: seq<seq<nat>>, ghost rank: seq<nat>)
      requires piles == []
      modifies this
      ensures Inv(input, piles, at, rank)
    {
      at, rank := [], [];
      for i := 0 to |input|
        invariant Inv(input[..i], piles, at, rank)
      {
        at, rank := Place(input[..i], input[i], at, rank);
        assert input[..i] + [input[i]] == input[..i + 1];
      }
      assert input[..|input|] == input;
    }

    /** The body of the loop: find the pile, make it when there is none, push the element. */
    method Place(ghost a: seq<int>, x: int, ghost at: seq<seq<nat>>, ghost rank: seq<nat>)
      returns (ghost at': seq<seq<nat>>, ghost rank': seq<nat>)
      requires Inv(a, piles, at, rank)
      modifies this
      ensures Inv(a + [x], piles, at', rank')
    {
      var pileIdx := FindPile(x);
      ghost var was := piles;
      if pileIdx == |piles| {
        piles := piles + [[]];
      }
      var elem := LISElement(x, if pileIdx > 0 then |piles[pileIdx - 1]| - 1 else 0);
      piles := piles[pileIdx := piles[pileIdx] + [elem]];
      PutOnNew(was, elem);
      PutKeepsInv(a, was, at, rank, pileIdx, elem);
      at', rank' := PutAt(at, pileIdx, |a|), rank + [pileIdx];
    }

    /** The walk assigns through a reference, so it overwrites the first element of the last pile. */
    method FollowBack(ghost a: seq<int>, ghost at: seq<seq<nat>>) returns (out: seq<int>)
      requires piles != [] && Shape(piles, at) && AllPlaced(a, piles, at)
      modifies this
      ensures out == Trail(old(piles), |old(piles)| - 1, 0) && |piles| == |old(piles)|
    {
      ghost var made := piles;
      var last := |piles| - 1;
      ghost var q: nat := 0;
      NothingOverwritten(made);
      out := [piles[last][0].value];
      for i := 1 to |piles|
        invariant |piles| == last + 1 == |made| && q < |made[last + 1 - i]|
        invariant piles == Overwritten(made, last + 1 - i, q)
        invariant out + Trail(made, last + 1 - i, q)[1..] == Trail(made, last, 0)
      {
        FollowStep(a, made, at, last + 1 - i, q, out, Trail(made, last, 0));
        OverwrittenAgain(made, last + 1 - i, q, last - i, made[last + 1 - i][q].prev);
        q := made[last + 1 - i][q].prev;
        piles := piles[last := piles[last][0 := piles[last - i][piles[last][0].prev]]];
        out := out + [piles[last][0].value];
      }
    }

    method Solve(input: seq<int>) returns (out: seq<int>)
      requires input != []
      modifies this
      ensures IsLongest(input, out) && |out| == |piles|
    {
      piles := [];
      ghost var at, rank;
      at, rank := PatienceSort(input);
      assert rank[0] < |piles|;
      TrailIsLongest(input, piles, at, rank, 0);
      out := FollowBack(input, at);
      out := Reversed(out);
    }
  }
}
