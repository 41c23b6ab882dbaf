/**
 The next larger and the next smaller arrangement of an array, in place. Both programs are the
 same algorithm for opposite orders, so the order is a parameter of the specification.
 */
module Permutations {
  import opened Multisets

  predicate Before(up: bool, x: int, y: int) { if up then x < y else y < x }

  /** The first difference of s and t is at k, and s comes first there. */
  predicate DiffersAt(up: bool, s: seq<int>, t: seq<int>, k: nat)
  {
    k < |s| && k < |t| && s[..k] == t[..k] && Before(up, s[k], t[k])
  }

  /** Lexicographic order: of numbers for up, of their mirror images otherwise. */
  ghost predicate Less(up: bool, s: seq<int>, t: seq<int>)
  {
    |s| == |t| && exists k: nat :: DiffersAt(up, s, t, k)
  }

  ghost predicate LessEq(up: bool, s: seq<int>, t: seq<int>)
  {
    s == t || Less(up, s, t)
  }

  predicate Arranges(s: seq<int>, t: seq<int>) { multiset(s) == multiset(t) }

  /** t is the least arrangement of s that comes after s. */
  ghost predicate IsNext(up: bool, s: seq<int>, t: seq<int>)
  {
    && Arranges(s, t) && Less(up, s, t)
    && forall u: seq<int> {:trigger Arranges(s, u)} :: Arranges(s, u) && Less(up, s, u) ==> LessEq(up, t, u)
  }

  ghost predicate IsLast(up: bool, s: seq<int>)
  {
    forall u: seq<int> {:trigger Arranges(s, u)} :: Arranges(s, u) ==> LessEq(up, u, s)
  }

  // ---------- The order ----------

  lemma CommonPrefix(s: seq<int>, t: seq<int>, k: nat)
    requires k <= |s| && k <= |t| && s[..k] == t[..k]
    ensures forall l :: 0 <= l < k ==> s[l] == t[l]
  {
    forall l | 0 <= l < k
      ensures s[l] == t[l]
    {
      assert s[..k][l] == t[..k][l];
    }
  }

  lemma FirstDifference(s: seq<int>, t: seq<int>) returns (k: nat)
    requires |s| == |t| && s != t
    ensures k < |s| && s[..k] == t[..k] && s[k] != t[k]
  {
    k := 0;
    while k < |s| && s[k] == t[k]
      invariant k <= |s| && s[..k] == t[..k]
    {
      k := k + 1;
    }
    assert s[..|s|] == s && t[..|t|] == t;
  }

  lemma Total(up: bool, s: seq<int>, t: seq<int>)
    requires |s| == |t|
    ensures s == t || Less(up, s, t) || Less(up, t, s)
  {
    if s != t {
      var k := FirstDifference(s, t);
      assert DiffersAt(up, s, t, k) || DiffersAt(up, t, s, k);
    }
  }

  lemma SameDifference(up: bool, s: seq<int>, t: seq<int>, k: nat, l: nat)
    requires DiffersAt(up, s, t, k) && l < |s| && l < |t| && s[..l] == t[..l] && s[l] != t[l]
    ensures k == l
  {
    CommonPrefix(s, t, k);
    CommonPrefix(s, t, l);
  }

  lemma Asymmetric(up: bool, s: seq<int>, t: seq<int>)
    requires Less(up, s, t)
    ensures !LessEq(up, t, s)
  {
    var k: nat :| DiffersAt(up, s, t, k);
    if Less(up, t, s) {
      var l: nat :| DiffersAt(up, t, s, l);
      SameDifference(up, s, t, k, l);
      assert false;
    }
  }

  lemma Mirrored(up: bool, s: seq<int>, t: seq<int>)
    requires Less(up, s, t)
    ensures Less(!up, t, s)
  {
    var k: nat :| DiffersAt(up, s, t, k);
    assert DiffersAt(!up, t, s, k);
  }

  /** Nothing lies strictly between s and its next arrangement. */
  lemma NothingBetween(up: bool, s: seq<int>, t: seq<int>, u: seq<int>)
    requires IsNext(up, s, t) && Arranges(s, u) && Less(up, s, u)
    ensures !Less(up, u, t)
  {
    if Less(up, u, t) {
      Asymmetric(up, u, t);
      assert false;
    }
  }

  lemma NextIsUnique(up: bool, s: seq<int>, t: seq<int>, t': seq<int>)
    requires IsNext(up, s, t) && IsNext(up, s, t')
    ensures t == t'
  {
    if t != t' {
      assert Arranges(s, t) && Arranges(s, t');
      Asymmetric(up, t, t');
      assert false;
    }
  }

  lemma LastHasNoNext(up: bool, s: seq<int>, t: seq<int>)
    requires IsNext(up, s, t)
    ensures !IsLast(up, s)
  {
    assert Arranges(s, t);
    Asymmetric(up, s, t);
  }

  /** Where going up leads from s to t, going down leads from t to s. */
  lemma NextIsUndone(up: bool, s: seq<int>, t: seq<int>)
    requires IsNext(up, s, t)
    ensures IsNext(!up, t, s)
  {
    Mirrored(up, s, t);
    forall u: seq<int> {:trigger Arranges(t, u)} | Arranges(t, u) && Less(!up, t, u)
      ensures LessEq(!up, s, u)
    {
      assert Arranges(s, u);
      SameLength(s, u);
      Mirrored(!up, t, u);
      Total(!up, s, u);
      if Less(!up, u, s) {
        Mirrored(!up, u, s);
        Asymmetric(up, u, t);
        assert false;
      }
    }
  }

  lemma SameLength(s: seq<int>, u: seq<int>)
    requires Arranges(s, u)
    ensures |s| == |u|
  {
    assert |multiset(s)| == |multiset(u)|;
  }

  // ---------- Sorted ends ----------

  /** From lo on, every element comes no later than those after it. */
  predicate Ascends(up: bool, s: seq<int>, lo: nat)
  {
    forall a, b :: lo <= a < b < |s| ==> !Before(up, s[b], s[a])
  }

  lemma RestArranges(s: seq<int>, u: seq<int>, k: nat)
    requires Arranges(s, u) && k <= |s| && k <= |u| && s[..k] == u[..k]
    ensures multiset(s[k..]) == multiset(u[k..])
  {
    assert s == s[..k] + s[k..] && u == u[..k] + u[k..];
    Cancel(multiset(s[..k]), multiset(s[k..]), multiset(u[k..]));
  }

  /** Past a common beginning, every element of u is one of s. */
  lemma FoundBehind(s: seq<int>, u: seq<int>, k: nat) returns (m: nat)
    requires Arranges(s, u) && k < |s| && k < |u| && s[..k] == u[..k]
    ensures k <= m < |s| && s[m] == u[k]
  {
    RestArranges(s, u, k);
    assert u[k..][0] in multiset(u[k..]);
    assert u[k] in s[k..];
    var q :| 0 <= q < |s[k..]| && s[k..][q] == u[k];
    m := k + q;
  }

  lemma AscendingIsLeast(up: bool, t: seq<int>, u: seq<int>, lo: nat)
    requires Arranges(t, u) && lo <= |t| && lo <= |u| && t[..lo] == u[..lo] && Ascends(up, t, lo)
    ensures LessEq(up, t, u)
  {
    SameLength(t, u);
    if t != u {
      var k := FirstDifference(t, u);
      CommonPrefix(t, u, lo);
      var m := FoundBehind(t, u, k);
      assert DiffersAt(up, t, u, k);
    }
  }

  lemma DescendingIsLast(up: bool, s: seq<int>)
    requires Ascends(!up, s, 0)
    ensures IsLast(up, s)
  {
    forall u: seq<int> {:trigger Arranges(s, u)} | Arranges(s, u)
      ensures LessEq(up, u, s)
    {
      AscendingIsLeast(!up, s, u, 0);
      if s != u {
        Mirrored(!up, s, u);
      }
    }
  }

  // ---------- Pivot and partner ----------

  /** Behind i the elements descend, and i is the last place where s can grow. */
  predicate Pivot(up: bool, s: seq<int>, i: nat)
  {
    i + 1 < |s| && Before(up, s[i], s[i + 1]) && Ascends(!up, s, i + 1)
  }

  /** j is the last element behind i that comes after s[i]. */
  predicate Partner(up: bool, s: seq<int>, i: nat, j: nat)
  {
    i < j < |s| && Before(up, s[i], s[j]) && forall k :: j < k < |s| ==> !Before(up, s[i], s[k])
  }

  lemma GrowsBeforePivot(up: bool, s: seq<int>, i: nat, u: seq<int>, k: nat)
    requires Pivot(up, s, i) && Arranges(s, u) && DiffersAt(up, s, u, k)
    ensures k <= i
  {
    var m := FoundBehind(s, u, k);
  }

  lemma NextAt(up: bool, s: seq<int>, i: nat, j: nat, t: seq<int>, u: seq<int>)
    requires Pivot(up, s, i) && Partner(up, s, i, j) && Arranges(s, t) && i < |t| && t[..i] == s[..i] && t[i] == s[j]
    requires Ascends(up, t, i + 1) && Arranges(s, u) && Less(up, s, u)
    ensures LessEq(up, t, u)
  {
    var k: nat :| DiffersAt(up, s, u, k);
    GrowsBeforePivot(up, s, i, u, k);
    SameLength(s, u);
    SameLength(s, t);
    assert t[..k] == u[..k] by {
      assert t[..k] == t[..i][..k] == s[..i][..k] == s[..k];
    }
    if k < i {
      assert t[k] == t[..i][k] == s[..i][k] == s[k];
      assert DiffersAt(up, t, u, k);
    } else {
      var m := FoundBehind(s, u, i);
      if u[i] == t[i] {
        assert t[..i + 1] == t[..i] + [t[i]] && u[..i + 1] == u[..i] + [u[i]];
        AscendingIsLeast(up, t, u, i + 1);
      } else {
        assert m <= j;
        assert DiffersAt(up, t, u, i);
      }
    }
  }

  /** Partner in front, the rest ascending: this is the next arrangement. */
  lemma NextBySwap(up: bool, s: seq<int>, i: nat, j: nat, t: seq<int>)
    requires Pivot(up, s, i) && Partner(up, s, i, j) && Arranges(s, t) && i < |t| && t[..i] == s[..i] && t[i] == s[j]
    requires Ascends(up, t, i + 1)
    ensures IsNext(up, s, t)
  {
    SameLength(s, t);
    assert DiffersAt(up, s, t, i);
    forall u: seq<int> {:trigger Arranges(s, u)} | Arranges(s, u) && Less(up, s, u)
      ensures LessEq(up, t, u)
    {
      NextAt(up, s, i, j, t, u);
    }
  }

  predicate ReversedFrom(s: seq<int>, t: seq<int>, lo: nat)
  {
    && |s| == |t| && lo <= |s| && s[..lo] == t[..lo]
    && forall k :: lo <= k < |s| ==> t[k] == s[|s| - 1 - (k - lo)]
  }

  lemma SwapThenReverse(up: bool, s: seq<int>, i: nat, j: nat, b: seq<int>, t: seq<int>)
    requires Pivot(up, s, i) && Partner(up, s, i, j) && b == s[i := s[j]][j := s[i]] && ReversedFrom(b, t, i + 1)
    ensures Ascends(!up, b, i + 1) && Ascends(up, t, i + 1) && t[..i] == s[..i] && t[i] == s[j]
  {
    assert t[..i] == t[..i + 1][..i] == b[..i + 1][..i] == b[..i] == s[..i];
    assert t[i] == t[..i + 1][i] == b[..i + 1][i];
    forall p, q | i + 1 <= p < q < |b|
      ensures !Before(!up, b[q], b[p])
    {}
  }

  // ---------- The programs ----------

  method Swap(arr: array<int>, i: nat, j: nat)
    requires i < arr.Length && j < arr.Length
    modifies arr
    ensures arr[..] == old(arr[..])[i := old(arr[j])][j := old(arr[i])]
    ensures Arranges(old(arr[..]), arr[..])
  {
    arr[i], arr[j] := arr[j], arr[i];
  }

  /** Where the element at k comes from. */
  function Source(len: nat, lo: nat, n: nat, k: nat): (j: nat)
    requires lo <= k < len
    ensures lo <= j < len
  {
    if lo + n <= k < len - n then k else len - 1 - (k - lo)
  }

  /** t is s with the first n elements from lo on exchanged for the last n. */
  ghost predicate Flipped(s: seq<int>, t: seq<int>, lo: nat, n: nat)
  {
    && |s| == |t| && lo <= |s| && (forall k :: 0 <= k < lo ==> t[k] == s[k])
    && (forall k :: lo <= k < |s| ==> t[k] == s[Source(|s|, lo, n, k)])
  }

  lemma FlipMore(s: seq<int>, t: seq<int>, t': seq<int>, lo: nat, n: nat, i: nat, j: nat)
    requires Flipped(s, t, lo, n) && i == lo + n && j == |s| - 1 - n && i < j && t' == t[i := t[j]][j := t[i]]
    ensures Flipped(s, t', lo, n + 1)
  {
    assert t[i] == s[i] && t[j] == s[j];
  }

  lemma FlippedAll(s: seq<int>, t: seq<int>, lo: nat, n: nat)
    requires Flipped(s, t, lo, n) && lo <= |s| <= lo + 2 * n + 1
    ensures ReversedFrom(s, t, lo)
  {
    assert forall k :: lo <= k < |s| ==> Source(|s|, lo, n, k) == |s| - 1 - (k - lo);
  }

  /** Reverses the elements from lo on. */
  method Reverse(arr: array<int>, lo: nat)
    requires lo <= arr.Length
    modifies arr
    ensures ReversedFrom(old(arr[..]), arr[..], lo) && Arranges(old(arr[..]), arr[..])
  {
    if arr.Length == lo {
      return;
    }
    ghost var s, n := arr[..], 0;
    var i, j := lo, arr.Length - 1;
    while i < j
      invariant n >= 0 && i == lo + n && j == arr.Length - 1 - n && i <= j + 1
      invariant Arranges(s, arr[..]) && Flipped(s, arr[..], lo, n)
    {
      ghost var t := arr[..];
      Swap(arr, i, j);
      FlipMore(s, t, arr[..], lo, n, i, j);
      i, j, n := i + 1, j - 1, n + 1;
    }
    FlippedAll(s, arr[..], lo, n);
  }

  method NextPerm(arr: array<int>) returns (found: bool)
    modifies arr
    ensures if found then IsNext(true, old(arr[..]), arr[..]) else arr[..] == old(arr[..]) && IsLast(true, arr[..])
  {
    if arr.Length <= 1 {
      DescendingIsLast(true, arr[..]);
      return false;
    }
    var i := arr.Length - 1;
    while i > 0 && arr[i] <= arr[i - 1]
      invariant 0 <= i < arr.Length && Ascends(false, arr[..], i)
    {
      i := i - 1;
    }
    if i == 0 {
      DescendingIsLast(true, arr[..]);
      return false;
    }
    i := i - 1;
    var j := arr.Length - 1;
    while arr[j] <= arr[i]
      invariant i < j < arr.Length && forall k :: j < k < arr.Length ==> arr[k] <= arr[i]
      decreases j
    {
      j := j - 1;
    }
    SwapAndReverse(arr, true, i, j);
    return true;
  }

  method NextSmallest(arr: array<int>) returns (found: bool)
    modifies arr
    ensures if found then IsNext(false, old(arr[..]), arr[..]) else arr[..] == old(arr[..]) && IsLast(false, arr[..])
  {
    if arr.Length <= 1 {
      DescendingIsLast(false, arr[..]);
      return false;
    }
    var i := arr.Length - 2;
    while i >= 0 && arr[i] <= arr[i + 1]
      invariant -1 <= i < arr.Length - 1 && Ascends(true, arr[..], i + 1)
    {
      i := i - 1;
    }
    var k := i;
    if k == -1 {
      DescendingIsLast(false, arr[..]);
      return false;
    }
    i := arr.Length - 1;
    while arr[k] <= arr[i]
      invariant k < i < arr.Length && forall q :: i < q < arr.Length ==> arr[k] <= arr[q]
      decreases i
    {
      i := i - 1;
    }
    SwapAndReverse(arr, false, k, i);
    return true;
  }

  /** The common end of both programs. */
  method SwapAndReverse(arr: array<int>, ghost up: bool, i: nat, j: nat)
    requires Pivot(up, arr[..], i) && Partner(up, arr[..], i, j)
    modifies arr
    ensures IsNext(up, old(arr[..]), arr[..])
  {
    ghost var s := arr[..];
    Swap(arr, i, j);
    ghost var b := arr[..];
    Reverse(arr, i + 1);
    SwapThenReverse(up, s, i, j, b, arr[..]);
    NextBySwap(up, s, i, j, arr[..]);
  }

  /** Going up and then down: the array is back, unless it was the last arrangement. */
  method UpAndDown(arr: array<int>) returns (up: bool, down: bool)
    modifies arr
    ensures up == !IsLast(true, old(arr[..])) && (up ==> down && arr[..] == old(arr[..]))
  {
    ghost var s := arr[..];
    up := NextPerm(arr);
    ghost var t := arr[..];
    down := NextSmallest(arr);
    if up {
      NextIsUndone(true, s, t);
      LastHasNoNext(true, s, t);
      LastHasNoNext(false, t, s);
      NextIsUnique(false, t, s, arr[..]);
    }
  }

  /** Going down and then up: the array is back, unless it was the first arrangement. */
  method DownAndUp(arr: array<int>) returns (down: bool, up: bool)
    modifies arr
    ensures down == !IsLast(false, old(arr[..])) && (down ==> up && arr[..] == old(arr[..]))
  {
    ghost var s := arr[..];
    down := NextSmallest(arr);
    ghost var t := arr[..];
    up := NextPerm(arr);
    if down {
      NextIsUndone(false, s, t);
      LastHasNoNext(false, s, t);
      LastHasNoNext(true, t, s);
      NextIsUnique(true, t, s, arr[..]);
    }
  }

  // ---------- All arrangements, one after the other ----------

  ghost function Words(n: nat, d: set<int>): set<seq<int>>
  {
    if n == 0 then {[]} else set x, w | x in d && w in Words(n - 1, d) :: [x] + w
  }

  lemma {:induction false} AllWords(u: seq<int>, d: set<int>)
    requires forall i :: 0 <= i < |u| ==> u[i] in d
    ensures u in Words(|u|, d)
  {
    if u != [] {
      var w := u[1..];
      AllWords(w, d);
      var x := u[0];
      assert u == [x] + w && x in d && w in Words(|u| - 1, d);
    }
  }

  /** The arrangements of s that come after s: finitely many. */
  ghost function Ahead(s: seq<int>): set<seq<int>>
  {
    set u | u in Words(|s|, set x | x in s) && Arranges(s, u) && Less(true, s, u)
  }

  lemma {:induction false} AheadIs(s: seq<int>)
    ensures forall u :: u in Ahead(s) <==> Arranges(s, u) && Less(true, s, u)
  {
    forall u | Arranges(s, u)
      ensures u in Words(|s|, set x | x in s)
    {
      SameLength(s, u);
      forall i | 0 <= i < |u|
        ensures u[i] in s
      {
        assert u[i] in multiset(u);
      }
      AllWords(u, set x | x in s);
    }
  }

  lemma Transitive(up: bool, s: seq<int>, t: seq<int>, u: seq<int>)
    requires Less(up, s, t) && LessEq(up, t, u)
    ensures Less(up, s, u)
  {
    if t != u {
      var k: nat :| DiffersAt(up, s, t, k);
      var l: nat :| DiffersAt(up, t, u, l);
      var m := if k < l then k else l;
      assert s[..m] == s[..k][..m] == t[..k][..m] == t[..m] == t[..l][..m] == u[..l][..m] == u[..m];
      CommonPrefix(s, t, k);
      CommonPrefix(t, u, l);
      assert DiffersAt(up, s, u, m);
    }
  }

  lemma NextTakesOne(s: seq<int>, t: seq<int>)
    requires IsNext(true, s, t)
    ensures Ahead(s) == Ahead(t) + {t} && |Ahead(s)| == |Ahead(t)| + 1
  {
    AheadIs(s);
    AheadIs(t);
    if Less(true, t, t) {
      Asymmetric(true, t, t);
      assert false;
    }
    forall u
      ensures u in Ahead(s) <==> u in Ahead(t) || u == t
    {
      if u in Ahead(t) {
        Transitive(true, s, t, u);
      }
    }
  }

  lemma LastHasNoneAhead(s: seq<int>)
    requires IsLast(true, s)
    ensures Ahead(s) == {}
  {
    AheadIs(s);
    forall u | u in Ahead(s)
      ensures false
    {
      Asymmetric(true, s, u);
    }
  }

  ghost predicate Increasing(out: seq<seq<int>>)
  {
    forall i, j :: 0 <= i < j < |out| ==> Less(true, out[i], out[j])
  }

  /** Those shown after s lead up to cur. */
  ghost predicate LeadsTo(s: seq<int>, shown: seq<seq<int>>, cur: seq<int>)
  {
    Increasing([s] + shown) && cur == ([s] + shown)[|shown|]
  }

  ghost function Seen(shown: seq<seq<int>>): set<seq<int>> { set u | u in shown }

  lemma IncreasingStep(out: seq<seq<int>>, t: seq<int>)
    requires out != [] && Increasing(out) && Less(true, out[|out| - 1], t)
    ensures Increasing(out + [t])
  {
    forall i | 0 <= i < |out|
      ensures Less(true, out[i], t)
    {
      if i < |out| - 1 {
        Transitive(true, out[i], out[|out| - 1], t);
      }
    }
  }

  lemma LeadsFurther(s: seq<int>, shown: seq<seq<int>>, cur: seq<int>, t: seq<int>)
    requires LeadsTo(s, shown, cur) && Less(true, cur, t)
    ensures LeadsTo(s, shown + [t], t)
  {
    IncreasingStep([s] + shown, t);
    assert ([s] + shown) + [t] == [s] + (shown + [t]);
  }

  lemma SeenStep(all: set<seq<int>>, ahead: set<seq<int>>, shown: seq<seq<int>>, next: set<seq<int>>, t: seq<int>)
    requires all == ahead + Seen(shown) && ahead == next + {t}
    ensures all == next + Seen(shown + [t])
  {}

  /** The driver's loop: it shows every later arrangement exactly once, in increasing order. */
  method ShowAll(arr: array<int>) returns (shown: seq<seq<int>>)
    modifies arr
    ensures Increasing([old(arr[..])] + shown)
    ensures forall u :: u in shown <==> Arranges(old(arr[..]), u) && Less(true, old(arr[..]), u)
    ensures IsLast(true, arr[..])
  {
    shown := [];
    ghost var s := arr[..];
    AheadIs(s);
    while true
      invariant LeadsTo(s, shown, arr[..])
      invariant Ahead(s) == Ahead(arr[..]) + Seen(shown)
      decreases |Ahead(arr[..])|
    {
      ghost var cur := arr[..];
      var found := NextPerm(arr);
      if !found {
        LastHasNoneAhead(cur);
        return;
      }
      LeadsFurther(s, shown, cur, arr[..]);
      NextTakesOne(cur, arr[..]);
      SeenStep(Ahead(s), Ahead(cur), shown, Ahead(arr[..]), arr[..]);
      shown := shown + [arr[..]];
    }
  }
}
