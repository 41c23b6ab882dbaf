/**
 Which keys a set-associative LRU cache holds, told from the history of operations alone: a key is
 cached as long as fewer than assoc other keys of its line were used since its own last use.
 */
module CacheHistory {
  import opened Wrappers
  import opened RecencyList

  // ---------- The history ----------

  /** Operation j uses its key: it inserts it, or it finds it cached. */
  ghost predicate Uses(lines: nat, assoc: nat, h: seq<Op>, j: nat)
    requires lines > 0 && j < |h|
    decreases j, 2
  {
    h[j].Insert? || Cached(lines, assoc, h, j, h[j].key)
  }

  ghost predicate UsesKey(lines: nat, assoc: nat, h: seq<Op>, j: nat, k: nat)
    requires lines > 0 && j < |h|
    decreases j, 3
  {
    h[j].key == k && Uses(lines, assoc, h, j)
  }

  /** The other keys of the line of k that are used after operation i, among the first n operations. */
  ghost function Since(lines: nat, assoc: nat, h: seq<Op>, n: nat, k: nat, i: nat): set<nat>
    requires lines > 0 && n <= |h|
    decreases n, 0
  {
    set j | i < j < n && h[j].key != k && h[j].key % lines == k % lines && Uses(lines, assoc, h, j) :: h[j].key
  }

  /** After the first n operations k is cached. */
  ghost predicate Cached(lines: nat, assoc: nat, h: seq<Op>, n: nat, k: nat)
    requires lines > 0 && n <= |h|
    decreases n, 1
  {
    exists i: nat :: i < n && UsesKey(lines, assoc, h, i, k) && |Since(lines, assoc, h, n, k, i)| < assoc
  }

  /** The first n operations insert only keys that are not cached. */
  ghost predicate InsertsUncached(lines: nat, assoc: nat, h: seq<Op>, n: nat)
    requires lines > 0 && n <= |h|
  {
    forall j: nat :: j < n && h[j].Insert? ==> !Cached(lines, assoc, h, j, h[j].key)
  }

  /** The number of operations up to and including the last one that uses k. */
  ghost function LastUsed(lines: nat, assoc: nat, h: seq<Op>, n: nat, k: nat): (m: nat)
    requires lines > 0 && n <= |h|
    ensures m <= n && (m > 0 ==> UsesKey(lines, assoc, h, m - 1, k))
    ensures forall i: nat :: m <= i < n ==> !UsesKey(lines, assoc, h, i, k)
  {
    if n == 0 then 0
    else if UsesKey(lines, assoc, h, n - 1, k) then n
    else LastUsed(lines, assoc, h, n - 1, k)
  }

  /** LastUsed after n operations, for every key. */
  ghost function UsedBy(lines: nat, assoc: nat, h: seq<Op>, n: nat): (used: nat -> nat)
    requires lines > 0 && n <= |h|
    ensures forall k: nat :: used(k) == LastUsed(lines, assoc, h, n, k)
  {
    (k: nat) => if n <= |h| && lines > 0 then LastUsed(lines, assoc, h, n, k) else 0
  }

  // ---------- A recency list against the history ----------

  ghost predicate OfLine(lines: nat, l: nat, v: seq<Pair>)
    requires lines > 0
  {
    forall i :: 0 <= i < |v| ==> v[i].key % lines == l
  }

  /** In the order of use. */
  ghost predicate InOrder(v: seq<Pair>, used: nat -> nat)
  {
    && (forall i :: 0 <= i < |v| ==> used(v[i].key) > 0)
    && (forall i, j :: 0 <= i < j < |v| ==> used(v[i].key) < used(v[j].key))
  }

  /** A key of the line that was used after one in the list is in the list. */
  ghost predicate LastOnes(lines: nat, l: nat, v: seq<Pair>, used: nat -> nat)
    requires lines > 0
  {
    forall i, k: nat :: 0 <= i < |v| && k % lines == l && used(k) > used(v[i].key) ==> HasKey(v, k)
  }

  /** All keys of the line that were used are in the list. */
  ghost predicate AllOnes(lines: nat, l: nat, v: seq<Pair>, used: nat -> nat)
    requires lines > 0
  {
    forall k: nat :: k % lines == l && used(k) > 0 ==> HasKey(v, k)
  }

  /** The list holds the keys of line l that were used last, in that order, as many as there is room for. */
  ghost predicate Ranked(lines: nat, assoc: nat, l: nat, v: seq<Pair>, used: nat -> nat)
    requires lines > 0
  {
    && |v| <= assoc && OfLine(lines, l, v) && InOrder(v, used) && LastOnes(lines, l, v, used)
    && (|v| < assoc ==> AllOnes(lines, l, v, used))
  }

  ghost function KeySet(v: seq<Pair>): set<nat> { set p | p in v :: p.key }

  lemma {:induction false} KeySetSize(v: seq<Pair>)
    ensures |KeySet(v)| <= |v| && (UniqueKeys(v) ==> |KeySet(v)| == |v|)
  {
    if v != [] {
      var n := |v| - 1;
      KeySetSize(v[..n]);
      assert v == v[..n] + [v[n]];
      assert KeySet(v) == KeySet(v[..n]) + {v[n].key};
      assert UniqueKeys(v) ==> v[n].key !in KeySet(v[..n]);
    }
  }

  lemma {:induction false} SubsetSize(a: set<nat>, b: set<nat>)
    requires a <= b
    ensures |a| <= |b|
  {
    if x :| x in a {
      SubsetSize(a - {x}, b - {x});
    }
  }

  lemma KeyBehind(lines: nat, l: nat, v: seq<Pair>, used: nat -> nat, q: nat, x: nat)
    requires lines > 0 && InOrder(v, used) && LastOnes(lines, l, v, used)
    requires q < |v| && x % lines == l && used(x) > used(v[q].key)
    ensures x in KeySet(v[q + 1..])
  {
    var p :| 0 <= p < |v| && v[p].key == x;
    assert q < p;
    assert v[p] == v[q + 1..][p - q - 1];
  }

  /** The keys used after the one at q are those behind it. */
  lemma HeldIsCached(lines: nat, assoc: nat, h: seq<Op>, n: nat, l: nat, v: seq<Pair>, q: nat)
    requires lines > 0 && n <= |h| && Ranked(lines, assoc, l, v, UsedBy(lines, assoc, h, n)) && q < |v|
    ensures Cached(lines, assoc, h, n, v[q].key)
  {
    var k, used := v[q].key, UsedBy(lines, assoc, h, n);
    var i: nat := used(k) - 1;
    forall x | x in Since(lines, assoc, h, n, k, i)
      ensures x in KeySet(v[q + 1..])
    {
      var j :| i < j < n && h[j].key == x && x % lines == k % lines && Uses(lines, assoc, h, j);
      assert UsesKey(lines, assoc, h, j, x);
      KeyBehind(lines, l, v, used, q, x);
    }
    SubsetSize(Since(lines, assoc, h, n, k, i), KeySet(v[q + 1..]));
    KeySetSize(v[q + 1..]);
  }

  lemma DistinctKeys(v: seq<Pair>, used: nat -> nat)
    requires InOrder(v, used)
    ensures UniqueKeys(v)
  {}

  lemma LaterThanMissing(lines: nat, assoc: nat, h: seq<Op>, n: nat, l: nat, v: seq<Pair>, k: nat, i: nat, q: nat)
    requires lines > 0 && n <= |h| && Ranked(lines, assoc, l, v, UsedBy(lines, assoc, h, n))
    requires k % lines == l && !HasKey(v, k) && i < n && UsesKey(lines, assoc, h, i, k) && q < |v|
    ensures v[q].key in Since(lines, assoc, h, n, k, i)
  {
    var x := v[q].key;
    UsedNotBefore(lines, l, v, UsedBy(lines, assoc, h, n), q, k);
    LastUsesDiffer(lines, assoc, h, n, k, x);
    var j: nat := LastUsed(lines, assoc, h, n, x) - 1;
    assert UsesKey(lines, assoc, h, j, x) && LastUsed(lines, assoc, h, n, k) > i;
  }

  lemma UsedNotBefore(lines: nat, l: nat, v: seq<Pair>, used: nat -> nat, q: nat, k: nat)
    requires lines > 0 && LastOnes(lines, l, v, used) && InOrder(v, used) && q < |v| && k % lines == l && !HasKey(v, k)
    ensures k != v[q].key && used(k) <= used(v[q].key) && used(v[q].key) > 0
  {}

  lemma LastUsesDiffer(lines: nat, assoc: nat, h: seq<Op>, n: nat, k: nat, x: nat)
    requires lines > 0 && n <= |h| && k != x && LastUsed(lines, assoc, h, n, k) > 0
    ensures LastUsed(lines, assoc, h, n, k) != LastUsed(lines, assoc, h, n, x)
  {
    var m: nat := LastUsed(lines, assoc, h, n, k) - 1;
    assert UsesKey(lines, assoc, h, m, k);
  }

  /** Where k is not in the list, the list is full of keys used later. */
  lemma MissingIsNotCached(lines: nat, assoc: nat, h: seq<Op>, n: nat, l: nat, v: seq<Pair>, k: nat)
    requires lines > 0 && n <= |h| && Ranked(lines, assoc, l, v, UsedBy(lines, assoc, h, n))
    requires k % lines == l && !HasKey(v, k)
    ensures !Cached(lines, assoc, h, n, k)
  {
    var used := UsedBy(lines, assoc, h, n);
    DistinctKeys(v, used);
    forall i: nat | i < n && UsesKey(lines, assoc, h, i, k)
      ensures |Since(lines, assoc, h, n, k, i)| >= assoc
    {
      forall x | x in KeySet(v)
        ensures x in Since(lines, assoc, h, n, k, i)
      {
        var p :| p in v && p.key == x;
        var q :| 0 <= q < |v| && v[q] == p;
        LaterThanMissing(lines, assoc, h, n, l, v, k, i, q);
      }
      SubsetSize(KeySet(v), Since(lines, assoc, h, n, k, i));
      KeySetSize(v);
    }
  }

  lemma RankedIff(lines: nat, assoc: nat, h: seq<Op>, n: nat, l: nat, v: seq<Pair>, k: nat)
    requires lines > 0 && n <= |h| && Ranked(lines, assoc, l, v, UsedBy(lines, assoc, h, n)) && k % lines == l
    ensures Cached(lines, assoc, h, n, k) <==> HasKey(v, k)
  {
    if HasKey(v, k) {
      var q :| 0 <= q < |v| && v[q].key == k;
      HeldIsCached(lines, assoc, h, n, l, v, q);
    } else {
      MissingIsNotCached(lines, assoc, h, n, l, v, k);
    }
  }

  // ---------- One more operation ----------

  lemma {:induction false} UsedNext(lines: nat, assoc: nat, h: seq<Op>, n: nat)
    requires lines > 0 && n < |h|
    ensures forall k: nat :: UsedBy(lines, assoc, h, n + 1)(k) ==
                             if UsesKey(lines, assoc, h, n, k) then n + 1 else UsedBy(lines, assoc, h, n)(k)
  {}

  /** An operation that uses no key of the line. */
  lemma UnusedStaysRanked(lines: nat, assoc: nat, l: nat, v: seq<Pair>, used: nat -> nat, used': nat -> nat)
    requires lines > 0 && Ranked(lines, assoc, l, v, used) && forall k: nat :: k % lines == l ==> used'(k) == used(k)
    ensures Ranked(lines, assoc, l, v, used')
  {}

  /** Now k was used last of all. */
  ghost predicate Renewed(used: nat -> nat, used': nat -> nat, k: nat)
  {
    forall x: nat :: if x == k then used'(k) > used(k) else used'(x) == used(x) && used'(k) > used(x)
  }

  lemma TouchedKeys(v: seq<Pair>, i: nat, x: int)
    requires i < |v|
    ensures forall k: nat :: HasKey(Touch(v, i, x), k) <==> HasKey(v, k)
  {
    var w := Touch(v, i, x);
    forall k: nat
      ensures HasKey(w, k) <==> HasKey(v, k)
    {
      if q :| 0 <= q < |v| && v[q].key == k {
        assert w[if q < i then q else if q == i then |w| - 1 else q - 1].key == k;
      }
    }
  }

  lemma TouchStaysOrdered(v: seq<Pair>, i: nat, x: int, used: nat -> nat, used': nat -> nat)
    requires InOrder(v, used) && i < |v| && Renewed(used, used', v[i].key)
    ensures InOrder(Touch(v, i, x), used')
  {
    var w := Touch(v, i, x);
    DistinctKeys(v, used);
    assert forall j :: 0 <= j < |w| - 1 ==> w[j] == v[if j < i then j else j + 1];
    assert w[|w| - 1].key == v[i].key;
  }

  lemma TouchStaysRanked(lines: nat, assoc: nat, l: nat, v: seq<Pair>, i: nat, x: int, used: nat -> nat,
                         used': nat -> nat)
    requires lines > 0 && Ranked(lines, assoc, l, v, used) && i < |v| && Renewed(used, used', v[i].key)
    ensures Ranked(lines, assoc, l, Touch(v, i, x), used')
  {
    TouchStaysOrdered(v, i, x, used, used');
    TouchedKeys(v, i, x);
    TouchKeepsLast(lines, l, v, i, x, used, used');
  }

  lemma TouchKeepsLast(lines: nat, l: nat, v: seq<Pair>, i: nat, x: int, used: nat -> nat, used': nat -> nat)
    requires lines > 0 && OfLine(lines, l, v) && LastOnes(lines, l, v, used) && i < |v|
    requires Renewed(used, used', v[i].key)
    ensures OfLine(lines, l, Touch(v, i, x)) && LastOnes(lines, l, Touch(v, i, x), used')
  {
    var w, k := Touch(v, i, x), v[i].key;
    TouchedKeys(v, i, x);
    assert forall j :: 0 <= j < |w| - 1 ==> w[j] == v[if j < i then j else j + 1];
    assert w[|w| - 1].key == k;
    forall j, y: nat | 0 <= j < |w| && y % lines == l && used'(y) > used'(w[j].key)
      ensures HasKey(w, y)
    {
      if y == k {
        assert HasKey(v, k);
      } else if j < |w| - 1 && w[j].key != k {
        assert used(y) > used(v[if j < i then j else j + 1].key);
      }
    }
  }

  lemma PutKeys(v: seq<Pair>, assoc: nat, k: nat, x: int)
    requires assoc > 0
    ensures var w, d := Put(v, assoc, k, x), if |v| == assoc then 1 else 0;
            && |w| == |v| - d + 1 && w[|w| - 1] == Pair(k, x) && (forall j :: 0 <= j < |w| - 1 ==> w[j] == v[j + d])
            && forall y: nat :: HasKey(w, y) <==> y == k || exists q :: d <= q < |v| && v[q].key == y
  {
    var w, d := Put(v, assoc, k, x), if |v| == assoc then 1 else 0;
    forall y: nat
      ensures HasKey(w, y) <==> y == k || exists q :: d <= q < |v| && v[q].key == y
    {
      assert w[|w| - 1].key == k;
      if q :| d <= q < |v| && v[q].key == y {
        assert w[q - d].key == y;
      }
    }
  }

  lemma PutStaysRanked(lines: nat, assoc: nat, l: nat, v: seq<Pair>, k: nat, x: int, used: nat -> nat,
                       used': nat -> nat)
    requires lines > 0 && assoc > 0 && Ranked(lines, assoc, l, v, used) && Renewed(used, used', k)
    requires k % lines == l && !HasKey(v, k)
    ensures Ranked(lines, assoc, l, Put(v, assoc, k, x), used')
  {
    PutKeys(v, assoc, k, x);
    PutStaysOrdered(assoc, v, k, x, used, used');
    PutKeepsLast(lines, assoc, l, v, k, x, used, used');
  }

  lemma PutStaysOrdered(assoc: nat, v: seq<Pair>, k: nat, x: int, used: nat -> nat, used': nat -> nat)
    requires assoc > 0 && InOrder(v, used) && Renewed(used, used', k) && !HasKey(v, k)
    ensures InOrder(Put(v, assoc, k, x), used')
  {
    PutKeys(v, assoc, k, x);
    assert forall i :: 0 <= i < |v| ==> v[i].key != k;
  }

  lemma PutKeepsLast(lines: nat, assoc: nat, l: nat, v: seq<Pair>, k: nat, x: int, used: nat -> nat, used': nat -> nat)
    requires lines > 0 && assoc > 0 && InOrder(v, used) && LastOnes(lines, l, v, used) && Renewed(used, used', k)
    requires !HasKey(v, k)
    ensures LastOnes(lines, l, Put(v, assoc, k, x), used')
  {
    PutKeys(v, assoc, k, x);
    var w, d := Put(v, assoc, k, x), if |v| == assoc then 1 else 0;
    forall i, y: nat | 0 <= i < |w| && y % lines == l && used'(y) > used'(w[i].key)
      ensures HasKey(w, y)
    {
      if y != k && i < |w| - 1 {
        assert w[i] == v[i + d] && w[i].key != k;
        var q :| 0 <= q < |v| && v[q].key == y;
        assert q > i + d;
      }
    }
  }

  /** One operation on a line, where the list tells which keys are cached. */
  lemma StepStaysRanked(lines: nat, assoc: nat, h: seq<Op>, n: nat, l: nat, v: seq<Pair>)
    requires lines > 0 && assoc > 0 && n < |h| && Ranked(lines, assoc, l, v, UsedBy(lines, assoc, h, n))
    requires InsertsUncached(lines, assoc, h, n + 1)
    ensures Ranked(lines, assoc, l, if h[n].key % lines == l then LineStep(v, assoc, h[n]) else v,
                   UsedBy(lines, assoc, h, n + 1))
  {
    var op, used, used' := h[n], UsedBy(lines, assoc, h, n), UsedBy(lines, assoc, h, n + 1);
    var k := op.key;
    UsedNext(lines, assoc, h, n);
    if k % lines == l {
      RankedIff(lines, assoc, h, n, l, v, k);
      var i := IndexOf(v, k);
      if Uses(lines, assoc, h, n) {
        assert Renewed(used, used', k);
        if op.Insert? {
          PutStaysRanked(lines, assoc, l, v, k, op.val, used, used');
        } else {
          TouchStaysRanked(lines, assoc, l, v, i, if op.Get? then v[i].val else op.val, used, used');
        }
      } else {
        UnusedStaysRanked(lines, assoc, l, v, used, used');
      }
    } else {
      UnusedStaysRanked(lines, assoc, l, v, used, used');
    }
  }

  // ---------- Whole histories ----------

  lemma {:induction false} RunIsRanked(lines: nat, assoc: nat, h: seq<Op>, n: nat, l: nat)
    requires lines > 0 && assoc > 0 && n <= |h| && l < lines && InsertsUncached(lines, assoc, h, n)
    ensures Ranked(lines, assoc, l, Run(lines, assoc, h[..n])[l], UsedBy(lines, assoc, h, n))
  {
    if n > 0 {
      RunIsRanked(lines, assoc, h, n - 1, l);
      assert h[..n][..n - 1] == h[..n - 1];
      StepStaysRanked(lines, assoc, h, n - 1, l, Run(lines, assoc, h[..n - 1])[l]);
    }
  }

  /** A key is in its line exactly if the history says so. */
  lemma {:induction false} CachedExactly(lines: nat, assoc: nat, h: seq<Op>, n: nat, k: nat)
    requires lines > 0 && assoc > 0 && n <= |h| && InsertsUncached(lines, assoc, h, n)
    ensures HasKey(Run(lines, assoc, h[..n])[k % lines], k) <==> Cached(lines, assoc, h, n, k)
  {
    RunIsRanked(lines, assoc, h, n, k % lines);
    RankedIff(lines, assoc, h, n, k % lines, Run(lines, assoc, h[..n])[k % lines], k);
  }

  /** Which runs are allowed is a matter of the history too. */
  lemma {:induction false} AllowedIff(lines: nat, assoc: nat, h: seq<Op>, n: nat)
    requires lines > 0 && assoc > 0 && n <= |h|
    ensures AllowedRun(lines, assoc, h[..n]) <==> InsertsUncached(lines, assoc, h, n)
  {
    if n > 0 {
      AllowedIff(lines, assoc, h, n - 1);
      AllowedMore(lines, assoc, h, n - 1);
      InsertsMore(lines, assoc, h, n - 1);
      if InsertsUncached(lines, assoc, h, n - 1) {
        CachedExactly(lines, assoc, h, n - 1, h[n - 1].key);
      }
    }
  }

  lemma InsertsMore(lines: nat, assoc: nat, h: seq<Op>, n: nat)
    requires lines > 0 && n < |h|
    ensures InsertsUncached(lines, assoc, h, n + 1) <==>
              InsertsUncached(lines, assoc, h, n) && (h[n].Insert? ==> !Cached(lines, assoc, h, n, h[n].key))
  {}

  lemma {:induction false} AllowedMore(lines: nat, assoc: nat, h: seq<Op>, n: nat)
    requires lines > 0 && n < |h|
    ensures AllowedRun(lines, assoc, h[..n + 1]) <==>
              && AllowedRun(lines, assoc, h[..n])
              && (h[n].Insert? ==> !HasKey(Run(lines, assoc, h[..n])[h[n].key % lines], h[n].key))
  {
    assert h[..n + 1][..n] == h[..n];
  }

  /** On a list: a key goes only when it is first in a full line that another key is put into. */
  lemma LineKeeps(v: seq<Pair>, assoc: nat, op: Op, k: nat)
    requires assoc > 0 && UniqueKeys(v) && HasKey(v, k) && (op.Insert? ==> !HasKey(v, op.key))
    ensures HasKey(LineStep(v, assoc, op), k) <==> !(op.Insert? && |v| == assoc && v[0].key == k)
  {
    var i := IndexOf(v, op.key);
    if op.Insert? {
      PutKeys(v, assoc, op.key, op.val);
    } else if i < |v| {
      TouchedKeys(v, i, if op.Get? then v[i].val else op.val);
    }
  }

  lemma FirstIsLeast(v: seq<Pair>, used: nat -> nat, k: nat)
    requires InOrder(v, used) && HasKey(v, k)
    ensures v[0].key == k <==> forall i :: 0 <= i < |v| ==> used(k) <= used(v[i].key)
  {}

  /** The operation is an insert into the full line v, in which k was used least recently. */
  ghost predicate Evicts(lines: nat, assoc: nat, op: Op, k: nat, v: seq<Pair>, used: nat -> nat)
    requires lines > 0
  {
    && op.Insert? && op.key % lines == k % lines && |v| == assoc
    && forall i :: 0 <= i < |v| ==> used(k) <= used(v[i].key)
  }

  lemma RankedKeeps(lines: nat, assoc: nat, l: nat, v: seq<Pair>, used: nat -> nat, op: Op, k: nat)
    requires lines > 0 && assoc > 0 && Ranked(lines, assoc, l, v, used) && HasKey(v, k) && k % lines == l
    requires op.Insert? && op.key % lines == l ==> !HasKey(v, op.key)
    ensures HasKey(if op.key % lines == l then LineStep(v, assoc, op) else v, k) <==>
            !Evicts(lines, assoc, op, k, v, used)
  {
    FirstIsLeast(v, used, k);
    DistinctKeys(v, used);
    if op.key % lines == l {
      LineKeeps(v, assoc, op, k);
    }
  }

  lemma RunNext(lines: nat, assoc: nat, h: seq<Op>, n: nat, l: nat, v: seq<Pair>)
    requires l < lines && n < |h| && v == Run(lines, assoc, h[..n])[l]
    ensures Run(lines, assoc, h[..n + 1])[l] == if h[n].key % lines == l then LineStep(v, assoc, h[n]) else v
  {
    assert h[..n + 1][..n] == h[..n];
  }

  /** A cached key leaves its line only by an insert into the full line in which it was used least recently. */
  lemma {:induction false} StaysCached(lines: nat, assoc: nat, h: seq<Op>, n: nat, k: nat, v: seq<Pair>)
    requires lines > 0 && assoc > 0 && n < |h| && InsertsUncached(lines, assoc, h, n + 1)
    requires Cached(lines, assoc, h, n, k)
    requires v == Run(lines, assoc, h[..n])[k % lines]
    ensures Cached(lines, assoc, h, n + 1, k) <==> !Evicts(lines, assoc, h[n], k, v, UsedBy(lines, assoc, h, n))
  {
    var l := k % lines;
    RunIsRanked(lines, assoc, h, n, l);
    CachedExactly(lines, assoc, h, n, k);
    CachedExactly(lines, assoc, h, n + 1, k);
    RunNext(lines, assoc, h, n, l, v);
    CachedExactly(lines, assoc, h, n, h[n].key);
    RankedKeeps(lines, assoc, l, v, UsedBy(lines, assoc, h, n), h[n], k);
  }
}
