/** Floyd's two pointers: where a list enters its cycle, and from that where two lists merge. */
module LoopFinder {
  import opened Sequences

  class ListNode {
    const data: int
    var next: ListNode?
  }

  // ---------- The positions visited along a lasso of n nodes whose end leads back to mu ----------

  function Pos(n: nat, mu: nat, steps: nat): (p: nat)
    requires mu < n
    ensures p < n
  {
    if steps == 0 then 0
    else
      var p := Pos(n, mu, steps - 1);
      if p + 1 == n then mu else p + 1
  }

  lemma {:induction false} PosStraight(n: nat, mu: nat, i: nat)
    requires mu < n
    ensures i < n ==> Pos(n, mu, i) == i
    ensures i >= mu ==> Pos(n, mu, i) >= mu
  {
    if i > 0 {
      PosStraight(n, mu, i - 1);
    }
  }

  /** From equal positions, equally many steps lead to equal positions. */
  lemma {:induction false} PosSame(n: nat, mu: nat, i: nat, j: nat, d: nat)
    requires mu < n && Pos(n, mu, i) == Pos(n, mu, j)
    ensures Pos(n, mu, i + d) == Pos(n, mu, j + d)
  {
    if d > 0 {
      PosSame(n, mu, i, j, d - 1);
    }
  }

  lemma PosPeriod(n: nat, mu: nat, i: nat)
    requires mu < n && mu <= i
    ensures Pos(n, mu, i + (n - mu)) == Pos(n, mu, i)
  {
    PosStraight(n, mu, mu);
    PosStraight(n, mu, n - 1);
    assert Pos(n, mu, n) == mu;
    PosSame(n, mu, n, mu, i - mu);
  }

  /** The two pointers meet within n steps. */
  lemma PosMeet(n: nat, mu: nat) returns (k: nat)
    requires mu < n
    ensures 1 <= k <= n && Pos(n, mu, k) == Pos(n, mu, 2 * k)
  {
    k := n - mu;
    PosPeriod(n, mu, mu);
    while k < mu
      invariant 1 <= k <= n && (k == n - mu || k < n)
      invariant Pos(n, mu, mu + k) == Pos(n, mu, mu)
    {
      PosPeriod(n, mu, mu + k);
      assert mu + k + (n - mu) == mu + (k + (n - mu));
      k := k + (n - mu);
    }
    PosSame(n, mu, mu + k, mu, k - mu);
  }

  /** Wherever they meet, the entry of the cycle is a whole number of rounds away from itself. */
  lemma PosReturns(n: nat, mu: nat, t: nat)
    requires mu < n && 1 <= t && Pos(n, mu, t) == Pos(n, mu, 2 * t)
    ensures mu <= t && Pos(n, mu, 2 * t + mu) == mu
  {
    PosStraight(n, mu, t);
    PosStraight(n, mu, 2 * t);
    PosStraight(n, mu, mu);
    var j := mu;
    while j < t
      invariant j >= mu && Pos(n, mu, j) == mu
    {
      PosPeriod(n, mu, j);
      j := j + (n - mu);
    }
    PosSame(n, mu, 2 * t, t, j - t);
    assert Pos(n, mu, j + t) == Pos(n, mu, j);
    PosSame(n, mu, j, mu, t);
    PosSame(n, mu, mu + t, mu, t);
    assert mu + t + t == 2 * t + mu;
  }

  // ---------- Lists that lead into a cycle ----------

  ghost predicate Linked(s: seq<ListNode>)
    reads s
  {
    forall i :: 0 <= i < |s| - 1 ==> s[i].next == s[i + 1]
  }

  /** s lists the nodes from its first one on, and the last of them leads back to s[mu]. */
  ghost predicate Lasso(s: seq<ListNode>, mu: nat)
    reads s
  {
    mu < |s| && NoDup(s) && Linked(s) && s[|s| - 1].next == s[mu]
  }

  lemma Next(s: seq<ListNode>, mu: nat, i: nat)
    requires Lasso(s, mu)
    ensures s[Pos(|s|, mu, i)].next == s[Pos(|s|, mu, i + 1)]
  {}

  /** The node at which the two pointers meet, t steps for one and 2t for the other. */
  method Meet(head: ListNode, ghost s: seq<ListNode>, ghost mu: nat) returns (fast: ListNode, ghost t: nat)
    requires Lasso(s, mu) && head == s[0]
    ensures 1 <= t && fast == s[Pos(|s|, mu, 2 * t)] && Pos(|s|, mu, t) == Pos(|s|, mu, 2 * t)
  {
    t := 1;
    ghost var k := PosMeet(|s|, mu);
    Next(s, mu, 0);
    Next(s, mu, 1);
    var slow := head.next;
    fast := head.next.next;
    while slow != fast
      invariant 1 <= t <= k && slow == s[Pos(|s|, mu, t)] && fast == s[Pos(|s|, mu, 2 * t)]
      decreases k - t
    {
      Next(s, mu, t);
      Next(s, mu, 2 * t);
      Next(s, mu, 2 * t + 1);
      slow := slow.next;
      fast := fast.next.next;
      t := t + 1;
    }
  }

  /** On the way of the second phase, the nodes are the same only at the entry. */
  lemma SameOnlyAtEntry(s: seq<ListNode>, mu: nat, t: nat, j: nat)
    requires Lasso(s, mu) && mu <= t && j <= mu && s[Pos(|s|, mu, j)] == s[Pos(|s|, mu, 2 * t + j)]
    ensures Pos(|s|, mu, j) == mu
  {
    PosStraight(|s|, mu, j);
    PosStraight(|s|, mu, 2 * t + j);
  }

  method FindLoopStart(head: ListNode, ghost s: seq<ListNode>, ghost mu: nat) returns (start: ListNode)
    requires Lasso(s, mu) && head == s[0]
    ensures start == s[mu]
  {
    var fast, t := Meet(head, s, mu);
    PosReturns(|s|, mu, t);
    PosStraight(|s|, mu, mu);
    var slow := head;
    ghost var j := 0;
    while slow != fast
      invariant 0 <= j <= mu && slow == s[Pos(|s|, mu, j)] && fast == s[Pos(|s|, mu, 2 * t + j)]
      decreases mu - j
    {
      Next(s, mu, j);
      Next(s, mu, 2 * t + j);
      slow := slow.next;
      fast := fast.next;
      j := j + 1;
    }
    SameOnlyAtEntry(s, mu, t, j);
    start := slow;
  }

  /** Every list without an end, over finitely many nodes, leads into a cycle. */
  lemma EndlessIsLasso(head: ListNode, nodes: set<ListNode>) returns (s: seq<ListNode>, mu: nat)
    requires head in nodes && forall x :: x in nodes ==> x.next != null && x.next in nodes
    ensures Lasso(s, mu) && s[0] == head
  {
    s := [head];
    ghost var unseen := nodes - {head};
    while s[|s| - 1].next in unseen
      invariant |s| > 0 && s[0] == head && NoDup(s) && Linked(s)
      invariant forall x :: x in nodes <==> x in unseen || x in s
      invariant forall x :: x in s ==> x !in unseen
      decreases unseen
    {
      var x := s[|s| - 1].next;
      unseen := unseen - {x};
      s := s + [x];
    }
    assert s[|s| - 1] in s;
    mu :| 0 <= mu < |s| && s[mu] == s[|s| - 1].next;
  }

  /** a ends in null; b, which may be empty, leads into a[m]. */
  ghost predicate Merge(a: seq<ListNode>, b: seq<ListNode>, m: nat)
    reads a, b
  {
    && m < |a| && NoDup(a) && NoDup(b) && (forall x :: x in b ==> x !in a) && Linked(a) && Linked(b)
    && a[|a| - 1].next == null && (b != [] ==> b[|b| - 1].next == a[m])
  }

  lemma OnlyEnd(a: seq<ListNode>, i: nat)
    requires i < |a| && Linked(a) && a[|a| - 1].next == null
    ensures if i == |a| - 1 then a[i].next == null else a[i].next == a[i + 1]
  {}

  method FindLast(h1: ListNode, ghost a: seq<ListNode>) returns (last: ListNode)
    requires a != [] && Linked(a) && a[|a| - 1].next == null && h1 == a[0]
    ensures last == a[|a| - 1]
  {
    last := h1;
    ghost var i := 0;
    OnlyEnd(a, 0);
    while last.next != null
      invariant 0 <= i < |a| && last == a[i] && (last.next == null <==> i == |a| - 1)
      decreases |a| - i
    {
      OnlyEnd(a, i);
      last := last.next;
      i := i + 1;
      OnlyEnd(a, i);
    }
  }

  /** The first node that both lists have in common; the lists are left as they were. */
  method FindMergeSpot(h1: ListNode, h2: ListNode, ghost a: seq<ListNode>, ghost b: seq<ListNode>, ghost m: nat)
      returns (spot: ListNode)
    requires Merge(a, b, m) && h1 == a[0] && h2 == (if b == [] then a[m] else b[0])
    modifies a
    ensures spot == a[m]
    ensures Merge(a, b, m)
    ensures forall x :: x in a + b ==> x.next == old(x.next)
  {
    var last := FindLast(h1, a);
    last.next := h1;
    ghost var s := b + a[m..] + a[..m];
    assert Lasso(s, |b|) by {
      LassoOfMerge(a, b, m);
    }
    spot := FindLoopStart(h2, s, |b|);
    last.next := null;
  }

  lemma LassoOfMerge(a: seq<ListNode>, b: seq<ListNode>, m: nat)
    requires m < |a| && NoDup(a) && NoDup(b) && (forall x :: x in b ==> x !in a) && Linked(a) && Linked(b)
    requires a[|a| - 1].next == a[0] && (b != [] ==> b[|b| - 1].next == a[m])
    ensures Lasso(b + a[m..] + a[..m], |b|)
  {
    var s := b + a[m..] + a[..m];
    var k := |b| + |a| - m;
    assert forall i :: 0 <= i < |s| ==>
      s[i] == if i < |b| then b[i] else if i < k then a[i - |b| + m] else a[i - k];
    assert forall i, j :: 0 <= i < |b| && 0 <= j < |a| ==> b[i] != a[j] by {
      assert forall i :: 0 <= i < |b| ==> b[i] in b;
    }
  }
}
