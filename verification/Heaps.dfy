/**
 Binary heaps laid out in a sequence, least key at the root. The sifting loops of the
 cache line and of the k-th largest search are both specified by the functions here.
 */
module Heaps {

  function Parent(i: nat): (p: nat)
    requires i > 0
    ensures i == 2 * p + 1 || i == 2 * p + 2
  {
    (i + 1) / 2 - 1
  }

  function Swap<T>(s: seq<T>, i: nat, j: nat): (r: seq<T>)
    requires i < |s| && j < |s|
    ensures |r| == |s|
  {
    s[i := s[j]][j := s[i]]
  }

  lemma SwapKeeps<T>(s: seq<T>, i: nat, j: nat)
    requires i < |s| && j < |s|
    ensures multiset(Swap(s, i, j)) == multiset(s)
  {}

  ghost predicate Ordered<T>(s: seq<T>, key: T -> int)
  {
    forall p, i {:trigger s[p], s[i]} :: 0 < i < |s| && p == Parent(i) ==> key(s[p]) <= key(s[i])
  }

  /** Ordered except that c may be below its parent. */
  ghost predicate OrderedAbove<T>(s: seq<T>, key: T -> int, c: nat)
    requires c < |s|
  {
    && (forall p, i {:trigger s[p], s[i]} :: 0 < i < |s| && p == Parent(i) && i != c ==> key(s[p]) <= key(s[i]))
    && (c > 0 ==> forall i {:trigger s[i]} :: 0 < i < |s| && Parent(i) == c ==> key(s[Parent(c)]) <= key(s[i]))
  }

  /** Ordered except that c may be above its children. */
  ghost predicate OrderedBelow<T>(s: seq<T>, key: T -> int, c: nat)
  {
    && (forall p, i {:trigger s[p], s[i]} :: 0 < i < |s| && p == Parent(i) && p != c ==> key(s[p]) <= key(s[i]))
    && (c > 0 ==> forall i {:trigger s[i]} :: 0 < i < |s| && Parent(i) == c ==> key(s[Parent(c)]) <= key(s[i]))
  }

  // ---------- Sifting up ----------

  function SiftUp<T>(s: seq<T>, key: T -> int, c: nat): (r: seq<T>)
    requires c < |s|
    ensures |r| == |s|
    decreases c
  {
    if c != 0 && key(s[c]) < key(s[Parent(c)]) then SiftUp(Swap(s, c, Parent(c)), key, Parent(c)) else s
  }

  lemma {:induction false} SiftUpOrders<T>(s: seq<T>, key: T -> int, c: nat)
    requires c < |s| && OrderedAbove(s, key, c)
    ensures Ordered(SiftUp(s, key, c), key) && multiset(SiftUp(s, key, c)) == multiset(s)
    decreases c
  {
    if c != 0 && key(s[c]) < key(s[Parent(c)]) {
      SwapKeeps(s, c, Parent(c));
      SiftUpOrders(Swap(s, c, Parent(c)), key, Parent(c));
    }
  }

  // ---------- Sifting down ----------

  function Left(c: nat): nat { c * 2 + 1 }

  /** The least of c and its children, as the two successive comparisons find it. */
  function Least<T>(s: seq<T>, key: T -> int, c: nat): (m: nat)
    ensures m == c || (c < m < |s| && Parent(m) == c && key(s[m]) < key(s[c]))
  {
    var l := Left(c);
    var m := if l < |s| && key(s[l]) < key(s[c]) then l else c;
    if l + 1 < |s| && key(s[l + 1]) < key(s[m]) then l + 1 else m
  }

  lemma LeastIsLeast<T>(s: seq<T>, key: T -> int, c: nat, i: nat)
    requires 0 < i < |s| && Parent(i) == c
    ensures Least(s, key, c) < |s| && key(s[Least(s, key, c)]) <= key(s[i])
  {
    assert i == Left(c) || i == Left(c) + 1;
  }

  function SiftDown<T>(s: seq<T>, key: T -> int, c: nat): (r: seq<T>)
    ensures |r| == |s|
    decreases |s| - c
  {
    var m := Least(s, key, c);
    if m != c then SiftDown(Swap(s, c, m), key, m) else s
  }

  lemma SwapDown<T>(s: seq<T>, key: T -> int, c: nat)
    requires OrderedBelow(s, key, c) && Least(s, key, c) != c
    ensures OrderedBelow(Swap(s, c, Least(s, key, c)), key, Least(s, key, c))
  {
    var m := Least(s, key, c);
    var t := Swap(s, c, m);
    forall i {:trigger t[i]} | 0 < i < |t|
      ensures Parent(i) != m ==> key(t[Parent(i)]) <= key(t[i])
      ensures Parent(i) == m ==> key(t[Parent(m)]) <= key(t[i])
    {
      assert s[i] == s[i] && s[m] == s[m] && s[c] == s[c];
      if Parent(i) == c {
        LeastIsLeast(s, key, c, i);
      }
    }
  }

  lemma {:induction false} SiftDownOrders<T>(s: seq<T>, key: T -> int, c: nat)
    requires OrderedBelow(s, key, c)
    ensures Ordered(SiftDown(s, key, c), key) && multiset(SiftDown(s, key, c)) == multiset(s)
    decreases |s| - c
  {
    var m := Least(s, key, c);
    if m != c {
      SwapDown(s, key, c);
      SwapKeeps(s, c, m);
      SiftDownOrders(Swap(s, c, m), key, m);
    } else {
      forall i {:trigger s[i]} | 0 < i < |s| && Parent(i) == c
        ensures key(s[c]) <= key(s[i])
      {
        LeastIsLeast(s, key, c, i);
      }
    }
  }

  // ---------- What the operations rely on ----------

  lemma {:induction false} RootIsLeast<T>(s: seq<T>, key: T -> int, i: nat)
    requires Ordered(s, key) && i < |s|
    ensures key(s[0]) <= key(s[i])
  {
    if i > 0 {
      RootIsLeast(s, key, Parent(i));
    }
  }

  /** Appending at the end and sifting up. */
  function Push<T>(s: seq<T>, key: T -> int, x: T): (r: seq<T>)
    ensures |r| == |s| + 1
  {
    SiftUp(s + [x], key, |s|)
  }

  lemma PushOrders<T>(s: seq<T>, key: T -> int, x: T)
    requires Ordered(s, key)
    ensures Ordered(Push(s, key, x), key) && multiset(Push(s, key, x)) == multiset(s) + multiset{x}
  {
    var t := s + [x];
    assert OrderedAbove(t, key, |s|) by {
      forall i {:trigger t[i]} | 0 < i < |t| && i != |s|
        ensures key(t[Parent(i)]) <= key(t[i]) && Parent(i) != |s|
      {
        assert t[i] == s[i] && t[Parent(i)] == s[Parent(i)];
      }
    }
    SiftUpOrders(t, key, |s|);
  }

  /** Moving the last element to the root and sifting it down. */
  function Pop<T>(s: seq<T>, key: T -> int): (r: seq<T>)
    requires s != []
    ensures |r| == |s| - 1
  {
    SiftDown(Swap(s, 0, |s| - 1)[..|s| - 1], key, 0)
  }

  lemma PopOrders<T>(s: seq<T>, key: T -> int)
    requires s != [] && Ordered(s, key)
    ensures Ordered(Pop(s, key), key) && multiset(s) == multiset{s[0]} + multiset(Pop(s, key))
  {
    var n := |s| - 1;
    var t := Swap(s, 0, n);
    assert OrderedBelow(t[..n], key, 0) by {
      forall i {:trigger t[..n][i]} | 0 < i < n && Parent(i) != 0
        ensures key(t[..n][Parent(i)]) <= key(t[..n][i])
      {
        assert t[i] == s[i] && t[Parent(i)] == s[Parent(i)];
      }
    }
    SwapKeeps(s, 0, n);
    assert t == t[..n] + [s[0]];
    SiftDownOrders(t[..n], key, 0);
  }

  /** Replacing one element by one with a key at least as large, and sifting it down. */
  lemma RaiseOrders<T>(s: seq<T>, key: T -> int, c: nat, x: T)
    requires c < |s| && Ordered(s, key) && key(s[c]) <= key(x)
    ensures Ordered(SiftDown(s[c := x], key, c), key) && multiset(SiftDown(s[c := x], key, c)) == multiset(s[c := x])
  {
    var t := s[c := x];
    assert OrderedBelow(t, key, c) by {
      forall i {:trigger t[i]} | 0 < i < |t|
        ensures Parent(i) != c ==> key(t[Parent(i)]) <= key(t[i])
        ensures c > 0 && Parent(i) == c ==> key(t[Parent(c)]) <= key(t[i])
      {
        assert s[i] == s[i] && s[c] == s[c];
      }
    }
    SiftDownOrders(t, key, c);
  }
}
