/** The k-th largest element of a max-heap, by a second heap over the frontier of what was taken. */
module KthLargest {
  import opened Wrappers
  import opened Heaps
  import opened Multisets

  datatype HeapNode = HeapNode(origI: nat, val: int)

  /** The auxiliary heap keeps the largest value at its root. */
  function Rank(n: HeapNode): int { -n.val }

  function Value(x: int): int { -x }

  ghost predicate MaxHeap(h: seq<int>) { Ordered(h, Value) }

  // ---------- The in-place heap operations ----------

  /** Two of the first n nodes change places, and the others stay. */
  method SwapNodes(heap: array<HeapNode>, i: nat, j: nat, ghost n: nat)
    requires i < n && j < n && n <= heap.Length
    modifies heap
    ensures heap[..n] == Swap(old(heap[..n]), i, j) && heap[n..] == old(heap[n..])
  {
    heap[i], heap[j] := heap[j], heap[i];
  }

  method MaxHeapInsert(heap: array<HeapNode>, heapSz: nat, val: int, idx: nat)
    requires heapSz < heap.Length
    modifies heap
    ensures heap[..heapSz + 1] == Push(old(heap[..heapSz]), Rank, HeapNode(idx, val))
  {
    heap[heapSz] := HeapNode(idx, val);
    ghost var s := heap[..heapSz + 1];
    assert s == old(heap[..heapSz]) + [HeapNode(idx, val)];
    var i: nat := heapSz;
    while i != 0 && heap[i].val > heap[Parent(i)].val
      invariant i <= heapSz && SiftUp(heap[..heapSz + 1], Rank, i) == SiftUp(s, Rank, heapSz)
    {
      SwapNodes(heap, i, Parent(i), heapSz + 1);
      i := Parent(i);
    }
  }

  /** The larger of c and its children among the first n. */
  method Largest(heap: array<HeapNode>, n: nat, c: nat) returns (largest: nat)
    requires n <= heap.Length
    ensures largest == Least(heap[..n], Rank, c)
  {
    var left := c * 2 + 1;
    var right := left + 1;
    largest := c;
    if left < n && heap[left].val > heap[largest].val {
      largest := left;
    }
    if right < n && heap[right].val > heap[largest].val {
      largest := right;
    }
  }

  method MaxHeapExtract(heap: array<HeapNode>, heapSz: nat) returns (val: int, idx: nat)
    requires 0 < heapSz <= heap.Length
    modifies heap
    ensures HeapNode(idx, val) == old(heap[0])
    ensures heap[..heapSz - 1] == Pop(old(heap[..heapSz]), Rank)
  {
    val, idx := heap[0].val, heap[0].origI;
    ghost var s := heap[..heapSz];
    if heapSz == 1 {
      return;
    }
    SwapNodes(heap, 0, heapSz - 1, heapSz);
    var n := heapSz - 1;
    ghost var t := Swap(s, 0, n)[..n];
    assert heap[..n] == t;
    var curr: nat := 0;
    var largest := Largest(heap, n, curr);
    while largest != curr
      invariant largest == Least(heap[..n], Rank, curr)
      invariant SiftDown(heap[..n], Rank, curr) == SiftDown(t, Rank, 0)
      decreases n - curr
    {
      SwapNodes(heap, curr, largest, n);
      curr := largest;
      largest := Largest(heap, n, curr);
    }
  }

  // ---------- What was taken, and the frontier of the rest ----------

  /** Not taken, while its parent was. */
  ghost predicate InFrontier(taken: set<nat>, j: nat)
  {
    j !in taken && (j == 0 || Parent(j) in taken)
  }

  ghost predicate IsFrontierNode(h: seq<int>, taken: set<nat>, n: HeapNode)
  {
    n.origI < |h| && n.val == h[n.origI] && InFrontier(taken, n.origI)
  }

  /** m holds each node of the frontier once, and nothing else. */
  ghost predicate IsFrontier(h: seq<int>, taken: set<nat>, m: multiset<HeapNode>)
  {
    forall n: HeapNode {:trigger m[n]} :: m[n] == if IsFrontierNode(h, taken, n) then 1 else 0
  }

  /** Everything that was not taken lies below the frontier. */
  lemma {:induction false} FrontierCovers(h: seq<int>, taken: set<nat>, j: nat) returns (f: nat)
    requires MaxHeap(h) && j < |h| && j !in taken
    ensures f < |h| && IsFrontierNode(h, taken, HeapNode(f, h[f])) && h[j] <= h[f]
  {
    if j == 0 || Parent(j) in taken {
      f := j;
    } else {
      assert Value(h[Parent(j)]) <= Value(h[j]);
      f := FrontierCovers(h, taken, Parent(j));
    }
  }

  ghost function OneNode(h: seq<int>, j: nat): multiset<HeapNode>
  {
    if j < |h| then multiset{HeapNode(j, h[j])} else multiset{}
  }

  /** Taking a node replaces it in the frontier by its children. */
  lemma FrontierStep(h: seq<int>, taken: set<nat>, n: HeapNode, m: multiset<HeapNode>)
    requires IsFrontier(h, taken, multiset{n} + m) && IsFrontierNode(h, taken, n)
    requires Left(n.origI) !in taken && Left(n.origI) + 1 !in taken
    ensures IsFrontier(h, taken + {n.origI}, m + OneNode(h, Left(n.origI)) + OneNode(h, Left(n.origI) + 1))
  {
    var i := n.origI;
    var taken', m' := taken + {i}, m + OneNode(h, Left(i)) + OneNode(h, Left(i) + 1);
    forall x: HeapNode
      ensures m'[x] == if IsFrontierNode(h, taken', x) then 1 else 0
    {
      assert (multiset{n} + m)[x] == if IsFrontierNode(h, taken, x) then 1 else 0;
      assert x.origI > 0 && Parent(x.origI) == i <==> x.origI == Left(i) || x.origI == Left(i) + 1;
    }
  }

  /** The values at positions below n that were not taken. */
  ghost function Remaining(h: seq<int>, taken: set<nat>, n: nat): multiset<int>
    requires n <= |h|
  {
    if n == 0 then multiset{}
    else if n - 1 in taken then Remaining(h, taken, n - 1)
    else Remaining(h, taken, n - 1) + multiset{h[n - 1]}
  }

  lemma {:induction false} RemainingAll(h: seq<int>, n: nat)
    requires n <= |h|
    ensures Remaining(h, {}, n) == multiset(h[..n])
  {
    if n > 0 {
      RemainingAll(h, n - 1);
      RemainingAdds(h, {}, n);
      OneMore(h, n - 1);
    }
  }

  lemma {:induction false} RemainingBelow(h: seq<int>, taken: set<nat>, i: nat, n: nat)
    requires n <= i < |h|
    ensures Remaining(h, taken, n) == Remaining(h, taken + {i}, n)
  {
    if n > 0 {
      RemainingBelow(h, taken, i, n - 1);
    }
  }

  lemma {:induction false} RemainingAdds(h: seq<int>, taken: set<nat>, n: nat)
    requires 0 < n <= |h| && n - 1 !in taken
    ensures Remaining(h, taken, n) == Remaining(h, taken, n - 1) + multiset{h[n - 1]}
  {}

  lemma {:induction false} AddsAfter(h: seq<int>, taken: set<nat>, i: nat, n: nat)
    requires i < n - 1 < |h| && n - 1 !in taken
    requires Remaining(h, taken, n - 1) == Remaining(h, taken + {i}, n - 1) + multiset{h[i]}
    ensures Remaining(h, taken, n) == Remaining(h, taken + {i}, n) + multiset{h[i]}
  {
    RemainingAdds(h, taken, n);
    RemainingAdds(h, taken + {i}, n);
    Exchange(Remaining(h, taken + {i}, n - 1), multiset{h[i]}, multiset{h[n - 1]});
  }

  lemma {:induction false} RemainingStep(h: seq<int>, taken: set<nat>, i: nat, n: nat)
    requires i < n <= |h| && i !in taken
    ensures Remaining(h, taken, n) == Remaining(h, taken + {i}, n) + multiset{h[i]}
  {
    if i == n - 1 {
      RemainingBelow(h, taken, i, n - 1);
    } else {
      RemainingStep(h, taken, i, n - 1);
      if n - 1 !in taken {
        AddsAfter(h, taken, i, n);
      }
    }
  }

  lemma {:induction false} RemainingWitness(h: seq<int>, taken: set<nat>, n: nat, x: int) returns (j: nat)
    requires n <= |h| && x in Remaining(h, taken, n)
    ensures j < n && j !in taken && h[j] == x
  {
    if n - 1 !in taken && h[n - 1] == x {
      j := n - 1;
    } else {
      j := RemainingWitness(h, taken, n - 1, x);
    }
  }

  // ---------- Rank ----------

  ghost predicate Descending(d: seq<int>)
  {
    forall i, j :: 0 <= i < j < |d| ==> d[i] >= d[j]
  }

  /** If every value in front is at least every value of the rest, the front is how any descending order starts. */
  lemma {:induction false} FrontOfDescending(d: seq<int>, front: seq<int>, rest: multiset<int>)
    requires Descending(d) && Descending(front) && multiset(d) == multiset(front) + rest
    requires forall x, y :: x in front && y in rest ==> x >= y
    ensures front <= d
  {
    if front != [] {
      SameFirst(d, front, rest);
      var x := multiset{d[0]};
      assert front == [d[0]] + front[1..] && d == [d[0]] + d[1..];
      Assoc(x, multiset(front[1..]), rest);
      Cancel(x, multiset(d[1..]), multiset(front[1..]) + rest);
      assert forall y :: y in front[1..] ==> y in front;
      FrontOfDescending(d[1..], front[1..], rest);
    }
  }

  lemma SameFirst(d: seq<int>, front: seq<int>, rest: multiset<int>)
    requires Descending(d) && Descending(front) && multiset(d) == multiset(front) + rest && front != []
    requires forall x, y :: x in front && y in rest ==> x >= y
    ensures d != [] && d[0] == front[0]
  {
    assert front[0] in multiset(d);
    assert d[0] in multiset(front) + rest;
    assert forall x :: x in multiset(front) ==> x in front;
    assert forall x :: x in multiset(d) ==> x in d;
  }

  /** r is the element of rank k of h in descending order, or None when there is none. */
  ghost predicate IsKth(h: seq<int>, k: nat, r: Option<int>)
  {
    forall d :: Descending(d) && multiset(d) == multiset(h) ==>
      r == if 0 < k <= |d| then Some(d[k - 1]) else None
  }

  /** The auxiliary heap holds the frontier. */
  ghost predicate HoldsFrontier(h: seq<int>, aux: seq<HeapNode>, taken: set<nat>)
  {
    && MaxHeap(h) && Ordered(aux, Rank) && IsFrontier(h, taken, multiset(aux))
    && (forall j :: j in taken ==> j < |h| && (j > 0 ==> Parent(j) in taken))
  }

  /** What was taken is the front of the descending order. */
  ghost predicate IsFront(h: seq<int>, taken: set<nat>, front: seq<int>)
  {
    && Descending(front) && multiset(h) == multiset(front) + Remaining(h, taken, |h|)
    && (forall x, y :: x in front && y in Remaining(h, taken, |h|) ==> x >= y)
  }

  ghost predicate Inv(h: seq<int>, aux: seq<HeapNode>, taken: set<nat>, front: seq<int>)
  {
    HoldsFrontier(h, aux, taken) && IsFront(h, taken, front)
  }

  lemma Initially(h: seq<int>)
    requires MaxHeap(h) && h != []
    ensures Inv(h, [HeapNode(0, h[0])], {}, [])
  {
    RemainingAll(h, |h|);
    assert h[..|h|] == h;
  }

  /** The root of the auxiliary heap is the largest value not taken. */
  lemma RootIsNext(h: seq<int>, aux: seq<HeapNode>, taken: set<nat>, front: seq<int>)
    requires Inv(h, aux, taken, front) && aux != []
    ensures IsFrontierNode(h, taken, aux[0])
    ensures forall y :: y in Remaining(h, taken, |h|) ==> y <= aux[0].val
  {
    assert multiset(aux)[aux[0]] > 0;
    forall y | y in Remaining(h, taken, |h|)
      ensures y <= aux[0].val
    {
      var j := RemainingWitness(h, taken, |h|, y);
      var f := FrontierCovers(h, taken, j);
      assert multiset(aux)[HeapNode(f, h[f])] == 1;
      var i :| 0 <= i < |aux| && aux[i] == HeapNode(f, h[f]);
      RootIsLeast(aux, Rank, i);
    }
  }

  /** The multiset of the new auxiliary heap, from that of the old one without its root. */
  lemma NextIsFrontier(h: seq<int>, taken: set<nat>, before: multiset<HeapNode>, n: HeapNode,
                       popped: multiset<HeapNode>, next: multiset<HeapNode>)
    requires IsFrontier(h, taken, before) && before == multiset{n} + popped && IsFrontierNode(h, taken, n)
    requires forall j :: j in taken && j > 0 ==> Parent(j) in taken
    requires next == popped + OneNode(h, Left(n.origI)) + OneNode(h, Left(n.origI) + 1)
    ensures IsFrontier(h, taken + {n.origI}, next)
  {
    assert Parent(Left(n.origI)) == n.origI == Parent(Left(n.origI) + 1);
    FrontierStep(h, taken, n, popped);
  }

  /** The auxiliary heap after its root was taken and the root's children were added. */
  ghost predicate Replaced(h: seq<int>, aux: seq<HeapNode>, popped: multiset<HeapNode>, next: seq<HeapNode>)
    requires aux != []
  {
    && Ordered(next, Rank) && multiset(aux) == multiset{aux[0]} + popped
    && multiset(next) == popped + OneNode(h, Left(aux[0].origI)) + OneNode(h, Left(aux[0].origI) + 1)
  }

  lemma BothAdded(h: seq<int>, aux: seq<HeapNode>, popped: multiset<HeapNode>, next: seq<HeapNode>, left: nat)
    requires aux != [] && Ordered(next, Rank) && multiset(aux) == multiset{aux[0]} + popped
    requires left == Left(aux[0].origI) && multiset(next) == popped + OneNode(h, left) + OneNode(h, left + 1)
    ensures Replaced(h, aux, popped, next)
  {}

  lemma TakeRoot(h: seq<int>, aux: seq<HeapNode>, taken: set<nat>, front: seq<int>, popped: multiset<HeapNode>,
                 next: seq<HeapNode>)
    requires Inv(h, aux, taken, front) && aux != [] && Replaced(h, aux, popped, next)
    ensures Inv(h, next, taken + {aux[0].origI}, front + [aux[0].val])
  {
    RootIsNext(h, aux, taken, front);
    NextIsFrontier(h, taken, multiset(aux), aux[0], popped, multiset(next));
    FrontGrows(h, taken, front, aux[0].origI);
  }

  lemma FrontGrows(h: seq<int>, taken: set<nat>, front: seq<int>, i: nat)
    requires IsFront(h, taken, front)
    requires i < |h| && i !in taken && forall y :: y in Remaining(h, taken, |h|) ==> y <= h[i]
    ensures IsFront(h, taken + {i}, front + [h[i]])
  {
    RemainingStep(h, taken, i, |h|);
    var rest := Remaining(h, taken + {i}, |h|);
    assert h[i] in Remaining(h, taken, |h|);
    assert forall y :: y in rest ==> y in Remaining(h, taken, |h|);
    assert multiset(front + [h[i]]) == multiset(front) + multiset{h[i]};
    assert multiset(front) + (rest + multiset{h[i]}) == (multiset(front) + multiset{h[i]}) + rest;
    assert forall j :: 0 <= j < |front| ==> front[j] in front;
  }

  lemma EmptyMeansAllTaken(h: seq<int>, aux: seq<HeapNode>, taken: set<nat>, front: seq<int>)
    requires Inv(h, aux, taken, front) && aux == []
    ensures Remaining(h, taken, |h|) == multiset{}
  {
    if x :| x in Remaining(h, taken, |h|) {
      var j := RemainingWitness(h, taken, |h|, x);
      var f := FrontierCovers(h, taken, j);
      var count := multiset(aux)[HeapNode(f, h[f])];
    }
  }

  lemma NoneRemain(h: seq<int>, aux: seq<HeapNode>, taken: set<nat>, front: seq<int>)
    requires Inv(h, aux, taken, front)
    ensures aux == [] <==> |front| == |h|
  {
    var rest := Remaining(h, taken, |h|);
    assert |h| == |multiset(h)| == |multiset(front) + rest| == |front| + |rest|;
    if aux == [] {
      EmptyMeansAllTaken(h, aux, taken, front);
    } else {
      RootIsNext(h, aux, taken, front);
      RemainingStep(h, taken, aux[0].origI, |h|);
      assert aux[0].val in rest;
    }
  }

  lemma Found(h: seq<int>, aux: seq<HeapNode>, taken: set<nat>, front: seq<int>)
    requires Inv(h, aux, taken, front) && aux != []
    ensures |front| < |h| && IsKth(h, |front| + 1, Some(aux[0].val))
  {
    NoneRemain(h, aux, taken, front);
    RootIsNext(h, aux, taken, front);
    FrontGrows(h, taken, front, aux[0].origI);
    var front' := front + [aux[0].val];
    assert |h| == |multiset(h)| >= |front'|;
    forall d | Descending(d) && multiset(d) == multiset(h)
      ensures |front'| <= |d| && d[|front|] == aux[0].val
    {
      FrontOfDescending(d, front', Remaining(h, taken + {aux[0].origI}, |h|));
    }
  }

  lemma TooFew(h: seq<int>, k: nat)
    requires |h| < k
    ensures IsKth(h, k, None)
  {
    forall d: seq<int> | multiset(d) == multiset(h)
      ensures |d| == |h|
    {
      assert |d| == |multiset(d)| == |multiset(h)| == |h|;
    }
  }

  /** The search stands after i - 1 elements were taken. */
  ghost predicate Taken(h: seq<int>, aux: seq<HeapNode>, i: nat)
  {
    exists taken, front :: Inv(h, aux, taken, front) && |front| + 1 == i
  }

  lemma TakenStep(h: seq<int>, aux: seq<HeapNode>, i: nat, popped: multiset<HeapNode>, next: seq<HeapNode>)
    requires Taken(h, aux, i) && aux != [] && Replaced(h, aux, popped, next)
    ensures Taken(h, next, i + 1)
  {
    var taken, front :| Inv(h, aux, taken, front) && |front| + 1 == i;
    TakeRoot(h, aux, taken, front, popped, next);
    assert |front + [aux[0].val]| + 1 == i + 1;
  }

  lemma TakenAnswer(h: seq<int>, aux: seq<HeapNode>, i: nat)
    requires Taken(h, aux, i)
    ensures aux == [] <==> |h| + 1 == i
    ensures aux != [] ==> IsKth(h, i, Some(aux[0].val)) && i <= |h|
  {
    var taken, front :| Inv(h, aux, taken, front) && |front| + 1 == i;
    NoneRemain(h, aux, taken, front);
    if aux != [] {
      Found(h, aux, taken, front);
    }
  }

  lemma TakenOrdered(h: seq<int>, aux: seq<HeapNode>, i: nat)
    requires Taken(h, aux, i)
    ensures Ordered(aux, Rank)
  {}

  /** Takes the root of the auxiliary heap. */
  method TakeTop(aux: array<HeapNode>, auxSz: nat, ghost a: seq<HeapNode>) returns (idx: nat)
    requires 0 < auxSz <= aux.Length && aux[..auxSz] == a && Ordered(a, Rank)
    modifies aux
    ensures idx == a[0].origI && Ordered(aux[..auxSz - 1], Rank)
    ensures multiset(a) == multiset{a[0]} + multiset(aux[..auxSz - 1])
  {
    PopOrders(a, Rank);
    var val;
    val, idx := MaxHeapExtract(aux, auxSz);
  }

  /** Adds the element at j, if there is one. */
  method AddChild(maxHeap: array<int>, aux: array<HeapNode>, auxSz: nat, j: nat,
                  ghost h: seq<int>, ghost m: multiset<HeapNode>)
      returns (auxSz': nat)
    requires auxSz < aux.Length && Ordered(aux[..auxSz], Rank) && maxHeap[..] == h && multiset(aux[..auxSz]) == m
    modifies aux
    ensures auxSz' <= auxSz + 1 && auxSz' <= aux.Length && Ordered(aux[..auxSz'], Rank)
    ensures multiset(aux[..auxSz']) == m + OneNode(h, j) && maxHeap[..] == h
  {
    auxSz' := auxSz;
    if j < maxHeap.Length {
      PushOrders(aux[..auxSz], Rank, HeapNode(j, maxHeap[j]));
      MaxHeapInsert(aux, auxSz, maxHeap[j], j);
      auxSz' := auxSz + 1;
    }
  }

  method AddChildren(maxHeap: array<int>, aux: array<HeapNode>, auxSz: nat, left: nat,
                     ghost h: seq<int>, ghost m: multiset<HeapNode>)
      returns (auxSz': nat)
    requires auxSz + 1 < aux.Length && Ordered(aux[..auxSz], Rank) && maxHeap[..] == h && multiset(aux[..auxSz]) == m
    modifies aux
    ensures auxSz' <= auxSz + 2 && auxSz' <= aux.Length && Ordered(aux[..auxSz'], Rank)
    ensures multiset(aux[..auxSz']) == m + OneNode(h, left) + OneNode(h, left + 1) && maxHeap[..] == h
  {
    var right := left + 1;
    auxSz' := AddChild(maxHeap, aux, auxSz, left, h, m);
    auxSz' := AddChild(maxHeap, aux, auxSz', right, h, m + OneNode(h, left));
  }

  /** Takes the root of the auxiliary heap and adds its children. */
  method TakeOne(maxHeap: array<int>, aux: array<HeapNode>, auxSz: nat, ghost h: seq<int>, ghost a: seq<HeapNode>)
      returns (auxSz': nat, ghost popped: multiset<HeapNode>)
    requires 0 < auxSz < aux.Length && aux[..auxSz] == a && Ordered(a, Rank) && maxHeap[..] == h
    modifies aux
    ensures auxSz' <= auxSz + 1 && maxHeap[..] == h
    ensures Replaced(h, a, popped, aux[..auxSz'])
  {
    var idx := TakeTop(aux, auxSz, a);
    popped := multiset(aux[..auxSz - 1]);
    var left := Left(idx);
    auxSz' := AddChildren(maxHeap, aux, auxSz - 1, left, h, popped);
    BothAdded(h, a, popped, aux[..auxSz'], left);
  }

  /** One round of the search. */
  method Round(maxHeap: array<int>, aux: array<HeapNode>, auxSz: nat, i: nat) returns (auxSz': nat)
    requires 0 < auxSz < aux.Length && Taken(maxHeap[..], aux[..auxSz], i)
    modifies aux
    ensures auxSz' <= auxSz + 1 && Taken(maxHeap[..], aux[..auxSz'], i + 1)
  {
    ghost var h, a := maxHeap[..], aux[..auxSz];
    TakenOrdered(h, a, i);
    ghost var popped;
    auxSz', popped := TakeOne(maxHeap, aux, auxSz, h, a);
    TakenStep(h, a, i, popped, aux[..auxSz']);
  }

  /** The element of rank k in descending order; None exactly when k exceeds the size of the heap. */
  method Find(maxHeap: array<int>, k: nat) returns (res: Option<int>)
    requires k >= 1 && MaxHeap(maxHeap[..])
    ensures IsKth(maxHeap[..], k, res)
    ensures res.None? <==> k > maxHeap.Length
  {
    if maxHeap.Length == 0 {
      TooFew(maxHeap[..], k);
      return None;
    }
    var aux := new HeapNode[k](_ => HeapNode(0, 0));
    var auxSz: nat := Start(maxHeap, aux);
    var i: nat := 1;
    while i < k
      invariant 1 <= i <= k && auxSz <= i && Taken(maxHeap[..], aux[..auxSz], i)
    {
      if auxSz == 0 {
        TakenAnswer(maxHeap[..], aux[..auxSz], i);
        TooFew(maxHeap[..], k);
        return None;
      }
      auxSz := Round(maxHeap, aux, auxSz, i);
      i := i + 1;
    }
    TakenAnswer(maxHeap[..], aux[..auxSz], i);
    if auxSz == 0 {
      TooFew(maxHeap[..], k);
      return None;
    }
    res := Some(aux[0].val);
  }

  method Start(maxHeap: array<int>, aux: array<HeapNode>) returns (auxSz: nat)
    requires MaxHeap(maxHeap[..]) && maxHeap.Length > 0 && aux.Length > 0
    modifies aux
    ensures auxSz == 1 && Taken(maxHeap[..], aux[..auxSz], 1)
  {
    assert aux[..0] == [];
    MaxHeapInsert(aux, 0, maxHeap[0], 0);
    assert aux[..1] == [HeapNode(0, maxHeap[0])];
    Initially(maxHeap[..]);
    auxSz := 1;
  }

  lemma {:induction false} InsertDescending(d: seq<int>, x: int) returns (e: seq<int>)
    requires Descending(d)
    ensures Descending(e) && multiset(e) == multiset(d) + multiset{x}
    ensures e != [] && (e[0] == x || (d != [] && e[0] == d[0]))
  {
    if d == [] || x >= d[0] {
      e := [x] + d;
    } else {
      var t := InsertDescending(d[1..], x);
      e := [d[0]] + t;
      assert d == [d[0]] + d[1..];
      DescendingFirst(d[0], t);
    }
  }

  lemma DescendingFirst(x: int, t: seq<int>)
    requires Descending(t) && (t != [] ==> x >= t[0])
    ensures Descending([x] + t)
  {}

  /** Every sequence has a descending order, so the rank above is never vacuous. */
  lemma {:induction false} DescendingExists(h: seq<int>) returns (d: seq<int>)
    ensures Descending(d) && multiset(d) == multiset(h) && |d| == |h|
  {
    if h == [] {
      d := [];
    } else {
      var t := DescendingExists(h[..|h| - 1]);
      d := InsertDescending(t, h[|h| - 1]);
      assert h == h[..|h| - 1] + [h[|h| - 1]];
      assert |d| == |multiset(d)| == |multiset(h)|;
    }
  }

  lemma KthIsUnique(h: seq<int>, k: nat, r: Option<int>, r': Option<int>)
    requires IsKth(h, k, r) && IsKth(h, k, r')
    ensures r == r'
  {
    var d := DescendingExists(h);
  }
}
