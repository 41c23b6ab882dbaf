/** Two in-order traversals side by side, each a resumable Morris iterator. */
module ParallelInOrder {
  import opened MorrisTrees
  import opened MorrisTraversal

  /** Where next_node resumes. */
  function Resume(currNode: Node?, iter: Node?, inProgress: bool): Node?
  {
    if !inProgress && iter == null then currNode else iter
  }

  /** The next node in order, or null at the end; iter says where to go on from. */
  method NextNode(currNode: Node?, iter: Node?, inProgress: bool,
                  ghost root: Node?, ghost tree: Tree, ghost c: Context, ghost t: Tree)
      returns (node: Node?, iter': Node?, ghost c': Context, ghost t': Tree)
    requires Distinct(tree) && At(Snapshot(Nodes(tree)), root, tree, c, t, Resume(currNode, iter, inProgress))
    modifies Nodes(tree)`right
    ensures node == null <==> InOrderLeft(c, t) == []
    ensures node == null ==> Spans(Snapshot(Nodes(tree)), tree, root, null)
    ensures node != null ==>
              && At(Snapshot(Nodes(tree)), root, tree, c', t', iter') && c'.InRight? && c'.n == node
              && InOrderLeft(c, t) == [node.key] + InOrderLeft(c', t')
  {
    var curr := Resume(currNode, iter, inProgress);
    node, iter', c', t' := null, iter, c, t;
    while curr != null
      invariant At(Snapshot(Nodes(tree)), root, tree, c', t', curr)
      invariant InOrderLeft(c', t') == InOrderLeft(c, t)
      decreases StepsLeft(c', t')
    {
      Arrive(Snapshot(Nodes(tree)), root, tree, c', t', curr);
      if curr.left == null {
        GoRight(c', t');
        c', t' := InRight(Leaf, t'.n, c'), t'.r;
        return curr, curr.right, c', t';
      }
      TurnLeaves(Snapshot(Nodes(tree)), root, tree, c', t', curr);
      var first, next := Turn(curr, root, tree, c', t');
      c', t' := NextContext(c', t'), NextTree(c', t');
      if !first {
        return curr, next, c', t';
      }
      curr := next;
    }
    Restored(Snapshot(Nodes(tree)), root, tree, c', t');
  }

  /** One of the two iterations: n is its current node, seen the keys before it. */
  ghost predicate Iterating(root: Node?, tree: Tree, c: Context, t: Tree, iter: Node?, seen: seq<int>, n: Node?)
    reads Nodes(tree)
  {
    && (n == null ==> InOrder(tree) == seen && Spans(Snapshot(Nodes(tree)), tree, root, null))
    && (n != null ==>
          && At(Snapshot(Nodes(tree)), root, tree, c, t, iter) && c.InRight? && c.n == n
          && InOrder(tree) == seen + ([n.key] + InOrderLeft(c, t)))
  }

  /** The length of the longest common beginning. */
  function FirstDifference(a: seq<int>, b: seq<int>): (d: nat)
    ensures d <= |a| && d <= |b| && a[..d] == b[..d]
    ensures d < |a| && d < |b| ==> a[d] != b[d]
  {
    if a != [] && b != [] && a[0] == b[0] then 1 + FirstDifference(a[1..], b[1..]) else 0
  }

  lemma {:induction false} CommonBeginning(seen: seq<int>, a: seq<int>, b: seq<int>)
    ensures FirstDifference(seen + a, seen + b) == |seen| + FirstDifference(a, b)
    decreases |seen|
  {
    if seen == [] {
      assert seen + a == a && seen + b == b;
    } else {
      assert (seen + a)[1..] == seen[1..] + a && (seen + b)[1..] == seen[1..] + b;
      CommonBeginning(seen[1..], a, b);
    }
  }

  /** What the keys say before the call: the tree ends at position d, or its node there is on the right spine. */
  predicate KeepsLinks(tree: Tree, d: nat)
  {
    d == |InOrder(tree)| || OnRightSpine(tree, d)
  }

  /** Where an iteration stops, its tree is as it was exactly if the keys seen so far say so. */
  lemma {:induction false} StopsIterating(before: Links, root: Node?, tree: Tree, c: Context, t: Tree, iter: Node?,
                                          seen: seq<int>, n: Node?)
    requires Iterating(root, tree, c, t, iter, seen, n) && Spans(before, tree, root, null)
    ensures Kept(before, Nodes(tree)) <==> KeepsLinks(tree, |seen|)
  {
    KeptIff(before, root, tree);
    if n != null {
      StopsAt(Snapshot(Nodes(tree)), root, tree, c, t, iter, |seen|);
    }
  }

  method Advance(n: Node, iter: Node?, ghost root: Node?, ghost tree: Tree, ghost c: Context, ghost t: Tree,
                 ghost seen: seq<int>)
      returns (n': Node?, iter': Node?, ghost c': Context, ghost t': Tree)
    requires Distinct(tree) && Iterating(root, tree, c, t, iter, seen, n)
    modifies Nodes(tree)`right
    ensures Iterating(root, tree, c', t', iter', seen + [n.key], n')
  {
    n', iter', c', t' := NextNode(n, iter, true, root, tree, c, t);
    assert InOrder(tree) == (seen + [n.key]) + InOrderLeft(c, t);
  }

  /** The loop stops at the first difference: at keys that differ, or where a tree ends. */
  lemma {:induction false} Difference(seen: seq<int>, a: seq<int>, b: seq<int>, x: seq<int>, y: seq<int>)
    requires a == seen + x && b == seen + y && (x == [] || y == [] || x[0] != y[0])
    ensures FirstDifference(a, b) == |seen| && (a == b <==> x == y)
  {
    CommonBeginning(seen, x, y);
    assert x == a[|seen|..] && y == b[|seen|..];
  }

  /** The two iterations, side by side up to the first difference. */
  method Compare(root1: Node?, root2: Node?, ghost tree1: Tree, ghost tree2: Tree)
      returns (n1: Node?, n2: Node?, ghost iter1: Node?, ghost iter2: Node?,
               ghost c1: Context, ghost c2: Context, ghost t1: Tree, ghost t2: Tree, ghost seen: seq<int>)
    requires Represents(root1, tree1) && Represents(root2, tree2) && Nodes(tree1) !! Nodes(tree2)
    modifies Nodes(tree1)`right, Nodes(tree2)`right
    ensures Iterating(root1, tree1, c1, t1, iter1, seen, n1) && Iterating(root2, tree2, c2, t2, iter2, seen, n2)
    ensures n1 == null || n2 == null || n1.key != n2.key
  {
    assert InOrder(tree1) == InOrderLeft(Top, tree1) && InOrder(tree2) == InOrderLeft(Top, tree2);
    seen := [];
    var i1, i2;
    ghost var links2 := Snapshot(Nodes(tree2));
    n1, i1, c1, t1 := NextNode(root1, null, false, root1, tree1, Top, tree1);
    ghost var links1 := Snapshot(Nodes(tree1));
    n2, i2, c2, t2 := NextNode(root2, null, false, root2, tree2, Top, tree2);
    iter1, iter2 := i1, i2;
    while n1 != null && n2 != null
      invariant iter1 == i1 && iter2 == i2
      invariant Iterating(root1, tree1, c1, t1, iter1, seen, n1)
      invariant Iterating(root2, tree2, c2, t2, iter2, seen, n2)
      decreases |InOrder(tree1)| - |seen|
    {
      if n1.key != n2.key {
        return;
      }
      ghost var key := n1.key;
      n1, i1, c1, t1 := Advance(n1, i1, root1, tree1, c1, t1, seen);
      n2, i2, c2, t2 := Advance(n2, i2, root2, tree2, c2, t2, seen);
      iter1, iter2 := i1, i2;
      seen := seen + [key];
    }
  }

  ghost function Rest(n: Node?, c: Context, t: Tree): seq<int>
  {
    if n == null then [] else [n.key] + InOrderLeft(c, t)
  }

  /**
   Whether two disjoint trees hold the same keys in order. Each tree is left as it was exactly if it ends
   where the keys first differ, or has its node there on its right spine; otherwise a thread stays set.
   */
  method SameInOrder(root1: Node?, root2: Node?, ghost tree1: Tree, ghost tree2: Tree) returns (same: bool)
    requires Represents(root1, tree1) && Represents(root2, tree2) && Nodes(tree1) !! Nodes(tree2)
    modifies Nodes(tree1)`right, Nodes(tree2)`right
    ensures same <==> InOrder(tree1) == InOrder(tree2)
    ensures same ==> Represents(root1, tree1) && Represents(root2, tree2)
    ensures Kept(old(Snapshot(Nodes(tree1))), Nodes(tree1))
            <==> KeepsLinks(tree1, FirstDifference(InOrder(tree1), InOrder(tree2)))
    ensures Kept(old(Snapshot(Nodes(tree2))), Nodes(tree2))
            <==> KeepsLinks(tree2, FirstDifference(InOrder(tree1), InOrder(tree2)))
    ensures same ==> Kept(old(Snapshot(Nodes(tree1))), Nodes(tree1)) && Kept(old(Snapshot(Nodes(tree2))), Nodes(tree2))
  {
    ghost var before1, before2 := Snapshot(Nodes(tree1)), Snapshot(Nodes(tree2));
    var n1, n2;
    ghost var iter1, iter2, c1, c2, t1, t2, seen;
    n1, n2, iter1, iter2, c1, c2, t1, t2, seen := Compare(root1, root2, tree1, tree2);
    same := n1 == null && n2 == null;
    Difference(seen, InOrder(tree1), InOrder(tree2), Rest(n1, c1, t1), Rest(n2, c2, t2));
    StopsIterating(before1, root1, tree1, c1, t1, iter1, seen, n1);
    StopsIterating(before2, root2, tree2, c2, t2, iter2, seen, n2);
  }

  // ---------- A thread that stays ----------

  /** The tree with root 2 and left child 1 against the single node 9: the first keys differ. */
  lemma FirstKeysDiffer(two: Node, one: Node, nine: Node)
    requires two.key == 2 && one.key == 1 && nine.key == 9
    ensures var tree1, tree2 := Fork(Fork(Leaf, one, Leaf), two, Leaf), Fork(Leaf, nine, Leaf);
            && FirstDifference(InOrder(tree1), InOrder(tree2)) == 0
            && !KeepsLinks(tree1, 0) && KeepsLinks(tree2, 0)
  {
    assert InOrder(Fork(Leaf, one, Leaf)) == [1];
    assert InOrder(Fork(Fork(Leaf, one, Leaf), two, Leaf)) == [1, 2] && InOrder(Fork(Leaf, nine, Leaf)) == [9];
  }

  /** There, the thread from 1 to 2 is still set when the call returns. */
  method ThreadStays(two: Node, one: Node, nine: Node) returns (same: bool)
    requires two.key == 2 && one.key == 1 && nine.key == 9 && two.left == one
    requires two.right == null && one.left == null && one.right == null && nine.left == null && nine.right == null
    modifies two, one, nine
    ensures !same && (two.right != null || one.right != null) && nine.right == null
  {
    ghost var tree1, tree2 := Fork(Fork(Leaf, one, Leaf), two, Leaf), Fork(Leaf, nine, Leaf);
    FirstKeysDiffer(two, one, nine);
    assert Nodes(Leaf) == {} && Nodes(Fork(Leaf, one, Leaf)) == {one} && Nodes(tree2) == {nine};
    assert Nodes(tree1) == {one} + {two} + {};
    same := SameInOrder(two, nine, tree1, tree2);
  }
}
