/**
 Binary trees on the heap whose right links may be temporarily replaced by threads.
 The shape of a tree is a ghost value; a zipper over it says which links are threads.
 */
module MorrisTrees {

  class Node {
    const key: int
    var left: Node?
    var right: Node?
  }

  datatype Tree = Leaf | Fork(l: Tree, n: Node, r: Tree)

  ghost function Nodes(t: Tree): set<Node>
  {
    if t.Leaf? then {} else Nodes(t.l) + {t.n} + Nodes(t.r)
  }

  ghost predicate Distinct(t: Tree)
  {
    t.Fork? ==>
      Distinct(t.l) && Distinct(t.r) && t.n !in Nodes(t.l) && t.n !in Nodes(t.r) && Nodes(t.l) !! Nodes(t.r)
  }

  ghost function Size(t: Tree): nat
  {
    if t.Leaf? then 0 else Size(t.l) + 1 + Size(t.r)
  }

  function InOrder(t: Tree): seq<int>
  {
    if t.Leaf? then [] else InOrder(t.l) + [t.n.key] + InOrder(t.r)
  }

  function PreOrder(t: Tree): seq<int>
  {
    if t.Leaf? then [] else [t.n.key] + PreOrder(t.l) + PreOrder(t.r)
  }

  /** The links of a set of nodes at one moment. */
  datatype Links = Links(left: map<Node, Node?>, right: map<Node, Node?>)

  ghost function Snapshot(s: set<Node>): Links
    reads s
  {
    Links(map m | m in s :: m.left, map m | m in s :: m.right)
  }

  /** p points to a tree of shape t, except that its right spine ends in link instead of null. */
  ghost predicate Spans(k: Links, t: Tree, p: Node?, link: Node?)
  {
    match t
    case Leaf => p == link
    case Fork(l, n, r) =>
      && p == n && n in k.left && n in k.right
      && Spans(k, l, k.left[n], null) && Spans(k, r, k.right[n], link)
  }

  ghost predicate Represents(root: Node?, t: Tree)
    reads Nodes(t)
  {
    Distinct(t) && Spans(Snapshot(Nodes(t)), t, root, null)
  }

  ghost function Rightmost(t: Tree): (n: Node)
    requires t.Fork?
    ensures n in Nodes(t)
  {
    if t.r.Leaf? then t.n else Rightmost(t.r)
  }

  ghost function SetRight(k: Links, n: Node, v: Node?): Links
  {
    k.(right := k.right[n := v])
  }

  lemma {:induction false} SpansFrame(k: Links, t: Tree, p: Node?, link: Node?, n: Node, v: Node?)
    requires Spans(k, t, p, link) && n !in Nodes(t)
    ensures Spans(SetRight(k, n, v), t, p, link)
  {
    if t.Fork? {
      SpansFrame(k, t.l, k.left[t.n], null, n, v);
      SpansFrame(k, t.r, k.right[t.n], link, n, v);
    }
  }

  /** Rewriting the end of the right spine changes the link and nothing else. */
  lemma {:induction false} Relink(k: Links, t: Tree, p: Node?, link: Node?, link': Node?)
    requires t.Fork? && Distinct(t) && Spans(k, t, p, link)
    ensures Spans(SetRight(k, Rightmost(t), link'), t, p, link')
  {
    SpansFrame(k, t.l, k.left[t.n], null, Rightmost(t), link');
    if t.r.Fork? {
      Relink(k, t.r, k.right[t.n], link, link');
    }
  }

  /** Two snapshots that span the same tree from the same root are equal on it. */
  lemma {:induction false} SpansFixesLinks(k: Links, k': Links, t: Tree, p: Node?, link: Node?)
    requires Spans(k, t, p, link) && Spans(k', t, p, link)
    ensures forall m :: m in Nodes(t) ==>
              && m in k.left && m in k'.left && k.left[m] == k'.left[m]
              && m in k.right && m in k'.right && k.right[m] == k'.right[m]
  {
    if t.Fork? {
      SpansFixesLinks(k, k', t.l, k.left[t.n], null);
      SpansFixesLinks(k, k', t.r, k.right[t.n], link);
    }
  }

  /** The links of all nodes are those of an earlier moment. */
  ghost predicate Kept(before: Links, nodes: set<Node>)
    reads nodes
  {
    forall m :: m in nodes ==>
      m in before.left && m in before.right && m.left == before.left[m] && m.right == before.right[m]
  }

  lemma {:induction false} SpansAgain(k: Links, k': Links, t: Tree, p: Node?, link: Node?)
    requires Spans(k, t, p, link) && Nodes(t) <= k'.left.Keys && Nodes(t) <= k'.right.Keys
    requires forall m :: m in Nodes(t) && m in k.left && m in k.right ==>
               k'.left[m] == k.left[m] && k'.right[m] == k.right[m]
    ensures Spans(k', t, p, link)
  {
    if t.Fork? {
      SpansAgain(k, k', t.l, k.left[t.n], null);
      SpansAgain(k, k', t.r, k.right[t.n], link);
    }
  }

  lemma {:induction false} KeptIff(before: Links, root: Node?, tree: Tree)
    requires Spans(before, tree, root, null)
    ensures Kept(before, Nodes(tree)) <==> Spans(Snapshot(Nodes(tree)), tree, root, null)
  {
    var now := Snapshot(Nodes(tree));
    if Spans(now, tree, root, null) {
      SpansFixesLinks(before, now, tree, root, null);
      assert forall m :: m in Nodes(tree) ==> now.left[m] == m.left && now.right[m] == m.right;
    } else if Kept(before, Nodes(tree)) {
      SpansAgain(before, now, tree, root, null);
    }
  }

  // ---------- Where a traversal stands ----------

  /** The path from a subtree up to the root: the subtree is a left child, or a right child. */
  datatype Context = Top | InLeft(n: Node, r: Tree, up: Context) | InRight(l: Tree, n: Node, up: Context)

  ghost function CtxNodes(c: Context): set<Node>
  {
    match c
    case Top => {}
    case InLeft(n, r, up) => {n} + Nodes(r) + CtxNodes(up)
    case InRight(l, n, up) => Nodes(l) + {n} + CtxNodes(up)
  }

  ghost function Plug(c: Context, t: Tree): Tree
  {
    match c
    case Top => t
    case InLeft(n, r, up) => Plug(up, Fork(t, n, r))
    case InRight(l, n, up) => Plug(up, Fork(l, n, t))
  }

  /** In a tree without repetitions, a subtree shares no node with its surroundings. */
  lemma {:induction false} PlugDistinct(c: Context, t: Tree)
    requires Distinct(Plug(c, t))
    ensures Nodes(Plug(c, t)) == CtxNodes(c) + Nodes(t)
    ensures Distinct(t) && Nodes(t) !! CtxNodes(c)
  {
    match c
    case Top =>
    case InLeft(n, r, up) => PlugDistinct(up, Fork(t, n, r));
    case InRight(l, n, up) => PlugDistinct(up, Fork(l, n, t));
  }

  /** The in-order successor of the hole: where the thread out of it leads. */
  ghost function Link(c: Context): Node?
  {
    match c
    case Top => null
    case InLeft(n, _, _) => n
    case InRight(_, _, up) => Link(up)
  }

  /** The links around the hole are those of the tree, with p in the hole. */
  ghost predicate Surrounds(k: Links, c: Context, root: Node?, p: Node?)
  {
    match c
    case Top => p == root
    case InLeft(n, r, up) =>
      && n in k.left && n in k.right
      && k.left[n] == p && Spans(k, r, k.right[n], Link(up)) && Surrounds(k, up, root, n)
    case InRight(l, n, up) =>
      && n in k.left && n in k.right
      && Spans(k, l, k.left[n], null) && k.right[n] == p && Surrounds(k, up, root, n)
  }

  lemma {:induction false} SurroundsFrame(k: Links, c: Context, root: Node?, p: Node?, n: Node, v: Node?)
    requires Surrounds(k, c, root, p) && n !in CtxNodes(c)
    ensures Surrounds(SetRight(k, n, v), c, root, p)
  {
    match c
    case Top =>
    case InLeft(m, r, up) =>
      SpansFrame(k, r, k.right[m], Link(up), n, v);
      SurroundsFrame(k, up, root, m, n, v);
    case InRight(l, m, up) =>
      SpansFrame(k, l, k.left[m], null, n, v);
      SurroundsFrame(k, up, root, m, n, v);
  }

  /** The traversal of tree is about to visit t; every left subtree still in progress ends in a thread. */
  ghost predicate At(k: Links, root: Node?, tree: Tree, c: Context, t: Tree, curr: Node?)
  {
    && Plug(c, t) == tree
    && (c.InLeft? ==> t.Fork?)
    && Surrounds(k, c, root, curr) && Spans(k, t, curr, Link(c))
  }

  ghost function InOrderRest(c: Context): seq<int>
  {
    match c
    case Top => []
    case InLeft(n, r, up) => [n.key] + InOrder(r) + InOrderRest(up)
    case InRight(_, _, up) => InOrderRest(up)
  }

  ghost function PreOrderRest(c: Context): seq<int>
  {
    match c
    case Top => []
    case InLeft(_, r, up) => PreOrder(r) + PreOrderRest(up)
    case InRight(_, _, up) => PreOrderRest(up)
  }

  /** Steps left: two per unvisited node, one per node whose left subtree is in progress. */
  ghost function Steps(c: Context): nat
  {
    match c
    case Top => 0
    case InLeft(_, r, up) => 1 + 2 * Size(r) + Steps(up)
    case InRight(_, _, up) => Steps(up)
  }

  // ---------- Closing the right spine above the hole ----------

  /** The context above the nearest left subtree in progress. */
  ghost function Base(c: Context): Context
  {
    if c.InRight? then Base(c.up) else c
  }

  /** That left subtree, rebuilt. */
  ghost function Closed(c: Context, t: Tree): Tree
  {
    if c.InRight? then Closed(c.up, Fork(c.l, c.n, t)) else t
  }

  lemma {:induction false} Close(k: Links, root: Node?, tree: Tree, c: Context, t: Tree, curr: Node?)
    requires At(k, root, tree, c, t, curr)
    ensures var b := Base(c);
            && !b.InRight? && Link(b) == Link(c)
            && (b.InLeft? ==> b.n in k.left)
            && At(k, root, tree, b, Closed(c, t), if b.InLeft? then k.left[b.n] else root)
    decreases c
  {
    if c.InRight? {
      Close(k, root, tree, c.up, Fork(c.l, c.n, t), c.n);
    }
  }

  lemma {:induction false} CloseLeaves(c: Context)
    ensures InOrderRest(Base(c)) == InOrderRest(c) && PreOrderRest(Base(c)) == PreOrderRest(c)
    ensures Steps(Base(c)) == Steps(c)
  {
    if c.InRight? {
      CloseLeaves(c.up);
    }
  }

  /** When the traversal runs off the end, the whole tree is back as it was. */
  lemma Restored(k: Links, root: Node?, tree: Tree, c: Context, t: Tree)
    requires At(k, root, tree, c, t, null)
    ensures InOrderLeft(c, t) == [] && PreOrderLeft(c, t) == []
    ensures Spans(k, tree, root, null)
  {
    Close(k, root, tree, c, t, null);
    CloseLeaves(c);
  }

  // ---------- The three moves of a traversal ----------

  /** Keys still to be visited in order, and in pre-order, and steps to go. */
  ghost function InOrderLeft(c: Context, t: Tree): seq<int> { InOrder(t) + InOrderRest(c) }
  ghost function PreOrderLeft(c: Context, t: Tree): seq<int> { PreOrder(t) + PreOrderRest(c) }
  ghost function StepsLeft(c: Context, t: Tree): nat { 2 * Size(t) + Steps(c) }

  /** The left subtree of curr: unvisited, or just left through its thread. */
  ghost function LeftOf(c: Context, t: Tree): Tree
  {
    if t.Fork? then t.l else Closed(c, t)
  }

  /** What a traversal finds at curr: no left subtree, one without a thread, or one with a thread to curr. */
  lemma Arrive(k: Links, root: Node?, tree: Tree, c: Context, t: Tree, curr: Node)
    requires Distinct(tree) && At(k, root, tree, c, t, curr)
    ensures t.Fork? ==> t.n == curr
    ensures t.Leaf? ==> LeftOf(c, t).Fork? && Base(c).InLeft? && Base(c).n == curr
    ensures curr in Nodes(tree) && curr in k.left && curr in k.right
    ensures LeftOf(c, t).Leaf? <==> k.left[curr] == null
    ensures var l := LeftOf(c, t);
            && Nodes(l) <= Nodes(tree) && curr !in Nodes(l)
            && Spans(k, l, k.left[curr], if t.Fork? then null else curr)
  {
    if t.Fork? {
      PlugDistinct(c, t);
      assert Spans(k, t.l, k.left[t.n], null);
    } else {
      Close(k, root, tree, c, t, curr);
      PlugDistinct(Base(c), Closed(c, t));
    }
  }

  lemma Regroup(a: seq<int>, k: int, b: seq<int>, rest: seq<int>)
    ensures ((a + [k]) + b) + rest == a + (([k] + b) + rest)
    ensures (([k] + a) + b) + rest == [k] + (a + (b + rest))
    ensures ([k] + b) + rest == [k] + (b + rest)
  {}

  /** No left subtree: visit curr and go right. */
  lemma {:induction false} GoRight(c: Context, t: Tree)
    requires t.Fork? && t.l.Leaf?
    ensures var c', t' := InRight(Leaf, t.n, c), t.r;
            && InOrderLeft(c, t) == [t.n.key] + InOrderLeft(c', t')
            && PreOrderLeft(c, t) == [t.n.key] + PreOrderLeft(c', t')
            && StepsLeft(c', t') < StepsLeft(c, t)
  {
    var k := t.n.key;
    assert InOrder(t) == [k] + InOrder(t.r) && PreOrder(t) == [k] + PreOrder(t.r);
    Regroup([], k, InOrder(t.r), InOrderRest(c));
    Regroup([], k, PreOrder(t.r), PreOrderRest(c));
  }

  /** Enter the left subtree. */
  lemma {:induction false} GoLeft(c: Context, t: Tree)
    requires t.Fork?
    ensures var c', t' := InLeft(t.n, t.r, c), t.l;
            && InOrderLeft(c, t) == InOrderLeft(c', t')
            && PreOrderLeft(c, t) == [t.n.key] + PreOrderLeft(c', t')
            && StepsLeft(c', t') < StepsLeft(c, t)
  {
    Regroup(InOrder(t.l), t.n.key, InOrder(t.r), InOrderRest(c));
    Regroup(PreOrder(t.l), t.n.key, PreOrder(t.r), PreOrderRest(c));
  }

  /** Return from the left subtree and go right. */
  lemma {:induction false} GoBack(c: Context)
    requires Base(c).InLeft?
    ensures var b := Base(c);
            var c', t' := InRight(Closed(c, Leaf), b.n, b.up), b.r;
            && InOrderLeft(c, Leaf) == [b.n.key] + InOrderLeft(c', t')
            && PreOrderLeft(c, Leaf) == PreOrderLeft(c', t')
            && StepsLeft(c', t') < StepsLeft(c, Leaf)
  {
    var b := Base(c);
    CloseLeaves(c);
    Regroup([], b.n.key, InOrder(b.r), InOrderRest(b.up));
  }

  /** Threading the left subtree back to curr keeps every other link. */
  lemma Thread(k: Links, root: Node?, tree: Tree, c: Context, t: Tree, curr: Node)
    requires Distinct(tree) && At(k, root, tree, c, t, curr) && t.Fork? && t.l.Fork?
    ensures At(SetRight(k, Rightmost(t.l), curr), root, tree, InLeft(t.n, t.r, c), t.l, k.left[curr])
  {
    PlugDistinct(c, t);
    var n := Rightmost(t.l);
    Relink(k, t.l, k.left[curr], null, curr);
    SpansFrame(k, t.r, k.right[curr], Link(c), n, curr);
    SurroundsFrame(k, c, root, curr, n, curr);
  }

  /** Removing the thread to curr restores its left subtree and keeps every other link. */
  lemma Unthread(k: Links, root: Node?, tree: Tree, c: Context, curr: Node)
    requires Distinct(tree) && At(k, root, tree, c, Leaf, curr)
    requires Closed(c, Leaf).Fork? && Base(c).InLeft? && Base(c).n == curr && curr in k.right
    ensures At(SetRight(k, Rightmost(Closed(c, Leaf)), null), root, tree,
               InRight(Closed(c, Leaf), curr, Base(c).up), Base(c).r, k.right[curr])
  {
    Close(k, root, tree, c, Leaf, curr);
    var b, lt := Base(c), Closed(c, Leaf);
    PlugDistinct(b, lt);
    var n := Rightmost(lt);
    Relink(k, lt, k.left[curr], curr, null);
    SpansFrame(k, b.r, k.right[curr], Link(b.up), n, null);
    SurroundsFrame(k, b.up, root, curr, n, null);
  }

  // ---------- Stopping halfway ----------

  /** Some left subtree is still in progress, and its thread is still set. */
  predicate Pending(c: Context)
  {
    match c
    case Top => false
    case InLeft(_, _, _) => true
    case InRight(_, _, up) => Pending(up)
  }

  lemma {:induction false} PendingBase(c: Context)
    ensures Pending(c) <==> Base(c).InLeft?
    ensures !Base(c).InRight?
  {
    if c.InRight? {
      PendingBase(c.up);
    }
  }

  lemma {:induction false} SpineEnd(k: Links, t: Tree, p: Node?, link: Node?)
    requires t.Fork? && Spans(k, t, p, link)
    ensures Rightmost(t) in k.right && k.right[Rightmost(t)] == link
  {
    if t.r.Fork? {
      SpineEnd(k, t.r, k.right[t.n], link);
    }
  }

  /** Inside a tree that is spanned without threads, so is every left subtree. */
  lemma {:induction false} SpansInside(k: Links, c: Context, t: Tree, root: Node?) returns (p: Node?, link: Node?)
    requires Spans(k, Plug(c, t), root, null)
    ensures Spans(k, t, p, link) && (!c.InRight? ==> link == null)
  {
    match c
    case Top => p, link := root, null;
    case InLeft(n, r, up) =>
      var q, l := SpansInside(k, up, Fork(t, n, r), root);
      p, link := k.left[n], null;
    case InRight(l, n, up) =>
      p, link := SpansInside(k, up, Fork(l, n, t), root);
      p := k.right[n];
  }

  /** A traversal that stops here has restored the tree exactly when no left subtree is in progress. */
  lemma {:induction false} RestoredIff(k: Links, root: Node?, tree: Tree, c: Context, t: Tree, curr: Node?)
    requires At(k, root, tree, c, t, curr)
    ensures Spans(k, tree, root, null) <==> !Pending(c)
  {
    Close(k, root, tree, c, t, curr);
    PendingBase(c);
    var b, lt := Base(c), Closed(c, t);
    if b.InLeft? && Spans(k, tree, root, null) {
      SpineEnd(k, lt, k.left[b.n], b.n);
      var p, link := SpansInside(k, b, lt, root);
      SpineEnd(k, lt, p, link);
      assert false;
    }
  }

  /** The node number d in order lies on the right spine: it is in no left subtree. */
  predicate OnRightSpine(t: Tree, d: nat)
  {
    t.Fork? &&
    var n := |InOrder(t.l)|;
    d >= n && (d == n || OnRightSpine(t.r, d - n - 1))
  }

  /** The number of nodes before the gap. */
  ghost function Offset(c: Context): nat
  {
    match c
    case Top => 0
    case InLeft(_, _, up) => Offset(up)
    case InRight(l, _, up) => Offset(up) + |InOrder(l)| + 1
  }

  lemma {:induction false} PlugSpine(c: Context, t: Tree, i: nat)
    requires i < |InOrder(t)|
    ensures OnRightSpine(Plug(c, t), Offset(c) + i) <==> !Pending(c) && OnRightSpine(t, i)
  {
    match c
    case Top =>
    case InLeft(n, r, up) => PlugSpine(up, Fork(t, n, r), i);
    case InRight(l, n, up) => PlugSpine(up, Fork(l, n, t), |InOrder(l)| + 1 + i);
  }

  lemma {:induction false} PlugLength(c: Context, t: Tree)
    ensures |InOrder(Plug(c, t))| == Offset(c) + |InOrderLeft(c, t)|
  {
    match c
    case Top =>
    case InLeft(n, r, up) => PlugLength(up, Fork(t, n, r));
    case InRight(l, n, up) => PlugLength(up, Fork(l, n, t));
  }

  /** Just after its node number d, a traversal has restored the tree exactly if that node is on the right spine. */
  lemma {:induction false} StopsAt(k: Links, root: Node?, tree: Tree, c: Context, t: Tree, curr: Node?, d: nat)
    requires At(k, root, tree, c, t, curr) && c.InRight? && d + 1 + |InOrderLeft(c, t)| == |InOrder(tree)|
    ensures Spans(k, tree, root, null) <==> OnRightSpine(tree, d)
  {
    RestoredIff(k, root, tree, c, t, curr);
    PlugLength(c, t);
    PlugSpine(c.up, Fork(c.l, c.n, t), |InOrder(c.l)|);
  }
}
