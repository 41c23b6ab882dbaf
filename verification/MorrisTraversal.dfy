/** Morris traversals: in-order and pre-order without a stack, by threading and unthreading. */
module MorrisTraversal {
  import opened MorrisTrees

  /** The end of the right spine below curr.left, stopping short of a thread back to curr. */
  method FindPredecessor(curr: Node, ghost s: set<Node>, ghost l: Tree, ghost link: Node?)
      returns (predecessor: Node)
    requires curr in s && l.Fork? && Nodes(l) <= s && curr !in Nodes(l)
    requires Spans(Snapshot(s), l, curr.left, link) && (link == null || link == curr)
    ensures predecessor == Rightmost(l) && predecessor.right == link
  {
    predecessor := curr.left;
    ghost var w := l;
    while predecessor.right != null && predecessor.right != curr
      invariant w.Fork? && Nodes(w) <= Nodes(l) && Rightmost(w) == Rightmost(l)
      invariant Spans(Snapshot(s), w, predecessor, link)
      decreases w
    {
      predecessor := predecessor.right;
      w := w.r;
    }
  }

  method SetLink(n: Node, v: Node?, ghost s: set<Node>)
    requires n in s
    modifies n`right
    ensures Snapshot(s) == SetRight(old(Snapshot(s)), n, v)
  {
    n.right := v;
  }

  lemma Print(printed: seq<int>, keys: seq<int>, left: seq<int>, left': seq<int>)
    requires left == keys + left'
    ensures printed + left == (printed + keys) + left'
  {}

  /** Writes the thread to curr. */
  method SetThread(curr: Node, predecessor: Node, ghost root: Node?, ghost tree: Tree, ghost c: Context, ghost t: Tree)
    requires Distinct(tree) && At(Snapshot(Nodes(tree)), root, tree, c, t, curr)
    requires t.Fork? && t.l.Fork? && predecessor == Rightmost(t.l) && curr in Nodes(tree)
    modifies Nodes(tree)`right
    ensures At(Snapshot(Nodes(tree)), root, tree, InLeft(t.n, t.r, c), t.l, curr.left)
  {
    ghost var k := Snapshot(Nodes(tree));
    PlugDistinct(c, t);
    Thread(k, root, tree, c, t, curr);
    SetLink(predecessor, curr, Nodes(tree));
  }

  /** Erases the thread to curr. */
  method ClearThread(curr: Node, predecessor: Node, ghost root: Node?, ghost tree: Tree, ghost c: Context)
    requires Distinct(tree) && At(Snapshot(Nodes(tree)), root, tree, c, Leaf, curr)
    requires Closed(c, Leaf).Fork? && Base(c).InLeft? && Base(c).n == curr && curr in Nodes(tree)
    requires predecessor == Rightmost(Closed(c, Leaf)) && predecessor != curr && predecessor in Nodes(tree)
    modifies Nodes(tree)`right
    ensures At(Snapshot(Nodes(tree)), root, tree, InRight(Closed(c, Leaf), curr, Base(c).up), Base(c).r, curr.right)
  {
    ghost var k := Snapshot(Nodes(tree));
    Unthread(k, root, tree, c, curr);
    SetLink(predecessor, null, Nodes(tree));
  }

  /** Where a traversal goes from a node with a left subtree: into it, or out of it and to the right. */
  ghost function NextContext(c: Context, t: Tree): Context
  {
    if t.Fork? then InLeft(t.n, t.r, c)
    else if Base(c).InLeft? then InRight(Closed(c, Leaf), Base(c).n, Base(c).up) else c
  }

  ghost function NextTree(c: Context, t: Tree): Tree
  {
    if t.Fork? then t.l else if Base(c).InLeft? then Base(c).r else t
  }

  /** A node with a left subtree: met for the first time it is threaded, the second time unthreaded. */
  method Turn(curr: Node, ghost root: Node?, ghost tree: Tree, ghost c: Context, ghost t: Tree)
      returns (first: bool, next: Node?)
    requires Distinct(tree) && At(Snapshot(Nodes(tree)), root, tree, c, t, curr)
    requires curr in Nodes(tree) && curr.left != null
    modifies Nodes(tree)`right
    ensures first == t.Fork? && At(Snapshot(Nodes(tree)), root, tree, NextContext(c, t), NextTree(c, t), next)
    ensures !first ==> NextContext(c, t).InRight? && NextContext(c, t).n == curr
  {
    Arrive(Snapshot(Nodes(tree)), root, tree, c, t, curr);
    var predecessor := FindPredecessor(curr, Nodes(tree), LeftOf(c, t), if t.Fork? then null else curr);
    if predecessor.right == null {
      SetThread(curr, predecessor, root, tree, c, t);
      return true, curr.left;
    } else {
      ClearThread(curr, predecessor, root, tree, c);
      return false, curr.right;
    }
  }

  /** What is left to visit after such a turn. */
  lemma {:induction false} TurnLeaves(k: Links, root: Node?, tree: Tree, c: Context, t: Tree, curr: Node)
    requires Distinct(tree) && At(k, root, tree, c, t, curr)
    ensures var c', t' := NextContext(c, t), NextTree(c, t);
            && InOrderLeft(c, t) == (if t.Fork? then [] else [curr.key]) + InOrderLeft(c', t')
            && PreOrderLeft(c, t) == (if t.Fork? then [curr.key] else []) + PreOrderLeft(c', t')
            && StepsLeft(c', t') < StepsLeft(c, t)
  {
    Arrive(k, root, tree, c, t, curr);
    if t.Fork? {
      GoLeft(c, t);
    } else {
      GoBack(c);
    }
  }

  method InOrderTraversal(root: Node?, ghost tree: Tree) returns (printed: seq<int>)
    requires Represents(root, tree)
    modifies Nodes(tree)`right
    ensures printed == InOrder(tree)
    ensures Represents(root, tree)
    ensures Kept(old(Snapshot(Nodes(tree))), Nodes(tree))
  {
    var curr := root;
    printed := [];
    ghost var c, t := Top, tree;
    ghost var before := Snapshot(Nodes(tree));
    while curr != null
      invariant At(Snapshot(Nodes(tree)), root, tree, c, t, curr)
      invariant printed + InOrderLeft(c, t) == InOrder(tree)
      decreases StepsLeft(c, t)
    {
      Arrive(Snapshot(Nodes(tree)), root, tree, c, t, curr);
      if curr.left == null {
        GoRight(c, t);
        Print(printed, [curr.key], InOrderLeft(c, t), InOrderLeft(InRight(Leaf, t.n, c), t.r));
        printed := printed + [curr.key];
        c, t := InRight(Leaf, t.n, c), t.r;
        curr := curr.right;
      } else {
        TurnLeaves(Snapshot(Nodes(tree)), root, tree, c, t, curr);
        var first, next := Turn(curr, root, tree, c, t);
        Print(printed, if first then [] else [curr.key], InOrderLeft(c, t),
              InOrderLeft(NextContext(c, t), NextTree(c, t)));
        printed := printed + if first then [] else [curr.key];
        c, t := NextContext(c, t), NextTree(c, t);
        curr := next;
      }
    }
    Restored(Snapshot(Nodes(tree)), root, tree, c, t);
    KeptIff(before, root, tree);
  }

  method PreOrderTraversal(root: Node?, ghost tree: Tree) returns (printed: seq<int>)
    requires Represents(root, tree)
    modifies Nodes(tree)`right
    ensures printed == PreOrder(tree)
    ensures Represents(root, tree)
    ensures Kept(old(Snapshot(Nodes(tree))), Nodes(tree))
  {
    var curr := root;
    printed := [];
    ghost var c, t := Top, tree;
    ghost var before := Snapshot(Nodes(tree));
    while curr != null
      invariant At(Snapshot(Nodes(tree)), root, tree, c, t, curr)
      invariant printed + PreOrderLeft(c, t) == PreOrder(tree)
      decreases StepsLeft(c, t)
    {
      Arrive(Snapshot(Nodes(tree)), root, tree, c, t, curr);
      if curr.left == null {
        GoRight(c, t);
        Print(printed, [curr.key], PreOrderLeft(c, t), PreOrderLeft(InRight(Leaf, t.n, c), t.r));
        printed := printed + [curr.key];
        c, t := InRight(Leaf, t.n, c), t.r;
        curr := curr.right;
      } else {
        TurnLeaves(Snapshot(Nodes(tree)), root, tree, c, t, curr);
        var first, next := Turn(curr, root, tree, c, t);
        Print(printed, if first then [curr.key] else [], PreOrderLeft(c, t),
              PreOrderLeft(NextContext(c, t), NextTree(c, t)));
        printed := printed + if first then [curr.key] else [];
        c, t := NextContext(c, t), NextTree(c, t);
        curr := next;
      }
    }
    Restored(Snapshot(Nodes(tree)), root, tree, c, t);
    KeptIff(before, root, tree);
  }
}
