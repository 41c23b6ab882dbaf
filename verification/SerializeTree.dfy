/**
 Breadth-first serialisation of n-ary trees: the number of children of each node, followed by
 their values, in the order in which a queue yields the nodes.
 */
module SerializeTree {
  import opened Wrappers
  import opened Sequences

  datatype Tree = Node(val: int, kids: seq<Tree>)

  // ---------- The text, as a sequence of numbers ----------

  ghost function Size(t: Tree): (n: nat)
    ensures n > 0
  {
    1 + SizeAll(t.kids)
  }

  ghost function SizeAll(ts: seq<Tree>): nat
  {
    if ts == [] then 0 else Size(ts[0]) + SizeAll(ts[1..])
  }

  lemma {:induction false} SizeAppend(a: seq<Tree>, b: seq<Tree>)
    ensures SizeAll(a + b) == SizeAll(a) + SizeAll(b)
  {
    if a == [] {
      assert a + b == b;
    } else {
      assert (a + b)[1..] == a[1..] + b;
      SizeAppend(a[1..], b);
    }
  }

  lemma {:induction false} SizePop(queue: seq<Tree>)
    requires queue != []
    ensures SizeAll(queue[1..] + queue[0].kids) == SizeAll(queue) - 1
  {
    SizeAppend(queue[1..], queue[0].kids);
    assert SizeAll(queue) == Size(queue[0]) + SizeAll(queue[1..]);
  }

  function Values(ts: seq<Tree>): (v: seq<int>)
    ensures |v| == |ts| && forall i :: 0 <= i < |ts| ==> v[i] == ts[i].val
  {
    seq(|ts|, i requires 0 <= i < |ts| => ts[i].val)
  }

  /** What is still to be written for the nodes in the queue. */
  ghost function Pending(queue: seq<Tree>): seq<int>
    decreases SizeAll(queue)
  {
    if queue == [] then []
    else
      SizePop(queue);
      [|queue[0].kids|] + Values(queue[0].kids) + Pending(queue[1..] + queue[0].kids)
  }

  ghost function Text(t: Tree): seq<int>
  {
    [t.val] + Pending([t])
  }

  /** As many children are read as the count says, and none for a negative one. */
  function Count(c: int): nat { if c > 0 then c else 0 }

  /** Read for the nodes in the queue, the text tells their trees, and rest is left over. */
  ghost predicate Spells(queue: seq<Tree>, text: seq<int>, rest: seq<int>)
    decreases SizeAll(queue)
  {
    if queue == [] then text == rest
    else
      var kids := queue[0].kids;
      SizePop(queue);
      && text != [] && Count(text[0]) == |kids| && Values(kids) <= text[1..]
      && Spells(queue[1..] + kids, text[1 + |kids|..], rest)
  }

  // ---------- Level by level ----------

  /** The next level below these nodes, from left to right. */
  function Below(level: seq<Tree>): seq<Tree>
  {
    if level == [] then [] else level[0].kids + Below(level[1..])
  }

  /** For each node of a level, how many children it has and their values. */
  function LevelText(level: seq<Tree>): seq<int>
  {
    if level == [] then [] else [|level[0].kids|] + Values(level[0].kids) + LevelText(level[1..])
  }

  lemma {:induction false} BelowIsSmaller(level: seq<Tree>)
    ensures SizeAll(Below(level)) + |level| == SizeAll(level)
  {
    if level != [] {
      BelowIsSmaller(level[1..]);
      SizeAppend(level[0].kids, Below(level[1..]));
    }
  }

  ghost function ByLevels(level: seq<Tree>): seq<int>
    decreases SizeAll(level)
  {
    if level == [] then []
    else
      BelowIsSmaller(level);
      LevelText(level) + ByLevels(Below(level))
  }

  lemma {:induction false} QueueIsLevel(level: seq<Tree>, rest: seq<Tree>)
    ensures Pending(level + rest) == LevelText(level) + Pending(rest + Below(level))
  {
    if level == [] {
      assert level + rest == rest && rest + [] == rest;
    } else {
      var t := level[0];
      PendingFirst(level, rest);
      QueueIsLevel(level[1..], rest + t.kids);
      Regroup(rest, t.kids, Below(level[1..]));
    }
  }

  /** The first node of a level is written, and its children go to the end of the queue. */
  lemma {:induction false} PendingFirst(level: seq<Tree>, rest: seq<Tree>)
    requires level != []
    ensures var t := level[0];
            Pending(level + rest) == [|t.kids|] + Values(t.kids) + Pending(level[1..] + (rest + t.kids))
  {
    assert (level + rest)[1..] == level[1..] + rest;
    Regroup(level[1..], rest, level[0].kids);
  }

  lemma Regroup(a: seq<Tree>, b: seq<Tree>, c: seq<Tree>)
    ensures (a + b) + c == a + (b + c)
  {}

  /** The queue writes the tree level by level, each from left to right. */
  lemma {:induction false} QueueByLevels(level: seq<Tree>)
    ensures Pending(level) == ByLevels(level)
    decreases SizeAll(level)
  {
    if level != [] {
      QueueIsLevel(level, []);
      assert level + [] == level && [] + Below(level) == Below(level);
      BelowIsSmaller(level);
      QueueByLevels(Below(level));
    }
  }

  lemma TextByLevels(t: Tree)
    ensures Text(t) == [t.val] + ByLevels([t])
  {
    QueueByLevels([t]);
  }

  // ---------- Texts that can be read ----------

  /** The text holds as many numbers as the counts in it ask for. */
  predicate Readable(pending: nat, text: seq<int>)
    decreases |text|
  {
    pending == 0 ||
    (&& text != [] && Count(text[0]) < |text|
     && Readable(pending - 1 + Count(text[0]), text[1 + Count(text[0])..]))
  }

  lemma Peel(c: int, v: seq<int>, p: seq<int>, rest: seq<int>)
    ensures var text := ([c] + (v + p)) + rest;
            text[0] == c && v <= text[1..] && text[1 + |v|..] == p + rest
  {
    var text := ([c] + (v + p)) + rest;
    assert text[1..] == v + (p + rest);
    assert text[1 + |v|..] == p + rest;
  }

  lemma {:induction false} WrittenIsSpelled(queue: seq<Tree>, rest: seq<int>)
    ensures Spells(queue, Pending(queue) + rest, rest)
    decreases SizeAll(queue)
  {
    if queue == [] {
      assert Pending(queue) + rest == rest;
    } else {
      var kids, text := queue[0].kids, Pending(queue) + rest;
      PendingStep(queue);
      WrittenIsSpelled(queue[1..] + kids, rest);
      Peel(|kids|, Values(kids), Pending(queue[1..] + kids), rest);
    }
  }

  lemma {:induction false} SpelledIsReadable(queue: seq<Tree>, text: seq<int>, rest: seq<int>)
    requires Spells(queue, text, rest)
    ensures Readable(|queue|, text)
    decreases SizeAll(queue)
  {
    if queue != [] {
      SizePop(queue);
      SpelledIsReadable(queue[1..] + queue[0].kids, text[1 + |queue[0].kids|..], rest);
    }
  }

  /** A node with the trees of after beyond the n-th as its children, in front of the others. */
  lemma Gather(v: int, after: seq<Tree>, n: nat) returns (queue: seq<Tree>)
    requires n <= |after|
    ensures queue != [] && queue[0] == Node(v, after[n..]) && queue[1..] + after[n..] == after
    ensures Values(queue) == [v] + Values(after)[..n] && Values(after[n..]) == Values(after)[n..]
  {
    queue := [Node(v, after[n..])] + after[..n];
    assert queue[1..] == after[..n];
  }

  /** Every text that holds enough numbers tells the trees of some nodes with the given values. */
  lemma {:induction false} ReadableIsSpelled(values: seq<int>, text: seq<int>)
    returns (queue: seq<Tree>, rest: seq<int>)
    requires Readable(|values|, text)
    ensures Values(queue) == values && Spells(queue, text, rest)
    decreases |text|
  {
    if values == [] {
      queue, rest := [], text;
    } else {
      var c, n := Count(text[0]), |values| - 1;
      var next := values[1..] + text[1..1 + c];
      var after;
      after, rest := ReadableIsSpelled(next, text[1 + c..]);
      assert |after| == |Values(after)| == n + c;
      queue := Gather(values[0], after, n);
      assert next[n..] == text[1..1 + c] && [values[0]] + next[..n] == values;
    }
  }

  // ---------- Nodes in memory ----------

  class TreeNode {
    const val: int
    var children: seq<TreeNode>

    constructor (v: int)
      ensures val == v && children == []
    {
      val, children := v, [];
    }
  }

  /** The tree below each node, and the children it has. */
  type Shapes = map<TreeNode, Tree>
  type Links = map<TreeNode, seq<TreeNode>>

  ghost predicate InMemory(links: Links)
    reads links.Keys
  {
    forall n {:trigger links[n]} :: n in links ==> n.children == links[n]
  }

  ghost predicate ChildAt(m: Shapes, children: seq<TreeNode>, t: Tree, i: nat)
  {
    i < |children| && i < |t.kids| && children[i] in m && m[children[i]] == t.kids[i]
  }

  /** These children are those of t. */
  ghost predicate Complete(m: Shapes, children: seq<TreeNode>, t: Tree)
  {
    && |children| == |t.kids|
    && forall i: nat {:trigger ChildAt(m, children, t, i)} :: i < |children| ==> ChildAt(m, children, t, i)
  }

  /** Every node of m is the root of its tree. */
  ghost predicate Shaped(m: Shapes, links: Links)
  {
    m.Keys == links.Keys && forall n {:trigger m[n]} :: n in m ==> n.val == m[n].val && Complete(m, links[n], m[n])
  }

  ghost predicate Known(m: Shapes, queue: seq<TreeNode>)
  {
    forall i :: 0 <= i < |queue| ==> queue[i] in m
  }

  ghost function Trees(m: Shapes, queue: seq<TreeNode>): (ts: seq<Tree>)
    requires Known(m, queue)
    ensures |ts| == |queue| && forall i :: 0 <= i < |queue| ==> ts[i] == m[queue[i]]
  {
    seq(|queue|, i requires 0 <= i < |queue| => m[queue[i]])
  }

  lemma {:induction false} PendingStep(queue: seq<Tree>)
    requires queue != []
    ensures Pending(queue) == [|queue[0].kids|] + (Values(queue[0].kids) + Pending(queue[1..] + queue[0].kids))
    ensures SizeAll(queue[1..] + queue[0].kids) < SizeAll(queue)
  {
    SizePop(queue);
  }

  // ---------- Writing ----------

  /** The inner loop: write the values of the children. */
  method WriteChildren(curr: TreeNode, ghost m: Shapes, ghost links: Links) returns (values: seq<int>)
    requires InMemory(links) && Shaped(m, links) && curr in m
    ensures values == Values(m[curr].kids)
  {
    values := [];
    assert curr.children == links[curr];
    for i := 0 to |curr.children|
      invariant |values| == i && forall k :: 0 <= k < i ==> values[k] == m[curr].kids[k].val
    {
      assert ChildAt(m, curr.children, m[curr], i);
      values := values + [curr.children[i].val];
    }
  }

  method Serialize(root: TreeNode?, ghost m: Shapes, ghost links: Links) returns (text: seq<int>)
    requires InMemory(links) && Shaped(m, links) && (root != null ==> root in m)
    ensures text == if root == null then [] else Text(m[root])
  {
    if root == null {
      return [];
    }
    var queue: seq<TreeNode> := [root];
    text := [root.val];
    assert Trees(m, [root]) == [m[root]];
    while queue != []
      invariant Known(m, queue) && text + Pending(Trees(m, queue)) == Text(m[root])
      decreases SizeAll(if Known(m, queue) then Trees(m, queue) else [])
    {
      ghost var ts := Trees(m, queue);
      var curr := queue[0];
      var values := WriteChildren(curr, m, links);
      PendingStep(ts);
      Popped(m, links, queue);
      assert curr.children == links[curr];
      queue := queue[1..] + curr.children;
      text := text + [|curr.children|] + values;
    }
  }

  lemma Popped(m: Shapes, links: Links, queue: seq<TreeNode>)
    requires Shaped(m, links) && queue != [] && Known(m, queue)
    ensures var rest := queue[1..] + links[queue[0]];
            Known(m, rest) && Trees(m, rest) == Trees(m, queue)[1..] + m[queue[0]].kids
    ensures |links[queue[0]]| == |m[queue[0]].kids|
  {
    var children := links[queue[0]];
    forall i: nat | i < |children|
      ensures children[i] in m && m[children[i]] == m[queue[0]].kids[i]
    {
      assert ChildAt(m, children, m[queue[0]], i);
    }
  }

  // ---------- Reading ----------

  /** Nodes in the queue wait for their children; all others have theirs. */
  ghost predicate Building(m: Shapes, links: Links, queue: seq<TreeNode>)
  {
    && m.Keys == links.Keys && Known(m, queue) && NoDup(queue)
    && forall n {:trigger m[n]} :: n in m ==>
         n.val == m[n].val && (if n in queue then links[n] == [] else Complete(m, links[n], m[n]))
  }

  ghost predicate SharedAt(links: Links, n: TreeNode, i: nat, k: TreeNode, j: nat)
  {
    n in links && k in links && i < |links[n]| && j < |links[k]| && links[n][i] == links[k][j]
  }

  /** No node is a child twice. */
  ghost predicate Unshared(links: Links)
  {
    forall n, k, i, j {:trigger SharedAt(links, n, i, k, j)} ::
      n in links && k in links && SharedAt(links, n, i, k, j) ==> n == k && i == j
  }

  ghost predicate ChildrenIn(links: Links)
  {
    forall n, i {:trigger links[n][i]} :: n in links && 0 <= i < |links[n]| ==> links[n][i] in links
  }

  ghost predicate Extends(m: Shapes, m': Shapes)
  {
    forall n :: n in m ==> n in m' && m'[n] == m[n]
  }

  /** New nodes and what they stand for. */
  ghost predicate Adds(m: Shapes, made: seq<TreeNode>, kids: seq<Tree>, m': Shapes)
  {
    && |made| == |kids| && NoDup(made) && Extends(m, m') && m'.Keys == m.Keys + (set n | n in made)
    && forall i :: 0 <= i < |made| ==>
         made[i] !in m && made[i] in m' && m'[made[i]] == kids[i] && made[i].val == kids[i].val
  }

  /** curr gets the new nodes as children, and they have none. */
  ghost predicate Hangs(links: Links, curr: TreeNode, made: seq<TreeNode>, links': Links)
  {
    && links'.Keys == links.Keys + (set n | n in made)
    && curr in links && links'[curr] == made
    && (forall n :: n in links && n != curr ==> n in links' && links'[n] == links[n])
    && forall i :: 0 <= i < |made| ==> made[i] !in links && made[i] in links' && links'[made[i]] == []
  }

  lemma CompleteLater(m: Shapes, m': Shapes, children: seq<TreeNode>, t: Tree)
    requires Extends(m, m') && Complete(m, children, t)
    ensures Complete(m', children, t)
  {
    forall i: nat {:trigger ChildAt(m', children, t, i)} | i < |children|
      ensures ChildAt(m', children, t, i)
    {
      assert ChildAt(m, children, t, i);
    }
  }

  lemma InNewQueue(queue: seq<TreeNode>, made: seq<TreeNode>, n: TreeNode)
    requires queue != [] && NoDup(queue)
    ensures n in queue[1..] + made <==> (n in queue && n != queue[0]) || n in made
  {
    assert queue == [queue[0]] + queue[1..];
    assert n in queue[1..] ==> n != queue[0];
  }

  lemma NewQueueNoDup(m: Shapes, queue: seq<TreeNode>, made: seq<TreeNode>)
    requires queue != [] && NoDup(queue) && Known(m, queue) && NoDup(made)
    requires forall i :: 0 <= i < |made| ==> made[i] !in m
    ensures NoDup(queue[1..] + made)
  {
    var q := queue[1..] + made;
    forall i, j | 0 <= i < j < |q|
      ensures q[i] != q[j]
    {
      var n := |queue| - 1;
      if i < n {
        assert q[i] == queue[i + 1] && queue[i + 1] in m;
      }
      if j < n {
        assert q[j] == queue[j + 1];
      }
    }
  }

  /** The state of one node that was there before. */
  lemma NodeStays(m: Shapes, links: Links, queue: seq<TreeNode>, made: seq<TreeNode>, m': Shapes, links': Links,
                  n: TreeNode)
    requires queue != [] && Building(m, links, queue) && n in m
    requires Adds(m, made, m[queue[0]].kids, m') && Hangs(links, queue[0], made, links')
    ensures n in m' && n in links' && n.val == m'[n].val
    ensures if n in queue[1..] + made then links'[n] == [] else Complete(m', links'[n], m'[n])
  {
    InNewQueue(queue, made, n);
    assert n.val == m[n].val && n !in made;
    if n == queue[0] {
      forall i: nat {:trigger ChildAt(m', made, m[n], i)} | i < |made|
        ensures ChildAt(m', made, m[n], i)
      {}
    } else if n !in queue {
      CompleteLater(m, m', links[n], m[n]);
    }
  }

  lemma ExpandBuilds(m: Shapes, links: Links, queue: seq<TreeNode>, made: seq<TreeNode>, m': Shapes, links': Links)
    requires queue != [] && Building(m, links, queue)
    requires Adds(m, made, m[queue[0]].kids, m') && Hangs(links, queue[0], made, links')
    ensures Building(m', links', queue[1..] + made)
  {
    NewQueueNoDup(m, queue, made);
    ExpandTrees(m, queue, made, m');
    forall n {:trigger m'[n]} | n in m'
      ensures n.val == m'[n].val && (if n in queue[1..] + made then links'[n] == [] else Complete(m', links'[n], m'[n]))
    {
      if n in m {
        NodeStays(m, links, queue, made, m', links', n);
      } else {
        var i :| 0 <= i < |made| && made[i] == n;
        assert made[i] in queue[1..] + made;
      }
    }
  }

  lemma ExpandUnshared(links: Links, curr: TreeNode, made: seq<TreeNode>, links': Links)
    requires Unshared(links) && ChildrenIn(links) && Hangs(links, curr, made, links')
    requires NoDup(made) && links[curr] == []
    ensures Unshared(links') && ChildrenIn(links')
  {
    forall n, i | n in links' && 0 <= i < |links'[n]|
      ensures links'[n][i] in links'
      ensures n in links && if n == curr then links'[n][i] !in links else links'[n][i] in links
    {
      assert n in made || n in links;
    }
    forall n, k, i, j {:trigger SharedAt(links', n, i, k, j)}
      | n in links' && k in links' && SharedAt(links', n, i, k, j)
      ensures n == k && i == j
    {
      assert n == curr <==> k == curr;
      if n != curr {
        assert SharedAt(links, n, i, k, j);
      }
    }
  }

  lemma ExpandTrees(m: Shapes, queue: seq<TreeNode>, made: seq<TreeNode>, m': Shapes)
    requires queue != [] && Known(m, queue) && Adds(m, made, m[queue[0]].kids, m')
    ensures Known(m', queue[1..] + made)
    ensures Trees(m', queue[1..] + made) == Trees(m, queue)[1..] + m[queue[0]].kids
  {
    var q, n := queue[1..] + made, |queue| - 1;
    var ts := Trees(m, queue)[1..] + m[queue[0]].kids;
    forall i | 0 <= i < |q|
      ensures q[i] in m' && m'[q[i]] == ts[i]
    {
      if i < n {
        assert q[i] == queue[i + 1] && queue[i + 1] in m;
      } else {
        assert q[i] == made[i - n];
      }
    }
  }

  ghost function Assigned(m: Shapes, made: seq<TreeNode>, kids: seq<Tree>): Shapes
    requires |made| == |kids|
  {
    if made == [] then m
    else var n := |made| - 1; Assigned(m, made[..n], kids[..n])[made[n] := kids[n]]
  }

  lemma AddsOne(m: Shapes, made: seq<TreeNode>, kids: seq<Tree>, m': Shapes, n: TreeNode, t: Tree)
    requires Adds(m, made, kids, m') && n !in m && n !in made && n.val == t.val
    ensures Adds(m, made + [n], kids + [t], m'[n := t])
  {}

  lemma {:induction false} AssignedAdds(m: Shapes, made: seq<TreeNode>, kids: seq<Tree>)
    requires |made| == |kids| && NoDup(made)
    requires forall i :: 0 <= i < |made| ==> made[i] !in m && made[i].val == kids[i].val
    ensures Adds(m, made, kids, Assigned(m, made, kids))
  {
    if made != [] {
      var n := |made| - 1;
      AssignedAdds(m, made[..n], kids[..n]);
      AddsOne(m, made[..n], kids[..n], Assigned(m, made[..n], kids[..n]), made[n], kids[n]);
      assert made == made[..n] + [made[n]] && kids == kids[..n] + [kids[n]];
    }
  }

  /** The inner loop: new nodes become the children of curr. */
  method ReadChildren(curr: TreeNode, count: int, text: seq<int>, ghost kids: seq<Tree>)
    returns (rest: seq<int>, made: seq<TreeNode>)
    requires curr.children == [] && Count(count) == |kids| && Values(kids) <= text
    modifies curr`children
    ensures rest == text[|kids|..] && curr.children == made && |made| == |kids| && NoDup(made)
    ensures forall i :: 0 <= i < |kids| ==> fresh(made[i]) && made[i].val == kids[i].val && made[i].children == []
  {
    rest, made := text, [];
    var i := 0;
    while i < count
      invariant 0 <= i <= |kids| && rest == text[i..] && curr.children == made && |made| == i && NoDup(made)
      invariant forall k :: 0 <= k < i ==> fresh(made[k]) && made[k] != curr && made[k].val == kids[k].val
      invariant forall k :: 0 <= k < i ==> made[k].children == []
      decreases |kids| - i
    {
      var newNode := new TreeNode(rest[0]);
      assert text[i] == Values(kids)[i];
      rest := rest[1..];
      curr.children := curr.children + [newNode];
      made := made + [newNode];
      i := i + 1;
    }
  }

  ghost predicate Progress(m: Shapes, links: Links, queue: seq<TreeNode>, text: seq<int>, left: seq<int>)
  {
    Building(m, links, queue) && Unshared(links) && ChildrenIn(links) && Spells(Trees(m, queue), text, left)
  }

  lemma {:induction false} ExpandProgress(m: Shapes, links: Links, queue: seq<TreeNode>, text: seq<int>, left: seq<int>,
                                          made: seq<TreeNode>, m': Shapes, links': Links)
    requires queue != [] && Progress(m, links, queue, text, left)
    requires Adds(m, made, m[queue[0]].kids, m') && Hangs(links, queue[0], made, links')
    ensures |text| > |made| && Progress(m', links', queue[1..] + made, text[1 + |made|..], left)
    ensures SizeAll(Trees(m', queue[1..] + made)) < SizeAll(Trees(m, queue))
  {
    ExpandBuilds(m, links, queue, made, m', links');
    ExpandUnshared(links, queue[0], made, links');
    ExpandTrees(m, queue, made, m');
    SizePop(Trees(m, queue));
  }

  /** One round of the loop: the first node of the queue gets its children, which join the queue. */
  method Expand(queue: seq<TreeNode>, text: seq<int>, ghost m: Shapes, ghost links: Links, ghost left: seq<int>)
    returns (queue': seq<TreeNode>, rest: seq<int>, ghost m': Shapes, ghost links': Links)
    requires queue != [] && InMemory(links) && Progress(m, links, queue, text, left)
    modifies queue[0]
    ensures InMemory(links') && Extends(m, m') && Progress(m', links', queue', rest, left) && fresh(m'.Keys - m.Keys)
    ensures SizeAll(Trees(m', queue')) < SizeAll(Trees(m, queue))
  {
    var curr, count := queue[0], text[0];
    ghost var kids := m[curr].kids;
    assert curr.children == links[curr];
    var made;
    rest, made := ReadChildren(curr, count, text[1..], kids);
    assert rest == text[1 + |made|..];
    queue' := queue[1..] + made;
    AssignedAdds(m, made, kids);
    m' := Assigned(m, made, kids);
    links' := map n | n in m' :: n.children;
    ExpandProgress(m, links, queue, text, left, made, m', links');
  }

  lemma AllComplete(m: Shapes, links: Links, text: seq<int>, left: seq<int>)
    requires Progress(m, links, [], text, left)
    ensures Shaped(m, links) && text == left
  {}

  lemma {:induction false} FirstNode(root: TreeNode, t: Tree, text: seq<int>, left: seq<int>)
    requires text != [] && root.val == text[0] == t.val && Spells([t], text[1..], left)
    ensures Progress(map[root := t], map[root := []], [root], text[1..], left)
  {
    assert Trees(map[root := t], [root]) == [t];
  }

  /**
   From any text that holds the numbers its counts ask for: new nodes that form the tree it tells, none of them
   shared; what follows is not read. On a shorter text the source would use a count that was never read.
   */
  method Deserialize(text: seq<int>)
    returns (root: TreeNode?, rest: seq<int>, ghost m: Shapes, ghost links: Links)
    requires text != [] ==> Readable(1, text[1..])
    ensures root == null <==> text == []
    ensures root == null ==> rest == []
    ensures InMemory(links) && Shaped(m, links) && Unshared(links) && fresh(m.Keys)
    ensures root != null ==> root in m && m[root].val == text[0] && Spells([m[root]], text[1..], rest)
  {
    if text == [] {
      return null, [], map[], map[];
    }
    ghost var told, left := ReadableIsSpelled([text[0]], text[1..]);
    ghost var t := told[0];
    assert told == [t] && Values(told)[0] == t.val;
    var first := new TreeNode(text[0]);
    root, rest, m, links := first, text[1..], map[first := t], map[first := []];
    var queue := [first];
    FirstNode(first, t, text, left);
    while queue != []
      invariant InMemory(links) && Progress(m, links, queue, rest, left)
      invariant fresh(m.Keys) && first in m && m[first] == t
      decreases SizeAll(if Known(m, queue) then Trees(m, queue) else [])
    {
      queue, rest, m, links := Expand(queue, rest, m, links, left);
    }
    AllComplete(m, links, rest, left);
  }

  /** Writing and reading back gives the same tree on new nodes, and reads every number. */
  method RoundTrip(root: TreeNode?, ghost m: Shapes, ghost links: Links)
    returns (root': TreeNode?, rest: seq<int>, ghost m': Shapes, ghost links': Links)
    requires InMemory(links) && Shaped(m, links) && (root != null ==> root in m)
    ensures rest == [] && (root == null <==> root' == null)
    ensures InMemory(links') && Shaped(m', links') && Unshared(links') && fresh(m'.Keys)
    ensures root != null ==> root' in m' && m'[root'] == m[root]
  {
    var text := Serialize(root, m, links);
    if root != null {
      TextIsSpelled(m[root], []);
    }
    root', rest, m', links' := Deserialize(text);
    if root != null {
      SpellsOneTree(m[root], m'[root'], text[1..], [], rest);
    }
  }

  lemma {:induction false} TextIsSpelled(t: Tree, x: seq<int>)
    ensures (Text(t) + x)[0] == t.val && Spells([t], (Text(t) + x)[1..], x) && Readable(1, (Text(t) + x)[1..])
    ensures x == [] ==> (Text(t) + x)[1..] == Text(t)[1..]
  {
    assert (Text(t) + x)[1..] == Pending([t]) + x;
    WrittenIsSpelled([t], x);
    SpelledIsReadable([t], Pending([t]) + x, x);
  }

  // ---------- The text is unambiguous ----------

  /** The queues after one step decide the queues before it. */
  lemma {:induction false} SameQueue(q: seq<Tree>, r: seq<Tree>)
    requires q != [] && r != [] && |q| == |r| && q[0].val == r[0].val
    requires q[1..] + q[0].kids == r[1..] + r[0].kids
    ensures q == r
  {
    var q', r' := q[1..] + q[0].kids, r[1..] + r[0].kids;
    assert q[1..] == q'[..|q| - 1] && r[1..] == r'[..|r| - 1];
    assert q[0].kids == q'[|q| - 1..] && r[0].kids == r'[|r| - 1..];
    assert q == [q[0]] + q[1..] && r == [r[0]] + r[1..];
  }

  lemma {:induction false} NextValues(q: seq<Tree>, r: seq<Tree>)
    requires q != [] && Values(q) == Values(r) && Values(q[0].kids) == Values(r[0].kids)
    ensures |q| == |r| && Values(q[1..] + q[0].kids) == Values(r[1..] + r[0].kids)
  {
    assert |q| == |Values(q)| == |Values(r)| == |r|;
    assert Values(q[1..] + q[0].kids) == Values(q)[1..] + Values(q[0].kids);
    assert Values(r[1..] + r[0].kids) == Values(r)[1..] + Values(r[0].kids);
  }

  lemma {:induction false} SpellsDecides(q: seq<Tree>, r: seq<Tree>, text: seq<int>, x: seq<int>, y: seq<int>)
    requires Values(q) == Values(r) && Spells(q, text, x) && Spells(r, text, y)
    ensures q == r && x == y
    decreases SizeAll(q)
  {
    assert |q| == |Values(q)| == |Values(r)| == |r|;
    if q != [] {
      SizePop(q);
      var k, l := q[0].kids, r[0].kids;
      assert Values(k) == text[1..][..|k|] == Values(l);
      NextValues(q, r);
      SpellsDecides(q[1..] + k, r[1..] + l, text[1 + |k|..], x, y);
      assert q[0].val == Values(q)[0] == Values(r)[0] == r[0].val;
      SameQueue(q, r);
    }
  }

  lemma {:induction false} SpellsOneTree(t: Tree, u: Tree, text: seq<int>, x: seq<int>, y: seq<int>)
    requires t.val == u.val && Spells([t], text, x) && Spells([u], text, y)
    ensures t == u && x == y
  {
    assert Values([t]) == [t.val] && Values([u]) == [u.val];
    SpellsDecides([t], [u], text, x, y);
    assert [t][0] == [u][0];
  }

  /** No text is a beginning of another one, and different trees have different texts. */
  lemma {:induction false} TextDecides(t: Tree, u: Tree, x: seq<int>, y: seq<int>)
    requires Text(t) + x == Text(u) + y
    ensures t == u && x == y
  {
    TextIsSpelled(t, x);
    TextIsSpelled(u, y);
    SpellsOneTree(t, u, (Text(t) + x)[1..], x, y);
  }
}
