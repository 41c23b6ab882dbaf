/**
 Whether a set of "greater than" facts sorts a list in exactly one way: a depth-first
 search for cycles, then a post-order that checks every two consecutive elements for an edge.
 */
module SortAttempt {
  import opened Sequences
  import opened Wrappers

  /** The elements known to be smaller than each element. */
  type Relations = map<int, seq<int>>

  ghost predicate WellFormed(g: Relations)
  {
    forall a, b :: a in g && b in g[a] ==> b in g
  }

  /** An ordering of some elements in which each comes after all elements known to be smaller. */
  ghost predicate Closed(g: Relations, o: seq<int>)
  {
    && NoDup(o)
    && (forall x :: x in o ==> x in g)
    && (forall i, c :: 0 <= i < |o| && c in g[o[i]] ==> c in o[..i])
  }

  /** An ordering of all elements that satisfies all relations. */
  ghost predicate Sorts(g: Relations, o: seq<int>)
  {
    Closed(g, o) && forall x :: x in g ==> x in o
  }

  ghost predicate OnlySort(g: Relations, o: seq<int>)
  {
    Sorts(g, o) && forall o' :: Sorts(g, o') ==> o' == o
  }

  ghost predicate SortsUniquely(g: Relations)
  {
    exists o :: OnlySort(g, o)
  }

  // ---------- Building orderings ----------

  lemma ClosedAppend(g: Relations, o: seq<int>, x: int)
    requires Closed(g, o) && x in g && x !in o && forall c :: c in g[x] ==> c in o
    ensures Closed(g, o + [x])
  {
    var p := o + [x];
    assert forall y :: y in p ==> y in g;
    forall i, c | 0 <= i < |p| && c in g[p[i]]
      ensures c in p[..i]
    {
      assert p[..i] == o[..i];
      assert o[..|o|] == o;
    }
  }

  lemma {:induction false} ClosedBeginning(g: Relations, o: seq<int>, n: nat)
    requires Closed(g, o) && n <= |o|
    ensures Closed(g, o[..n])
  {
    var p := o[..n];
    assert forall i :: 0 <= i < n ==> p[i] == o[i] && o[i] in o;
    forall i | 0 <= i < n
      ensures p[..i] == o[..i]
    {}
  }

  /** o followed by the elements of p[k..] it misses. */
  ghost function Complete(o: seq<int>, p: seq<int>, k: nat): seq<int>
    decreases |p| - k
  {
    if k >= |p| then o
    else if p[k] in o then Complete(o, p, k + 1)
    else Complete(o + [p[k]], p, k + 1)
  }

  ghost predicate Within(p: seq<int>, o: seq<int>)
  {
    forall x :: x in p ==> x in o
  }

  lemma WithinNext(p: seq<int>, k: nat, o: seq<int>, o': seq<int>)
    requires k < |p| && Within(p[..k], o) && o <= o' && p[k] in o'
    ensures Within(p[..k + 1], o')
  {
    assert p[..k + 1] == p[..k] + [p[k]];
    assert forall x :: x in o ==> x in o';
  }

  lemma {:induction false} CompleteSorts(g: Relations, o: seq<int>, p: seq<int>, k: nat)
    requires Closed(g, o) && Sorts(g, p) && k <= |p| && Within(p[..k], o)
    ensures Sorts(g, Complete(o, p, k)) && o <= Complete(o, p, k)
    decreases |p| - k
  {
    if k == |p| {
      assert p[..k] == p;
    } else {
      var o' := if p[k] in o then o else o + [p[k]];
      if p[k] !in o {
        ClosedAppend(g, o, p[k]);
      }
      WithinNext(p, k, o, o');
      CompleteSorts(g, o', p, k + 1);
    }
  }

  // ---------- Uniqueness ----------

  /** Each element is known to be greater than the one just before it. */
  ghost predicate Chained(g: Relations, o: seq<int>)
  {
    forall i :: 0 < i < |o| ==> o[i] in g && o[i - 1] in g[o[i]]
  }

  lemma ChainedAppend(g: Relations, o: seq<int>, x: int)
    requires Chained(g, o) && x in g && (o != [] ==> o[|o| - 1] in g[x])
    ensures Chained(g, o + [x])
  {}

  /** Where two orderings agree so far and the first is chained, their next elements agree too. */
  lemma {:induction false} SameNext(g: Relations, o: seq<int>, p: seq<int>, k: nat)
    requires Sorts(g, o) && Chained(g, o) && Sorts(g, p) && k < |p| && k <= |o| && p[..k] == o[..k]
    ensures k < |o| && p[k] == o[k]
  {
    var m := PlaceOf(g, o, p, k);
    NotBefore(p, o, k, m);
    if m > 0 {
      ChainedAt(g, o, m);
      SmallerBefore(g, p, k, o[m - 1]);
      BeforePlace(o, k, m - 1);
    }
  }

  lemma PlaceOf(g: Relations, o: seq<int>, p: seq<int>, k: nat) returns (m: nat)
    requires Sorts(g, o) && Sorts(g, p) && k < |p|
    ensures m < |o| && o[m] == p[k] && p[k] in g
  {
    assert p[k] in p;
    m :| m < |o| && o[m] == p[k];
  }

  lemma NotBefore(p: seq<int>, o: seq<int>, k: nat, m: nat)
    requires NoDup(p) && k < |p| && k <= |o| && p[..k] == o[..k] && m < |o| && o[m] == p[k]
    ensures k <= m
  {
    assert forall q :: 0 <= q < k ==> p[q] == p[..k][q] && o[q] == o[..k][q];
  }

  lemma ChainedAt(g: Relations, o: seq<int>, m: nat)
    requires Chained(g, o) && 0 < m < |o|
    ensures o[m] in g && o[m - 1] in g[o[m]]
  {}

  lemma SmallerBefore(g: Relations, p: seq<int>, k: nat, c: int)
    requires Closed(g, p) && k < |p| && p[k] in g && c in g[p[k]]
    ensures c in p[..k]
  {}

  lemma BeforePlace(o: seq<int>, k: nat, i: nat)
    requires NoDup(o) && k <= |o| && i < |o| && o[i] in o[..k]
    ensures i < k
  {
    var q :| 0 <= q < k && o[..k][q] == o[i];
    assert o[q] == o[i];
  }

  lemma {:induction false} ChainedPrefix(g: Relations, o: seq<int>, p: seq<int>, k: nat)
    requires Sorts(g, o) && Chained(g, o) && Sorts(g, p) && k <= |p|
    ensures k <= |o| && p[..k] == o[..k]
  {
    if k > 0 {
      ChainedPrefix(g, o, p, k - 1);
      SameNext(g, o, p, k - 1);
      assert p[..k] == p[..k - 1] + [p[k - 1]] && o[..k] == o[..k - 1] + [o[k - 1]];
    }
  }

  lemma PrefixIsAll(g: Relations, p: seq<int>, o: seq<int>)
    requires Sorts(g, p) && Sorts(g, o) && |p| <= |o| && p[..] == o[..|p|]
    ensures p == o
  {
    if o != [] {
      var last := o[|o| - 1];
      assert last in o;
      var j :| 0 <= j < |p| && p[j] == last;
      assert p[..][j] == o[..|p|][j] == o[j];
    }
  }

  lemma ChainedIsOnly(g: Relations, o: seq<int>, p: seq<int>)
    requires Sorts(g, o) && Chained(g, o) && Sorts(g, p)
    ensures p == o
  {
    ChainedPrefix(g, o, p, |p|);
    assert p[..] == p[..|p|];
    PrefixIsAll(g, p, o);
  }

  /** A chained ordering is the only one. */
  lemma ChainedIsUnique(g: Relations, o: seq<int>)
    requires Sorts(g, o) && Chained(g, o)
    ensures SortsUniquely(g)
  {
    forall p | Sorts(g, p) {
      ChainedIsOnly(g, o, p);
    }
    assert OnlySort(g, o);
  }

  /** Where two consecutive elements of a post-order are unrelated, both of their orders complete. */
  lemma UnchainedIsNotUnique(g: Relations, o: seq<int>, x: int, p: seq<int>)
    requires Sorts(g, p) && Closed(g, o) && o != []
    requires x in g && x !in o && o[|o| - 1] !in g[x] && forall c :: c in g[x] ==> c in o
    ensures !SortsUniquely(g)
  {
    var n := |o| - 1;
    var y, o0 := o[n], o[..n];
    assert o == o0 + [y];
    ClosedBeginning(g, o, n);
    ClosedAppend(g, o, x);
    ClosedAppend(g, o0, x);
    forall c | c in g[y]
      ensures c in o0 + [x]
    {
      assert c in g[o[n]];
    }
    ClosedAppend(g, o0 + [x], y);
    CompleteSorts(g, o + [x], p, 0);
    CompleteSorts(g, o0 + [x] + [y], p, 0);
    assert Complete(o + [x], p, 0)[n] == y && Complete(o0 + [x] + [y], p, 0)[n] == x;
  }

  // ---------- Cycles ----------

  /** A path along relations, from greater to smaller. */
  ghost predicate Path(g: Relations, p: seq<int>)
  {
    (forall x :: x in p ==> x in g) && forall i :: 0 <= i && i + 1 < |p| ==> p[i + 1] in g[p[i]]
  }

  ghost predicate Cyclic(g: Relations)
  {
    exists p :: Path(g, p) && |p| >= 2 && p[0] == p[|p| - 1]
  }

  lemma {:induction false} PathDescends(g: Relations, o: seq<int>, p: seq<int>, k: nat)
    requires Closed(g, o) && Path(g, p) && |p| >= 2 && k < |o| && o[k] == p[0]
    ensures p[|p| - 1] in o[..k]
    decreases |p|
  {
    assert p[1] in g[o[k]];
    var k' :| 0 <= k' < k && o[k'] == p[1];
    if |p| > 2 {
      PathDescends(g, o, p[1..], k');
    }
  }

  lemma CyclicHasNoOrder(g: Relations, o: seq<int>)
    requires Cyclic(g)
    ensures !Sorts(g, o)
  {
    var p :| Path(g, p) && |p| >= 2 && p[0] == p[|p| - 1];
    if Sorts(g, o) {
      assert p[0] in o;
      var k :| 0 <= k < |o| && o[k] == p[0];
      PathDescends(g, o, p, k);
    }
  }

  lemma BackEdgeIsCyclic(g: Relations, path: seq<int>, x: int)
    requires Path(g, path + [x]) && x in path
    ensures Cyclic(g)
  {
    var i :| 0 <= i < |path| && path[i] == x;
    var p := (path + [x])[i..];
    assert Path(g, p);
  }

  lemma NotOnPath(g: Relations, path: seq<int>, x: int, o: seq<int>)
    requires Path(g, path + [x]) && Sorts(g, o)
    ensures x !in path
  {
    if x in path {
      BackEdgeIsCyclic(g, path, x);
      CyclicHasNoOrder(g, o);
    }
  }

  class Graph {
    var children: Relations
    var ids: seq<int>  // the elements, in the order the node map is iterated
    var visited: set<int>
    var onStack: set<int>
    var topsortLast: Option<int>

    ghost predicate Valid()
      reads this
    {
      WellFormed(children) && (forall x :: x in ids <==> x in children)
    }

    /** Between calls of a search: what is finished is closed, the rest of what was visited is the path. */
    ghost predicate Searching(post: seq<int>, path: seq<int>)
      reads this
    {
      && Valid() && Closed(children, post) && Path(children, path)
      && (forall x :: x in visited <==> x in post || x in path)
      && (forall x :: x in path ==> x !in post)
    }

    lemma Finish(post: seq<int>, path: seq<int>, node: int)
      requires Searching(post, path + [node]) && node !in path && forall c :: c in children[node] ==> c in post
      ensures Searching(post + [node], path)
    {
      assert node in path + [node];
      assert forall x :: x in path ==> x in path + [node];
      ClosedAppend(children, post, node);
      assert forall i :: 0 <= i < |path| ==> path[i] == (path + [node])[i];
    }

    method CycleDetect(node: int, ghost post: seq<int>, ghost path: seq<int>) returns (ok: bool, ghost post': seq<int>)
      requires Searching(post, path) && Path(children, path + [node])
      requires forall x :: x in onStack <==> x in path
      modifies this`visited, this`onStack
      ensures !ok ==> Cyclic(children)
      ensures ok ==> Searching(post', path) && post <= post' && node in post' && onStack == old(onStack)
      ensures old(visited) <= visited
      decreases children.Keys - visited, 0
    {
      post' := post;
      assert node in path + [node];
      if node in onStack {
        BackEdgeIsCyclic(children, path, node);
        return false, post;
      }
      if node in visited {
        return true, post;
      }
      visited := visited + {node};
      onStack := onStack + {node};
      ok, post' := CycleDetectChildren(node, post, path);
      if !ok {
        return;
      }
      onStack := onStack - {node};
      Finish(post', path, node);
      post' := post' + [node];
    }

    method CycleDetectChildren(node: int, ghost post: seq<int>, ghost path: seq<int>)
        returns (ok: bool, ghost post': seq<int>)
      requires node !in path && node !in post && Searching(post, path + [node])
      requires forall x :: x in onStack <==> x in path + [node]
      modifies this`visited, this`onStack
      ensures !ok ==> Cyclic(children)
      ensures ok ==> Searching(post', path + [node]) && post <= post' && onStack == old(onStack)
      ensures ok ==> forall c :: c in children[node] ==> c in post'
      ensures old(visited) <= visited
      decreases children.Keys - visited, 1
    {
      post' := post;
      assert node in path + [node];
      var it := children[node];
      for i := 0 to |it|
        invariant Searching(post', path + [node]) && post <= post' && onStack == old(onStack)
        invariant forall j :: 0 <= j < i ==> it[j] in post'
        invariant old(visited) <= visited
      {
        ok, post' := CycleDetect(it[i], post', path + [node]);
        if !ok {
          return;
        }
      }
      ok := true;
    }

    method NoCycles() returns (ok: bool, ghost post: seq<int>)
      requires Valid()
      modifies this`visited, this`onStack
      ensures ok ==> Sorts(children, post)
      ensures !ok ==> Cyclic(children)
    {
      visited, onStack, post := {}, {}, [];
      for i := 0 to |ids|
        invariant Searching(post, []) && onStack == {}
        invariant forall j :: 0 <= j < i ==> ids[j] in post
      {
        assert [] + [ids[i]] == [ids[i]];
        ok, post := CycleDetect(ids[i], post, []);
        if !ok {
          return;
        }
      }
      ok := true;
    }

    /** The post-order so far is chained and ends in topsortLast. */
    ghost predicate Chaining(post: seq<int>)
      reads this
    {
      Chained(children, post) && topsortLast == if post == [] then None else Some(post[|post| - 1])
    }

    method TopsortInternal(node: int, ghost post: seq<int>, ghost path: seq<int>, ghost order: seq<int>)
        returns (ok: bool, ghost post': seq<int>)
      requires Sorts(children, order)
      requires Searching(post, path) && Chaining(post) && Path(children, path + [node])
      modifies this`visited, this`topsortLast
      ensures !ok ==> !SortsUniquely(children)
      ensures ok ==> Searching(post', path) && Chaining(post') && post <= post' && node in post'
      ensures old(visited) <= visited
      decreases children.Keys - visited, 0
    {
      post' := post;
      assert node in path + [node];
      if node in visited {
        NotOnPath(children, path, node, order);
        return true, post;
      }
      visited := visited + {node};
      ok, post' := TopsortChildren(node, post, path, order);
      if !ok {
        return;
      }
      if topsortLast != None && topsortLast.value !in children[node] {
        UnchainedIsNotUnique(children, post', node, order);
        return false, post';
      }
      ChainedAppend(children, post', node);
      topsortLast := Some(node);
      Finish(post', path, node);
      post' := post' + [node];
    }

    method TopsortChildren(node: int, ghost post: seq<int>, ghost path: seq<int>, ghost order: seq<int>)
        returns (ok: bool, ghost post': seq<int>)
      requires Sorts(children, order)
      requires node !in path && node !in post && Searching(post, path + [node]) && Chaining(post)
      modifies this`visited, this`topsortLast
      ensures !ok ==> !SortsUniquely(children)
      ensures ok ==> Searching(post', path + [node]) && Chaining(post') && post <= post'
      ensures ok ==> forall c :: c in children[node] ==> c in post'
      ensures old(visited) <= visited
      decreases children.Keys - visited, 1
    {
      post' := post;
      assert node in path + [node];
      var it := children[node];
      for i := 0 to |it|
        invariant Searching(post', path + [node]) && Chaining(post') && post <= post'
        invariant forall j :: 0 <= j < i ==> it[j] in post'
        invariant old(visited) <= visited
      {
        ok, post' := TopsortInternal(it[i], post', path + [node], order);
        if !ok {
          return;
        }
      }
      ok := true;
    }

    method UniqueTopsort(ghost order: seq<int>) returns (ok: bool)
      requires Valid() && Sorts(children, order)
      modifies this`visited, this`topsortLast
      ensures ok <==> SortsUniquely(children)
    {
      topsortLast := None;
      visited := {};
      ghost var post: seq<int> := [];
      for i := 0 to |ids|
        invariant Searching(post, []) && Chaining(post)
        invariant forall j :: 0 <= j < i ==> ids[j] in post
      {
        assert [] + [ids[i]] == [ids[i]];
        ok, post := TopsortInternal(ids[i], post, [], order);
        if !ok {
          return;
        }
      }
      ok := true;
      ChainedIsUnique(children, post);
    }

    /** True exactly when one and only one ordering satisfies all relations. */
    method IsSortable() returns (res: bool)
      requires Valid()
      modifies this`visited, this`onStack, this`topsortLast
      ensures res <==> SortsUniquely(children)
    {
      ghost var order;
      res, order := NoCycles();
      if res {
        res := UniqueTopsort(order);
      } else {
        if SortsUniquely(children) {
          var o :| OnlySort(children, o);
          CyclicHasNoOrder(children, o);
        }
      }
    }
  }
}
