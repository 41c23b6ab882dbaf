/** Dijkstra's algorithm with an ordered set as its queue and UINT_MAX as its infinity. */
module Dijkstra {
  import opened Wrappers
  import opened Unsigned

  datatype Edge = Edge(cost: nat, target: int)

  type Adjacency = map<int, seq<Edge>>

  ghost predicate WellFormed(g: Adjacency)
  {
    forall u, e :: u in g && e in g[u] ==> e.target in g && e.cost <= UINT_MAX
  }

  // ---------- Walks ----------

  datatype Walk = Start | Step(before: Walk, edge: Edge)

  function End(source: int, w: Walk): int
  {
    if w.Start? then source else w.edge.target
  }

  function Cost(w: Walk): nat
  {
    if w.Start? then 0 else Cost(w.before) + w.edge.cost
  }

  function Visits(source: int, w: Walk): seq<int>
  {
    if w.Start? then [source] else Visits(source, w.before) + [w.edge.target]
  }

  ghost predicate IsWalk(g: Adjacency, source: int, w: Walk)
  {
    w.Step? ==> IsWalk(g, source, w.before) && End(source, w.before) in g && w.edge in g[End(source, w.before)]
  }

  ghost predicate Simple(source: int, w: Walk)
  {
    w.Step? ==> Simple(source, w.before) && w.edge.target !in Visits(source, w.before)
  }

  ghost predicate WalkTo(g: Adjacency, source: int, v: int, w: Walk)
  {
    IsWalk(g, source, w) && End(source, w) == v
  }

  /** No walk to v costs less than c. */
  ghost predicate AtLeast(g: Adjacency, source: int, v: int, c: nat)
  {
    forall w :: WalkTo(g, source, v, w) ==> c <= Cost(w)
  }

  /**
   A shortest path and one more edge, to a new node that is not nearer, stay below the value that stands for
   infinity. These are the only sums that the program compares.
   */
  ghost predicate NoOverflow(g: Adjacency, source: int)
  {
    forall w, e :: Shortest(g, source, w) && Continues(g, source, w, e) ==> Cost(w) + e.cost < UINT_MAX
  }

  ghost predicate Shortest(g: Adjacency, source: int, w: Walk)
  {
    IsWalk(g, source, w) && Simple(source, w) && AtLeast(g, source, End(source, w), Cost(w))
  }

  ghost predicate Continues(g: Adjacency, source: int, w: Walk, e: Edge)
  {
    && End(source, w) in g && e in g[End(source, w)] && e.target !in Visits(source, w)
    && AtLeast(g, source, e.target, Cost(w))
  }

  /** d is the least cost of a walk to v, or infinity when there is none. */
  ghost predicate IsDistance(g: Adjacency, source: int, v: int, d: nat)
  {
    if d == UINT_MAX then
      forall w :: IsWalk(g, source, w) ==> End(source, w) != v
    else
      && (exists w :: IsWalk(g, source, w) && End(source, w) == v && Cost(w) == d)
      && (forall w :: IsWalk(g, source, w) && End(source, w) == v ==> d <= Cost(w))
  }

  lemma DistanceIsUnique(g: Adjacency, source: int, v: int, d: nat, d': nat)
    requires IsDistance(g, source, v, d) && IsDistance(g, source, v, d')
    ensures d == d'
  {}

  /** Following prev from the end of w leads back along w. */
  ghost predicate Follows(prev: map<int, Option<int>>, source: int, w: Walk)
  {
    && End(source, w) in prev
    && match w
       case Start => prev[source] == None
       case Step(b, e) => prev[e.target] == Some(End(source, b)) && Follows(prev, source, b)
  }

  /** Graphs in which no simple path costs as much as infinity are among those. */
  lemma {:induction false} CheapPathsDoNotOverflow(g: Adjacency, source: int)
    requires forall w :: IsWalk(g, source, w) && Simple(source, w) ==> Cost(w) < UINT_MAX
    ensures NoOverflow(g, source)
  {
    forall w, e | Shortest(g, source, w) && Continues(g, source, w, e)
      ensures Cost(w) + e.cost < UINT_MAX
    {
      var longer := Step(w, e);
      assert IsWalk(g, source, longer) && Simple(source, longer);
    }
  }

  // ---------- The queue's order ----------

  predicate Less(d: map<int, nat>, a: int, b: int)
    requires a in d && b in d
  {
    d[a] < d[b] || (d[a] == d[b] && a < b)
  }

  predicate Equivalent(d: map<int, nat>, a: int, b: int)
    requires a in d && b in d
  {
    !Less(d, a, b) && !Less(d, b, a)
  }

  predicate IsFirst(d: map<int, nat>, queue: set<int>, n: int)
    requires queue <= d.Keys
  {
    n in queue && forall m :: m in queue ==> !Less(d, m, n)
  }

  lemma {:induction false} FirstExists(d: map<int, nat>, queue: set<int>)
    requires queue != {} && queue <= d.Keys
    ensures exists n :: IsFirst(d, queue, n)
    decreases queue
  {
    assert (forall y :: y !in queue) ==> queue == {};
    var x :| x in queue;
    var rest := queue - {x};
    assert forall m :: m in queue ==> m == x || m in rest;
    if rest == {} {
      assert IsFirst(d, queue, x);
    } else {
      FirstExists(d, rest);
      var y :| IsFirst(d, rest, y);
      assert IsFirst(d, queue, if Less(d, x, y) then x else y);
    }
  }

  // ---------- What holds while the queue is emptied ----------

  /** The labels, and for every labelled node a walk that accounts for its label. */
  datatype Labels = Labels(distance: map<int, nat>, prev: map<int, Option<int>>, walks: map<int, Walk>)

  /** Every labelled node has a simple walk through finished nodes of exactly that cost. */
  ghost predicate Witnessed(g: Adjacency, source: int, done: set<int>, k: Labels, v: int)
    requires v in k.distance && v in k.prev
  {
    if k.distance[v] >= UINT_MAX then k.distance[v] == UINT_MAX && k.prev[v] == None
    else
      && v in k.walks
      && var w := k.walks[v];
         && IsWalk(g, source, w) && Simple(source, w) && End(source, w) == v && Cost(w) == k.distance[v]
         && (forall x :: x in Visits(source, w) ==> x == v || x in done)
         && (w.Start? ==> k.prev[v] == None)
         && (w.Step? ==>
               var u := End(source, w.before);
               && k.prev[v] == Some(u) && u in done && u in k.walks && k.walks[u] == w.before
               && u in k.distance && k.distance[u] <= k.distance[v])
  }

  /** An edge out of a finished node cannot shorten anything any more. */
  ghost predicate Relaxed(d: map<int, nat>, u: int, e: Edge)
    requires u in d && e.target in d
  {
    d[u] < UINT_MAX ==> d[e.target] < UINT_MAX && d[e.target] <= d[u] + e.cost
  }

  /** b separates the labels of the finished nodes from those still in the queue. */
  ghost predicate Inv(g: Adjacency, source: int, done: set<int>, b: nat, k: Labels)
  {
    && k.distance.Keys == g.Keys == k.prev.Keys && source in g && done <= g.Keys
    && k.distance[source] == 0
    && (forall v {:trigger Witnessed(g, source, done, k, v)} :: v in g ==> Witnessed(g, source, done, k, v))
    && (forall u :: u in done ==> k.distance[u] <= b)
    && (forall v :: v in g && v !in done ==> b <= k.distance[v])
  }

  ghost predicate AllRelaxed(g: Adjacency, done: set<int>, k: Labels)
    requires k.distance.Keys == g.Keys && WellFormed(g) && done <= g.Keys
  {
    forall u, e :: u in done && e in g[u] ==> Relaxed(k.distance, u, e)
  }

  /** One edge out of n, the node just taken from the queue. */
  ghost function Relax(k: Labels, n: int, e: Edge, queue: set<int>): Labels
    requires n in k.distance && e.target in k.distance
  {
    if && e.target in queue && k.distance[n] != UINT_MAX && n in k.walks
       && Add32(k.distance[n], e.cost) < k.distance[e.target]
    then
      Labels(k.distance[e.target := Add32(k.distance[n], e.cost)], k.prev[e.target := Some(n)],
             k.walks[e.target := Step(k.walks[n], e)])
    else k
  }

  /** What relaxing edges out of n does: done labels stay, others shrink. */
  ghost predicate Shrinks(k: Labels, k': Labels, queue: set<int>)
  {
    && k'.distance.Keys == k.distance.Keys
    && (forall u :: u in k.distance && u !in queue ==> k'.distance[u] == k.distance[u])
    && (forall v :: v in k.distance ==> k'.distance[v] <= k.distance[v])
  }

  /** No edge from n to a node in the queue makes a sum that wraps around or looks like infinity. */
  ghost predicate NoWrap(g: Adjacency, queue: set<int>, n: int, d: nat)
    requires n in g
  {
    d < UINT_MAX ==> forall e :: e in g[n] && e.target in queue ==> d + e.cost < UINT_MAX
  }

  lemma RelaxKeepsInv(g: Adjacency, source: int, queue: set<int>, b: nat, k: Labels, n: int, e: Edge)
    requires WellFormed(g) && Inv(g, source, g.Keys - queue, b, k)
    requires n in g.Keys - queue && e in g[n] && k.distance[n] == b && NoWrap(g, queue, n, b)
    ensures Inv(g, source, g.Keys - queue, b, Relax(k, n, e, queue))
    ensures Shrinks(k, Relax(k, n, e, queue), queue) && Relaxed(Relax(k, n, e, queue).distance, n, e)
  {
    var done := g.Keys - queue;
    assert Witnessed(g, source, done, k, n);
    if k.distance[n] != UINT_MAX && e.target in queue {
      assert Add32(b, e.cost) == b + e.cost;
      if k.distance[n] + e.cost < k.distance[e.target] {
        var k' := Relax(k, n, e, queue);
        forall v | v in g {
          RelaxKeepsWitness(g, source, queue, b, k, n, e, v);
        }
        assert e.target != source;
      }
    }
  }

  lemma RelaxKeepsWitness(g: Adjacency, source: int, queue: set<int>, b: nat, k: Labels, n: int, e: Edge, v: int)
    requires WellFormed(g) && Inv(g, source, g.Keys - queue, b, k)
    requires n in g.Keys - queue && e in g[n] && e.target in queue && v in g
    requires k.distance[n] + e.cost < UINT_MAX && k.distance[n] + e.cost < k.distance[e.target]
    ensures Witnessed(g, source, g.Keys - queue, Relax(k, n, e, queue), v)
  {
    var done := g.Keys - queue;
    assert Witnessed(g, source, done, k, n);
    assert Add32(k.distance[n], e.cost) == k.distance[n] + e.cost;
    assert Witnessed(g, source, done, k, v);
  }

  ghost function RelaxAll(k: Labels, n: int, edges: seq<Edge>, queue: set<int>): (k': Labels)
    requires n in k.distance && forall e :: e in edges ==> e.target in k.distance
    ensures k'.distance.Keys == k.distance.Keys
  {
    if edges == [] then k else Relax(RelaxAll(k, n, edges[..|edges| - 1], queue), n, edges[|edges| - 1], queue)
  }

  lemma ShrinksTwice(k: Labels, k1: Labels, k2: Labels, queue: set<int>)
    requires Shrinks(k, k1, queue) && Shrinks(k1, k2, queue)
    ensures Shrinks(k, k2, queue)
  {}

  lemma RelaxedMore(k: Labels, k': Labels, n: int, edges: seq<Edge>, e: Edge, queue: set<int>)
    requires n in k.distance && n !in queue && Shrinks(k, k', queue)
    requires forall f :: f in edges ==> f.target in k.distance && Relaxed(k.distance, n, f)
    requires e.target in k.distance && Relaxed(k'.distance, n, e)
    ensures forall f :: f in edges + [e] ==> f.target in k'.distance && Relaxed(k'.distance, n, f)
  {}

  lemma {:induction false} RelaxAllKeepsInv(g: Adjacency, source: int, queue: set<int>, b: nat, k: Labels, n: int,
                                            edges: seq<Edge>)
    requires WellFormed(g) && Inv(g, source, g.Keys - queue, b, k)
    requires n in g.Keys - queue && k.distance[n] == b && NoWrap(g, queue, n, b)
    requires forall e :: e in edges ==> e in g[n]
    ensures var k' := RelaxAll(k, n, edges, queue);
            && Inv(g, source, g.Keys - queue, b, k') && Shrinks(k, k', queue)
            && forall e :: e in edges ==> Relaxed(k'.distance, n, e)
  {
    if edges != [] {
      var last := |edges| - 1;
      var k1 := RelaxAll(k, n, edges[..last], queue);
      var k2 := Relax(k1, n, edges[last], queue);
      RelaxAllKeepsInv(g, source, queue, b, k, n, edges[..last]);
      RelaxKeepsInv(g, source, queue, b, k1, n, edges[last]);
      ShrinksTwice(k, k1, k2, queue);
      RelaxedMore(k1, k2, n, edges[..last], edges[last], queue);
      assert edges == edges[..last] + [edges[last]];
    }
  }

  /** With n next, no walk is cheaper than the label of a finished end, or than n's label if its end is not finished. */
  lemma {:induction false} WalksCost(g: Adjacency, source: int, queue: set<int>, b: nat, k: Labels, n: int, w: Walk)
    requires WellFormed(g) && queue <= g.Keys && Inv(g, source, g.Keys - queue, b, k)
    requires AllRelaxed(g, g.Keys - queue, k)
    requires IsFirst(k.distance, queue, n) && IsWalk(g, source, w)
    ensures var u := End(source, w);
            u in g && (if u in queue then k.distance[n] else k.distance[u]) <= Cost(w)
  {
    assert forall v :: v in queue ==> !Less(k.distance, v, n);
    if w.Step? {
      var u := End(source, w.before);
      WalksCost(g, source, queue, b, k, n, w.before);
      if u !in queue {
        assert Witnessed(g, source, g.Keys - queue, k, u);
        assert k.distance[u] < UINT_MAX ==> Relaxed(k.distance, u, w.edge);
        assert Witnessed(g, source, g.Keys - queue, k, w.edge.target);
        assert Witnessed(g, source, g.Keys - queue, k, n);
      }
    }
  }

  /** The next node has its distance, and the nodes left in the queue are not nearer. */
  lemma {:induction false} NextIsNearest(g: Adjacency, source: int, queue: set<int>, b: nat, k: Labels, n: int, v: int)
    requires WellFormed(g) && queue <= g.Keys && Inv(g, source, g.Keys - queue, b, k)
    requires AllRelaxed(g, g.Keys - queue, k)
    requires IsFirst(k.distance, queue, n) && v in queue
    ensures AtLeast(g, source, v, k.distance[n])
  {
    forall w | WalkTo(g, source, v, w)
      ensures k.distance[n] <= Cost(w)
    {
      WalksCost(g, source, queue, b, k, n, w);
    }
  }

  lemma {:induction false} NextDoesNotWrap(g: Adjacency, source: int, queue: set<int>, b: nat, k: Labels, n: int)
    requires WellFormed(g) && NoOverflow(g, source) && queue <= g.Keys
    requires Inv(g, source, g.Keys - queue, b, k) && AllRelaxed(g, g.Keys - queue, k) && IsFirst(k.distance, queue, n)
    ensures NoWrap(g, queue - {n}, n, k.distance[n])
  {
    var d := k.distance[n];
    if d < UINT_MAX {
      assert Witnessed(g, source, g.Keys - queue, k, n);
      NextIsNearest(g, source, queue, b, k, n, n);
      forall e | e in g[n] && e.target in queue - {n}
        ensures d + e.cost < UINT_MAX
      {
        NextIsNearest(g, source, queue, b, k, n, e.target);
        assert Shortest(g, source, k.walks[n]) && Continues(g, source, k.walks[n], e);
      }
    }
  }

  /** One round: the first node leaves the queue and all of its edges are relaxed. */
  lemma {:induction false} RoundKeepsInv(g: Adjacency, source: int, queue: set<int>, b: nat, k: Labels, n: int)
    requires WellFormed(g) && NoOverflow(g, source) && queue <= g.Keys
    requires Inv(g, source, g.Keys - queue, b, k) && AllRelaxed(g, g.Keys - queue, k) && IsFirst(k.distance, queue, n)
    ensures var k' := RelaxAll(k, n, g[n], queue - {n});
            Inv(g, source, g.Keys - (queue - {n}), k.distance[n], k') && AllRelaxed(g, g.Keys - (queue - {n}), k')
  {
    NextDoesNotWrap(g, source, queue, b, k, n);
    TakeFirst(g, source, g.Keys - queue, b, k, queue, n);
    RelaxAllKeepsInv(g, source, queue - {n}, k.distance[n], k, n, g[n]);
    RelaxedStay(g, queue, k, n, RelaxAll(k, n, g[n], queue - {n}));
  }

  lemma RelaxedStay(g: Adjacency, queue: set<int>, k: Labels, n: int, k': Labels)
    requires WellFormed(g) && k.distance.Keys == g.Keys && n in queue && queue <= g.Keys
    requires AllRelaxed(g, g.Keys - queue, k) && Shrinks(k, k', queue - {n})
    requires forall e :: e in g[n] ==> Relaxed(k'.distance, n, e)
    ensures AllRelaxed(g, g.Keys - (queue - {n}), k')
  {
    forall u, e | u in g.Keys - (queue - {n}) && e in g[u]
      ensures Relaxed(k'.distance, u, e)
    {
      if u != n {
        assert Relaxed(k.distance, u, e);
      }
    }
  }

  ghost function Initial(g: Adjacency, source: int): Labels
  {
    Labels(map x | x in g :: if x == source then 0 else UINT_MAX, map x | x in g :: None, map[source := Start])
  }

  lemma InitialInv(g: Adjacency, source: int)
    requires WellFormed(g) && source in g
    ensures Inv(g, source, {}, 0, Initial(g, source)) && AllRelaxed(g, {}, Initial(g, source))
  {}

  /** Finishing the first node of the queue. */
  lemma {:induction false} StillWitnessed(g: Adjacency, source: int, done: set<int>, done': set<int>, k: Labels, v: int)
    requires v in k.distance && v in k.prev && Witnessed(g, source, done, k, v) && done <= done'
    ensures Witnessed(g, source, done', k, v)
  {}

  lemma TakeFirst(g: Adjacency, source: int, done: set<int>, b: nat, k: Labels, queue: set<int>, n: int)
    requires Inv(g, source, done, b, k) && queue == g.Keys - done && IsFirst(k.distance, queue, n)
    ensures Inv(g, source, g.Keys - (queue - {n}), k.distance[n], k)
  {
    var done' := g.Keys - (queue - {n});
    forall v | v in g
      ensures Witnessed(g, source, done', k, v)
    {
      StillWitnessed(g, source, done, done', k, v);
    }
    assert forall v :: v in queue ==> !Less(k.distance, v, n);
  }

  lemma {:induction false} WalksCostAtLeast(g: Adjacency, source: int, b: nat, k: Labels, w: Walk)
    requires WellFormed(g) && Inv(g, source, g.Keys, b, k) && AllRelaxed(g, g.Keys, k) && IsWalk(g, source, w)
    ensures End(source, w) in g && k.distance[End(source, w)] < UINT_MAX && k.distance[End(source, w)] <= Cost(w)
  {
    if w.Step? {
      WalksCostAtLeast(g, source, b, k, w.before);
      assert Relaxed(k.distance, End(source, w.before), w.edge);
    }
  }

  lemma {:induction false} WalkFollows(g: Adjacency, source: int, b: nat, k: Labels, v: int)
    requires Inv(g, source, g.Keys, b, k) && v in g && k.distance[v] < UINT_MAX
    requires Witnessed(g, source, g.Keys, k, v)
    ensures Follows(k.prev, source, k.walks[v])
    decreases k.walks[v]
  {
    var w := k.walks[v];
    if w.Step? {
      var u := End(source, w.before);
      assert Witnessed(g, source, g.Keys, k, u);
      assert k.distance[u] < UINT_MAX;
      WalkFollows(g, source, b, k, u);
    }
  }

  /** Once the queue is empty, every label is the distance. */
  lemma FinalLabels(g: Adjacency, source: int, b: nat, k: Labels, v: int)
    requires WellFormed(g) && Inv(g, source, g.Keys, b, k) && AllRelaxed(g, g.Keys, k) && v in g
    ensures IsDistance(g, source, v, k.distance[v])
    ensures k.prev[v].Some? <==> v != source && k.distance[v] != UINT_MAX
    ensures k.distance[v] != UINT_MAX ==>
              && v in k.walks && IsWalk(g, source, k.walks[v]) && End(source, k.walks[v]) == v
              && Cost(k.walks[v]) == k.distance[v]
              && Simple(source, k.walks[v]) && Follows(k.prev, source, k.walks[v])
  {
    assert Witnessed(g, source, g.Keys, k, v);
    if k.distance[v] != UINT_MAX {
      WalkFollows(g, source, b, k, v);
      FirstVisit(source, k.walks[v]);
    }
    forall w | IsWalk(g, source, w) && End(source, w) == v
      ensures k.distance[v] < UINT_MAX && k.distance[v] <= Cost(w)
    {
      WalksCostAtLeast(g, source, b, k, w);
    }
  }

  class Graph {
    var neighbors: Adjacency
    var distance: map<int, nat>
    var prev: map<int, Option<int>>
    ghost var walks: map<int, Walk>

    ghost predicate Valid()
      reads this
    {
      WellFormed(neighbors)
    }

    ghost function State(): Labels
      reads this
    {
      Labels(distance, prev, walks)
    }

    /** The edges of the node just taken from the queue. */
    method RelaxEdges(n: int, queue: set<int>)
      requires Valid() && distance.Keys == neighbors.Keys && queue <= neighbors.Keys
      requires n in neighbors && n !in queue && (distance[n] != UINT_MAX ==> n in walks)
      modifies this`distance, this`prev, this`walks
      ensures State() == RelaxAll(old(State()), n, neighbors[n], queue)
    {
      var edges := neighbors[n];
      for i := 0 to |edges|
        invariant State() == RelaxAll(old(State()), n, edges[..i], queue)
        invariant distance[n] == old(distance)[n] && (distance[n] != UINT_MAX ==> n in walks)
      {
        var e := edges[i];
        assert edges[..i + 1][..i] == edges[..i];
        var found := exists m :: m in queue && Equivalent(distance, m, e.target);
        assert e.target in queue ==> Equivalent(distance, e.target, e.target);
        if found && distance[n] != UINT_MAX && Add32(distance[n], e.cost) < distance[e.target] {
          distance := distance[e.target := Add32(distance[n], e.cost)];
          prev := prev[e.target := Some(n)];
          walks := walks[e.target := Step(walks[n], e)];
        }
      }
      assert edges[..|edges|] == edges;
    }

    method Run(source: int)
      requires Valid() && source in neighbors && NoOverflow(neighbors, source)
      modifies this`distance, this`prev, this`walks
      ensures distance.Keys == neighbors.Keys && prev.Keys == neighbors.Keys
      ensures forall v :: v in neighbors ==> IsDistance(neighbors, source, v, distance[v])
      ensures forall v :: v in neighbors ==> (prev[v].Some? <==> v != source && distance[v] != UINT_MAX)
      ensures forall v :: v in neighbors && distance[v] != UINT_MAX ==> v in walks && IsPathTo(source, v, walks[v])
    {
      distance := map x | x in neighbors :: if x == source then 0 else UINT_MAX;
      prev := map x | x in neighbors :: None;
      walks := map[source := Start];
      assert State() == Initial(neighbors, source);
      InitialInv(neighbors, source);
      var queue := neighbors.Keys;
      ghost var b := 0;
      assert neighbors.Keys - queue == {};
      while queue != {}
        invariant queue <= neighbors.Keys
        invariant Inv(neighbors, source, neighbors.Keys - queue, b, State())
        invariant AllRelaxed(neighbors, neighbors.Keys - queue, State())
      {
        queue, b := Round(source, queue, b);
      }
      assert neighbors.Keys - queue == neighbors.Keys;
      forall v | v in neighbors {
        FinalLabels(neighbors, source, b, State(), v);
      }
    }

    method Round(source: int, queue: set<int>, ghost b: nat) returns (queue': set<int>, ghost b': nat)
      requires Valid() && NoOverflow(neighbors, source) && queue != {} && queue <= neighbors.Keys
      requires Inv(neighbors, source, neighbors.Keys - queue, b, State())
      requires AllRelaxed(neighbors, neighbors.Keys - queue, State())
      modifies this`distance, this`prev, this`walks
      ensures queue' < queue
      ensures Inv(neighbors, source, neighbors.Keys - queue', b', State())
      ensures AllRelaxed(neighbors, neighbors.Keys - queue', State())
    {
      FirstExists(distance, queue);
      var n :| IsFirst(distance, queue, n);
      RoundKeepsInv(neighbors, source, queue, b, State(), n);
      assert Witnessed(neighbors, source, neighbors.Keys - queue, State(), n);
      queue', b' := queue - {n}, distance[n];
      RelaxEdges(n, queue');
    }

    /** w is a simple path to v of cost distance[v], and the one that prev describes. */
    ghost predicate IsPathTo(source: int, v: int, w: Walk)
      requires v in distance
      reads this
    {
      && IsWalk(neighbors, source, w) && End(source, w) == v && Cost(w) == distance[v]
      && Simple(source, w) && Follows(prev, source, w)
    }

    /** The nodes on the way from src to curr, found by following prev. */
    method PrintPath(src: int, curr: int, ghost w: Walk) returns (printed: seq<int>)
      requires Follows(prev, src, w) && End(src, w) == curr && Simple(src, w)
      ensures printed == Visits(src, w) && printed != [] && printed[0] == src && printed[|printed| - 1] == curr
      ensures forall i :: 0 < i < |printed| ==> printed[i] in prev && prev[printed[i]] == Some(printed[i - 1])
      decreases w
    {
      if curr == src {
        FirstVisit(src, w);
        return [src];
      }
      var before := PrintPath(src, prev[curr].value, w.before);
      printed := before + [curr];
      assert forall i :: 0 <= i < |printed| - 1 ==> printed[i] == before[i];
    }
  }

  /** A simple walk ends at its source only if it is empty. */
  lemma {:induction false} FirstVisit(source: int, w: Walk)
    requires Simple(source, w)
    ensures source in Visits(source, w) && (End(source, w) == source ==> w.Start?)
  {
    if w.Step? {
      FirstVisit(source, w.before);
    }
  }
}
