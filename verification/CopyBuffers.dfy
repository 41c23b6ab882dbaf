/**
 Concurrent calls of copy_buf, with memcpy taken byte by byte: the buffers end up as if the
 copies had been made one after the other, in the order in which the second lock was taken.
 */
module CopyBuffers {
  import opened OrderedLocking

  datatype Call = Call(dest: nat, src: nat)

  type Buffers = seq<seq<int>>

  function TaskOf(c: Call): Task
  {
    if c.dest == c.src then Skip
    else if c.dest < c.src then Locks(c.dest, c.src) else Locks(c.src, c.dest)
  }

  function Tasks(calls: seq<Call>): seq<Task>
  {
    seq(|calls|, t requires 0 <= t < |calls| => TaskOf(calls[t]))
  }

  lemma TasksOrdered(calls: seq<Call>)
    ensures Ordered(Tasks(calls))
  {}

  /** Every call names existing buffers, and all buffers have the same size. */
  predicate Fit(calls: seq<Call>, bufs: Buffers, size: nat)
  {
    && (forall t :: 0 <= t < |calls| ==> calls[t].dest < |bufs| && calls[t].src < |bufs|)
    && (forall b :: 0 <= b < |bufs| ==> |bufs[b]| == size)
  }

  /** order: the calls that have taken both locks, in that order. */
  datatype System = System(locks: State, bufs: Buffers, order: seq<nat>)

  predicate CanMove(calls: seq<Call>, size: nat, s: System, t: nat)
  {
    t < |calls| && Enabled(Tasks(calls), size, s.locks, t)
  }

  /** A step of the locks; a thread at work copies its next byte. */
  function Moved(calls: seq<Call>, size: nat, s: System, t: nat): System
    requires CanMove(calls, size, s, t) && Fit(calls, s.bufs, size)
  {
    var locks := After(Tasks(calls), size, s.locks, t);
    match s.locks.pcs[t]
    case HasFirst => System(locks, s.bufs, s.order + [t])
    case Both(k) =>
      if k < size then System(locks, CopyByte(s.bufs, calls[t], k), s.order) else System(locks, s.bufs, s.order)
    case _ => System(locks, s.bufs, s.order)
  }

  function CopyByte(bufs: Buffers, c: Call, k: nat): Buffers
    requires c.dest < |bufs| && c.src < |bufs| && k < |bufs[c.dest]| && k < |bufs[c.src]|
  {
    bufs[c.dest := bufs[c.dest][k := bufs[c.src][k]]]
  }

  // ---------- The copies one after the other ----------

  function CopyAll(bufs: Buffers, c: Call): Buffers
    requires c.dest < |bufs| && c.src < |bufs|
  {
    bufs[c.dest := bufs[c.src]]
  }

  ghost predicate InRange(calls: seq<Call>, order: seq<nat>)
  {
    forall i :: 0 <= i < |order| ==> order[i] < |calls|
  }

  ghost function Sequentially(calls: seq<Call>, order: seq<nat>, bufs: Buffers, size: nat): (r: Buffers)
    requires Fit(calls, bufs, size) && InRange(calls, order)
    ensures |r| == |bufs| && Fit(calls, r, size)
  {
    if order == [] then bufs
    else
      var n := |order| - 1;
      CopyAll(Sequentially(calls, order[..n], bufs, size), calls[order[n]])
  }

  lemma {:induction false} SequentiallyMore(calls: seq<Call>, order: seq<nat>, bufs: Buffers, size: nat, t: nat)
    requires Fit(calls, bufs, size) && InRange(calls, order) && t < |calls|
    ensures Sequentially(calls, order + [t], bufs, size) == CopyAll(Sequentially(calls, order, bufs, size), calls[t])
  {
    assert (order + [t])[..|order|] == order;
  }

  // ---------- What every step keeps ----------

  predicate Working(locks: State, t: nat)
  {
    t < |locks.pcs| && locks.pcs[t].Both?
  }

  /** Nobody is writing to buffer b. */
  ghost predicate Settled(calls: seq<Call>, locks: State, b: nat)
  {
    forall t {:trigger Working(locks, t)} :: 0 <= t < |calls| && Working(locks, t) ==> calls[t].dest != b
  }

  /** A copy under way: so far the same bytes, in the end the whole source. */
  ghost predicate Halfway(c: Call, k: nat, bufs: Buffers, seqly: Buffers)
    requires c.dest < |bufs| == |seqly| && c.src < |bufs|
  {
    && k <= |bufs[c.dest]| == |bufs[c.src]| && seqly[c.dest] == bufs[c.src] == seqly[c.src]
    && bufs[c.dest][..k] == bufs[c.src][..k]
  }

  /** The buffers against the sequential ones: settled ones agree, the others are half way. */
  ghost predicate Agrees(calls: seq<Call>, size: nat, locks: State, bufs: Buffers, seqly: Buffers)
  {
    && |bufs| == |seqly| && Fit(calls, bufs, size) && |locks.pcs| == |calls|
    && (forall b {:trigger bufs[b]} :: 0 <= b < |bufs| && Settled(calls, locks, b) ==> bufs[b] == seqly[b])
    && (forall t {:trigger Working(locks, t)} :: 0 <= t < |calls| && Working(locks, t) ==>
          Halfway(calls[t], locks.pcs[t].done, bufs, seqly))
  }

  /** Two threads at work share no buffer. */
  lemma Disjoint(calls: seq<Call>, size: nat, locks: State, t: nat, u: nat)
    requires Inv(Tasks(calls), size, locks) && t < |calls| && u < |calls| && t != u
    requires Working(locks, t) && Working(locks, u)
    ensures calls[t].dest != calls[u].dest && calls[t].dest != calls[u].src && calls[t].src != calls[u].dest
  {
    var tasks := Tasks(calls);
    Exclusive(tasks, size, locks, t, u, tasks[t].first);
    Exclusive(tasks, size, locks, t, u, tasks[t].second);
  }

  lemma SourceSettled(calls: seq<Call>, size: nat, locks: State, t: nat)
    requires Inv(Tasks(calls), size, locks) && t < |calls| && Working(locks, t) && |locks.pcs| == |calls|
    ensures Settled(calls, locks, calls[t].src)
  {
    forall u {:trigger Working(locks, u)} | 0 <= u < |calls| && Working(locks, u)
      ensures calls[u].dest != calls[t].src
    {
      if u != t {
        Disjoint(calls, size, locks, t, u);
      } else {
        assert Tasks(calls)[t].Locks?;
      }
    }
  }

  /** Taking the first lock, or releasing the last one, changes no buffer. */
  lemma AgreesQuiet(calls: seq<Call>, size: nat, locks: State, t: nat, bufs: Buffers, seqly: Buffers)
    requires Agrees(calls, size, locks, bufs, seqly) && t < |calls| && Enabled(Tasks(calls), size, locks, t)
    requires locks.pcs[t] == Start || locks.pcs[t] == Leaving
    ensures Agrees(calls, size, After(Tasks(calls), size, locks, t), bufs, seqly)
  {
    var locks' := After(Tasks(calls), size, locks, t);
    assert forall u :: Working(locks', u) <==> Working(locks, u);
    assert forall b :: Settled(calls, locks', b) ==> Settled(calls, locks, b);
    assert forall u: nat :: Working(locks, u) ==> locks'.pcs[u] == locks.pcs[u];
  }

  /** Taking the second lock: from here on the copy counts as made. */
  lemma AgreesBegin(calls: seq<Call>, size: nat, locks: State, t: nat, bufs: Buffers, seqly: Buffers)
    requires Inv(Tasks(calls), size, locks) && Agrees(calls, size, locks, bufs, seqly)
    requires t < |calls| && Enabled(Tasks(calls), size, locks, t) && locks.pcs[t] == HasFirst
    ensures Agrees(calls, size, After(Tasks(calls), size, locks, t), bufs, CopyAll(seqly, calls[t]))
  {
    var locks', c := After(Tasks(calls), size, locks, t), calls[t];
    NextKeepsInv(Tasks(calls), size, locks, t);
    SourceSettled(calls, size, locks', t);
    assert Tasks(calls)[t].Locks?;
    assert forall u :: Working(locks', u) <==> Working(locks, u) || u == t;
    forall b {:trigger bufs[b]} | 0 <= b < |bufs| && Settled(calls, locks', b)
      ensures bufs[b] == CopyAll(seqly, c)[b] && bufs[b] == seqly[b]
    {
      assert Working(locks', t);
      assert Settled(calls, locks, b);
    }
    forall u {:trigger Working(locks', u)} | 0 <= u < |calls| && Working(locks', u)
      ensures Halfway(calls[u], locks'.pcs[u].done, bufs, CopyAll(seqly, c))
    {
      if u != t {
        Disjoint(calls, size, locks', t, u);
        assert Working(locks, u);
      } else {
        assert bufs[c.src] == seqly[c.src];
      }
    }
  }

  /** One byte. */
  lemma HalfwayMore(c: Call, k: nat, bufs: Buffers, seqly: Buffers)
    requires c.dest < |bufs| == |seqly| && c.src < |bufs| && c.dest != c.src
    requires Halfway(c, k, bufs, seqly) && k < |bufs[c.dest]|
    ensures Halfway(c, k + 1, CopyByte(bufs, c, k), seqly)
  {
    var d, e := bufs[c.dest], bufs[c.src];
    assert d[k := e[k]][..k + 1] == d[..k] + [e[k]] && e[..k + 1] == e[..k] + [e[k]];
  }

  lemma AgreesByte(calls: seq<Call>, size: nat, locks: State, t: nat, bufs: Buffers, seqly: Buffers)
    requires Inv(Tasks(calls), size, locks) && Agrees(calls, size, locks, bufs, seqly)
    requires t < |calls| && Enabled(Tasks(calls), size, locks, t) && locks.pcs[t].Both? && locks.pcs[t].done < size
    ensures Agrees(calls, size, After(Tasks(calls), size, locks, t), CopyByte(bufs, calls[t], locks.pcs[t].done), seqly)
  {
    var locks', c, k := After(Tasks(calls), size, locks, t), calls[t], locks.pcs[t].done;
    var bufs' := CopyByte(bufs, c, k);
    assert Working(locks, t) && Tasks(calls)[t].Locks?;
    HalfwayMore(c, k, bufs, seqly);
    assert forall u :: Working(locks', u) <==> Working(locks, u);
    forall b {:trigger bufs'[b]} | 0 <= b < |bufs'| && Settled(calls, locks', b)
      ensures bufs'[b] == seqly[b]
    {
      assert Settled(calls, locks, b) && bufs[b] == seqly[b];
    }
    forall u {:trigger Working(locks', u)} | 0 <= u < |calls| && Working(locks', u)
      ensures Halfway(calls[u], locks'.pcs[u].done, bufs', seqly)
    {
      if u != t {
        Disjoint(calls, size, locks, t, u);
        assert Halfway(calls[u], locks.pcs[u].done, bufs, seqly);
      }
    }
  }

  /** Releasing the second lock: the copy is complete. */
  lemma AgreesEnd(calls: seq<Call>, size: nat, locks: State, t: nat, bufs: Buffers, seqly: Buffers)
    requires Inv(Tasks(calls), size, locks) && Agrees(calls, size, locks, bufs, seqly)
    requires t < |calls| && Enabled(Tasks(calls), size, locks, t) && locks.pcs[t] == Both(size)
    ensures Agrees(calls, size, After(Tasks(calls), size, locks, t), bufs, seqly)
  {
    var locks', c := After(Tasks(calls), size, locks, t), calls[t];
    assert Working(locks, t);
    assert bufs[c.dest] == bufs[c.dest][..size] == bufs[c.src][..size] == bufs[c.src];
    assert forall u :: Working(locks', u) <==> Working(locks, u) && u != t;
    forall b {:trigger bufs[b]} | 0 <= b < |bufs| && Settled(calls, locks', b)
      ensures bufs[b] == seqly[b]
    {
      if b != c.dest {
        assert Settled(calls, locks, b);
      }
    }
    forall u {:trigger Working(locks', u)} | 0 <= u < |calls| && Working(locks', u)
      ensures Halfway(calls[u], locks'.pcs[u].done, bufs, seqly)
    {
      assert Working(locks, u);
    }
  }

  /** Calls that have taken both locks. */
  predicate Began(c: Call, pc: PC)
  {
    c.dest != c.src && (pc.Both? || pc.Leaving? || pc.Done?)
  }

  ghost predicate OrderRight(calls: seq<Call>, locks: State, order: seq<nat>)
  {
    && InRange(calls, order) && |locks.pcs| == |calls| && (forall i, j :: 0 <= i < j < |order| ==> order[i] != order[j])
    && forall t: nat :: t < |calls| ==> (t in order <==> Began(calls[t], locks.pcs[t]))
  }

  ghost predicate SystemInv(calls: seq<Call>, size: nat, s: System, bufs0: Buffers)
    requires Fit(calls, bufs0, size)
  {
    && Inv(Tasks(calls), size, s.locks) && OrderRight(calls, s.locks, s.order)
    && Agrees(calls, size, s.locks, s.bufs, Sequentially(calls, s.order, bufs0, size))
  }

  lemma {:induction false} InitSystemInv(calls: seq<Call>, size: nat, bufs0: Buffers)
    requires Fit(calls, bufs0, size)
    ensures SystemInv(calls, size, System(Init(Tasks(calls)), bufs0, []), bufs0)
  {
    TasksOrdered(calls);
    InitInv(Tasks(calls), size);
  }

  lemma OrderStays(calls: seq<Call>, size: nat, s: System, t: nat)
    requires Inv(Tasks(calls), size, s.locks) && OrderRight(calls, s.locks, s.order)
    requires CanMove(calls, size, s, t) && Fit(calls, s.bufs, size)
    ensures OrderRight(calls, Moved(calls, size, s, t).locks, Moved(calls, size, s, t).order)
  {
    assert Tasks(calls)[t].Locks?;
    if s.locks.pcs[t] == HasFirst {
      assert t !in s.order;
    }
  }

  lemma {:induction false} AgreesStays(calls: seq<Call>, size: nat, s: System, t: nat, bufs0: Buffers)
    requires Fit(calls, bufs0, size) && SystemInv(calls, size, s, bufs0) && CanMove(calls, size, s, t)
    ensures var s' := Moved(calls, size, s, t);
            && InRange(calls, s'.order)
            && Agrees(calls, size, s'.locks, s'.bufs, Sequentially(calls, s'.order, bufs0, size))
  {
    var now := Sequentially(calls, s.order, bufs0, size);
    match s.locks.pcs[t]
    case HasFirst =>
      AgreesBegin(calls, size, s.locks, t, s.bufs, now);
      SequentiallyMore(calls, s.order, bufs0, size, t);
    case Both(k) =>
      if k < size {
        AgreesByte(calls, size, s.locks, t, s.bufs, now);
      } else {
        AgreesEnd(calls, size, s.locks, t, s.bufs, now);
      }
    case _ => AgreesQuiet(calls, size, s.locks, t, s.bufs, now);
  }

  lemma {:induction false} MovedInv(calls: seq<Call>, size: nat, s: System, t: nat, bufs0: Buffers)
    requires Fit(calls, bufs0, size) && SystemInv(calls, size, s, bufs0) && CanMove(calls, size, s, t)
    ensures SystemInv(calls, size, Moved(calls, size, s, t), bufs0)
  {
    NextKeepsInv(Tasks(calls), size, s.locks, t);
    OrderStays(calls, size, s, t);
    AgreesStays(calls, size, s, t, bufs0);
  }

  // ---------- Whole runs ----------

  ghost predicate SystemRun(calls: seq<Call>, size: nat, run: seq<System>, who: seq<nat>, bufs0: Buffers)
  {
    && |run| == |who| + 1 && run[0] == System(Init(Tasks(calls)), bufs0, [])
    && forall i :: 0 <= i < |who| ==>
         && CanMove(calls, size, run[i], who[i]) && Fit(calls, run[i].bufs, size)
         && run[i + 1] == Moved(calls, size, run[i], who[i])
  }

  lemma {:induction false} SystemRunInv(calls: seq<Call>, size: nat, run: seq<System>, who: seq<nat>, bufs0: Buffers)
    requires Fit(calls, bufs0, size) && SystemRun(calls, size, run, who, bufs0)
    ensures SystemInv(calls, size, run[|who|], bufs0)
    decreases |who|
  {
    if who == [] {
      InitSystemInv(calls, size, bufs0);
    } else {
      var n := |who| - 1;
      SystemRunInv(calls, size, run[..n + 1], who[..n], bufs0);
      MovedInv(calls, size, run[n], who[n], bufs0);
    }
  }

  /** While t copies, no step changes its source, and none changes what it has not reached of its destination. */
  lemma {:induction false} ByteByByte(calls: seq<Call>, size: nat, s: System, t: nat, u: nat, bufs0: Buffers)
    requires Fit(calls, bufs0, size) && SystemInv(calls, size, s, bufs0) && CanMove(calls, size, s, u)
    requires t < |calls| && Working(s.locks, t) && Working(Moved(calls, size, s, u).locks, t)
    ensures var s', c := Moved(calls, size, s, u), calls[t];
            var k := s'.locks.pcs[t].done;
            s'.bufs[c.src] == s.bufs[c.src] && k <= size && s'.bufs[c.dest][k..] == s.bufs[c.dest][k..]
  {
    var s' := Moved(calls, size, s, u);
    MovedInv(calls, size, s, u, bufs0);
    assert Tasks(calls)[t].Locks? && Tasks(calls)[u].Locks?;
    if u != t && Working(s.locks, u) {
      Disjoint(calls, size, s.locks, t, u);
    }
  }

  /** Each step that can be made prolongs a run. */
  lemma {:induction false} RunsGoOn(calls: seq<Call>, size: nat, run: seq<System>, who: seq<nat>,
                                    bufs0: Buffers, t: nat)
    requires Fit(calls, bufs0, size) && SystemRun(calls, size, run, who, bufs0) && CanMove(calls, size, run[|who|], t)
    ensures Fit(calls, run[|who|].bufs, size)
    ensures SystemRun(calls, size, run + [Moved(calls, size, run[|who|], t)], who + [t], bufs0)
  {
    SystemRunInv(calls, size, run, who, bufs0);
  }

  function LocksOf(run: seq<System>): seq<State>
  {
    seq(|run|, i requires 0 <= i < |run| => run[i].locks)
  }

  lemma {:induction false} LocksRun(calls: seq<Call>, size: nat, run: seq<System>, who: seq<nat>, bufs0: Buffers)
    requires SystemRun(calls, size, run, who, bufs0)
    ensures Run(Tasks(calls), size, LocksOf(run), who)
  {}

  /** Every run is finite; one that cannot go on has made all copies, as if one after the other. */
  lemma {:induction false} CopiesAreSequential(calls: seq<Call>, size: nat, run: seq<System>, who: seq<nat>,
                                               bufs0: Buffers)
    requires Fit(calls, bufs0, size) && SystemRun(calls, size, run, who, bufs0)
    ensures |who| <= |calls| * (size + 4)
    ensures var s := run[|who|];
            (forall t :: !CanMove(calls, size, s, t)) ==>
              && InRange(calls, s.order) && s.bufs == Sequentially(calls, s.order, bufs0, size)
              && (forall t: nat :: t < |calls| ==> (t in s.order <==> calls[t].dest != calls[t].src))
              && (forall i, j :: 0 <= i < j < |s.order| ==> s.order[i] != s.order[j])
  {
    var s, tasks := run[|who|], Tasks(calls);
    SystemRunInv(calls, size, run, who, bufs0);
    TasksOrdered(calls);
    LocksRun(calls, size, run, who, bufs0);
    RunsEnd(tasks, size, LocksOf(run), who);
    if forall t :: !CanMove(calls, size, s, t) {
      forall t
        ensures !Enabled(tasks, size, s.locks, t)
      {
        assert !CanMove(calls, size, s, t);
      }
      FinalBuffers(calls, size, s, bufs0);
    }
  }

  lemma {:induction false} FinalBuffers(calls: seq<Call>, size: nat, s: System, bufs0: Buffers)
    requires Fit(calls, bufs0, size) && SystemInv(calls, size, s, bufs0) && AllDone(s.locks)
    ensures s.bufs == Sequentially(calls, s.order, bufs0, size)
    ensures forall t: nat :: t < |calls| ==> (t in s.order <==> calls[t].dest != calls[t].src)
  {
    var now := Sequentially(calls, s.order, bufs0, size);
    forall b | 0 <= b < |s.bufs|
      ensures s.bufs[b] == now[b]
    {
      assert Settled(calls, s.locks, b);
    }
  }
}
