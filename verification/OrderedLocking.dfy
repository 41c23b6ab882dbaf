/**
 Threads that each take two locks in index order, work, and release them: the protocol of
 the dining philosophers and of the buffer copies, for any number of threads and locks.
 */
module OrderedLocking {
  import opened Counting

  /** A thread's two locks; Skip is a call that returns before it takes any. */
  datatype Task = Locks(first: nat, second: nat) | Skip

  /** Both(done): both locks are held, and that much of the work is done. */
  datatype PC = Start | HasFirst | Both(done: nat) | Leaving | Done

  /** A held lock is mapped to the thread that holds it. */
  datatype State = State(pcs: seq<PC>, owner: map<nat, nat>)

  ghost predicate Ordered(tasks: seq<Task>)
  {
    forall t :: 0 <= t < |tasks| && tasks[t].Locks? ==> tasks[t].first < tasks[t].second
  }

  function Init(tasks: seq<Task>): State
  {
    State(seq(|tasks|, t requires 0 <= t < |tasks| => if tasks[t].Skip? then Done else Start), map[])
  }

  function Acquire(s: State, t: nat, lock: nat, pc: PC): State
    requires t < |s.pcs|
  {
    State(s.pcs[t := pc], s.owner[lock := t])
  }

  function Release(s: State, t: nat, lock: nat, pc: PC): State
    requires t < |s.pcs|
  {
    State(s.pcs[t := pc], s.owner - {lock})
  }

  /** Thread t, whose work takes that many steps, can move; to lock a held mutex it cannot. */
  predicate Enabled(tasks: seq<Task>, work: nat, s: State, t: nat)
  {
    t < |s.pcs| && t < |tasks| && tasks[t].Locks? &&
    match s.pcs[t]
    case Start => tasks[t].first !in s.owner
    case HasFirst => tasks[t].second !in s.owner
    case Both(_) => true
    case Leaving => true
    case Done => false
  }

  function After(tasks: seq<Task>, work: nat, s: State, t: nat): State
    requires Enabled(tasks, work, s, t)
  {
    match s.pcs[t]
    case Start => Acquire(s, t, tasks[t].first, HasFirst)
    case HasFirst => Acquire(s, t, tasks[t].second, Both(0))
    case Both(done) =>
      if done < work then s.(pcs := s.pcs[t := Both(done + 1)]) else Release(s, t, tasks[t].second, Leaving)
    case Leaving => Release(s, t, tasks[t].first, Done)
  }

  // ---------- What every step keeps ----------

  predicate Holds(task: Task, pc: PC, lock: nat)
  {
    task.Locks? && ((lock == task.first && pc != Start && pc != Done) || (lock == task.second && pc.Both?))
  }

  /** A lock is held by the thread whose place in the program says so, and by no other. */
  ghost predicate OwnersRight(tasks: seq<Task>, s: State)
    requires |s.pcs| == |tasks|
  {
    && (forall lock :: lock in s.owner ==> s.owner[lock] < |tasks|)
    && forall t, lock {:trigger Holds(tasks[t], s.pcs[t], lock)} ::
         0 <= t < |tasks| ==> (Holds(tasks[t], s.pcs[t], lock) <==> lock in s.owner && s.owner[lock] == t)
  }

  ghost predicate Inv(tasks: seq<Task>, work: nat, s: State)
  {
    && |s.pcs| == |tasks| && Ordered(tasks) && OwnersRight(tasks, s)
    && forall t :: 0 <= t < |tasks| ==>
         (s.pcs[t].Both? ==> s.pcs[t].done <= work) && (tasks[t].Skip? ==> s.pcs[t] == Done)
  }

  lemma InitInv(tasks: seq<Task>, work: nat)
    requires Ordered(tasks)
    ensures Inv(tasks, work, Init(tasks))
  {}

  lemma OwnersStay(tasks: seq<Task>, work: nat, s: State, t: nat)
    requires Inv(tasks, work, s) && Enabled(tasks, work, s, t)
    ensures OwnersRight(tasks, After(tasks, work, s, t))
  {
    var s' := After(tasks, work, s, t);
    assert tasks[t].first < tasks[t].second;
    assert Holds(tasks[t], s.pcs[t], tasks[t].first) <==> tasks[t].first in s.owner && s.owner[tasks[t].first] == t;
    assert Holds(tasks[t], s.pcs[t], tasks[t].second) <==> tasks[t].second in s.owner && s.owner[tasks[t].second] == t;
    forall u, lock {:trigger Holds(tasks[u], s'.pcs[u], lock)} | 0 <= u < |tasks|
      ensures Holds(tasks[u], s'.pcs[u], lock) <==> lock in s'.owner && s'.owner[lock] == u
    {
      assert Holds(tasks[u], s.pcs[u], lock) <==> lock in s.owner && s.owner[lock] == u;
    }
  }

  lemma NextKeepsInv(tasks: seq<Task>, work: nat, s: State, t: nat)
    requires Inv(tasks, work, s) && Enabled(tasks, work, s, t)
    ensures Inv(tasks, work, After(tasks, work, s, t))
  {
    OwnersStay(tasks, work, s, t);
  }

  /** While a thread works it holds both locks, and no other thread holds either. */
  lemma Exclusive(tasks: seq<Task>, work: nat, s: State, t: nat, u: nat, lock: nat)
    requires Inv(tasks, work, s) && t < |tasks| && u < |tasks| && t != u && s.pcs[t].Both?
    requires lock == tasks[t].first || lock == tasks[t].second
    ensures lock in s.owner && s.owner[lock] == t && !Holds(tasks[u], s.pcs[u], lock)
  {
    assert Holds(tasks[t], s.pcs[t], lock);
    assert Holds(tasks[u], s.pcs[u], lock) <==> lock in s.owner && s.owner[lock] == u;
  }

  // ---------- No deadlock ----------

  /** A thread that is not done is held up only by another thread, which holds the lock it needs next. */
  lemma WaitsForHolder(tasks: seq<Task>, work: nat, s: State, t: nat) returns (u: nat)
    requires Inv(tasks, work, s) && t < |tasks| && s.pcs[t] != Done && !Enabled(tasks, work, s, t)
    ensures u < |tasks| && u != t && (s.pcs[t] == Start || s.pcs[t] == HasFirst)
    ensures Holds(tasks[u], s.pcs[u], if s.pcs[t] == Start then tasks[t].first else tasks[t].second)
  {
    var lock := if s.pcs[t] == Start then tasks[t].first else tasks[t].second;
    u := s.owner[lock];
    assert Holds(tasks[u], s.pcs[u], lock);
    assert Holds(tasks[t], s.pcs[t], lock) <==> lock in s.owner && s.owner[lock] == t;
  }

  ghost predicate AllDone(s: State)
  {
    forall t :: 0 <= t < |s.pcs| ==> s.pcs[t] == Done
  }

  /** Either someone can move, or the thread in the way of t waits for a larger lock. */
  lemma WaitsForLarger(tasks: seq<Task>, work: nat, s: State, t: nat) returns (u: nat)
    requires Inv(tasks, work, s) && t < |tasks| && s.pcs[t] == HasFirst && tasks[t].Locks?
    ensures u < |tasks| && tasks[u].Locks?
    ensures Enabled(tasks, work, s, u) || (s.pcs[u] == HasFirst && tasks[u].second > tasks[t].second)
  {
    var lock := tasks[t].second;
    if lock !in s.owner {
      u := t;
    } else {
      u := s.owner[lock];
      assert Holds(tasks[u], s.pcs[u], lock);
    }
  }

  /** The larger the second lock, the fewer are above it: some thread that holds a lock can move. */
  lemma {:induction false} Unblocked(tasks: seq<Task>, work: nat, s: State, t: nat, bound: nat) returns (u: nat)
    requires Inv(tasks, work, s) && t < |tasks| && s.pcs[t] == HasFirst && tasks[t].Locks?
    requires forall v :: 0 <= v < |tasks| && tasks[v].Locks? ==> tasks[v].second <= bound
    ensures u < |tasks| && Enabled(tasks, work, s, u)
    decreases bound - tasks[t].second
  {
    u := WaitsForLarger(tasks, work, s, t);
    if !Enabled(tasks, work, s, u) {
      u := Unblocked(tasks, work, s, u, bound);
    }
  }

  lemma {:induction false} Bound(tasks: seq<Task>) returns (bound: nat)
    ensures forall v :: 0 <= v < |tasks| && tasks[v].Locks? ==> tasks[v].second <= bound
    decreases |tasks|
  {
    bound := 0;
    if tasks != [] {
      var n := |tasks| - 1;
      bound := Bound(tasks[..n]);
      if tasks[n].Locks? && tasks[n].second > bound {
        bound := tasks[n].second;
      }
    }
  }

  /** Unless all are done, some thread can move. */
  lemma {:induction false} NoDeadlock(tasks: seq<Task>, work: nat, s: State) returns (u: nat)
    requires Inv(tasks, work, s) && !AllDone(s)
    ensures Enabled(tasks, work, s, u)
  {
    var t :| 0 <= t < |s.pcs| && s.pcs[t] != Done;
    var bound := Bound(tasks);
    if s.pcs[t] == HasFirst {
      u := Unblocked(tasks, work, s, t, bound);
    } else if s.pcs[t] == Start && tasks[t].first in s.owner {
      var v := s.owner[tasks[t].first];
      assert Holds(tasks[v], s.pcs[v], tasks[t].first);
      if s.pcs[v] == HasFirst {
        u := Unblocked(tasks, work, s, v, bound);
      } else {
        u := v;
      }
    } else {
      u := t;
    }
  }

  // ---------- All runs are finite ----------

  /** The steps a thread has left. */
  function StepsLeft(work: nat): PC -> nat
  {
    (pc: PC) =>
      match pc
      case Start => work + 4
      case HasFirst => work + 3
      case Both(done) => if done <= work then work - done + 2 else 2
      case Leaving => 1
      case Done => 0
  }

  lemma {:induction false} OneStepLess(tasks: seq<Task>, work: nat, s: State, t: nat)
    requires Inv(tasks, work, s) && Enabled(tasks, work, s, t)
    ensures Sum(s.pcs, StepsLeft(work)) == Sum(After(tasks, work, s, t).pcs, StepsLeft(work)) + 1
  {
    var s' := After(tasks, work, s, t);
    SumUpdate(s.pcs, StepsLeft(work), t, s'.pcs[t]);
  }

  /** The states after each of the moves in who. */
  ghost predicate Run(tasks: seq<Task>, work: nat, run: seq<State>, who: seq<nat>)
  {
    && |run| == |who| + 1 && run[0] == Init(tasks)
    && forall i :: 0 <= i < |who| ==>
         Enabled(tasks, work, run[i], who[i]) && run[i + 1] == After(tasks, work, run[i], who[i])
  }

  lemma {:induction false} RunInv(tasks: seq<Task>, work: nat, run: seq<State>, who: seq<nat>)
    requires Ordered(tasks) && Run(tasks, work, run, who)
    ensures Inv(tasks, work, run[|who|])
    ensures |who| + Sum(run[|who|].pcs, StepsLeft(work)) == Sum(Init(tasks).pcs, StepsLeft(work))
    decreases |who|
  {
    if who == [] {
      InitInv(tasks, work);
    } else {
      var n := |who| - 1;
      RunInv(tasks, work, run[..n + 1], who[..n]);
      NextKeepsInv(tasks, work, run[n], who[n]);
      OneStepLess(tasks, work, run[n], who[n]);
    }
  }

  /** The invariant holds at every place of a run. */
  lemma {:induction false} RunInvAt(tasks: seq<Task>, work: nat, run: seq<State>, who: seq<nat>, k: nat)
    requires Ordered(tasks) && Run(tasks, work, run, who) && k <= |who|
    ensures Inv(tasks, work, run[k])
  {
    RunInv(tasks, work, run[..k + 1], who[..k]);
  }

  lemma {:induction false} SumInit(tasks: seq<Task>, work: nat)
    ensures Sum(Init(tasks).pcs, StepsLeft(work)) <= |tasks| * (work + 4)
    decreases |tasks|
  {
    if tasks != [] {
      var n := |tasks| - 1;
      SumInit(tasks[..n], work);
      assert Init(tasks).pcs[..n] == Init(tasks[..n]).pcs;
      assert |tasks| * (work + 4) == n * (work + 4) + (work + 4);
    }
  }

  /** No run is longer than this, and one that cannot go on has finished every thread. */
  lemma {:induction false} RunsEnd(tasks: seq<Task>, work: nat, run: seq<State>, who: seq<nat>)
    requires Ordered(tasks) && Run(tasks, work, run, who)
    ensures |who| <= |tasks| * (work + 4)
    ensures (forall t :: !Enabled(tasks, work, run[|who|], t)) <==> AllDone(run[|who|])
  {
    RunInv(tasks, work, run, who);
    SumInit(tasks, work);
    if !AllDone(run[|who|]) {
      var u := NoDeadlock(tasks, work, run[|who|]);
    }
  }
}
