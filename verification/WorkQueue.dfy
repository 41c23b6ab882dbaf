/**
 A work queue guarded by a semaphore and a mutex, as a step system for any number of workers
 and inserters. The list is linked through next, and every load and store is a step of its own.
 */
module WorkQueue {
  import opened Wrappers
  import opened Counting

  /** Where a thread is in get_job or insert_job. Crashed: it dereferenced a null list head. */
  datatype PC =
    | Idle
    | SemWait | PopLock | Popping | Read(ret: Option<nat>) | PopUnlock(ret: Option<nat>)
    | PushLock(job: nat) | Linking(job: nat) | Linked(job: nat) | PushUnlock | Post
    | Crashed

  /** used: the jobs handed to insert_job so far; delivered: those returned by get_job, in order. */
  datatype State = State(
    pcs: seq<PC>, sem: nat, owner: Option<nat>, head: Option<nat>, next: map<nat, Option<nat>>,
    used: set<nat>, delivered: seq<Option<nat>>)

  function Move(s: State, t: nat, pc: PC): State
    requires t < |s.pcs|
  {
    s.(pcs := s.pcs[t := pc])
  }

  /** Thread t may go from s to s'; every call of insert_job brings a new node. */
  ghost predicate Next(s: State, t: nat, s': State)
  {
    t < |s.pcs| &&
    match s.pcs[t]
    case Idle => s' == Move(s, t, SemWait) || exists j :: Inserts(s, t, j, s')
    case SemWait => s.sem > 0 && s' == Move(s, t, PopLock).(sem := s.sem - 1)
    case PopLock => s.owner == None && s' == Move(s, t, Popping).(owner := Some(t))
    case Popping => s' == Move(s, t, Read(s.head))
    case Read(ret) =>
      s' == if s.head.Some? && s.head.value in s.next
            then Move(s, t, PopUnlock(ret)).(head := s.next[s.head.value])
            else Move(s, t, Crashed)
    case PopUnlock(ret) => s' == Move(s, t, Idle).(owner := None, delivered := s.delivered + [ret])
    case PushLock(j) => s.owner == None && s' == Move(s, t, Linking(j)).(owner := Some(t))
    case Linking(j) => s' == Move(s, t, Linked(j)).(next := s.next[j := s.head])
    case Linked(j) => s' == Move(s, t, PushUnlock).(head := Some(j))
    case PushUnlock => s' == Move(s, t, Post).(owner := None)
    case Post => s' == Move(s, t, Idle).(sem := s.sem + 1)
    case Crashed => false
  }

  ghost predicate Inserts(s: State, t: nat, j: nat, s': State)
  {
    t < |s.pcs| && j !in s.used && s' == Move(s, t, PushLock(j)).(used := s.used + {j})
  }

  ghost predicate Init(s: State)
  {
    && s.sem == 0 && s.owner == None && s.head == None && s.used == {} && s.delivered == []
    && forall t :: 0 <= t < |s.pcs| ==> s.pcs[t] == Idle
  }

  // ---------- What every step keeps ----------

  predicate Holds(pc: PC)
  {
    pc.Popping? || pc.Read? || pc.PopUnlock? || pc.Linking? || pc.Linked? || pc.PushUnlock?
  }

  /** Workers past sem_wait that have not dequeued, and inserters that pushed but have not posted. */
  function Between(pc: PC): nat
  {
    if pc.PopLock? || pc.Popping? || pc.Read? || pc.PushUnlock? || pc.Post? then 1 else 0
  }

  /** 1 for a thread that carries job j on its way into or out of the queue. */
  function Carried(pc: PC, j: nat): nat
  {
    if (pc.PushLock? || pc.Linking? || pc.Linked?) && pc.job == j then 1
    else if pc.PopUnlock? && pc.ret == Some(j) then 1
    else 0
  }

  function Carries(j: nat): PC -> nat { (pc: PC) => Carried(pc, j) }

  predicate NextAt(next: map<nat, Option<nat>>, queue: seq<nat>, i: nat)
  {
    i < |queue| && queue[i] in next && next[queue[i]] == if i + 1 < |queue| then Some(queue[i + 1]) else None
  }

  /** The links from head on form this list. */
  ghost predicate IsList(head: Option<nat>, next: map<nat, Option<nat>>, queue: seq<nat>)
  {
    && head == (if queue == [] then None else Some(queue[0]))
    && forall i: nat {:trigger NextAt(next, queue, i)} :: i < |queue| ==> NextAt(next, queue, i)
  }

  /** The places where job j is: carried, queued or delivered. */
  ghost function Places(s: State, queue: seq<nat>, j: nat): nat
  {
    Sum(s.pcs, Carries(j)) + multiset(queue)[j] + multiset(s.delivered)[Some(j)]
  }

  ghost predicate OnePlace(s: State, queue: seq<nat>)
  {
    forall j: nat {:trigger Places(s, queue, j)} :: Places(s, queue, j) == if j in s.used then 1 else 0
  }

  /** What a thread knows at its place. */
  ghost predicate Local(s: State, pc: PC)
  {
    && !pc.Crashed?
    && (pc.Read? ==> pc.ret == s.head)
    && (pc.PopUnlock? ==> pc.ret.Some?)
    && (pc.Linked? ==> pc.job in s.next && s.next[pc.job] == s.head)
  }

  ghost predicate Inv(s: State, queue: seq<nat>)
  {
    && IsList(s.head, s.next, queue) && |queue| == s.sem + Sum(s.pcs, Between) && OnePlace(s, queue)
    && (forall t :: 0 <= t < |s.pcs| ==> (Holds(s.pcs[t]) <==> s.owner == Some(t)) && Local(s, s.pcs[t]))
    && (forall k :: 0 <= k < |s.delivered| ==> s.delivered[k].Some?) && OwnerIsThread(s)
  }

  predicate OwnerIsThread(s: State) { s.owner.Some? ==> s.owner.value < |s.pcs| }

  /** The queue after a step of thread t. */
  ghost function QueueAfter(s: State, t: nat, queue: seq<nat>): seq<nat>
    requires t < |s.pcs|
  {
    match s.pcs[t]
    case Read(_) => if queue == [] then [] else queue[1..]
    case Linked(j) => [j] + queue
    case _ => queue
  }

  lemma {:induction false} InitInv(s: State)
    requires Init(s)
    ensures Inv(s, [])
  {
    SumZero(s.pcs, Between);
    forall j: nat {:trigger Places(s, [], j)}
      ensures Places(s, [], j) == 0
    {
      SumZero(s.pcs, Carries(j));
    }
  }

  /** A worker that is about to dequeue finds a job. */
  lemma {:induction false} ReadFindsJob(s: State, queue: seq<nat>, t: nat)
    requires Inv(s, queue) && t < |s.pcs| && Between(s.pcs[t]) == 1
    ensures queue != [] && s.head == Some(queue[0]) && s.head.value in s.next
  {
    SumAtLeast(s.pcs, Between, t);
    assert NextAt(s.next, queue, 0);
  }

  lemma {:induction false} CarriedIsNotQueued(s: State, queue: seq<nat>, t: nat, j: nat)
    requires Inv(s, queue) && t < |s.pcs| && Carried(s.pcs[t], j) == 1
    ensures j !in queue
  {
    assert Carries(j)(s.pcs[t]) == 1;
    SumAtLeast(s.pcs, Carries(j), t);
    assert Places(s, queue, j) <= 1;
    assert multiset(queue)[j] == 0;
    assert j !in multiset(queue);
  }

  lemma {:induction false} KeepsList(s: State, queue: seq<nat>, t: nat, s': State)
    requires Inv(s, queue) && Next(s, t, s')
    ensures IsList(s'.head, s'.next, QueueAfter(s, t, queue))
  {
    var queue' := QueueAfter(s, t, queue);
    if s.pcs[t].Read? {
      ReadFindsJob(s, queue, t);
      assert NextAt(s.next, queue, 0);
      forall i: nat {:trigger NextAt(s'.next, queue', i)} | i < |queue'|
        ensures NextAt(s'.next, queue', i)
      {
        assert NextAt(s.next, queue, i + 1);
      }
    } else if s.pcs[t].Linking? {
      CarriedIsNotQueued(s, queue, t, s.pcs[t].job);
      forall i: nat {:trigger NextAt(s'.next, queue', i)} | i < |queue'|
        ensures NextAt(s'.next, queue', i)
      {
        assert NextAt(s.next, queue, i);
      }
    } else if s.pcs[t].Linked? {
      assert Local(s, s.pcs[t]);
      forall i: nat {:trigger NextAt(s'.next, queue', i)} | i < |queue'|
        ensures NextAt(s'.next, queue', i)
      {
        if i > 0 {
          assert NextAt(s.next, queue, i - 1);
        }
      }
    }
  }

  lemma {:induction false} KeepsLength(s: State, queue: seq<nat>, t: nat, s': State)
    requires Inv(s, queue) && Next(s, t, s')
    ensures |QueueAfter(s, t, queue)| == s'.sem + Sum(s'.pcs, Between)
  {
    SumUpdate(s.pcs, Between, t, s'.pcs[t]);
    if s.pcs[t].Read? {
      ReadFindsJob(s, queue, t);
    }
  }

  lemma {:induction false} KeepsLocal(s: State, queue: seq<nat>, t: nat, s': State, u: nat)
    requires Inv(s, queue) && Next(s, t, s') && u < |s'.pcs|
    ensures (Holds(s'.pcs[u]) <==> s'.owner == Some(u)) && Local(s', s'.pcs[u])
    ensures forall k :: 0 <= k < |s'.delivered| ==> s'.delivered[k].Some?
  {
    if s.pcs[t].Read? {
      ReadFindsJob(s, queue, t);
    }
    assert Local(s, s.pcs[t]) && Local(s, s.pcs[u]);
  }

  lemma {:induction false} CountFirst<T>(x: T, rest: seq<T>, y: T)
    ensures multiset([x] + rest)[y] == multiset(rest)[y] + if x == y then 1 else 0
  {
    assert multiset([x] + rest) == multiset{x} + multiset(rest);
  }

  lemma {:induction false} CountLast<T>(rest: seq<T>, x: T, y: T)
    ensures multiset(rest + [x])[y] == multiset(rest)[y] + if x == y then 1 else 0
  {
    assert multiset(rest + [x]) == multiset(rest) + multiset{x};
  }

  lemma {:induction false} OneMoves(s: State, t: nat, s': State)
    requires Next(s, t, s')
    ensures t < |s.pcs| && s'.pcs == s.pcs[t := s'.pcs[t]]
  {}

  /** A step that neither dequeues, enqueues nor delivers: what the thread carries stays. */
  lemma {:induction false} CarriesOn(s: State, t: nat, s': State, j: nat)
    requires Next(s, t, s') && !s.pcs[t].Read? && !s.pcs[t].Linked? && !s.pcs[t].PopUnlock?
    ensures s'.delivered == s.delivered && |s'.pcs| == |s.pcs|
    ensures Carried(s'.pcs[t], j) == Carried(s.pcs[t], j) + if j in s'.used && j !in s.used then 1 else 0
  {}

  lemma {:induction false} Dequeues(s: State, queue: seq<nat>, t: nat, s': State, j: nat)
    requires Inv(s, queue) && Next(s, t, s') && s.pcs[t].Read?
    ensures |s'.pcs| == |s.pcs| && s'.delivered == s.delivered && s'.used == s.used
    ensures multiset(queue)[j] == multiset(QueueAfter(s, t, queue))[j] + Carried(s'.pcs[t], j)
    ensures Carried(s.pcs[t], j) == 0
  {
    ReadFindsJob(s, queue, t);
    assert Local(s, s.pcs[t]);
    assert queue == [queue[0]] + queue[1..];
    CountFirst(queue[0], queue[1..], j);
  }

  lemma {:induction false} Enqueues(s: State, queue: seq<nat>, t: nat, s': State, j: nat)
    requires Next(s, t, s') && s.pcs[t].Linked?
    ensures |s'.pcs| == |s.pcs| && s'.delivered == s.delivered && s'.used == s.used
    ensures multiset(QueueAfter(s, t, queue))[j] == multiset(queue)[j] + Carried(s.pcs[t], j)
    ensures Carried(s'.pcs[t], j) == 0
  {
    CountFirst(s.pcs[t].job, queue, j);
  }

  lemma {:induction false} Delivers(s: State, t: nat, s': State, j: nat)
    requires Next(s, t, s') && s.pcs[t].PopUnlock?
    ensures |s'.pcs| == |s.pcs| && s'.used == s.used
    ensures multiset(s'.delivered)[Some(j)] == multiset(s.delivered)[Some(j)] + Carried(s.pcs[t], j)
    ensures Carried(s'.pcs[t], j) == 0
  {
    CountLast(s.delivered, s.pcs[t].ret, Some(j));
  }

  /** The share of the moving thread, the queue and the deliveries in the places of job j. */
  lemma {:induction false} StepShare(s: State, queue: seq<nat>, t: nat, s': State, j: nat)
    requires Inv(s, queue) && Next(s, t, s')
    ensures |s'.pcs| == |s.pcs|
    ensures Carried(s'.pcs[t], j) + multiset(QueueAfter(s, t, queue))[j] + multiset(s'.delivered)[Some(j)] ==
            Carried(s.pcs[t], j) + multiset(queue)[j] + multiset(s.delivered)[Some(j)]
            + if j in s'.used && j !in s.used then 1 else 0
  {
    if s.pcs[t].Read? {
      Dequeues(s, queue, t, s', j);
    } else if s.pcs[t].Linked? {
      Enqueues(s, queue, t, s', j);
    } else if s.pcs[t].PopUnlock? {
      Delivers(s, t, s', j);
    } else {
      CarriesOn(s, t, s', j);
    }
  }

  /** Only the arrival of a new job changes the number of places of a job. */
  lemma {:induction false} KeepsPlace(s: State, queue: seq<nat>, t: nat, s': State, j: nat)
    requires Inv(s, queue) && Next(s, t, s')
    ensures Places(s', QueueAfter(s, t, queue), j) ==
            Places(s, queue, j) + if j in s'.used && j !in s.used then 1 else 0
  {
    OneMoves(s, t, s');
    SumUpdate(s.pcs, Carries(j), t, s'.pcs[t]);
    assert Carries(j)(s.pcs[t]) == Carried(s.pcs[t], j) && Carries(j)(s'.pcs[t]) == Carried(s'.pcs[t], j);
    StepShare(s, queue, t, s', j);
  }

  lemma {:induction false} KeepsOnePlace(s: State, queue: seq<nat>, t: nat, s': State)
    requires Inv(s, queue) && Next(s, t, s')
    ensures OnePlace(s', QueueAfter(s, t, queue))
  {
    forall j: nat {:trigger Places(s', QueueAfter(s, t, queue), j)}
      ensures Places(s', QueueAfter(s, t, queue), j) == if j in s'.used then 1 else 0
    {
      assert Places(s, queue, j) == if j in s.used then 1 else 0;
      KeepsPlace(s, queue, t, s', j);
    }
  }

  lemma {:induction false} NextKeepsInv(s: State, queue: seq<nat>, t: nat, s': State)
    requires Inv(s, queue) && Next(s, t, s')
    ensures Inv(s', QueueAfter(s, t, queue))
  {
    KeepsList(s, queue, t, s');
    KeepsLength(s, queue, t, s');
    KeepsOnePlace(s, queue, t, s');
    forall u | 0 <= u < |s'.pcs|
      ensures (Holds(s'.pcs[u]) <==> s'.owner == Some(u)) && Local(s', s'.pcs[u])
    {
      KeepsLocal(s, queue, t, s', u);
    }
    KeepsLocal(s, queue, t, s', t);
    KeepsOwner(s, t, s');
  }

  lemma {:induction false} KeepsOwner(s: State, t: nat, s': State)
    requires OwnerIsThread(s) && Next(s, t, s')
    ensures OwnerIsThread(s')
  {}

  // ---------- Whole runs ----------

  ghost predicate Run(run: seq<State>, who: seq<nat>)
  {
    && |run| == |who| + 1 && Init(run[0])
    && forall i :: 0 <= i < |who| ==> Next(run[i], who[i], run[i + 1])
  }

  /** In every reachable state: |queue| = semaphore + workers past it + inserters that have not posted. */
  lemma {:induction false} RunInv(run: seq<State>, who: seq<nat>, s: State) returns (queue: seq<nat>)
    requires Run(run, who) && s == run[|who|]
    ensures Inv(s, queue)
    decreases |who|
  {
    if who == [] {
      InitInv(s);
      queue := [];
    } else {
      var n := |who| - 1;
      var before := RunInv(run[..n + 1], who[..n], run[n]);
      NextKeepsInv(run[n], before, who[n], s);
      queue := QueueAfter(run[n], who[n], before);
    }
  }

  /** No worker ever takes a job from an empty queue. */
  lemma {:induction false} NeverCrashes(run: seq<State>, who: seq<nat>, t: nat)
    requires Run(run, who) && t < |run[|who|].pcs|
    ensures !run[|who|].pcs[t].Crashed?
    ensures run[|who|].pcs[t].Read? ==> run[|who|].head.Some?
  {
    var s := run[|who|];
    var queue := RunInv(run, who, s);
    assert Local(s, s.pcs[t]);
    if s.pcs[t].Read? {
      ReadFindsJob(s, queue, t);
    }
  }

  lemma {:induction false} TwiceInSeq<T>(s: seq<T>, i: nat, k: nat)
    requires i < k < |s| && s[i] == s[k]
    ensures multiset(s)[s[i]] >= 2
  {
    assert s == s[..k] + ([s[k]] + s[k + 1..]);
    assert s[i] in s[..k];
    assert multiset(s)[s[i]] == multiset(s[..k])[s[i]] + multiset([s[k]] + s[k + 1..])[s[i]];
    assert multiset(s[..k])[s[i]] >= 1;
    CountFirst(s[k], s[k + 1..], s[i]);
  }

  /** No job is delivered twice, and only jobs that were inserted are delivered. */
  lemma {:induction false} DeliveredOnce(run: seq<State>, who: seq<nat>, i: nat)
    requires Run(run, who) && i < |run[|who|].delivered|
    ensures var s := run[|who|];
            && s.delivered[i].Some? && s.delivered[i].value in s.used
            && forall k :: i < k < |s.delivered| ==> s.delivered[k] != s.delivered[i]
  {
    var s := run[|who|];
    var queue := RunInv(run, who, s);
    var j := s.delivered[i].value;
    assert s.delivered[i] in multiset(s.delivered);
    assert Places(s, queue, j) <= 1;
    forall k | i < k < |s.delivered|
      ensures s.delivered[k] != s.delivered[i]
    {
      if s.delivered[k] == s.delivered[i] {
        TwiceInSeq(s.delivered, i, k);
        assert false;
      }
    }
  }

  ghost predicate CarriedBy(s: State, j: nat, t: nat)
  {
    t < |s.pcs| && Carried(s.pcs[t], j) == 1
  }

  lemma {:induction false} OneCarrier(s: State, queue: seq<nat>, j: nat, t: nat)
    requires Inv(s, queue) && CarriedBy(s, j, t)
    ensures Sum(s.pcs, Carries(j)) == 1 && forall u :: CarriedBy(s, j, u) ==> u == t
  {
    assert Places(s, queue, j) <= 1 && Carries(j)(s.pcs[t]) == 1;
    SumAtLeast(s.pcs, Carries(j), t);
    forall u: nat | CarriedBy(s, j, u)
      ensures u == t
    {
      assert Carries(j)(s.pcs[u]) == 1;
      if u < t {
        SumTwo(s.pcs, Carries(j), u, t);
        assert false;
      } else if t < u {
        SumTwo(s.pcs, Carries(j), t, u);
        assert false;
      }
    }
  }

  /** No job is lost: each one is in exactly one place, delivered, in the queue, or with one thread. */
  lemma {:induction false} NeverLost(run: seq<State>, who: seq<nat>, j: nat) returns (queue: seq<nat>)
    requires Run(run, who) && j in run[|who|].used
    ensures var s := run[|who|];
            && IsList(s.head, s.next, queue) && |queue| == s.sem + Sum(s.pcs, Between)
            && (Some(j) in s.delivered || j in queue || exists t :: CarriedBy(s, j, t))
            && !(Some(j) in s.delivered && j in queue)
            && (forall t :: CarriedBy(s, j, t) ==> Some(j) !in s.delivered && j !in queue)
            && (forall t, u :: CarriedBy(s, j, t) && CarriedBy(s, j, u) ==> t == u)
            && multiset(queue)[j] <= 1 && multiset(s.delivered)[Some(j)] <= 1
  {
    var s := run[|who|];
    queue := RunInv(run, who, s);
    assert Places(s, queue, j) == 1;
    assert Some(j) in multiset(s.delivered) <==> Some(j) in s.delivered;
    assert j in multiset(queue) <==> j in queue;
    if Sum(s.pcs, Carries(j)) > 0 {
      var t := SumPositive(s.pcs, Carries(j));
      assert CarriedBy(s, j, t);
    }
    forall t: nat | CarriedBy(s, j, t)
      ensures Some(j) !in s.delivered && j !in queue && forall u :: CarriedBy(s, j, u) ==> u == t
    {
      OneCarrier(s, queue, j, t);
    }
  }

  /** When every call has returned or waits on the semaphore, it counts the queue exactly. */
  lemma {:induction false} QuietSemaphore(run: seq<State>, who: seq<nat>) returns (queue: seq<nat>)
    requires Run(run, who)
    requires forall t :: 0 <= t < |run[|who|].pcs| ==> run[|who|].pcs[t].Idle? || run[|who|].pcs[t].SemWait?
    ensures IsList(run[|who|].head, run[|who|].next, queue) && run[|who|].sem == |queue|
    ensures forall j :: j in run[|who|].used <==> j in queue || Some(j) in run[|who|].delivered
  {
    var s := run[|who|];
    queue := RunInv(run, who, s);
    SumZero(s.pcs, Between);
    forall j: nat
      ensures j in s.used <==> j in queue || Some(j) in s.delivered
    {
      SumZero(s.pcs, Carries(j));
      assert Places(s, queue, j) == if j in s.used then 1 else 0;
      assert Some(j) in multiset(s.delivered) <==> Some(j) in s.delivered;
      assert j in multiset(queue) <==> j in queue;
    }
  }

  // ---------- Nobody waits without need ----------

  ghost predicate CanStep(s: State, t: nat)
  {
    exists s' :: Next(s, t, s')
  }

  lemma {:induction false} HolderSteps(s: State, queue: seq<nat>, t: nat)
    requires Inv(s, queue) && t < |s.pcs| && s.owner == Some(t)
    ensures CanStep(s, t)
  {
    assert Holds(s.pcs[t]);
    match s.pcs[t]
    case Popping => assert Next(s, t, Move(s, t, Read(s.head)));
    case Read(ret) =>
      ReadFindsJob(s, queue, t);
      assert Next(s, t, Move(s, t, PopUnlock(ret)).(head := s.next[s.head.value]));
    case PopUnlock(ret) => assert Next(s, t, Move(s, t, Idle).(owner := None, delivered := s.delivered + [ret]));
    case Linking(j) => assert Next(s, t, Move(s, t, Linked(j)).(next := s.next[j := s.head]));
    case Linked(j) => assert Next(s, t, Move(s, t, PushUnlock).(head := Some(j)));
    case PushUnlock => assert Next(s, t, Move(s, t, Post).(owner := None));
  }

  /** A call under way is held up only by the mutex, or by a semaphore that counts nothing. */
  lemma {:induction false} FreeSteps(s: State, queue: seq<nat>, t: nat)
    requires Inv(s, queue) && t < |s.pcs| && s.owner == None && s.pcs[t] != Idle && (s.pcs[t] == SemWait ==> s.sem > 0)
    ensures CanStep(s, t)
  {
    assert !Holds(s.pcs[t]) && Local(s, s.pcs[t]);
    match s.pcs[t]
    case SemWait => assert Next(s, t, Move(s, t, PopLock).(sem := s.sem - 1));
    case PopLock => assert Next(s, t, Move(s, t, Popping).(owner := Some(t)));
    case PushLock(j) => assert Next(s, t, Move(s, t, Linking(j)).(owner := Some(t)));
    case Post => assert Next(s, t, Move(s, t, Idle).(sem := s.sem + 1));
  }

  /** While a call is under way past the semaphore, or a worker waits for a job that is there, some call can go on. */
  lemma {:induction false} SomeoneSteps(s: State, queue: seq<nat>, t: nat) returns (u: nat)
    requires Inv(s, queue) && t < |s.pcs| && s.pcs[t] != Idle && (s.pcs[t] == SemWait ==> queue != [])
    ensures u < |s.pcs| && s.pcs[u] != Idle && CanStep(s, u)
  {
    if s.owner.Some? {
      u := s.owner.value;
      assert Holds(s.pcs[u]);
      HolderSteps(s, queue, u);
    } else {
      u := t;
      if s.pcs[t] == SemWait && s.sem == 0 {
        u := SumPositive(s.pcs, Between);
      }
      assert !Holds(s.pcs[u]);
      FreeSteps(s, queue, u);
    }
  }

  /**
   In a reachable state where no call under way can go on, all of them wait for a job. If there are any, the queue
   is empty and each job handed in was delivered exactly once.
   */
  lemma {:induction false} StuckMeansDelivered(run: seq<State>, who: seq<nat>, t: nat)
    requires Run(run, who)
    requires forall u: nat :: u < |run[|who|].pcs| && run[|who|].pcs[u] != Idle ==> !CanStep(run[|who|], u)
    ensures var s := run[|who|];
            && (forall u :: 0 <= u < |s.pcs| ==> s.pcs[u] == Idle || s.pcs[u] == SemWait)
            && (t < |s.pcs| && s.pcs[t] == SemWait ==>
                  && s.head == None && s.sem == 0
                  && forall j :: j in s.used ==> multiset(s.delivered)[Some(j)] == 1)
  {
    var s := run[|who|];
    var queue := RunInv(run, who, s);
    forall u: nat | u < |s.pcs|
      ensures s.pcs[u] == Idle || (s.pcs[u] == SemWait && queue == [])
    {
      if s.pcs[u] != Idle && (s.pcs[u] == SemWait ==> queue != []) {
        var v := SomeoneSteps(s, queue, u);
        assert false;
      }
    }
    forall j | j in s.used && queue == []
      ensures multiset(s.delivered)[Some(j)] == 1
    {
      SumZero(s.pcs, Carries(j));
      assert Places(s, queue, j) == 1;
    }
  }

  // ---------- The queue is a stack ----------

  datatype Event = Push(job: nat) | Pop(job: nat)

  /** A job enters when it becomes the head of the list, and leaves when the head moves on. */
  function EventOf(s: State, t: nat): seq<Event>
    requires t < |s.pcs|
  {
    var pc := s.pcs[t];
    if pc.Linked? then [Push(pc.job)] else if pc.Read? && pc.ret.Some? then [Pop(pc.ret.value)] else []
  }

  function Events(run: seq<State>, who: seq<nat>): seq<Event>
    requires |run| == |who| + 1
    decreases |who|
  {
    if who == [] then []
    else
      var n := |who| - 1;
      Events(run[..n + 1], who[..n]) + if who[n] < |run[n].pcs| then EventOf(run[n], who[n]) else []
  }

  /** The stack after these events, top first; None when something else than the top was popped. */
  function StackAfter(es: seq<Event>): Option<seq<nat>>
  {
    if es == [] then Some([])
    else
      var n := |es| - 1;
      var s := StackAfter(es[..n]);
      if s.None? then None
      else if es[n].Push? then Some([es[n].job] + s.value)
      else if s.value != [] && s.value[0] == es[n].job then Some(s.value[1..])
      else None
  }

  lemma {:induction false} EventStep(s: State, queue: seq<nat>, t: nat, es: seq<Event>)
    requires Inv(s, queue) && t < |s.pcs| && StackAfter(es) == Some(queue)
    ensures StackAfter(es + EventOf(s, t)) == Some(QueueAfter(s, t, queue))
  {
    assert Local(s, s.pcs[t]);
    if EventOf(s, t) == [] {
      assert es + [] == es;
    } else {
      assert (es + EventOf(s, t))[..|es|] == es;
    }
    if s.pcs[t].Read? {
      ReadFindsJob(s, queue, t);
    }
  }

  /** In every run, each job taken is the one put in last of those still there, and the list in memory is the rest. */
  lemma {:induction false} LastInFirstOut(run: seq<State>, who: seq<nat>, s: State) returns (queue: seq<nat>)
    requires Run(run, who) && s == run[|who|]
    ensures Inv(s, queue) && StackAfter(Events(run, who)) == Some(queue)
    decreases |who|
  {
    if who == [] {
      InitInv(s);
      queue := [];
    } else {
      var n := |who| - 1;
      var es := Events(run[..n + 1], who[..n]);
      var before := LastInFirstOut(run[..n + 1], who[..n], run[n]);
      NextKeepsInv(run[n], before, who[n], s);
      EventStep(run[n], before, who[n], es);
      queue := QueueAfter(run[n], who[n], before);
    }
  }

  // ---------- One call by itself ----------

  /** Only thread t moves, from s to s'. */
  ghost predicate Leads(run: seq<State>, t: nat, s: State, s': State)
  {
    && run != [] && run[0] == s && run[|run| - 1] == s'
    && forall i :: 0 <= i < |run| - 1 ==> Next(run[i], t, run[i + 1])
  }

  /** There are runs for any number of threads, and each step prolongs a run. */
  lemma {:induction false} RunsGoOn(n: nat, next: map<nat, Option<nat>>, run: seq<State>, who: seq<nat>,
                                    t: nat, s': State)
    ensures Run([State(seq(n, _ => Idle), 0, None, None, next, {}, [])], [])
    ensures Run(run, who) && Next(run[|who|], t, s') ==> Run(run + [s'], who + [t])
  {
    if Run(run, who) && Next(run[|who|], t, s') {
      var run', who' := run + [s'], who + [t];
      forall i | 0 <= i < |who'|
        ensures Next(run'[i], who'[i], run'[i + 1])
      {
        if i < |who| {
          assert Next(run[i], who[i], run[i + 1]);
        }
      }
    }
  }

  /** So the steps of a thread by itself prolong a run up to where they lead. */
  lemma {:induction false} LeadsOn(run: seq<State>, who: seq<nat>, more: seq<State>, t: nat, s': State)
    returns (run': seq<State>, who': seq<nat>)
    requires Run(run, who) && Leads(more, t, run[|who|], s')
    ensures Run(run', who') && run'[|who'|] == s' && run <= run' && who <= who'
    ensures forall i :: |who| <= i < |who'| ==> who'[i] == t
    decreases |more|
  {
    if |more| == 1 {
      run', who' := run, who;
    } else {
      assert Next(more[0], t, more[1]);
      assert Leads(more[1..], t, more[1], s');
      RunsGoOn(0, map[], run, who, t, more[1]);
      run', who' := LeadsOn(run + [more[1]], who + [t], more[1..], t, s');
    }
  }

  /** An insert_job that nobody disturbs puts its job in front, counts it and returns. */
  lemma {:induction false} InsertAlone(s: State, queue: seq<nat>, t: nat, j: nat) returns (run: seq<State>, s': State)
    requires Inv(s, queue) && t < |s.pcs| && s.pcs[t] == Idle && s.owner == None && j !in s.used
    ensures Leads(run, t, s, s') && s'.pcs == s.pcs && s'.owner == None && s'.delivered == s.delivered
    ensures s'.head == Some(j) && s'.next == s.next[j := s.head] && s'.sem == s.sem + 1 && s'.used == s.used + {j}
  {
    var a := Move(s, t, PushLock(j)).(used := s.used + {j});
    assert Inserts(s, t, j, a);
    var b := Move(a, t, Linking(j)).(owner := Some(t));
    var c := Move(b, t, Linked(j)).(next := b.next[j := b.head]);
    var d := Move(c, t, PushUnlock).(head := Some(j));
    var e := Move(d, t, Post).(owner := None);
    s' := Move(e, t, Idle).(sem := e.sem + 1);
    run := [s, a, b, c, d, e, s'];
    assert s'.pcs == s.pcs;
  }

  /** A get_job that nobody disturbs takes the job in front and returns it. */
  lemma {:induction false} GetAlone(s: State, queue: seq<nat>, t: nat) returns (run: seq<State>, s': State)
    requires Inv(s, queue) && t < |s.pcs| && s.pcs[t] == Idle && s.owner == None && s.sem > 0
    ensures Leads(run, t, s, s') && s'.pcs == s.pcs && s'.owner == None && s'.next == s.next && s'.used == s.used
    ensures queue != [] && s'.delivered == s.delivered + [Some(queue[0])] && s'.sem == s.sem - 1
    ensures s'.head == if |queue| > 1 then Some(queue[1]) else None
  {
    assert NextAt(s.next, queue, 0);
    var a := Move(s, t, SemWait);
    var b := Move(a, t, PopLock).(sem := a.sem - 1);
    var c := Move(b, t, Popping).(owner := Some(t));
    var d := Move(c, t, Read(c.head));
    var e := Move(d, t, PopUnlock(c.head)).(head := d.next[d.head.value]);
    s' := Move(e, t, Idle).(owner := None, delivered := e.delivered + [c.head]);
    run := [s, a, b, c, d, e, s'];
    assert s'.pcs == s.pcs;
  }
}
