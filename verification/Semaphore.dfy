/**
 A counting semaphore made of a mutex and a condition variable, as a step system: any number
 of threads, any interleaving, spurious wakeups included. A signal that wakes several sleepers
 is a signal that wakes one, followed by spurious wakeups of the others.
 */
module Semaphore {
  import opened Wrappers
  import opened Counting

  /** Where a thread is; Check and Take remember whether it slept before. */
  datatype PC =
    | Idle
    | WaitLock | Check(woken: bool) | Take(woken: bool) | WaitUnlock
    | Sleeping | Woken
    | PostLock | PostInc | PostUnlock | PostSignal

  /** waits and posts count the calls that returned. */
  datatype State = State(pcs: seq<PC>, owner: Option<nat>, counter: nat, waits: nat, posts: nat)

  const ULLONG_MAX: nat := 0xFFFF_FFFF_FFFF_FFFF

  /** The counter is an unsigned number of 64 bits. */
  function Increment(c: nat): nat { if c == ULLONG_MAX then 0 else c + 1 }
  function Decrement(c: nat): nat { if c == 0 then ULLONG_MAX else c - 1 }

  lemma CountsModulo(c: nat)
    requires c <= ULLONG_MAX
    ensures Increment(c) == (c + 1) % (ULLONG_MAX + 1) && Decrement(c) == (c - 1) % (ULLONG_MAX + 1)
  {
    assert (0 - 1) % (ULLONG_MAX + 1) == ULLONG_MAX;
  }

  function Move(s: State, t: nat, pc: PC): State
    requires t < |s.pcs|
  {
    s.(pcs := s.pcs[t := pc])
  }

  /** Thread t returns from its post, and its signal wakes thread u. */
  function Signalled(s: State, t: nat, u: nat): State
    requires t < |s.pcs| && u < |s.pcs|
  {
    Move(Move(s, t, Idle), u, Woken).(posts := s.posts + 1)
  }

  predicate Sleeps(s: State, u: nat) { u < |s.pcs| && s.pcs[u] == Sleeping }

  /** Thread t may go from s to s'. */
  ghost predicate Next(s: State, t: nat, s': State)
  {
    t < |s.pcs| &&
    match s.pcs[t]
    case Idle => s' == Move(s, t, WaitLock) || s' == Move(s, t, PostLock)
    case WaitLock => s.owner == None && s' == Move(s, t, Check(false)).(owner := Some(t))
    case Check(woken) =>
      s' == if s.counter == 0 then Move(s, t, Sleeping).(owner := None) else Move(s, t, Take(woken))
    case Take(_) => s' == Move(s, t, WaitUnlock).(counter := Decrement(s.counter))
    case WaitUnlock => s' == Move(s, t, Idle).(owner := None, waits := s.waits + 1)
    case Sleeping => s' == Move(s, t, Woken)
    case Woken => s.owner == None && s' == Move(s, t, Check(true)).(owner := Some(t))
    case PostLock => s.owner == None && s' == Move(s, t, PostInc).(owner := Some(t))
    case PostInc => s' == Move(s, t, PostUnlock).(counter := Increment(s.counter))
    case PostUnlock => s' == Move(s, t, PostSignal).(owner := None)
    case PostSignal =>
      if exists u :: Sleeps(s, u) then exists u :: Sleeps(s, u) && s' == Signalled(s, t, u)
      else s' == Move(s, t, Idle).(posts := s.posts + 1)
  }

  ghost predicate Init(s: State, value: nat)
  {
    && value <= 0xFFFF_FFFF && s.counter == value && s.owner == None && s.waits == s.posts == 0
    && forall t :: 0 <= t < |s.pcs| ==> s.pcs[t] == Idle
  }

  // ---------- What every step keeps ----------

  predicate Holds(pc: PC)
  {
    pc.Check? || pc.Take? || pc.WaitUnlock? || pc.PostInc? || pc.PostUnlock?
  }

  /** Posters that still have to signal, and woken waiters that have not settled their claim. */
  function Due(pc: PC): nat
  {
    if pc.PostUnlock? || pc.PostSignal? || pc.Woken? || (pc.Check? && pc.woken) || (pc.Take? && pc.woken) then 1 else 0
  }

  /** Waits that have taken their share, and posts that have added theirs, but have not returned yet. */
  function Taken(pc: PC): nat { if pc.WaitUnlock? then 1 else 0 }
  function Added(pc: PC): nat { if pc.PostUnlock? || pc.PostSignal? then 1 else 0 }

  ghost predicate Mutex(s: State)
  {
    forall t :: 0 <= t < |s.pcs| ==> (Holds(s.pcs[t]) <==> s.owner == Some(t))
  }

  ghost predicate NoLostWakeup(s: State)
  {
    (exists u :: Sleeps(s, u)) ==> s.counter <= Sum(s.pcs, Due)
  }

  ghost predicate Conserves(s: State, value: nat)
  {
    var taken, added := s.waits + Sum(s.pcs, Taken), s.posts + Sum(s.pcs, Added);
    && s.counter <= ULLONG_MAX && s.counter + taken <= value + added
    && (value + added <= ULLONG_MAX ==> s.counter + taken == value + added)
  }

  ghost predicate Inv(s: State, value: nat)
  {
    && Mutex(s) && NoLostWakeup(s) && Conserves(s, value)
    && (s.owner.Some? ==> s.owner.value < |s.pcs| && (s.pcs[s.owner.value].Take? ==> s.counter > 0))
  }

  lemma {:induction false} InitInv(s: State, value: nat)
    requires Init(s, value)
    ensures Inv(s, value)
  {
    SumZero(s.pcs, Taken);
    SumZero(s.pcs, Added);
  }

  lemma {:induction false} KeepsMutex(s: State, t: nat, s': State, value: nat)
    requires Inv(s, value) && Next(s, t, s')
    ensures Mutex(s')
  {}

  lemma {:induction false} KeepsOwner(s: State, t: nat, s': State, value: nat)
    requires Inv(s, value) && Next(s, t, s')
    ensures s'.owner.Some? ==> s'.owner.value < |s'.pcs|
    ensures s'.owner.Some? && s'.pcs[s'.owner.value].Take? ==> s'.counter > 0
  {}

  lemma {:induction false} KeepsCount(s: State, t: nat, s': State, value: nat)
    requires Inv(s, value) && Next(s, t, s')
    ensures Conserves(s', value)
  {
    if s.pcs[t].PostSignal? {
      SignalKeepsCount(s, t, s', value);
    } else {
      SumUpdate(s.pcs, Taken, t, s'.pcs[t]);
      SumUpdate(s.pcs, Added, t, s'.pcs[t]);
    }
  }

  lemma {:induction false} SignalKeepsCount(s: State, t: nat, s': State, value: nat)
    requires Inv(s, value) && Next(s, t, s') && s.pcs[t].PostSignal?
    ensures Conserves(s', value)
  {
    SumUpdate(s.pcs, Taken, t, Idle);
    SumUpdate(s.pcs, Added, t, Idle);
    if exists u :: Sleeps(s, u) {
      var u :| Sleeps(s, u) && s' == Signalled(s, t, u);
      SumUpdate(s.pcs[t := Idle], Taken, u, Woken);
      SumUpdate(s.pcs[t := Idle], Added, u, Woken);
    }
  }

  /** The counter never gains more than the share of the thread that moves. */
  lemma {:induction false} StepShare(s: State, t: nat, s': State, value: nat)
    requires Inv(s, value) && Next(s, t, s') && !s.pcs[t].PostSignal?
    ensures |s'.pcs| == |s.pcs| && s'.pcs == s.pcs[t := s'.pcs[t]]
    ensures s'.counter == 0 || (s'.counter + Due(s.pcs[t]) <= s.counter + Due(s'.pcs[t]) && s'.pcs[t] != Sleeping)
  {}

  lemma {:induction false} KeepsWakeup(s: State, t: nat, s': State, value: nat)
    requires Inv(s, value) && Next(s, t, s') && !s.pcs[t].PostSignal?
    ensures NoLostWakeup(s')
  {
    StepShare(s, t, s', value);
    SumUpdate(s.pcs, Due, t, s'.pcs[t]);
    if u :| Sleeps(s', u) && s'.counter > 0 {
      assert Sleeps(s, u);
    }
  }

  /** A signal hands its share to the sleeper it wakes. */
  lemma {:induction false} SignalKeepsWakeup(s: State, t: nat, s': State, value: nat)
    requires Inv(s, value) && Next(s, t, s') && s.pcs[t].PostSignal?
    ensures NoLostWakeup(s')
  {
    SumUpdate(s.pcs, Due, t, Idle);
    if exists u :: Sleeps(s, u) {
      var u :| Sleeps(s, u) && s' == Signalled(s, t, u);
      SumUpdate(s.pcs[t := Idle], Due, u, Woken);
    } else {
      assert forall u :: Sleeps(s', u) ==> Sleeps(s, u);
    }
  }

  lemma {:induction false} NextKeepsInv(s: State, t: nat, s': State, value: nat)
    requires Inv(s, value) && Next(s, t, s')
    ensures Inv(s', value)
  {
    KeepsMutex(s, t, s', value);
    KeepsOwner(s, t, s', value);
    KeepsCount(s, t, s', value);
    if s.pcs[t].PostSignal? {
      SignalKeepsWakeup(s, t, s', value);
    } else {
      KeepsWakeup(s, t, s', value);
    }
  }

  // ---------- Whole runs ----------

  /** Each state follows from the one before by a step of some thread. */
  ghost predicate Run(run: seq<State>, who: seq<nat>, value: nat)
  {
    && |run| == |who| + 1 && Init(run[0], value)
    && forall i :: 0 <= i < |who| ==> Next(run[i], who[i], run[i + 1])
  }

  lemma {:induction false} RunInv(run: seq<State>, who: seq<nat>, value: nat, s: State)
    requires Run(run, who, value) && s == run[|who|]
    ensures Inv(s, value)
    decreases |who|
  {
    if who == [] {
      InitInv(s, value);
    } else {
      var n := |who| - 1;
      RunInv(run[..n + 1], who[..n], value, run[n]);
      NextKeepsInv(run[n], who[n], s, value);
    }
  }

  /**
   Completed waits never exceed the initial value and the posts made; below 2^64 nothing is lost: the counter is
   the initial value and the posts, less the waits, counting the calls that have had their effect.
   */
  lemma {:induction false} WaitsAreCovered(run: seq<State>, who: seq<nat>, value: nat)
    requires Run(run, who, value)
    ensures var s := run[|who|];
            var waits, posts := s.waits + Sum(s.pcs, Taken), s.posts + Sum(s.pcs, Added);
            waits <= value + posts && (value + posts <= ULLONG_MAX ==> s.counter == value + posts - waits)
  {
    RunInv(run, who, value, run[|who|]);
  }

  /** Where every call has returned or sleeps: the counter is exact, and a sleeper means that all of it was taken. */
  lemma {:induction false} QuietCounter(run: seq<State>, who: seq<nat>, value: nat)
    requires Run(run, who, value) && value + run[|who|].posts <= ULLONG_MAX
    requires forall t :: 0 <= t < |run[|who|].pcs| ==> Resting(run[|who|].pcs[t])
    ensures var s := run[|who|];
            && s.counter + s.waits == value + s.posts
            && ((exists u :: Sleeps(s, u)) ==> s.waits == value + s.posts)
  {
    var s := run[|who|];
    RunInv(run, who, value, s);
    SumZero(s.pcs, Taken);
    SumZero(s.pcs, Added);
    SumZero(s.pcs, Due);
  }

  /** While anyone sleeps, the counter is covered by posters yet to signal and woken waiters. */
  lemma {:induction false} NoWakeupIsLost(run: seq<State>, who: seq<nat>, value: nat, u: nat)
    requires Run(run, who, value) && Sleeps(run[|who|], u)
    ensures run[|who|].counter <= Sum(run[|who|].pcs, Due)
  {
    RunInv(run, who, value, run[|who|]);
  }

  predicate Resting(pc: PC) { pc.Idle? || pc.Sleeping? }

  ghost predicate CanStep(s: State, t: nat)
  {
    exists s' :: Next(s, t, s')
  }

  lemma {:induction false} OwnerSteps(s: State, value: nat)
    requires Inv(s, value) && s.owner.Some?
    ensures CanStep(s, s.owner.value)
  {
    var t := s.owner.value;
    assert Holds(s.pcs[t]);
    match s.pcs[t]
    case Check(woken) =>
      assert Next(s, t, if s.counter == 0 then Move(s, t, Sleeping).(owner := None) else Move(s, t, Take(woken)));
    case Take(_) =>
      assert Next(s, t, Move(s, t, WaitUnlock).(counter := Decrement(s.counter)));
    case WaitUnlock => assert Next(s, t, Move(s, t, Idle).(owner := None, waits := s.waits + 1));
    case PostInc => assert Next(s, t, Move(s, t, PostUnlock).(counter := Increment(s.counter)));
    case PostUnlock => assert Next(s, t, Move(s, t, PostSignal).(owner := None));
  }

  lemma {:induction false} FreeSteps(s: State, value: nat, t: nat)
    requires Inv(s, value) && s.owner == None && t < |s.pcs| && !Resting(s.pcs[t])
    ensures CanStep(s, t)
  {
    assert !Holds(s.pcs[t]);
    match s.pcs[t]
    case WaitLock => assert Next(s, t, Move(s, t, Check(false)).(owner := Some(t)));
    case Woken => assert Next(s, t, Move(s, t, Check(true)).(owner := Some(t)));
    case PostLock => assert Next(s, t, Move(s, t, PostInc).(owner := Some(t)));
    case PostSignal =>
      if u :| Sleeps(s, u) {
        assert Next(s, t, Signalled(s, t, u));
      } else {
        assert Next(s, t, Move(s, t, Idle).(posts := s.posts + 1));
      }
  }

  /** A call under way that does not sleep never blocks the whole system. */
  lemma {:induction false} SomeoneSteps(s: State, value: nat, t: nat) returns (u: nat)
    requires Inv(s, value) && t < |s.pcs| && !Resting(s.pcs[t])
    ensures u < |s.pcs| && !Resting(s.pcs[u]) && CanStep(s, u)
  {
    if s.owner.Some? {
      u := s.owner.value;
      assert Holds(s.pcs[u]);
      OwnerSteps(s, value);
    } else {
      u := t;
      FreeSteps(s, value, t);
    }
  }

  /** With a positive counter, a sleeper is never left with nobody under way to wake it. */
  lemma {:induction false} SleepersAreServed(run: seq<State>, who: seq<nat>, value: nat, u: nat) returns (t: nat)
    requires Run(run, who, value) && Sleeps(run[|who|], u) && run[|who|].counter > 0
    ensures t < |run[|who|].pcs| && !Resting(run[|who|].pcs[t]) && CanStep(run[|who|], t)
  {
    var s := run[|who|];
    RunInv(run, who, value, run[|who|]);
    t := SumPositive(s.pcs, Due);
    t := SomeoneSteps(s, value, t);
  }

  // ---------- One call by itself ----------

  /** Only thread t moves, from s to s'. */
  ghost predicate Leads(run: seq<State>, t: nat, s: State, s': State)
  {
    && run != [] && run[0] == s && run[|run| - 1] == s'
    && forall i :: 0 <= i < |run| - 1 ==> Next(run[i], t, run[i + 1])
  }

  /** There are runs for any number of threads and any initial value, and each step prolongs a run. */
  lemma {:induction false} RunsGoOn(n: nat, value: nat, run: seq<State>, who: seq<nat>, t: nat, s': State)
    ensures value <= 0xFFFF_FFFF ==> Run([State(seq(n, _ => Idle), None, value, 0, 0)], [], value)
    ensures Run(run, who, value) && Next(run[|who|], t, s') ==> Run(run + [s'], who + [t], value)
  {
    if Run(run, who, value) && Next(run[|who|], t, s') {
      var run', who' := run + [s'], who + [t];
      forall i | 0 <= i < |who'|
        ensures Next(run'[i], who'[i], run'[i + 1])
      {
        if i < |who| {
          assert Next(run[i], who[i], run[i + 1]);
        }
      }
    }
  }

  /** So the steps of a thread by itself prolong a run up to where they lead. */
  lemma {:induction false} LeadsOn(value: nat, run: seq<State>, who: seq<nat>, more: seq<State>, t: nat, s': State)
    returns (run': seq<State>, who': seq<nat>)
    requires Run(run, who, value) && Leads(more, t, run[|who|], s')
    ensures Run(run', who', value) && run'[|who'|] == s' && run <= run' && who <= who'
    ensures forall i :: |who| <= i < |who'| ==> who'[i] == t
    decreases |more|
  {
    if |more| == 1 {
      run', who' := run, who;
    } else {
      assert Next(more[0], t, more[1]);
      assert Leads(more[1..], t, more[1], s');
      RunsGoOn(0, value, run, who, t, more[1]);
      run', who' := LeadsOn(value, run + [more[1]], who + [t], more[1..], t, s');
    }
  }

  lemma {:induction false} OneMore(run: seq<State>, t: nat, s: State, d: State, s': State) returns (run': seq<State>)
    requires Leads(run, t, s, d) && Next(d, t, s')
    ensures Leads(run', t, s, s')
  {
    run' := run + [s'];
  }

  /** A post up to its signal. */
  lemma {:induction false} PostAdds(s: State, t: nat) returns (run: seq<State>, d: State)
    requires t < |s.pcs| && s.pcs[t] == Idle && s.owner == None && s.counter < ULLONG_MAX
    ensures Leads(run, t, s, d) && d == Move(s, t, PostSignal).(counter := s.counter + 1)
  {
    var a := Move(s, t, PostLock);
    var b := Move(a, t, PostInc).(owner := Some(t));
    var c := Move(b, t, PostUnlock).(counter := Increment(b.counter));
    d := Move(c, t, PostSignal).(owner := None);
    run := [s, a, b, c, d];
  }

  ghost predicate WakesOne(s: State, s': State)
  {
    if exists u :: Sleeps(s, u) then exists u: nat :: Sleeps(s, u) && s'.pcs == s.pcs[u := Woken] else s'.pcs == s.pcs
  }

  /** A post that nobody disturbs adds one, returns, and wakes a sleeper if there is one. */
  lemma {:induction false} PostAlone(s: State, t: nat) returns (run: seq<State>, s': State)
    requires t < |s.pcs| && s.pcs[t] == Idle && s.owner == None && s.counter < ULLONG_MAX
    ensures Leads(run, t, s, s') && s'.owner == None && WakesOne(s, s')
    ensures s'.counter == s.counter + 1 && s'.posts == s.posts + 1 && s'.waits == s.waits
  {
    var d;
    run, d := PostAdds(s, t);
    assert forall u :: Sleeps(d, u) <==> Sleeps(s, u);
    if u: nat :| Sleeps(s, u) {
      s' := Signalled(d, t, u);
      assert s'.pcs == s.pcs[u := Woken];
    } else {
      s' := Move(d, t, Idle).(posts := d.posts + 1);
      assert s'.pcs == s.pcs;
    }
    run := OneMore(run, t, s, d, s');
  }

  /** A wait that nobody disturbs, new or woken: it takes one and returns, or sleeps where there is none. */
  lemma {:induction false} WaitAlone(s: State, t: nat) returns (run: seq<State>, s': State)
    requires t < |s.pcs| && (s.pcs[t] == Idle || s.pcs[t] == Woken) && s.owner == None
    ensures Leads(run, t, s, s') && s'.owner == None && s'.posts == s.posts
    ensures if s.counter > 0
            then s'.counter == s.counter - 1 && s'.waits == s.waits + 1 && s'.pcs == s.pcs[t := Idle]
            else s'.counter == 0 && s'.waits == s.waits && s'.pcs == s.pcs[t := Sleeping]
  {
    var woken := s.pcs[t] == Woken;
    var a := if woken then s else Move(s, t, WaitLock);
    var b := Move(a, t, Check(woken)).(owner := Some(t));
    run := if woken then [s, b] else [s, a, b];
    if s.counter == 0 {
      s' := Move(b, t, Sleeping).(owner := None);
      run := run + [s'];
    } else {
      var c := Move(b, t, Take(woken));
      var d := Move(c, t, WaitUnlock).(counter := Decrement(c.counter));
      s' := Move(d, t, Idle).(owner := None, waits := d.waits + 1);
      run := run + [c, d, s'];
    }
  }
}
