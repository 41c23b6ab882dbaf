/** The dining philosophers, who pick up their two forks in index order. */
module Philosophers {
  import opened OrderedLocking

  function Min(a: nat, b: nat): nat { if a < b then a else b }
  function Max(a: nat, b: nat): nat { if a > b then a else b }

  /** Philosopher i needs fork i and the next one around the table. */
  function Forks(n: nat, i: nat): Task
    requires i < n
  {
    Locks(Min(i, (i + 1) % n), Max(i, (i + 1) % n))
  }

  function Table(n: nat): seq<Task>
  {
    seq(n, i requires 0 <= i < n => Forks(n, i))
  }

  lemma Neighbours(n: nat, i: nat)
    requires i < n
    ensures i != (i + 1) % n <==> n >= 2
  {
    if i + 1 < n {
      assert (i + 1) % n == i + 1;
    } else {
      assert (i + 1) % n == 0;
    }
  }

  lemma TableOrdered(n: nat)
    ensures Ordered(Table(n)) <==> n != 1
  {
    if n >= 1 {
      Neighbours(n, 0);
    }
    forall i | 0 <= i < n && n >= 2
      ensures Table(n)[i].first < Table(n)[i].second
    {
      Neighbours(n, i);
    }
    if n == 1 {
      assert Table(n)[0].first == Table(n)[0].second;
    }
  }

  /** A philosopher eats in the one step that makes up the work. */
  predicate Eats(run: seq<State>, who: seq<nat>, i: nat, t: nat)
  {
    i < |who| && i < |run| && who[i] == t && t < |run[i].pcs| && run[i].pcs[t] == Both(0)
  }

  ghost function Meals(run: seq<State>, who: seq<nat>, t: nat, k: nat): nat
  {
    if k == 0 then 0 else Meals(run, who, t, k - 1) + if Eats(run, who, k - 1, t) then 1 else 0
  }

  predicate HasEaten(pc: PC)
  {
    (pc.Both? && pc.done > 0) || pc.Leaving? || pc.Done?
  }

  /** One step of anyone: t has eaten after it if it had before or eats in it. */
  lemma MealStep(n: nat, s: State, u: nat, t: nat)
    requires n >= 2 && Inv(Table(n), 1, s) && Enabled(Table(n), 1, s, u) && t < n
    ensures HasEaten(After(Table(n), 1, s, u).pcs[t]) <==> HasEaten(s.pcs[t]) || (u == t && s.pcs[t] == Both(0))
  {}

  lemma {:induction false} MealsCounted(n: nat, run: seq<State>, who: seq<nat>, t: nat, k: nat)
    requires n >= 2 && Run(Table(n), 1, run, who) && t < n && k <= |who|
    ensures |run[k].pcs| == n && Meals(run, who, t, k) == if HasEaten(run[k].pcs[t]) then 1 else 0
  {
    TableOrdered(n);
    RunInvAt(Table(n), 1, run, who, k);
    if k > 0 {
      RunInvAt(Table(n), 1, run, who, k - 1);
      MealsCounted(n, run, who, t, k - 1);
      MealStep(n, run[k - 1], who[k - 1], t);
    }
  }

  /** At every meal both forks are in the hands of the eater alone. */
  lemma {:induction false} EatsAlone(n: nat, run: seq<State>, who: seq<nat>, i: nat, t: nat, u: nat)
    requires n >= 2 && Run(Table(n), 1, run, who) && Eats(run, who, i, t) && u < n && u != t
    ensures t < n == |run[i].pcs|
    ensures forall fork :: fork == t || fork == (t + 1) % n ==>
              fork in run[i].owner && run[i].owner[fork] == t && !Holds(Forks(n, u), run[i].pcs[u], fork)
  {
    TableOrdered(n);
    RunInvAt(Table(n), 1, run, who, i);
    forall fork | fork == t || fork == (t + 1) % n
      ensures fork in run[i].owner && run[i].owner[fork] == t && !Holds(Forks(n, u), run[i].pcs[u], fork)
    {
      Exclusive(Table(n), 1, run[i], t, u, fork);
    }
  }

  /** Every run is finite; it gets stuck only when each philosopher has eaten exactly once. */
  lemma {:induction false} EveryoneEats(n: nat, run: seq<State>, who: seq<nat>)
    requires n >= 2 && Run(Table(n), 1, run, who)
    ensures |who| <= 5 * n
    ensures (forall t :: !Enabled(Table(n), 1, run[|who|], t)) ==>
              forall t: nat :: t < n ==> Meals(run, who, t, |who|) == 1
  {
    TableOrdered(n);
    RunsEnd(Table(n), 1, run, who);
    if forall t :: !Enabled(Table(n), 1, run[|who|], t) {
      forall t: nat | t < n
        ensures Meals(run, who, t, |who|) == 1
      {
        MealsCounted(n, run, who, t, |who|);
      }
    }
  }

  /** With a single philosopher the two forks are one, and he waits for himself. */
  lemma {:induction false} AloneStarves(run: seq<State>)
    requires run == [Init(Table(1)), After(Table(1), 1, Init(Table(1)), 0)]
    ensures Run(Table(1), 1, run, [0])
    ensures !AllDone(run[1]) && forall t :: !Enabled(Table(1), 1, run[1], t)
  {
    Neighbours(1, 0);
    assert Table(1)[0] == Locks(0, 0);
    assert run[1].pcs[0] == HasFirst && 0 in run[1].owner;
  }

  ghost predicate Stuck(n: nat, run: seq<State>, who: seq<nat>)
  {
    Run(Table(n), 1, run, who) && forall t :: !Enabled(Table(n), 1, run[|who|], t)
  }

  ghost predicate AllFed(n: nat, run: seq<State>, who: seq<nat>)
  {
    forall t: nat :: t < n ==> Meals(run, who, t, |who|) == 1
  }

  /** Runs that cannot go on have fed everyone exactly once, for every table but that of one philosopher. */
  lemma {:induction false} FedUnlessAlone(n: nat)
    ensures (forall run, who :: Stuck(n, run, who) ==> AllFed(n, run, who)) <==> n != 1
  {
    if n != 1 {
      forall run, who | Stuck(n, run, who)
        ensures AllFed(n, run, who)
      {
        if n >= 2 {
          EveryoneEats(n, run, who);
        }
      }
    } else {
      Neighbours(1, 0);
      var run := [Init(Table(1)), After(Table(1), 1, Init(Table(1)), 0)];
      AloneStarves(run);
      assert Stuck(1, run, [0]);
      assert Meals(run, [0], 0, 1) == 0;
      assert !AllFed(1, run, [0]);
    }
  }
}
