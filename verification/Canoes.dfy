/** The fewest canoes for a group of kids: the sorted two-pointer greedy and the exhaustive search. */
module Canoes {
  import opened Multisets
  import opened Unsigned

  const MAX_CANOE_WEIGHT: nat := 150

  // ---------- What both compute ----------

  datatype Canoe = Alone(a: nat) | Pair(a: nat, b: nat)

  function Seats(c: Canoe): multiset<nat>
  {
    match c
    case Alone(a) => multiset{a}
    case Pair(a, b) => multiset{a} + multiset{b}
  }

  predicate Fits(c: Canoe)
  {
    match c
    case Alone(a) => a <= MAX_CANOE_WEIGHT
    case Pair(a, b) => a + b <= MAX_CANOE_WEIGHT
  }

  function Kids(cs: seq<Canoe>): multiset<nat>
  {
    if cs == [] then multiset{} else Seats(cs[0]) + Kids(cs[1..])
  }

  /** The canoes carry exactly these kids, each within the limit. */
  ghost predicate Carries(cs: seq<Canoe>, m: multiset<nat>)
  {
    Kids(cs) == m && forall c :: c in cs ==> Fits(c)
  }

  ghost predicate CanCarry(m: multiset<nat>, k: nat)
  {
    exists cs :: Carries(cs, m) && |cs| == k
  }

  /** k is the least number of canoes. */
  ghost predicate IsMin(m: multiset<nat>, k: nat)
  {
    CanCarry(m, k) && forall j: nat :: CanCarry(m, j) ==> k <= j
  }

  ghost predicate Light(m: multiset<nat>)
  {
    forall w :: w in m ==> w <= MAX_CANOE_WEIGHT
  }

  /** r is the least number of canoes, or UINT_MAX when some kid is too heavy even alone. */
  ghost predicate Answers(m: multiset<nat>, r: nat)
  {
    if Light(m) then IsMin(m, r) && r <= |m| else r == UINT_MAX
  }

  // ---------- Rearranging canoes ----------

  lemma {:induction false} KidsConcat(cs: seq<Canoe>, ds: seq<Canoe>)
    ensures Kids(cs + ds) == Kids(cs) + Kids(ds)
  {
    if cs == [] {
      assert cs + ds == ds;
    } else {
      assert (cs + ds)[1..] == cs[1..] + ds;
      KidsConcat(cs[1..], ds);
    }
  }

  lemma {:induction false} FindSeat(cs: seq<Canoe>, x: nat) returns (i: nat)
    requires x in Kids(cs)
    ensures i < |cs| && x in Seats(cs[i])
  {
    assert Kids(cs) == Seats(cs[0]) + Kids(cs[1..]);
    if x in Seats(cs[0]) {
      i := 0;
    } else {
      i := FindSeat(cs[1..], x);
      i := i + 1;
    }
  }

  lemma KidsFirst(c: Canoe, cs: seq<Canoe>)
    ensures Kids([c] + cs) == Seats(c) + Kids(cs)
  {
    assert ([c] + cs)[1..] == cs;
  }

  lemma WithoutCanoe(before: seq<Canoe>, c: Canoe, after: seq<Canoe>)
    ensures Kids(before + ([c] + after)) == Seats(c) + Kids(before + after)
  {
    KidsConcat(before, [c] + after);
    KidsFirst(c, after);
    KidsConcat(before, after);
  }

  /** The canoe that holds x, and the rest of them. */
  lemma TakeCanoe(cs: seq<Canoe>, m: multiset<nat>, x: nat) returns (c: Canoe, rest: seq<Canoe>)
    requires Carries(cs, m) && x in m
    ensures |rest| == |cs| - 1 && x in Seats(c) && Fits(c) && Carries(rest, Kids(rest))
    ensures m == Seats(c) + Kids(rest)
  {
    var i := FindSeat(cs, x);
    c, rest := cs[i], cs[..i] + cs[i + 1..];
    assert cs == cs[..i] + ([c] + cs[i + 1..]);
    WithoutCanoe(cs[..i], c, cs[i + 1..]);
  }

  lemma AddCanoe(cs: seq<Canoe>, m: multiset<nat>, c: Canoe)
    requires Carries(cs, m) && Fits(c)
    ensures Carries([c] + cs, Seats(c) + m)
  {
    KidsFirst(c, cs);
  }

  /** The kid who shares a canoe with x. */
  lemma Partner(c: Canoe, x: nat) returns (y: nat)
    requires c.Pair? && x in Seats(c)
    ensures Seats(c) == multiset{x} + multiset{y} && c.a + c.b == x + y
  {
    y := if c.a == x then c.b else c.a;
  }

  // ---------- Feasibility ----------

  lemma {:induction false} CarriedIsLight(cs: seq<Canoe>, m: multiset<nat>)
    requires Carries(cs, m)
    ensures Light(m)
    decreases |cs|
  {
    if cs != [] {
      CarriedIsLight(cs[1..], Kids(cs[1..]));
      assert Fits(cs[0]);
    }
  }

  lemma {:induction false} AllAlone(m: multiset<nat>) returns (cs: seq<Canoe>)
    requires Light(m)
    ensures Carries(cs, m) && |cs| == |m|
    decreases |m|
  {
    cs := [];
    if m != multiset{} {
      var x :| x in m;
      var rest := m - multiset{x};
      assert m == multiset{x} + rest;
      cs := AllAlone(rest);
      AddCanoe(cs, rest, Alone(x));
      cs := [Alone(x)] + cs;
    }
  }

  lemma {:induction false} MinExists(m: multiset<nat>, j: nat)
    requires CanCarry(m, j)
    ensures exists k: nat :: IsMin(m, k)
  {
    if i :| 0 <= i < j && CanCarry(m, i) {
      MinExists(m, i);
    } else {
      assert IsMin(m, j);
    }
  }

  lemma LightHasMin(m: multiset<nat>)
    requires Light(m)
    ensures exists k: nat :: IsMin(m, k)
  {
    var cs := AllAlone(m);
    MinExists(m, |cs|);
  }

  /** The least number of canoes, or UINT_MAX when some kid is too heavy even alone. */
  ghost function Fewest(m: multiset<nat>): nat
  {
    if Light(m) then
      LightHasMin(m);
      var k: nat :| IsMin(m, k);
      k
    else UINT_MAX
  }

  lemma FewestAnswers(m: multiset<nat>, r: nat)
    ensures r == Fewest(m) <==> Answers(m, r)
  {
    if Light(m) {
      var cs := AllAlone(m);
      assert CanCarry(m, |m|);
      assert IsMin(m, Fewest(m));
    }
  }

  /** The least number of canoes as far as 32 bits can tell: UINT_MAX stands for any number from there on. */
  ghost function Capped(m: multiset<nat>): nat { if Fewest(m) < UINT_MAX then Fewest(m) else UINT_MAX }

  lemma CappedAnswers(m: multiset<nat>, r: nat)
    ensures r == Capped(m) <==>
            if r < UINT_MAX then IsMin(m, r) else r == UINT_MAX && forall k: nat :: k < UINT_MAX ==> !CanCarry(m, k)
  {
    FewestAnswers(m, Fewest(m));
    if k: nat :| k < UINT_MAX && CanCarry(m, k) {
      var cs :| Carries(cs, m) && |cs| == k;
      CarriedIsLight(cs, m);
    }
  }

  /** Below UINT_MAX kids, nothing is lost. */
  lemma FewKids(m: multiset<nat>)
    requires |m| < UINT_MAX
    ensures Capped(m) == Fewest(m)
  {
    FewestAnswers(m, Fewest(m));
    if Light(m) {
      MinIsBounded(m, Fewest(m));
    }
  }

  // ---------- The greedy step ----------

  /** Taking the lightest and the heaviest kid out of any arrangement frees a canoe. */
  lemma PairUp(cs: seq<Canoe>, m: multiset<nat>, l: nat, h: nat) returns (ds: seq<Canoe>)
    requires Carries(cs, multiset{h} + (multiset{l} + m)) && l <= h
    requires forall x :: x in m ==> l <= x <= h
    ensures Carries(ds, m) && |ds| < |cs|
  {
    var ml := multiset{l} + m;
    var c, rest := TakeCanoe(cs, multiset{h} + ml, h);
    if c.Alone? {
      Cancel(multiset{h}, Kids(rest), ml);
      ds := DropLight(rest, m, l);
    } else {
      var x := Partner(c, h);
      Cancel(multiset{h}, multiset{x} + Kids(rest), ml) by {
        assert multiset{h} + (multiset{x} + Kids(rest)) == (multiset{h} + multiset{x}) + Kids(rest);
      }
      ds := SwapLight(rest, m, l, h, x);
    }
  }

  /** h rode alone: whoever rode with l now rides alone. */
  lemma DropLight(cs: seq<Canoe>, m: multiset<nat>, l: nat) returns (ds: seq<Canoe>)
    requires Carries(cs, multiset{l} + m)
    ensures Carries(ds, m) && |ds| <= |cs|
  {
    var d, rest := TakeCanoe(cs, multiset{l} + m, l);
    if d.Alone? {
      Cancel(multiset{l}, Kids(rest), m);
      ds := rest;
    } else {
      var y := Partner(d, l);
      Cancel(multiset{l}, multiset{y} + Kids(rest), m) by {
        assert multiset{l} + (multiset{y} + Kids(rest)) == (multiset{l} + multiset{y}) + Kids(rest);
      }
      AddCanoe(rest, Kids(rest), Alone(y));
      ds := [Alone(y)] + rest;
    }
  }

  /** h rode with x: x takes the place of l, wherever that was. */
  lemma SwapLight(cs: seq<Canoe>, m: multiset<nat>, l: nat, h: nat, x: nat) returns (ds: seq<Canoe>)
    requires Carries(cs, Kids(cs)) && multiset{x} + Kids(cs) == multiset{l} + m
    requires x + h <= MAX_CANOE_WEIGHT && l <= h && forall y :: y in m ==> l <= y <= h
    ensures Carries(ds, m) && |ds| <= |cs|
  {
    if x == l {
      Cancel(multiset{l}, Kids(cs), m);
      ds := cs;
    } else {
      assert l in Kids(cs) by { assert l in multiset{x} + Kids(cs); }
      var d, rest := TakeCanoe(cs, Kids(cs), l);
      if d.Alone? {
        AddCanoe(rest, Kids(rest), Alone(x));
        ds := [Alone(x)] + rest;
        Cancel(multiset{l}, multiset{x} + Kids(rest), m) by {
          assert multiset{l} + (multiset{x} + Kids(rest)) == multiset{x} + (multiset{l} + Kids(rest));
        }
      } else {
        var y := Partner(d, l);
        Cancel(multiset{l}, (multiset{x} + multiset{y}) + Kids(rest), m) by {
          assert multiset{l} + ((multiset{x} + multiset{y}) + Kids(rest))
              == multiset{x} + ((multiset{l} + multiset{y}) + Kids(rest));
        }
        assert y in m;
        AddCanoe(rest, Kids(rest), Pair(x, y));
        assert Seats(Pair(x, y)) == multiset{x} + multiset{y};
        ds := [Pair(x, y)] + rest;
      }
    }
  }

  lemma GreedyPair(m: multiset<nat>, l: nat, h: nat, k: nat)
    requires IsMin(m, k) && l <= h && l + h <= MAX_CANOE_WEIGHT
    requires forall x :: x in m ==> l <= x <= h
    ensures IsMin(multiset{h} + (multiset{l} + m), k + 1)
  {
    var all := multiset{h} + (multiset{l} + m);
    assert CanCarry(all, k + 1) by {
      var cs :| Carries(cs, m) && |cs| == k;
      AddCanoe(cs, m, Pair(h, l));
      Assoc(multiset{h}, multiset{l}, m);
      assert Carries([Pair(h, l)] + cs, all);
    }
    forall j | CanCarry(all, j)
      ensures k + 1 <= j
    {
      var ds :| Carries(ds, all) && |ds| == j;
      var ds' := PairUp(ds, m, l, h);
      assert CanCarry(m, |ds'|);
    }
  }

  /** Taking a kid who fits with nobody out of any arrangement frees a canoe. */
  lemma LeaveAlone(cs: seq<Canoe>, m: multiset<nat>, h: nat) returns (ds: seq<Canoe>)
    requires Carries(cs, multiset{h} + m)
    requires forall x :: x in m ==> x + h > MAX_CANOE_WEIGHT
    ensures Carries(ds, m) && |ds| < |cs|
  {
    var c, rest := TakeCanoe(cs, multiset{h} + m, h);
    if c.Pair? {
      var y := Partner(c, h);
      assert y in multiset{y} + Kids(rest);
      Cancel(multiset{h}, multiset{y} + Kids(rest), m) by {
        assert multiset{h} + (multiset{y} + Kids(rest)) == (multiset{h} + multiset{y}) + Kids(rest);
      }
      assert false;
    }
    Cancel(multiset{h}, Kids(rest), m);
    ds := rest;
  }

  lemma GreedyAlone(m: multiset<nat>, h: nat, k: nat)
    requires IsMin(m, k) && h <= MAX_CANOE_WEIGHT
    requires forall x :: x in m ==> x + h > MAX_CANOE_WEIGHT
    ensures IsMin(multiset{h} + m, k + 1)
  {
    var cs :| Carries(cs, m) && |cs| == k;
    AddCanoe(cs, m, Alone(h));
    assert Carries([Alone(h)] + cs, multiset{h} + m);
    forall j | CanCarry(multiset{h} + m, j)
      ensures k + 1 <= j
    {
      var ds :| Carries(ds, multiset{h} + m) && |ds| == j;
      var ds' := LeaveAlone(ds, m, h);
      assert CanCarry(m, |ds'|);
    }
  }

  // ---------- The greedy ----------

  ghost predicate Sorted(s: seq<nat>)
  {
    forall i, j :: 0 <= i < j < |s| ==> s[i] <= s[j]
  }

  function Insert(x: nat, s: seq<nat>): seq<nat>
  {
    if s == [] || x <= s[0] then [x] + s else [s[0]] + Insert(x, s[1..])
  }

  function Sort(s: seq<nat>): seq<nat>
  {
    if s == [] then [] else Insert(s[0], Sort(s[1..]))
  }

  lemma {:induction false} InsertSorts(x: nat, s: seq<nat>)
    requires Sorted(s)
    ensures Sorted(Insert(x, s)) && Insert(x, s) != []
    ensures s != [] && s[0] < x ==> Insert(x, s)[0] == s[0]
  {
    if s != [] && s[0] < x {
      InsertSorts(x, s[1..]);
      var r := Insert(x, s[1..]);
      assert s[0] <= r[0] by {
        assert |s| > 1 && s[1] < x ==> r[0] == s[1];
      }
    }
  }

  lemma {:induction false} InsertKeeps(x: nat, s: seq<nat>)
    ensures multiset(Insert(x, s)) == multiset{x} + multiset(s)
  {
    if s != [] && s[0] < x {
      InsertKeeps(x, s[1..]);
      assert s == [s[0]] + s[1..];
    }
  }

  lemma {:induction false} SortSorts(s: seq<nat>)
    ensures Sorted(Sort(s)) && multiset(Sort(s)) == multiset(s)
  {
    if s != [] {
      SortSorts(s[1..]);
      InsertSorts(s[0], Sort(s[1..]));
      InsertKeeps(s[0], Sort(s[1..]));
      assert s == [s[0]] + s[1..];
    }
  }

  /** std::sort. */
  method SortInPlace(a: array<nat>)
    modifies a
    ensures Sorted(a[..]) && multiset(a[..]) == old(multiset(a[..]))
  {
    var s := Sort(a[..]);
    SortSorts(a[..]);
    assert |s| == |multiset(s)| == |multiset(a[..])| == a.Length;
    forall i | 0 <= i < a.Length {
      a[i] := s[i];
    }
    assert a[..] == s;
  }

  method MinCanoes(kids: array<nat>) returns (res: nat)
    modifies kids
    ensures kids.Length == 0 ==> res == UINT_MAX
    ensures kids.Length > 0 ==> res == Fewest(old(multiset(kids[..]))) % (UINT_MAX + 1)
    ensures 0 < kids.Length < UINT_MAX ==> res == Fewest(old(multiset(kids[..])))
    ensures multiset(kids[..]) == old(multiset(kids[..]))
  {
    if kids.Length == 0 {
      return UINT_MAX;
    }
    SortInPlace(kids);
    ghost var s := kids[..];
    if kids[kids.Length - 1] > MAX_CANOE_WEIGHT {
      assert s[|s| - 1] in multiset(s);
      return UINT_MAX;
    }
    SortedLight(s);
    ghost var count;
    res, count := TwoPointers(kids);
    MinIsBounded(multiset(s), count);
    FewestAnswers(multiset(s), count);
  }

  lemma SortedLight(s: seq<nat>)
    requires s != [] && Sorted(s) && s[|s| - 1] <= MAX_CANOE_WEIGHT
    ensures Light(multiset(s))
  {
    assert forall w :: w in multiset(s) ==> w in s;
  }

  lemma MinIsBounded(m: multiset<nat>, k: nat)
    requires Light(m) && IsMin(m, k)
    ensures k <= |m|
  {
    var cs := AllAlone(m);
    assert CanCarry(m, |m|);
  }

  /** With the kids m left, n canoes are already accounted for. */
  ghost predicate Reduces(m: multiset<nat>, n: nat, all: multiset<nat>)
  {
    forall k: nat {:trigger IsMin(m, k)} :: IsMin(m, k) ==> IsMin(all, k + n)
  }

  lemma ReducesTwice(m': multiset<nat>, m: multiset<nat>, n: nat, all: multiset<nat>)
    requires Reduces(m', 1, m) && Reduces(m, n, all)
    ensures Reduces(m', n + 1, all)
  {
    forall k: nat | IsMin(m', k)
      ensures IsMin(all, k + (n + 1))
    {
      assert IsMin(m, k + 1);
    }
  }

  /** Between the pointers sit the kids still to be carried. */
  ghost predicate Between(s: seq<nat>, low: int, high: int, n: nat)
  {
    0 <= low <= high + 1 <= |s| && Reduces(multiset(s[low..high + 1]), n, multiset(s))
  }

  lemma BetweenAll(s: seq<nat>)
    ensures Between(s, 0, |s| - 1, 0)
  {
    assert s[0..|s|] == s;
  }

  /** One round takes the heaviest kid, with the lightest where the two fit. */
  lemma MovePointers(s: seq<nat>, low: nat, high: nat, n: nat)
    requires Sorted(s) && low < high < |s| && s[|s| - 1] <= MAX_CANOE_WEIGHT && Between(s, low, high, n)
    ensures Between(s, if s[low] + s[high] <= MAX_CANOE_WEIGHT then low + 1 else low, high - 1, n + 1)
  {
    var m := multiset(s[low..high + 1]);
    if s[low] + s[high] <= MAX_CANOE_WEIGHT {
      StepPair(s, low, high);
      ReducesTwice(multiset(s[low + 1..high]), m, n, multiset(s));
    } else {
      StepAlone(s, low, high);
      ReducesTwice(multiset(s[low..high]), m, n, multiset(s));
    }
  }

  method CountOne(res: nat, ghost count: nat) returns (res': nat, ghost count': nat)
    requires Counts32(res, count)
    ensures count' == count + 1 && Counts32(res', count')
  {
    res', count' := Add32(res, 1), count + 1;
  }

  /** The loop, whose counter of 32 bits wraps around. */
  method TwoPointers(kids: array<nat>) returns (res: nat, ghost count: nat)
    requires kids.Length > 0 && Sorted(kids[..]) && kids[kids.Length - 1] <= MAX_CANOE_WEIGHT
    ensures IsMin(multiset(kids[..]), count) && Counts32(res, count)
  {
    ghost var s := kids[..];
    var low, high := 0, kids.Length - 1;
    res, count := 0, 0;
    BetweenAll(s);
    while low < high
      invariant Between(s, low, high, count) && Counts32(res, count)
    {
      MovePointers(s, low, high, count);
      if kids[low] + kids[high] <= MAX_CANOE_WEIGHT {
        low := low + 1;
      }
      high := high - 1;
      res, count := CountOne(res, count);
    }
    LastOne(s, low, high, count);
    if low == high {
      res, count := CountOne(res, count);
    }
  }

  lemma NoKids()
    ensures IsMin(multiset{}, 0)
  {
    assert Carries([], multiset{});
  }

  lemma LastOne(s: seq<nat>, low: nat, high: int, n: nat)
    requires low >= high && Between(s, low, high, n)
    requires s != [] && Sorted(s) && s[|s| - 1] <= MAX_CANOE_WEIGHT
    ensures IsMin(multiset(s), if low == high then n + 1 else n)
  {
    NoKids();
    SortedLight(s);
    if low == high {
      assert s[low] in multiset(s);
      GreedyAlone(multiset{}, s[low], 0);
      assert s[low..high + 1] == [s[low]];
      assert multiset{s[low]} + multiset{} == multiset([s[low]]);
    } else {
      assert s[low..high + 1] == [];
    }
  }

  lemma Ends(s: seq<nat>, low: nat, high: nat)
    requires low < high < |s|
    ensures multiset(s[low..high + 1]) == multiset{s[high]} + (multiset{s[low]} + multiset(s[low + 1..high]))
  {
    assert s[low..high + 1] == s[low..high] + [s[high]];
    assert s[low..high] == [s[low]] + s[low + 1..high];
  }

  lemma StepPair(s: seq<nat>, low: nat, high: nat)
    requires Sorted(s) && low < high < |s| && s[low] + s[high] <= MAX_CANOE_WEIGHT
    ensures Reduces(multiset(s[low + 1..high]), 1, multiset(s[low..high + 1]))
  {
    var m := multiset(s[low + 1..high]);
    Ends(s, low, high);
    forall x | x in m
      ensures s[low] <= x <= s[high]
    {
      assert x in s[low + 1..high];
    }
    forall k: nat | IsMin(m, k) {
      GreedyPair(m, s[low], s[high], k);
    }
  }

  lemma StepAlone(s: seq<nat>, low: nat, high: nat)
    requires Sorted(s) && low < high < |s| && s[low] + s[high] > MAX_CANOE_WEIGHT && s[high] <= MAX_CANOE_WEIGHT
    ensures Reduces(multiset(s[low..high]), 1, multiset(s[low..high + 1]))
  {
    var m := multiset(s[low..high]);
    assert s[low..high + 1] == s[low..high] + [s[high]];
    assert multiset(s[low..high + 1]) == multiset{s[high]} + m;
    forall x | x in m
      ensures x + s[high] > MAX_CANOE_WEIGHT
    {
      assert x in s[low..high];
    }
    forall k: nat | IsMin(m, k) {
      GreedyAlone(m, s[high], k);
    }
  }

  // ---------- The exhaustive search ----------

  /** Whoever the first kid rides with, the rest must still be carried. */
  lemma FirstKid(cs: seq<Canoe>, x: nat, m: multiset<nat>) returns (rest: seq<Canoe>, partner: seq<nat>)
    requires Carries(cs, multiset{x} + m)
    ensures |rest| == |cs| - 1 && |partner| <= 1
    ensures partner == [] ==> Carries(rest, m)
    ensures partner != [] ==> x + partner[0] <= MAX_CANOE_WEIGHT && Carries(rest, Kids(rest))
    ensures partner != [] ==> multiset{partner[0]} + Kids(rest) == m
  {
    var c;
    c, rest := TakeCanoe(cs, multiset{x} + m, x);
    if c.Alone? {
      partner := [];
      Cancel(multiset{x}, Kids(rest), m);
    } else {
      var y := Partner(c, x);
      partner := [y];
      Cancel(multiset{x}, multiset{y} + Kids(rest), m) by {
        assert multiset{x} + (multiset{y} + Kids(rest)) == (multiset{x} + multiset{y}) + Kids(rest);
      }
    }
  }

  function Swapped(s: seq<nat>, i: nat, j: nat): seq<nat>
    requires i < |s| && j < |s|
  {
    s[i := s[j]][j := s[i]]
  }

  method Swap(a: array<nat>, i: nat, j: nat)
    requires i < a.Length && j < a.Length
    modifies a
    ensures a[..] == Swapped(old(a[..]), i, j)
  {
    a[i], a[j] := a[j], a[i];
  }

  lemma SwappedBack(s: seq<nat>, i: nat, j: nat)
    requires i < |s| && j < |s|
    ensures Swapped(Swapped(s, i, j), i, j) == s
    ensures Words(s) ==> Words(Swapped(s, i, j))
  {}

  ghost predicate Words(s: seq<nat>)
  {
    forall i :: 0 <= i < |s| ==> s[i] <= UINT_MAX
  }

  /** The kids from k on. */
  ghost function From(s: seq<nat>, k: nat): multiset<nat>
    requires k <= |s|
  {
    multiset(s[k..])
  }

  /** The kids in s except the one at j. */
  ghost function Without(s: seq<nat>, j: nat): multiset<nat>
    requires j < |s|
  {
    multiset(s[..j] + s[j + 1..])
  }

  lemma WithoutOne(s: seq<nat>, j: nat)
    requires j < |s|
    ensures multiset{s[j]} + Without(s, j) == multiset(s) && |Without(s, j)| == |s| - 1
  {
    assert s == s[..j] + ([s[j]] + s[j + 1..]);
    assert multiset(s) == multiset(s[..j]) + (multiset{s[j]} + multiset(s[j + 1..]));
  }

  lemma LightSum(x: nat, m: multiset<nat>)
    ensures Light(multiset{x} + m) <==> x <= MAX_CANOE_WEIGHT && Light(m)
  {
    var all := multiset{x} + m;
    assert x in all;
    assert forall w :: w in m ==> w in all;
    assert forall w :: w in all ==> w == x || w in m;
  }

  /** No arrangement that pairs the first kid with one of those before i beats res. */
  ghost predicate Beats(x: nat, s: seq<nat>, i: nat, res: nat)
    requires i <= |s|
  {
    forall j, k: nat {:trigger CanCarry(Without(s, j), k)} ::
      0 <= j < i && x + s[j] <= MAX_CANOE_WEIGHT && CanCarry(Without(s, j), k) ==> res <= k + 1
  }

  /** res is the best found with the first kid next to one of those before i. */
  ghost predicate Best(x: nat, s: seq<nat>, i: nat, res: nat)
    requires i <= |s|
  {
    res <= UINT_MAX && (res != UINT_MAX ==> CanCarry(multiset{x} + multiset(s), res)) && Beats(x, s, i, res)
  }

  /** The kids from kidI + 2 on, after the one at i was swapped to kidI + 1. */
  lemma MovedOut(a: seq<nat>, kidI: nat, i: nat)
    requires kidI < i < |a|
    ensures From(Swapped(a, kidI + 1, i), kidI + 2) == Without(a[kidI + 1..], i - kidI - 1)
  {
    var s, j := a[kidI + 1..], i - kidI - 1;
    var t := s[0 := s[j]][j := s[0]];
    assert Swapped(a, kidI + 1, i)[kidI + 2..] == t[1..];
    assert multiset(t) == multiset(s);
    assert t == [s[j]] + t[1..];
    WithoutOne(s, j);
    Cancel(multiset{s[j]}, multiset(t[1..]), Without(s, j));
  }

  lemma BestSkip(x: nat, s: seq<nat>, i: nat, res: nat)
    requires i < |s| && Best(x, s, i, res) && x <= MAX_CANOE_WEIGHT && Light(multiset(s))
    requires Add32(x, s[i]) > MAX_CANOE_WEIGHT
    ensures Best(x, s, i + 1, res)
  {
    assert s[i] in multiset(s);
    BeatsSkip(x, s, i, res);
  }

  lemma BeatsSkip(x: nat, s: seq<nat>, i: nat, res: nat)
    requires i < |s| && Beats(x, s, i, res) && x + s[i] > MAX_CANOE_WEIGHT
    ensures Beats(x, s, i + 1, res)
  {}

  lemma BeatsStep(x: nat, s: seq<nat>, i: nat, res: nat, r: nat)
    requires i < |s| && Beats(x, s, i, res) && IsMin(Without(s, i), r)
    ensures Beats(x, s, i + 1, if res < r + 1 then res else r + 1)
  {}

  lemma WithoutIsLight(s: seq<nat>, i: nat)
    requires i < |s| && Light(multiset(s))
    ensures Light(Without(s, i)) && s[i] <= MAX_CANOE_WEIGHT
  {
    WithoutOne(s, i);
    LightSum(s[i], Without(s, i));
  }

  lemma BestStep(x: nat, s: seq<nat>, i: nat, res: nat, r: nat)
    requires i < |s| && Best(x, s, i, res) && x <= MAX_CANOE_WEIGHT && Light(multiset(s))
    requires Add32(x, s[i]) <= MAX_CANOE_WEIGHT && r == Capped(Without(s, i))
    ensures Best(x, s, i + 1, if r == UINT_MAX || res < r + 1 then res else r + 1)
  {
    WithoutIsLight(s, i);
    CappedAnswers(Without(s, i), r);
    WithoutOne(s, i);
    if r < UINT_MAX {
      BeatsStep(x, s, i, res, r);
      PairFirst(x, s[i], Without(s, i), r);
    }
  }

  lemma PairFirst(x: nat, y: nat, rest: multiset<nat>, r: nat)
    requires x + y <= MAX_CANOE_WEIGHT && CanCarry(rest, r)
    ensures CanCarry(multiset{x} + (multiset{y} + rest), r + 1)
  {
    var cs :| Carries(cs, rest) && |cs| == r;
    AddCanoe(cs, rest, Pair(x, y));
    Assoc(multiset{x}, multiset{y}, rest);
    assert Carries([Pair(x, y)] + cs, multiset{x} + (multiset{y} + rest));
  }

  lemma AloneFirst(x: nat, rest: multiset<nat>, r: nat)
    requires x <= MAX_CANOE_WEIGHT && CanCarry(rest, r)
    ensures CanCarry(multiset{x} + rest, r + 1)
  {
    var cs :| Carries(cs, rest) && |cs| == r;
    AddCanoe(cs, rest, Alone(x));
    assert Carries([Alone(x)] + cs, multiset{x} + rest);
  }

  /** One kid less never takes more canoes. */
  lemma OneKidLess(x: nat, m: multiset<nat>, j: nat) returns (i: nat)
    requires CanCarry(multiset{x} + m, j)
    ensures i <= j && CanCarry(m, i)
  {
    var cs :| Carries(cs, multiset{x} + m) && |cs| == j;
    var ds := DropLight(cs, m, x);
    i := |ds|;
  }

  /** Where the others alone take UINT_MAX canoes or more, so do all. */
  lemma TooManyAnswers(x: nat, m: multiset<nat>)
    requires Capped(m) == UINT_MAX
    ensures Capped(multiset{x} + m) == UINT_MAX
  {
    CappedAnswers(m, UINT_MAX);
    forall j: nat | j < UINT_MAX
      ensures !CanCarry(multiset{x} + m, j)
    {
      if CanCarry(multiset{x} + m, j) {
        var i := OneKidLess(x, m, j);
        assert false;
      }
    }
    CappedAnswers(multiset{x} + m, UINT_MAX);
  }

  lemma BestAnswers(x: nat, s: seq<nat>, res: nat, alone: nat)
    requires Best(x, s, |s|, res) && x <= MAX_CANOE_WEIGHT
    requires alone == Capped(multiset(s)) && alone < UINT_MAX
    ensures Capped(multiset{x} + multiset(s)) == if res < alone + 1 then res else alone + 1
  {
    var m := multiset(s);
    CappedAnswers(m, alone);
    AloneFirst(x, m, alone);
    forall j: nat | CanCarry(multiset{x} + m, j)
      ensures res <= j || alone + 1 <= j
    {
      NoBetter(x, s, res, alone, j);
    }
    var k := if res < alone + 1 then res else alone + 1;
    assert IsMin(multiset{x} + m, k);
    CappedAnswers(multiset{x} + m, k);
  }

  lemma NoBetter(x: nat, s: seq<nat>, res: nat, alone: nat, j: nat)
    requires Beats(x, s, |s|, res) && IsMin(multiset(s), alone) && CanCarry(multiset{x} + multiset(s), j)
    ensures res <= j || alone + 1 <= j
  {
    var m := multiset(s);
    var ds :| Carries(ds, multiset{x} + m) && |ds| == j;
    var rest, partner := FirstKid(ds, x, m);
    if partner == [] {
      assert CanCarry(m, |rest|);
    } else {
      assert partner[0] in multiset{partner[0]} + Kids(rest);
      assert partner[0] in s;
      var i :| 0 <= i < |s| && s[i] == partner[0];
      WithoutOne(s, i);
      Cancel(multiset{s[i]}, Kids(rest), Without(s, i));
      assert CanCarry(Without(s, i), |rest|);
    }
  }

  /** The best without the first kid and the one at i, who ride together. */
  method RideWith(kids: array<nat>, kidI: nat, i: nat) returns (res: nat)
    requires kidI < i < kids.Length && Words(kids[..])
    modifies kids
    ensures kids[..] == old(kids[..])
    ensures res == Capped(From(Swapped(old(kids[..]), kidI + 1, i), kidI + 2))
    decreases kids.Length - kidI, 0
  {
    SwappedBack(kids[..], kidI + 1, i);
    Swap(kids, kidI + 1, i);
    res := CanoesAux(kids, kidI + 2);
    Swap(kids, kidI + 1, i);
  }

  /** res is the best for the kids from kidI on, with partners for kidI tried up to i. */
  ghost predicate BestBefore(a: seq<nat>, kidI: nat, i: nat, res: nat)
    requires kidI < i <= |a|
  {
    Light(multiset(a[kidI + 1..])) && a[kidI] <= MAX_CANOE_WEIGHT ==> Best(a[kidI], a[kidI + 1..], i - kidI - 1, res)
  }

  lemma SkipPartner(a: seq<nat>, kidI: nat, i: nat, res: nat)
    requires kidI < i < |a| && BestBefore(a, kidI, i, res) && Add32(a[kidI], a[i]) > MAX_CANOE_WEIGHT
    ensures BestBefore(a, kidI, i + 1, res)
  {
    var s := a[kidI + 1..];
    if Light(multiset(s)) && a[kidI] <= MAX_CANOE_WEIGHT {
      BestSkip(a[kidI], s, i - kidI - 1, res);
    }
  }

  lemma TakePartner(a: seq<nat>, kidI: nat, i: nat, res: nat, r: nat)
    requires kidI < i < |a| && BestBefore(a, kidI, i, res) && Add32(a[kidI], a[i]) <= MAX_CANOE_WEIGHT
    requires r == Capped(Without(a[kidI + 1..], i - kidI - 1))
    ensures BestBefore(a, kidI, i + 1, if r == UINT_MAX || res < r + 1 then res else r + 1)
  {
    var s := a[kidI + 1..];
    if Light(multiset(s)) && a[kidI] <= MAX_CANOE_WEIGHT {
      BestStep(a[kidI], s, i - kidI - 1, res, r);
    }
  }

  /** Trying each partner for the kid at kidI in turn. */
  method BestRide(kids: array<nat>, kidI: nat) returns (res: nat)
    requires kidI < kids.Length && Words(kids[..])
    modifies kids
    ensures kids[..] == old(kids[..]) && BestBefore(kids[..], kidI, kids.Length, res)
    decreases kids.Length - kidI, 1
  {
    ghost var a := kids[..];
    res := UINT_MAX;
    for i := kidI + 1 to kids.Length
      invariant kids[..] == a && BestBefore(a, kidI, i, res)
    {
      assert kids[kidI] == a[kidI] && kids[i] == a[i];
      if Add32(kids[kidI], kids[i]) > MAX_CANOE_WEIGHT {
        SkipPartner(a, kidI, i, res);
        continue;
      }
      var canoesI := RideWith(kids, kidI, i);
      MovedOut(a, kidI, i);
      TakePartner(a, kidI, i, res, canoesI);
      if canoesI != UINT_MAX {
        res := if res < canoesI + 1 then res else canoesI + 1;
      }
    }
  }

  method CanoesAux(kids: array<nat>, kidI: nat) returns (res: nat)
    requires kidI <= kids.Length && Words(kids[..])
    modifies kids
    ensures kids[..] == old(kids[..])
    ensures res == Capped(From(old(kids[..]), kidI))
    decreases kids.Length - kidI, 2
  {
    ghost var a := kids[..];
    if kidI >= kids.Length {
      NoKids();
      CappedAnswers(multiset{}, 0);
      assert a[kidI..] == [];
      return 0;
    }
    ghost var x, s := a[kidI], a[kidI + 1..];
    FirstAndRest(a[kidI..], x, s);
    if kids[kidI] > MAX_CANOE_WEIGHT {
      return UINT_MAX;
    }
    res := BestRide(kids, kidI);
    assert kids[kidI] == a[kidI];
    var alone := CanoesAux(kids, kidI + 1);
    if alone == UINT_MAX {
      TooManyAnswers(x, multiset(s));
      return UINT_MAX;
    }
    BestAnswers(x, s, res, alone);
    res := if res < alone + 1 then res else alone + 1;
  }

  lemma FirstAndRest(t: seq<nat>, x: nat, s: seq<nat>)
    requires t == [x] + s
    ensures multiset(t) == multiset{x} + multiset(s)
    ensures Light(multiset(t)) <==> x <= MAX_CANOE_WEIGHT && Light(multiset(s))
  {
    LightSum(x, multiset(s));
  }

  method CountCanoes(kids: array<nat>) returns (res: nat)
    requires Words(kids[..])
    modifies kids
    ensures kids[..] == old(kids[..])
    ensures res == Capped(multiset(kids[..]))
    ensures kids.Length < UINT_MAX ==> res == Fewest(multiset(kids[..]))
  {
    assert kids[..][0..] == kids[..];
    if kids.Length < UINT_MAX {
      FewKids(multiset(kids[..]));
    }
    res := CanoesAux(kids, 0);
  }
}
