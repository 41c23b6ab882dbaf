/**
 Folding a strip of 2^N numbers N times. The naive model reverses half of the stacks at
 every fold; the program joins stacks in constant time with links that carry no direction.
 */
module FoldPaper {
  import opened Sequences

  function Pow2(n: nat): (p: nat)
    ensures p > 0
  {
    if n == 0 then 1 else 2 * Pow2(n - 1)
  }

  // ---------- The naive model: one stack per position, listed from top to bottom ----------

  function Reverse(s: seq<nat>): (r: seq<nat>)
    ensures |r| == |s| && forall i :: 0 <= i < |s| ==> r[i] == s[|s| - 1 - i]
  {
    if s == [] then [] else Reverse(s[1..]) + [s[0]]
  }

  /** One fold: the left half comes to lie on the right one, or the right half on the left one. */
  function FoldOnce(st: seq<seq<nat>>, cmd: char): (r: seq<seq<nat>>)
    requires |st| % 2 == 0
    ensures |r| == |st| / 2
  {
    var n := |st|;
    seq(n / 2, i requires 0 <= i < n / 2 =>
      if cmd == 'L' then Reverse(st[n / 2 - 1 - i]) + st[n / 2 + i] else Reverse(st[n - 1 - i]) + st[i])
  }

  function FoldAll(st: seq<seq<nat>>, cmds: string): seq<seq<nat>>
    requires |st| == Pow2(|cmds|)
    decreases |cmds|
  {
    if cmds == "" then st else FoldAll(FoldOnce(st, cmds[0]), cmds[1..])
  }

  function Flat(n: nat): seq<seq<nat>> { seq(n, i => [i]) }

  /** The numbers from top to bottom once the paper is folded. */
  function Folded(cmds: string): seq<nat>
  {
    var st := FoldAll(Flat(Pow2(|cmds|)), cmds);
    if st == [] then [] else st[0]
  }

  // ---------- Links without direction ----------

  const NULL: int := -1

  datatype Cell = Cell(value: int, up: int, down: int, top: nat)

  /** The two links of a cell lead to a and b, in either order, with up filled first. */
  predicate Joins(c: Cell, a: int, b: int)
  {
    ((c.up == a && c.down == b) || (c.up == b && c.down == a)) && (c.up == NULL ==> c.down == NULL)
  }

  function Above(s: seq<nat>, p: nat): int
    requires p < |s|
  {
    if p == 0 then NULL else s[p - 1]
  }

  function Below(s: seq<nat>, p: nat): int
    requires p < |s|
  {
    if p + 1 == |s| then NULL else s[p + 1]
  }

  /** The cell at place p of the stack s is linked to its two neighbours. */
  ghost predicate LinkedAt(a: seq<Cell>, s: seq<nat>, p: nat)
  {
    p < |s| && s[p] < |a| && Joins(a[s[p]], Above(s, p), Below(s, p))
  }

  /** The links in a form the stack s, whose bottom is base and whose top base knows. */
  ghost predicate IsStack(a: seq<Cell>, s: seq<nat>, base: nat)
  {
    && s != [] && NoDup(s) && (forall p :: 0 <= p < |s| ==> s[p] < |a|)
    && s[|s| - 1] == base && a[base].top == s[0]
    && (forall p: nat {:trigger LinkedAt(a, s, p)} :: p < |s| ==> LinkedAt(a, s, p))
  }

  function AddLink(c: Cell, y: int): Cell
  {
    if c.up == NULL then c.(up := y) else c.(down := y)
  }

  /** Joining the tops x and y of two stacks. */
  function LinkTops(a: seq<Cell>, x: nat, y: nat): (r: seq<Cell>)
    requires x < |a| && y < |a|
    ensures |r| == |a|
  {
    a[x := AddLink(a[x], y)][y := AddLink(a[x := AddLink(a[x], y)][y], x)]
  }

  /** The stack on base above comes to lie, upside down, on the stack on base below. */
  function Merge(a: seq<Cell>, below: nat, above: nat): (r: seq<Cell>)
    requires below < |a| && above < |a| && a[below].top < |a| && a[above].top < |a|
    ensures |r| == |a|
  {
    var b := LinkTops(a, a[below].top, a[above].top);
    b[below := b[below].(top := above)]
  }

  ghost predicate Apart(s: seq<nat>, t: seq<nat>)
  {
    forall i, j :: 0 <= i < |s| && 0 <= j < |t| ==> s[i] != t[j]
  }

  /** The asserts of merge_stacks: a top has at most one link, so there is room for another. */
  lemma TopHasRoom(a: seq<Cell>, s: seq<nat>, base: nat)
    requires IsStack(a, s, base)
    ensures a[s[0]].up != NULL ==> a[s[0]].down == NULL
  {
    assert LinkedAt(a, s, 0);
  }

  lemma MergedCells(a: seq<Cell>, s: seq<nat>, t: seq<nat>, below: nat, above: nat, i: nat)
    requires IsStack(a, s, below) && IsStack(a, t, above) && Apart(s, t) && i < |a|
    ensures s[0] != t[0]
    ensures var m := Merge(a, below, above)[i];
            m.(top := a[i].top) ==
            if i == s[0] then AddLink(a[i], t[0]) else if i == t[0] then AddLink(a[i], s[0]) else a[i]
  {}

  /** The part that was turned upside down: every cell swaps its neighbours. */
  lemma MergedUpper(a: seq<Cell>, s: seq<nat>, t: seq<nat>, below: nat, above: nat, q: nat)
    requires IsStack(a, s, below) && IsStack(a, t, above) && Apart(s, t) && q < |t|
    ensures Joins(Merge(a, below, above)[t[q]], Below(t, q), if q == 0 then s[0] else Above(t, q))
  {
    MergedCells(a, s, t, below, above, t[q]);
    assert LinkedAt(a, t, q);
  }

  lemma MergedLower(a: seq<Cell>, s: seq<nat>, t: seq<nat>, below: nat, above: nat, q: nat)
    requires IsStack(a, s, below) && IsStack(a, t, above) && Apart(s, t) && q < |s|
    ensures Joins(Merge(a, below, above)[s[q]], if q == 0 then t[0] else Above(s, q), Below(s, q))
  {
    MergedCells(a, s, t, below, above, s[q]);
    assert LinkedAt(a, s, q);
  }

  /** The neighbours in a stack put upside down on another one. */
  lemma {:induction false} Neighbours(s: seq<nat>, t: seq<nat>, p: nat)
    requires s != [] && t != [] && p < |t| + |s|
    ensures var r := Reverse(t) + s;
            if p < |t| then
              var q := |t| - 1 - p;
              r[p] == t[q] && Above(r, p) == Below(t, q) && Below(r, p) == if q == 0 then s[0] else Above(t, q)
            else
              var q := p - |t|;
              r[p] == s[q] && Below(r, p) == Below(s, q) && Above(r, p) == if q == 0 then t[0] else Above(s, q)
  {}

  lemma {:induction false} ReverseApart(s: seq<nat>, t: seq<nat>)
    requires NoDup(s) && NoDup(t) && Apart(s, t)
    ensures NoDup(Reverse(t) + s)
  {}

  lemma {:induction false} MergedAt(a: seq<Cell>, s: seq<nat>, t: seq<nat>, below: nat, above: nat, p: nat)
    requires IsStack(a, s, below) && IsStack(a, t, above) && Apart(s, t) && p < |t| + |s|
    ensures LinkedAt(Merge(a, below, above), Reverse(t) + s, p)
  {
    Neighbours(s, t, p);
    if p < |t| {
      MergedUpper(a, s, t, below, above, |t| - 1 - p);
    } else {
      MergedLower(a, s, t, below, above, p - |t|);
    }
  }

  lemma {:induction false} MergedStack(a: seq<Cell>, s: seq<nat>, t: seq<nat>, below: nat, above: nat)
    requires IsStack(a, s, below) && IsStack(a, t, above) && Apart(s, t)
    ensures IsStack(Merge(a, below, above), Reverse(t) + s, below)
  {
    var r, m := Reverse(t) + s, Merge(a, below, above);
    ReverseApart(s, t);
    assert r[0] == above && r[|r| - 1] == below && m[below].top == above;
    forall p: nat | p < |r|
      ensures r[p] < |m| && LinkedAt(m, r, p)
    {
      MergedAt(a, s, t, below, above, p);
    }
  }

  lemma OtherStack(a: seq<Cell>, s: seq<nat>, t: seq<nat>, below: nat, above: nat, u: seq<nat>, base: nat)
    requires IsStack(a, s, below) && IsStack(a, t, above) && IsStack(a, u, base) && Apart(s, u) && Apart(t, u)
    ensures IsStack(Merge(a, below, above), u, base)
  {
    var m := Merge(a, below, above);
    assert below != base by { assert s[|s| - 1] != u[|u| - 1]; }
    forall p: nat | p < |u|
      ensures LinkedAt(m, u, p)
    {
      assert u[p] != s[0] && u[p] != t[0];
      assert LinkedAt(a, u, p);
    }
  }

  // ---------- One fold, pair by pair ----------

  ghost predicate StackAt(a: seq<Cell>, st: seq<seq<nat>>, beg: nat, p: nat)
  {
    p < |st| && IsStack(a, st[p], beg + p)
  }

  ghost predicate ApartAt(st: seq<seq<nat>>, p: nat, q: nat)
  {
    p < |st| && q < |st| && Apart(st[p], st[q])
  }

  /** The stacks of the positions lo .. hi stand on the bases beg + lo .. beg + hi. */
  ghost predicate Stand(a: seq<Cell>, st: seq<seq<nat>>, beg: nat, lo: nat, hi: nat)
  {
    && lo <= hi <= |st| && beg + |st| <= |a|
    && (forall p: nat {:trigger StackAt(a, st, beg, p)} :: lo <= p < hi ==> StackAt(a, st, beg, p))
    && (forall p: nat, q: nat {:trigger ApartAt(st, p, q)} :: lo <= p < q < hi ==> ApartAt(st, p, q))
  }

  /** The stack of position j comes to lie on that of position k; position j is given up. */
  ghost function Laid(st: seq<seq<nat>>, j: nat, k: nat): seq<seq<nat>>
    requires j < |st| && k < |st|
  {
    st[k := Reverse(st[j]) + st[k]]
  }

  lemma {:induction false} ApartLaid(s: seq<nat>, t: seq<nat>, u: seq<nat>)
    requires Apart(s, u) && Apart(t, u)
    ensures Apart(Reverse(t) + s, u) && Apart(u, Reverse(t) + s)
  {}

  /** Giving up j, which is the first or the last position of lo .. hi. */
  ghost predicate Without(lo: nat, hi: nat, j: nat, lo': nat, hi': nat)
  {
    (j == lo && lo' == lo + 1 && hi' == hi) || (j == hi - 1 && lo' == lo && hi' == hi - 1)
  }

  lemma StandTops(a: seq<Cell>, st: seq<seq<nat>>, beg: nat, lo: nat, hi: nat, p: nat)
    requires Stand(a, st, beg, lo, hi) && lo <= p < hi
    ensures beg + p < |a| && st[p] != [] && a[beg + p].top == st[p][0] < |a|
    ensures a[st[p][0]].up != NULL ==> a[st[p][0]].down == NULL
  {
    assert StackAt(a, st, beg, p);
    TopHasRoom(a, st[p], beg + p);
  }

  lemma {:induction false} MergeKeepsStack(a: seq<Cell>, st: seq<seq<nat>>, beg: nat, lo: nat, hi: nat, j: nat,
                                           k: nat, p: nat)
    requires Stand(a, st, beg, lo, hi) && lo <= j < hi && lo <= k < hi && j != k && lo <= p < hi && p != j
    ensures a[beg + k].top < |a| && a[beg + j].top < |a|
    ensures StackAt(Merge(a, beg + k, beg + j), Laid(st, j, k), beg, p)
  {
    StandTops(a, st, beg, lo, hi, k);
    StandTops(a, st, beg, lo, hi, j);
    StandApart(a, st, beg, lo, hi, k, j);
    assert StackAt(a, st, beg, k) && StackAt(a, st, beg, j);
    if p == k {
      MergedStack(a, st[k], st[j], beg + k, beg + j);
    } else {
      StandApart(a, st, beg, lo, hi, k, p);
      StandApart(a, st, beg, lo, hi, j, p);
      assert StackAt(a, st, beg, p);
      KeepsOther(a, st, beg, j, k, p);
    }
  }

  lemma {:induction false} KeepsOther(a: seq<Cell>, st: seq<seq<nat>>, beg: nat, j: nat, k: nat, p: nat)
    requires StackAt(a, st, beg, k) && StackAt(a, st, beg, j) && p != k
    requires StackAt(a, st, beg, p) && Apart(st[k], st[p]) && Apart(st[j], st[p])
    ensures StackAt(Merge(a, beg + k, beg + j), Laid(st, j, k), beg, p)
  {
    OtherStack(a, st[k], st[j], beg + k, beg + j, st[p], beg + p);
    assert Laid(st, j, k)[p] == st[p];
  }

  lemma {:induction false} MergeKeepsApart(a: seq<Cell>, st: seq<seq<nat>>, beg: nat, lo: nat, hi: nat, j: nat,
                                           k: nat, p: nat, q: nat)
    requires Stand(a, st, beg, lo, hi) && lo <= j < hi && lo <= k < hi && j != k
    requires lo <= p < q < hi && p != j && q != j
    ensures Apart(Laid(st, j, k)[p], Laid(st, j, k)[q])
  {
    StandApart(a, st, beg, lo, hi, p, q);
    if p == k || q == k {
      var u := if p == k then q else p;
      StandApart(a, st, beg, lo, hi, k, u);
      StandApart(a, st, beg, lo, hi, j, u);
      ApartLaid(st[k], st[j], st[u]);
    }
  }

  lemma {:induction false} MergeStands(a: seq<Cell>, st: seq<seq<nat>>, beg: nat, lo: nat, hi: nat, j: nat, k: nat,
                                       st': seq<seq<nat>>, lo': nat, hi': nat)
    requires Stand(a, st, beg, lo, hi) && lo <= j < hi && lo <= k < hi && j != k && Without(lo, hi, j, lo', hi')
    requires st' == Laid(st, j, k)
    ensures a[beg + k].top < |a| && a[beg + j].top < |a|
    ensures Stand(Merge(a, beg + k, beg + j), st', beg, lo', hi')
  {
    StandTops(a, st, beg, lo, hi, k);
    StandTops(a, st, beg, lo, hi, j);
    var m := Merge(a, beg + k, beg + j);
    forall p: nat | lo' <= p < hi'
      ensures StackAt(m, st', beg, p)
    {
      MergeKeepsStack(a, st, beg, lo, hi, j, k, p);
    }
    forall p: nat, q: nat | lo' <= p < q < hi'
      ensures ApartAt(st', p, q)
    {
      MergeKeepsApart(a, st, beg, lo, hi, j, k, p, q);
    }
  }

  lemma StandApart(a: seq<Cell>, st: seq<seq<nat>>, beg: nat, lo: nat, hi: nat, p: nat, q: nat)
    requires Stand(a, st, beg, lo, hi) && lo <= p < hi && lo <= q < hi && p != q
    ensures Apart(st[p], st[q])
  {
    assert ApartAt(st, if p < q then p else q, if p < q then q else p);
  }

  /** The stacks after the first t pairs of a fold were merged. */
  ghost function Partly(st: seq<seq<nat>>, cmd: char, t: nat): seq<seq<nat>>
  {
    seq(|st|, p requires 0 <= p < |st| =>
      if (if cmd == 'L' then p >= |st| - t else p < t) then Reverse(st[|st| - 1 - p]) + st[p] else st[p])
  }

  /** The pair number t: whose stack moves, and onto which one. */
  function Mover(cmd: char, n: nat, t: nat): nat requires t < n { if cmd == 'L' then t else n - 1 - t }
  function Goal(cmd: char, n: nat, t: nat): nat requires t < n { if cmd == 'L' then n - 1 - t else t }

  lemma {:induction false} PartlyStep(st: seq<seq<nat>>, cmd: char, t: nat)
    requires 2 * t + 1 < |st|
    ensures Laid(Partly(st, cmd, t), Mover(cmd, |st|, t), Goal(cmd, |st|, t)) == Partly(st, cmd, t + 1)
  {}

  /** The positions that still count after t pairs. */
  function From(cmd: char, t: nat): nat { if cmd == 'L' then t else 0 }
  function To(cmd: char, n: nat, t: nat): nat requires t <= n { if cmd == 'L' then n else n - t }

  lemma {:induction false} PartlyIsFold(st: seq<seq<nat>>, cmd: char, h: nat, p: nat)
    requires |st| == 2 * h && p < h
    ensures FoldOnce(st, cmd)[p] == Partly(st, cmd, h)[From(cmd, h) + p]
  {
    assert |st| / 2 == h;
    if cmd == 'L' {
      assert |st| - 1 - (h + p) == h - 1 - p;
    }
  }

  /** Renumbering the positions d .. d + h from 0. */
  lemma Renumber(a: seq<Cell>, st: seq<seq<nat>>, beg: nat, d: nat, h: nat, r: seq<seq<nat>>, beg': nat)
    requires Stand(a, st, beg, d, d + h) && beg' == beg + d && |r| == h
    requires forall p :: 0 <= p < h ==> r[p] == st[d + p]
    ensures Stand(a, r, beg', 0, h)
  {
    forall p: nat {:trigger StackAt(a, r, beg', p)} | p < h
      ensures StackAt(a, r, beg', p)
    {
      assert StackAt(a, st, beg, d + p);
    }
    forall p: nat, q: nat {:trigger ApartAt(r, p, q)} | p < q < h
      ensures ApartAt(r, p, q)
    {
      assert ApartAt(st, d + p, d + q);
    }
  }

  lemma {:induction false} PartlyDone(a: seq<Cell>, st: seq<seq<nat>>, cmd: char, beg: nat, h: nat)
    requires |st| == 2 * h && Stand(a, Partly(st, cmd, h), beg, From(cmd, h), To(cmd, |st|, h))
    ensures Stand(a, FoldOnce(st, cmd), beg + From(cmd, h), 0, h)
  {
    forall p | 0 <= p < h
      ensures FoldOnce(st, cmd)[p] == Partly(st, cmd, h)[From(cmd, h) + p]
    {
      PartlyIsFold(st, cmd, h, p);
    }
    Renumber(a, Partly(st, cmd, h), beg, From(cmd, h), h, FoldOnce(st, cmd), beg + From(cmd, h));
  }

  // ---------- The program ----------

  method MergeStacks(arr: array<Cell>, below: nat, above: nat)
    requires below < arr.Length && above < arr.Length && below != above
    requires arr[below].up != NULL ==> arr[below].down == NULL
    requires arr[above].up != NULL ==> arr[above].down == NULL
    modifies arr
    ensures arr[..] == LinkTops(old(arr[..]), below, above)
  {
    if arr[below].up == NULL {
      arr[below] := arr[below].(up := above);
    } else {
      assert arr[below].down == NULL;
      arr[below] := arr[below].(down := above);
    }
    if arr[above].up == NULL {
      arr[above] := arr[above].(up := below);
    } else {
      assert arr[above].down == NULL;
      arr[above] := arr[above].(down := below);
    }
  }

  /** One fold of the positions beg .. beg + size. */
  method FoldHalf(arr: array<Cell>, cmd: char, beg: nat, size: nat, ghost st: seq<seq<nat>>)
    requires (cmd == 'L' || cmd == 'R') && |st| == size && size % 2 == 0 && Stand(arr[..], st, beg, 0, size)
    modifies arr
    ensures Stand(arr[..], FoldOnce(st, cmd), beg + From(cmd, size / 2), 0, size / 2)
    ensures forall x :: 0 <= x < arr.Length ==> arr[x].value == old(arr[x].value)
  {
    assert Partly(st, cmd, 0) == st;
    for t := 0 to size / 2
      invariant Stand(arr[..], Partly(st, cmd, t), beg, From(cmd, t), To(cmd, size, t))
      invariant forall x :: 0 <= x < arr.Length ==> arr[x].value == old(arr[x].value)
    {
      MergePair(arr, cmd, beg, size, t, st);
    }
    PartlyDone(arr[..], st, cmd, beg, size / 2);
  }

  /** Before pair number t is merged, its two tops exist, differ and have room. */
  ghost predicate PairHasRoom(a: seq<Cell>, k: nat, j: nat)
  {
    && k < |a| && j < |a| && a[k].top < |a| && a[j].top < |a| && a[k].top != a[j].top
    && (a[a[k].top].up != NULL ==> a[a[k].top].down == NULL)
    && (a[a[j].top].up != NULL ==> a[a[j].top].down == NULL)
  }

  lemma {:induction false} StandRoom(a: seq<Cell>, st: seq<seq<nat>>, beg: nat, lo: nat, hi: nat, j: nat, k: nat)
    requires Stand(a, st, beg, lo, hi) && lo <= j < hi && lo <= k < hi && j != k
    ensures PairHasRoom(a, beg + k, beg + j)
  {
    StandTops(a, st, beg, lo, hi, j);
    StandTops(a, st, beg, lo, hi, k);
    StandApart(a, st, beg, lo, hi, j, k);
  }

  lemma {:induction false} PairRoom(a: seq<Cell>, st: seq<seq<nat>>, cmd: char, beg: nat, t: nat)
    requires 2 * t + 1 < |st| && Stand(a, Partly(st, cmd, t), beg, From(cmd, t), To(cmd, |st|, t))
    ensures PairHasRoom(a, beg + Goal(cmd, |st|, t), beg + Mover(cmd, |st|, t))
  {
    StandRoom(a, Partly(st, cmd, t), beg, From(cmd, t), To(cmd, |st|, t), Mover(cmd, |st|, t), Goal(cmd, |st|, t));
  }

  /** Merging pair number t: the next stacks stand. */
  lemma {:induction false} PairStands(a: seq<Cell>, st: seq<seq<nat>>, cmd: char, beg: nat, t: nat, mover: nat,
                                      goal: nat)
    requires 2 * t + 1 < |st| && Stand(a, Partly(st, cmd, t), beg, From(cmd, t), To(cmd, |st|, t))
    requires mover == Mover(cmd, |st|, t) && goal == Goal(cmd, |st|, t)
    ensures PairHasRoom(a, beg + goal, beg + mover)
    ensures Stand(Merge(a, beg + goal, beg + mover), Partly(st, cmd, t + 1), beg, From(cmd, t + 1),
                  To(cmd, |st|, t + 1))
  {
    PairRoom(a, st, cmd, beg, t);
    PartlyStep(st, cmd, t);
    MergeStands(a, Partly(st, cmd, t), beg, From(cmd, t), To(cmd, |st|, t), mover, goal, Partly(st, cmd, t + 1),
                From(cmd, t + 1), To(cmd, |st|, t + 1));
  }

  method MergePair(arr: array<Cell>, cmd: char, beg: nat, size: nat, t: nat, ghost st: seq<seq<nat>>)
    requires (cmd == 'L' || cmd == 'R') && |st| == size && 2 * t + 1 < size
    requires Stand(arr[..], Partly(st, cmd, t), beg, From(cmd, t), To(cmd, size, t))
    modifies arr
    ensures Stand(arr[..], Partly(st, cmd, t + 1), beg, From(cmd, t + 1), To(cmd, size, t + 1))
    ensures forall x :: 0 <= x < arr.Length ==> arr[x].value == old(arr[x].value)
  {
    PairStands(arr[..], st, cmd, beg, t, Mover(cmd, size, t), Goal(cmd, size, t));
    var j, k := beg + t, beg + size - 1 - t;
    if cmd == 'L' {
      MergeOnto(arr, k, j);
    } else {
      MergeOnto(arr, j, k);
    }
  }

  /** Joins the tops of two stacks and makes the base of the upper one the new top. */
  method MergeOnto(arr: array<Cell>, below: nat, above: nat)
    requires below < arr.Length && above < arr.Length
    requires arr[below].top < arr.Length && arr[above].top < arr.Length && arr[below].top != arr[above].top
    requires arr[arr[below].top].up != NULL ==> arr[arr[below].top].down == NULL
    requires arr[arr[above].top].up != NULL ==> arr[arr[above].top].down == NULL
    modifies arr
    ensures arr[..] == Merge(old(arr[..]), below, above)
    ensures forall x :: 0 <= x < arr.Length ==> arr[x].value == old(arr[x].value)
  {
    MergeKeepsValues(arr[..], below, above);
    ghost var a := arr[..];
    MergeStacks(arr, arr[below].top, arr[above].top);
    arr[below] := arr[below].(top := above);
    assert arr[..] == Merge(a, below, above);
    assert forall x :: 0 <= x < arr.Length ==> arr[..][x] == arr[x];
  }

  lemma MergeKeepsValues(a: seq<Cell>, below: nat, above: nat)
    requires below < |a| && above < |a| && a[below].top < |a| && a[above].top < |a|
    ensures forall x :: 0 <= x < |a| ==> Merge(a, below, above)[x].value == a[x].value
  {}

  ghost predicate AllHeight(st: seq<seq<nat>>, h: nat)
  {
    forall p :: 0 <= p < |st| ==> |st[p]| == h
  }

  lemma {:induction false} FoldDoubles(st: seq<seq<nat>>, cmd: char, h: nat)
    requires |st| % 2 == 0 && AllHeight(st, h)
    ensures AllHeight(FoldOnce(st, cmd), 2 * h)
  {
    forall p | 0 <= p < |st| / 2
      ensures |FoldOnce(st, cmd)[p]| == 2 * h
    {
      FoldAt(st, cmd, p);
    }
  }

  lemma {:induction false} FoldAt(st: seq<seq<nat>>, cmd: char, p: nat)
    requires |st| % 2 == 0 && p < |st| / 2
    ensures FoldOnce(st, cmd)[p] ==
            if cmd == 'L' then Reverse(st[|st| / 2 - 1 - p]) + st[|st| / 2 + p] else Reverse(st[|st| - 1 - p]) + st[p]
  {}

  /** Walking down a stack: the next cell is the one that is not the previous cell. */
  method Walk(arr: array<Cell>, top: nat, ghost s: seq<nat>, ghost base: nat) returns (printed: seq<int>)
    requires IsStack(arr[..], s, base) && |s| == arr.Length && top == s[0]
    ensures |printed| == |s| && forall i :: 0 <= i < |s| ==> printed[i] == arr[s[i]].value
  {
    printed := [];
    var curr: int, prev: int := top, NULL;
    for i := 0 to arr.Length
      invariant |printed| == i && forall k :: 0 <= k < i ==> printed[k] == arr[s[k]].value
      invariant i < |s| ==> curr == s[i] && prev == Above(s, i)
    {
      printed := printed + [arr[curr].value];
      assert LinkedAt(arr[..], s, i);
      assert i > 0 && i + 1 < |s| ==> s[i - 1] != s[i + 1];
      var next := if arr[curr].up == NULL || arr[curr].up == prev then arr[curr].down else arr[curr].up;
      prev := curr;
      curr := next;
    }
  }

  /** The strip as it is laid out before the first fold. */
  ghost predicate LaidOut(a: seq<Cell>)
  {
    forall i :: 0 <= i < |a| ==> a[i] == Cell(i + 1, NULL, NULL, i)
  }

  lemma FlatStands(a: seq<Cell>)
    requires LaidOut(a)
    ensures Stand(a, Flat(|a|), 0, 0, |a|) && AllHeight(Flat(|a|), 1)
  {}

  /** A pile as high as the strip was long holds every one of its cells once. */
  lemma Printed(a: seq<Cell>, s: seq<nat>, base: nat, printed: seq<int>)
    requires IsStack(a, s, base) && |printed| == |s|
    requires forall x :: 0 <= x < |a| ==> a[x].value == x + 1
    requires forall i :: 0 <= i < |s| ==> printed[i] == a[s[i]].value
    ensures forall i :: 0 <= i < |printed| ==> printed[i] == s[i] + 1 && 1 <= printed[i] <= |a|
    ensures forall i, j :: 0 <= i < j < |printed| ==> printed[i] != printed[j]
  {}

  /** What holds after the first i folds, with the remaining positions beg .. beg + |st|. */
  ghost predicate FoldedSoFar(a: seq<Cell>, cmds: string, i: nat, beg: nat, st: seq<seq<nat>>)
  {
    && i <= |cmds| && |a| == Pow2(|cmds|) && |st| == Pow2(|cmds| - i)
    && Stand(a, st, beg, 0, |st|) && AllHeight(st, Pow2(i))
    && FoldAll(st, cmds[i..]) == FoldAll(Flat(|a|), cmds)
    && (forall x :: 0 <= x < |a| ==> a[x].value == x + 1)
  }

  lemma {:induction false} FoldedNext(cmds: string, i: nat, st: seq<seq<nat>>)
    requires i < |cmds| && |st| == Pow2(|cmds| - i)
    ensures |st| % 2 == 0 && |st| / 2 == Pow2(|cmds| - i - 1)
    ensures FoldAll(st, cmds[i..]) == FoldAll(FoldOnce(st, cmds[i]), cmds[i + 1..])
  {
    assert cmds[i..][1..] == cmds[i + 1..];
  }

  /** One round of the loop: fold, then keep the half that lies below. */
  method FoldStep(arr: array<Cell>, cmds: string, i: nat, beg: nat, size: nat, ghost st: seq<seq<nat>>)
    returns (beg': nat, size': nat, ghost st': seq<seq<nat>>)
    requires i < |cmds| && size == |st| && FoldedSoFar(arr[..], cmds, i, beg, st)
    requires cmds[i] == 'L' || cmds[i] == 'R'
    modifies arr
    ensures size' == |st'| && FoldedSoFar(arr[..], cmds, i + 1, beg', st')
  {
    FoldedNext(cmds, i, st);
    FoldDoubles(st, cmds[i], Pow2(i));
    assert forall x :: 0 <= x < arr.Length ==> arr[x].value == arr[..][x].value;
    FoldHalf(arr, cmds[i], beg, size, st);
    size', st' := size / 2, FoldOnce(st, cmds[i]);
    beg' := if cmds[i] == 'L' then beg + size' else beg;
  }

  lemma {:induction false} FoldedEnd(a: seq<Cell>, cmds: string, beg: nat, st: seq<seq<nat>>)
    requires FoldedSoFar(a, cmds, |cmds|, beg, st)
    ensures |st| == 1 && IsStack(a, st[0], beg) && st[0] == Folded(cmds) && |st[0]| == |a| == Pow2(|cmds|)
  {
    assert StackAt(a, st, beg, 0);
    assert cmds[|cmds|..] == "";
  }

  /** The numbers from top to bottom: those of the naive model, each of 1 .. 2^N exactly once. */
  method Fold(arr: array<Cell>, cmds: string) returns (printed: seq<int>)
    requires arr.Length == Pow2(|cmds|) && LaidOut(arr[..])
    requires forall i :: 0 <= i < |cmds| ==> cmds[i] == 'L' || cmds[i] == 'R'
    modifies arr
    ensures |printed| == |Folded(cmds)| == Pow2(|cmds|)
    ensures forall i :: 0 <= i < |printed| ==> printed[i] == Folded(cmds)[i] + 1
    ensures forall i :: 0 <= i < |printed| ==> 1 <= printed[i] <= Pow2(|cmds|)
    ensures forall i, j :: 0 <= i < j < |printed| ==> printed[i] != printed[j]
  {
    ghost var st := Flat(arr.Length);
    FlatStands(arr[..]);
    var beg: nat, size := 0, arr.Length;
    assert cmds[0..] == cmds;
    for i := 0 to |cmds|
      invariant size == |st| && FoldedSoFar(arr[..], cmds, i, beg, st)
    {
      beg, size, st := FoldStep(arr, cmds, i, beg, size, st);
    }
    FoldedEnd(arr[..], cmds, beg, st);
    printed := Walk(arr, arr[beg].top, st[0], beg);
    Printed(arr[..], st[0], beg, printed);
  }
}
