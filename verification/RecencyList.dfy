/**
 What a set-associative LRU cache is, without heaps or timestamps: per line, the cached
 entries from the least to the most recently used one.
 */
module RecencyList {
  import opened Wrappers

  datatype Pair = Pair(key: nat, val: int)

  datatype Op = Insert(key: nat, val: int) | Get(key: nat) | Update(key: nat, val: int)

  ghost predicate UniqueKeys(v: seq<Pair>)
  {
    forall i, j :: 0 <= i < j < |v| ==> v[i].key != v[j].key
  }

  ghost predicate HasKey(v: seq<Pair>, k: nat)
  {
    exists j :: 0 <= j < |v| && v[j].key == k
  }

  function IndexOf(v: seq<Pair>, k: nat): (i: nat)
    ensures i <= |v| && (i < |v| ==> v[i].key == k) && (forall j :: 0 <= j < i ==> v[j].key != k)
  {
    if v == [] || v[0].key == k then 0 else 1 + IndexOf(v[1..], k)
  }

  /** The entry at i becomes the most recently used one, with value x. */
  function Touch(v: seq<Pair>, i: nat, x: int): seq<Pair>
    requires i < |v|
  {
    v[..i] + v[i + 1..] + [Pair(v[i].key, x)]
  }

  /** A full line drops its least recently used entry. */
  function Put(v: seq<Pair>, assoc: nat, k: nat, x: int): seq<Pair>
  {
    (if |v| == assoc && v != [] then v[1..] else v) + [Pair(k, x)]
  }

  function LineStep(v: seq<Pair>, assoc: nat, op: Op): seq<Pair>
  {
    match op
    case Insert(k, x) => Put(v, assoc, k, x)
    case Get(k) => var i := IndexOf(v, k); if i < |v| then Touch(v, i, v[i].val) else v
    case Update(k, x) => var i := IndexOf(v, k); if i < |v| then Touch(v, i, x) else v
  }

  /** All lines; a key belongs to the line given by its remainder. */
  function Step(c: seq<seq<Pair>>, assoc: nat, op: Op): (c': seq<seq<Pair>>)
    requires c != []
    ensures |c'| == |c|
  {
    var l := op.key % |c|;
    c[l := LineStep(c[l], assoc, op)]
  }

  /** Only keys that are not cached are inserted. */
  predicate Allowed(c: seq<seq<Pair>>, op: Op)
    requires c != []
  {
    op.Insert? ==> var v := c[op.key % |c|]; IndexOf(v, op.key) == |v|
  }

  function Run(lines: nat, assoc: nat, h: seq<Op>): (c: seq<seq<Pair>>)
    requires lines > 0
    ensures |c| == lines
  {
    if h == [] then seq(lines, _ => []) else Step(Run(lines, assoc, h[..|h| - 1]), assoc, h[|h| - 1])
  }

  ghost predicate AllowedRun(lines: nat, assoc: nat, h: seq<Op>)
    requires lines > 0
  {
    h != [] ==>
      AllowedRun(lines, assoc, h[..|h| - 1]) && Allowed(Run(lines, assoc, h[..|h| - 1]), h[|h| - 1])
  }

  /** The number of operations up to and including the last one on k. */
  function LastUse(h: seq<Op>, k: nat): (n: nat)
    ensures n <= |h|
  {
    if h == [] then 0
    else if h[|h| - 1].key == k then |h|
    else LastUse(h[..|h| - 1], k)
  }

  /** The value that the last insert or update of k stored. */
  function LastStored(h: seq<Op>, k: nat): Option<int>
  {
    if h == [] then None
    else if h[|h| - 1].key == k && !h[|h| - 1].Get? then Some(h[|h| - 1].val)
    else LastStored(h[..|h| - 1], k)
  }

  /** A line after the history h: within capacity, ordered by last use, holding what was last stored. */
  ghost predicate Faithful(lines: nat, assoc: nat, h: seq<Op>, l: nat, v: seq<Pair>)
    requires lines > 0
  {
    && |v| <= assoc && UniqueKeys(v)
    && (forall i :: 0 <= i < |v| ==> v[i].key % lines == l && LastStored(h, v[i].key) == Some(v[i].val))
    && (forall i, j :: 0 <= i < j < |v| ==> LastUse(h, v[i].key) < LastUse(h, v[j].key))
  }

  lemma TouchIsFaithful(lines: nat, assoc: nat, h: seq<Op>, op: Op, l: nat, v: seq<Pair>, i: nat, x: int)
    requires lines > 0 && Faithful(lines, assoc, h, l, v) && i < |v| && v[i].key == op.key
    requires x == if op.Get? then v[i].val else op.val
    ensures Faithful(lines, assoc, h + [op], l, Touch(v, i, x))
  {
    var h' := h + [op];
    assert h'[..|h|] == h;
    var w := Touch(v, i, x);
    forall j | 0 <= j < |w| - 1
      ensures w[j] == v[if j < i then j else j + 1] && w[j].key != op.key
      ensures LastUse(h', w[j].key) == LastUse(h, w[j].key) && LastStored(h', w[j].key) == LastStored(h, w[j].key)
    {}
  }

  lemma PutIsFaithful(lines: nat, assoc: nat, h: seq<Op>, op: Op, l: nat, v: seq<Pair>)
    requires lines > 0 && assoc > 0 && Faithful(lines, assoc, h, l, v) && op.Insert?
    requires op.key % lines == l && forall i :: 0 <= i < |v| ==> v[i].key != op.key
    ensures Faithful(lines, assoc, h + [op], l, Put(v, assoc, op.key, op.val))
  {
    var h' := h + [op];
    assert h'[..|h|] == h;
    var w := Put(v, assoc, op.key, op.val);
    var d := if |v| == assoc then 1 else 0;
    forall j | 0 <= j < |w| - 1
      ensures w[j] == v[j + d] && w[j].key != op.key
      ensures LastUse(h', w[j].key) == LastUse(h, w[j].key) && LastStored(h', w[j].key) == LastStored(h, w[j].key)
    {}
  }

  lemma OtherIsFaithful(lines: nat, assoc: nat, h: seq<Op>, op: Op, l: nat, v: seq<Pair>)
    requires lines > 0 && Faithful(lines, assoc, h, l, v) && forall i :: 0 <= i < |v| ==> v[i].key != op.key
    ensures Faithful(lines, assoc, h + [op], l, v)
  {
    var h' := h + [op];
    assert h'[..|h|] == h;
    forall i | 0 <= i < |v|
      ensures LastUse(h', v[i].key) == LastUse(h, v[i].key) && LastStored(h', v[i].key) == LastStored(h, v[i].key)
    {}
  }

  lemma StepIsFaithful(lines: nat, assoc: nat, h: seq<Op>, op: Op, c: seq<seq<Pair>>, l: nat)
    requires lines > 0 && assoc > 0 && |c| == lines && l < lines && Faithful(lines, assoc, h, l, c[l]) && Allowed(c, op)
    ensures Faithful(lines, assoc, h + [op], l, Step(c, assoc, op)[l])
  {
    var v, k := c[l], op.key;
    if k % lines != l {
      OtherIsFaithful(lines, assoc, h, op, l, v);
    } else {
      var i := IndexOf(v, k);
      if i == |v| {
        if op.Insert? {
          PutIsFaithful(lines, assoc, h, op, l, v);
        } else {
          OtherIsFaithful(lines, assoc, h, op, l, v);
        }
      } else {
        TouchIsFaithful(lines, assoc, h, op, l, v, i, if op.Get? then v[i].val else op.val);
      }
    }
  }

  /** After every allowed run, every line is faithful to the history of operations. */
  lemma {:induction false} RunIsFaithful(lines: nat, assoc: nat, h: seq<Op>, l: nat)
    requires lines > 0 && assoc > 0 && l < lines && AllowedRun(lines, assoc, h)
    ensures Faithful(lines, assoc, h, l, Run(lines, assoc, h)[l])
  {
    if h == [] {
      assert Run(lines, assoc, h)[l] == [];
    } else {
      var g, op := h[..|h| - 1], h[|h| - 1];
      RunIsFaithful(lines, assoc, g, l);
      assert g + [op] == h;
      StepIsFaithful(lines, assoc, g, op, Run(lines, assoc, g), l);
      assert Run(lines, assoc, h) == Step(Run(lines, assoc, g), assoc, op);
    }
  }

  /** A hit returns what was stored last, and an insert into a full line evicts the least recently used key. */
  lemma HitsAndEvictions(lines: nat, assoc: nat, h: seq<Op>, k: nat)
    requires lines > 0 && assoc > 0 && AllowedRun(lines, assoc, h)
    ensures var v := Run(lines, assoc, h)[k % lines];
            && (IndexOf(v, k) < |v| ==> LastStored(h, k) == Some(v[IndexOf(v, k)].val))
            && |v| <= assoc
            && (forall x, i :: |v| == assoc && IndexOf(v, k) == |v| && 0 <= i < |v| ==>
                  && (v[i] in LineStep(v, assoc, Insert(k, x)) <==> i != 0)
                  && LastUse(h, v[0].key) <= LastUse(h, v[i].key))
  {
    RunIsFaithful(lines, assoc, h, k % lines);
    var v := Run(lines, assoc, h)[k % lines];
    forall x, i | |v| == assoc && IndexOf(v, k) == |v| && 0 <= i < |v|
      ensures v[i] in LineStep(v, assoc, Insert(k, x)) <==> i != 0
    {
      var w := v[1..] + [Pair(k, x)];
      assert i != 0 ==> w[i - 1] == v[i];
      assert forall j :: 0 <= j < |w| ==> w[j].key == if j < |v| - 1 then v[j + 1].key else k;
    }
  }

  // ---------- Inserting a key that is already cached ----------

  /** What an insert into the line leaves of it. */
  function Surviving(v: seq<Pair>, assoc: nat): seq<Pair>
  {
    if |v| == assoc && v != [] then v[1..] else v
  }

  /** The value of a hit right after the insert: an entry that was there before comes first. */
  function HitAfterInsert(v: seq<Pair>, assoc: nat, k: nat, x: int): int
  {
    var s := Surviving(v, assoc);
    var i := IndexOf(s, k);
    if i < |s| then s[i].val else x
  }

  /** The key is not cached, or evicted by this very insert, or cached with the same value. */
  predicate InsertIsSafe(v: seq<Pair>, assoc: nat, k: nat, x: int)
  {
    var i := IndexOf(v, k);
    i == |v| || (i == 0 && |v| == assoc) || v[i].val == x
  }

  /** With distinct keys, the hit after an insert is right exactly in these cases. */
  lemma {:induction false} HitIsRight(v: seq<Pair>, assoc: nat, k: nat, x: int)
    requires UniqueKeys(v)
    ensures HitAfterInsert(v, assoc, k, x) == x <==> InsertIsSafe(v, assoc, k, x)
  {
    var s, i := Surviving(v, assoc), IndexOf(v, k);
    var j := IndexOf(s, k);
    if |v| == assoc && v != [] {
      assert forall q :: 0 <= q < |s| ==> s[q] == v[q + 1];
      assert i > 0 && i < |v| ==> s[i - 1].key == k;
    }
  }

  /** After an allowed run: right exactly if the key is not cached, evicted now, or was last stored with x. */
  lemma {:induction false} HitIsRightAfterRun(lines: nat, assoc: nat, h: seq<Op>, k: nat, x: int)
    requires lines > 0 && assoc > 0 && AllowedRun(lines, assoc, h)
    ensures var v := Run(lines, assoc, h)[k % lines];
            HitAfterInsert(v, assoc, k, x) == x <==>
              IndexOf(v, k) == |v| || (IndexOf(v, k) == 0 && |v| == assoc) || LastStored(h, k) == Some(x)
  {
    RunIsFaithful(lines, assoc, h, k % lines);
    var v := Run(lines, assoc, h)[k % lines];
    HitIsRight(v, assoc, k, x);
  }
}
