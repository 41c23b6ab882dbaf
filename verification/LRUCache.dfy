/** A set-associative LRU cache: each line is a heap of entries ordered by the time of their last use. */
module LRUCache {
  import opened Wrappers
  import opened Heaps
  import opened Multisets
  import opened Sequences
  import opened RecencyList
  import opened CacheHistory

  datatype Entry = Entry(timestamp: nat, key: nat, val: int)

  function Time(e: Entry): int { e.timestamp }

  function ViewOf(e: Entry): Pair { Pair(e.key, e.val) }

  function Views(r: seq<Entry>): (v: seq<Pair>)
    ensures |v| == |r| && forall i :: 0 <= i < |r| ==> v[i] == ViewOf(r[i])
  {
    seq(|r|, i requires 0 <= i < |r| => ViewOf(r[i]))
  }

  // ---------- A heap of entries and the same entries by recency ----------

  ghost predicate Increasing(r: seq<Entry>)
  {
    forall i, j :: 0 <= i < j < |r| ==> r[i].timestamp < r[j].timestamp
  }

  ghost predicate Before(r: seq<Entry>, now: nat)
  {
    forall i :: 0 <= i < |r| ==> r[i].timestamp < now
  }

  /** recent lists the entries of the heap from the least to the most recently used. */
  ghost predicate Lists(heap: seq<Entry>, recent: seq<Entry>)
  {
    Ordered(heap, Time) && Increasing(recent) && multiset(heap) == multiset(recent)
  }

  lemma SameEntries(heap: seq<Entry>, recent: seq<Entry>)
    requires multiset(heap) == multiset(recent)
    ensures |heap| == |recent| && forall e :: e in heap <==> e in recent
  {
    assert |heap| == |multiset(heap)| == |multiset(recent)| == |recent|;
    assert forall e :: e in heap <==> e in multiset(heap);
    assert forall e :: e in recent <==> e in multiset(recent);
  }

  /** The root of the heap is the least recently used entry. */
  lemma RootIsOldest(heap: seq<Entry>, recent: seq<Entry>)
    requires Lists(heap, recent) && heap != []
    ensures recent != [] && heap[0] == recent[0]
  {
    SameEntries(heap, recent);
    assert recent[0] in heap && heap[0] in recent;
    var i :| 0 <= i < |heap| && heap[i] == recent[0];
    RootIsLeast(heap, Time, i);
    assert Time(heap[0]) <= Time(heap[i]);
    var j :| 0 <= j < |recent| && recent[j] == heap[0];
  }

  lemma EvictOldest(heap: seq<Entry>, recent: seq<Entry>)
    requires Lists(heap, recent) && heap != []
    ensures recent != [] && Lists(Pop(heap, Time), recent[1..])
  {
    RootIsOldest(heap, recent);
    PopOrders(heap, Time);
    assert recent == [recent[0]] + recent[1..];
    assert multiset(recent) == multiset{recent[0]} + multiset(recent[1..]);
    Cancel(multiset{recent[0]}, multiset(Pop(heap, Time)), multiset(recent[1..]));
  }

  lemma AddNewest(heap: seq<Entry>, recent: seq<Entry>, e: Entry)
    requires Lists(heap, recent) && Before(recent, e.timestamp)
    ensures Lists(Push(heap, Time, e), recent + [e])
  {
    PushOrders(heap, Time, e);
  }

  /** The heap and the recency list of a line after an insert. */
  ghost function HeapWith(heap: seq<Entry>, assoc: nat, e: Entry): seq<Entry>
  {
    Push(if |heap| == assoc && heap != [] then Pop(heap, Time) else heap, Time, e)
  }

  ghost function RecentWith(recent: seq<Entry>, assoc: nat, e: Entry): seq<Entry>
  {
    (if |recent| == assoc && recent != [] then recent[1..] else recent) + [e]
  }

  lemma InsertViews(recent: seq<Entry>, assoc: nat, e: Entry)
    requires Before(recent, e.timestamp)
    ensures Before(RecentWith(recent, assoc, e), e.timestamp + 1)
    ensures Views(RecentWith(recent, assoc, e)) == Put(Views(recent), assoc, e.key, e.val)
  {}

  lemma InsertLists(heap: seq<Entry>, recent: seq<Entry>, assoc: nat, e: Entry)
    requires Lists(heap, recent) && |heap| <= assoc && assoc > 0 && Before(recent, e.timestamp)
    ensures |heap| == |recent| && Lists(HeapWith(heap, assoc, e), RecentWith(recent, assoc, e))
    ensures |HeapWith(heap, assoc, e)| <= assoc
  {
    SameEntries(heap, recent);
    if |heap| == assoc {
      EvictOldest(heap, recent);
      assert Before(recent[1..], e.timestamp);
      AddNewest(Pop(heap, Time), recent[1..], e);
    } else {
      AddNewest(heap, recent, e);
    }
  }

  /** The entry at i leaves its place and e becomes the most recently used one. */
  ghost function Moved(recent: seq<Entry>, i: nat, e: Entry): seq<Entry>
    requires i < |recent|
  {
    recent[..i] + recent[i + 1..] + [e]
  }

  lemma MovedIncreases(recent: seq<Entry>, i: nat, e: Entry)
    requires i < |recent| && Increasing(recent) && Before(recent, e.timestamp)
    ensures Increasing(Moved(recent, i, e)) && Before(Moved(recent, i, e), e.timestamp + 1)
  {
    var m := Moved(recent, i, e);
    assert forall j :: 0 <= j < |m| ==> m[j] == if j < i then recent[j] else if j < |m| - 1 then recent[j + 1] else e;
  }

  lemma MovedViews(recent: seq<Entry>, i: nat, e: Entry)
    requires i < |recent| && e.key == recent[i].key
    ensures Views(Moved(recent, i, e)) == Touch(Views(recent), i, e.val)
  {}

  /** Raising the timestamp of the entry at c makes it the most recently used one. */
  lemma Renew(heap: seq<Entry>, recent: seq<Entry>, c: nat, e: Entry) returns (i: nat)
    requires Lists(heap, recent) && c < |heap| && Before(recent, e.timestamp) && e.key == heap[c].key
    ensures i < |recent| && recent[i] == heap[c]
    ensures Lists(SiftDown(heap[c := e], Time, c), Moved(recent, i, e)) && Before(Moved(recent, i, e), e.timestamp + 1)
    ensures Views(Moved(recent, i, e)) == Touch(Views(recent), i, e.val)
  {
    SameEntries(heap, recent);
    assert heap[c] in recent;
    i :| 0 <= i < |recent| && recent[i] == heap[c];
    MovedIncreases(recent, i, e);
    MovedViews(recent, i, e);
    assert Time(heap[c]) <= Time(e);
    RaiseOrders(heap, Time, c, e);
    ReplaceOne(heap, c, e, recent, i);
  }

  /** The first place in heap order that holds k, or the end. */
  function First(heap: seq<Entry>, k: nat): (it: nat)
    ensures it <= |heap| && (it < |heap| ==> heap[it].key == k) && (forall j :: 0 <= j < it ==> heap[j].key != k)
  {
    if heap == [] || heap[0].key == k then 0 else 1 + First(heap[1..], k)
  }

  lemma ReplaceOne(heap: seq<Entry>, c: nat, e: Entry, recent: seq<Entry>, i: nat)
    requires c < |heap| && i < |recent| && heap[c] == recent[i] && multiset(heap) == multiset(recent)
    ensures multiset(heap[c := e]) == multiset(Moved(recent, i, e))
  {
    SplitAt(heap, c);
    SplitAt(recent, i);
    Cancel(multiset{recent[i]}, Others(heap, c), Others(recent, i));
    SplitAt(heap[c := e], c);
    assert Others(heap[c := e], c) == Others(heap, c);
  }

  ghost function Others(s: seq<Entry>, c: nat): multiset<Entry>
    requires c < |s|
  {
    multiset(s[..c]) + multiset(s[c + 1..])
  }

  lemma SplitAt(s: seq<Entry>, c: nat)
    requires c < |s|
    ensures multiset(s) == multiset{s[c]} + Others(s, c)
  {
    assert s == s[..c] + ([s[c]] + s[c + 1..]);
  }

  class CacheLine {
    var minHeap: seq<Entry>
    const assoc: nat
    ghost var recent: seq<Entry>

    ghost predicate Valid()
      reads this
    {
      Lists(minHeap, recent) && |minHeap| <= assoc && assoc > 0
    }

    ghost function View(): seq<Pair>
      reads this
    {
      Views(recent)
    }

    constructor (associativity: nat)
      requires associativity > 0
      ensures Valid() && assoc == associativity && minHeap == [] && recent == []
    {
      assoc, minHeap, recent := associativity, [], [];
    }

    /** The first entry in heap order that holds k, or the end. */
    method FindByKey(k: nat) returns (it: nat)
      ensures it == First(minHeap, k)
    {
      it := 0;
      while it < |minHeap|
        invariant it <= |minHeap| && forall j :: 0 <= j < it ==> minHeap[j].key != k
      {
        if minHeap[it].key == k {
          return;
        }
        it := it + 1;
      }
    }

    method FloatUp(start: nat)
      requires start < |minHeap|
      modifies this`minHeap
      ensures minHeap == SiftUp(old(minHeap), Time, start)
    {
      var curr: nat := start;
      while curr != 0 && Time(minHeap[curr]) < Time(minHeap[Parent(curr)])
        invariant curr < |minHeap| && SiftUp(minHeap, Time, curr) == SiftUp(old(minHeap), Time, start)
      {
        minHeap := Swap(minHeap, curr, Parent(curr));
        curr := Parent(curr);
      }
    }

    method SinkDown(start: nat)
      modifies this`minHeap
      ensures minHeap == SiftDown(old(minHeap), Time, start)
    {
      var curr: nat := start;
      var smallest := Least(minHeap, Time, curr);
      while smallest != curr
        invariant smallest == Least(minHeap, Time, curr)
        invariant SiftDown(minHeap, Time, curr) == SiftDown(old(minHeap), Time, start)
        decreases |minHeap| - curr
      {
        minHeap := Swap(minHeap, curr, smallest);
        curr := smallest;
        smallest := Least(minHeap, Time, curr);
      }
    }

    method ExtractMin()
      requires minHeap != []
      modifies this`minHeap
      ensures minHeap == Pop(old(minHeap), Time)
    {
      minHeap := Swap(minHeap, 0, |minHeap| - 1);
      minHeap := minHeap[..|minHeap| - 1];
      SinkDown(0);
    }

    method IncreaseKey(idx: nat, newKey: nat)
      requires idx < |minHeap|
      modifies this`minHeap
      ensures minHeap == SiftDown(old(minHeap)[idx := old(minHeap)[idx].(timestamp := newKey)], Time, idx)
    {
      minHeap := minHeap[idx := minHeap[idx].(timestamp := newKey)];
      SinkDown(idx);
    }

    method Insert(now: nat, k: nat, val: int)
      requires Valid() && Before(recent, now)
      modifies this
      ensures Valid() && Before(recent, now + 1)
      ensures View() == Put(old(View()), assoc, k, val)
      ensures minHeap == HeapWith(old(minHeap), assoc, Entry(now, k, val))
    {
      var e := Entry(now, k, val);
      InsertLists(minHeap, recent, assoc, e);
      InsertViews(recent, assoc, e);
      recent := RecentWith(recent, assoc, e);
      if |minHeap| == assoc {
        ExtractMin();
      }
      minHeap := minHeap + [e];
      FloatUp(|minHeap| - 1);
    }

    method Get(now: nat, k: nat) returns (found: bool, res: int, ghost i: nat)
      requires Valid() && Before(recent, now)
      modifies this
      ensures Valid() && Before(recent, now + 1)
      ensures found <==> HasKey(old(View()), k)
      ensures found ==> i < |old(View())| && old(View())[i] == Pair(k, res) && View() == Touch(old(View()), i, res)
      ensures found <==> First(old(minHeap), k) < |old(minHeap)|
      ensures found ==> old(recent)[i] == old(minHeap)[First(old(minHeap), k)]
      ensures !found ==> minHeap == old(minHeap) && recent == old(recent)
    {
      var it := FindByKey(k);
      FoundIffHasKey(minHeap, recent, k, it);
      i := 0;
      if it == |minHeap| {
        return false, 0, 0;
      }
      res := minHeap[it].val;
      var e := minHeap[it].(timestamp := now);
      i := Renew(minHeap, recent, it, e);
      recent := Moved(recent, i, e);
      IncreaseKey(it, now);
      found := true;
    }

    method Update(now: nat, k: nat, val: int) returns (ghost i: nat)
      requires Valid() && Before(recent, now)
      modifies this
      ensures Valid() && Before(recent, now + 1)
      ensures HasKey(old(View()), k) ==>
                && i < |old(View())| && old(View())[i].key == k && View() == Touch(old(View()), i, val)
                && First(old(minHeap), k) < |old(minHeap)| && old(recent)[i] == old(minHeap)[First(old(minHeap), k)]
      ensures !HasKey(old(View()), k) ==> minHeap == old(minHeap) && recent == old(recent)
    {
      var it := FindByKey(k);
      FoundIffHasKey(minHeap, recent, k, it);
      i := 0;
      if it == |minHeap| {
        return;
      }
      ghost var e := minHeap[it].(timestamp := now, val := val);
      i := Renew(minHeap, recent, it, e);
      recent := Moved(recent, i, e);
      SetTwice(minHeap, it, minHeap[it].(val := val), e);
      minHeap := minHeap[it := minHeap[it].(val := val)];
      IncreaseKey(it, now);
    }
  }

  lemma FoundIffHasKey(heap: seq<Entry>, recent: seq<Entry>, k: nat, it: nat)
    requires Lists(heap, recent) && it <= |heap| && (it < |heap| ==> heap[it].key == k)
    requires forall j :: 0 <= j < it ==> heap[j].key != k
    ensures it < |heap| <==> HasKey(Views(recent), k)
  {
    SameEntries(heap, recent);
    var v := Views(recent);
    if it < |heap| {
      assert heap[it] in recent;
      var j :| 0 <= j < |recent| && recent[j] == heap[it];
      assert v[j].key == k;
    }
    if j :| 0 <= j < |v| && v[j].key == k {
      assert recent[j] in heap;
    }
  }

  class Cache {
    const lines: seq<CacheLine>
    const assoc: nat
    var timestamp: nat

    ghost predicate Valid()
      reads this, lines
    {
      && assoc > 0 && lines != [] && NoDup(lines)
      && forall i :: 0 <= i < |lines| ==> InUse(lines[i], assoc, timestamp)
    }

    /** The cached entries of every line, least recently used first. */
    ghost function Contents(): (c: seq<seq<Pair>>)
      reads this, lines
      ensures |c| == |lines| && forall i :: 0 <= i < |c| ==> c[i] == lines[i].View()
    {
      seq(|lines|, i requires 0 <= i < |lines| reads this, lines => lines[i].View())
    }

    constructor (blocks: nat, associativity: nat)
      requires associativity > 0 && blocks / associativity > 0
      ensures Valid() && fresh(lines) && assoc == associativity && |lines| == blocks / associativity && timestamp == 0
      ensures Contents() == Run(|lines|, assoc, [])
    {
      var ls := EmptyLines(blocks / associativity, associativity);
      lines, assoc, timestamp := ls, associativity, 0;
      new;
      forall i | 0 <= i < |lines|
        ensures InUse(lines[i], assoc, 0) && lines[i].View() == []
      {
        EmptyInUse(lines[i], assoc);
      }
    }

    /** An operation on line l leaves all other lines alone. */
    twostate lemma OtherLines(l: nat)
      requires old(Valid()) && l < |lines| && timestamp >= old(timestamp)
      requires forall j :: 0 <= j < |lines| && j != l ==> unchanged(lines[j])
      ensures forall j :: 0 <= j < |lines| && j != l ==> InUse(lines[j], assoc, timestamp)
      ensures forall j :: 0 <= j < |lines| && j != l ==> Contents()[j] == old(Contents())[j]
    {}

    method InsertKey(k: nat, val: int)
      requires Valid()
      modifies this, lines
      ensures Valid() && Contents() == Step(old(Contents()), assoc, Insert(k, val))
      ensures timestamp == old(timestamp) + 1
      ensures var l := k % |lines|;
              lines[l].minHeap == HeapWith(old(lines[l].minHeap), assoc, Entry(old(timestamp), k, val))
    {
      var l := k % |lines|;
      ghost var c := Contents();
      lines[l].Insert(timestamp, k, val);
      timestamp := timestamp + 1;
      OtherLines(l);
      OneLine(c, Contents(), assoc, Insert(k, val));
    }

    /** The entry that is hit, one of those with the key, becomes the most recently used one. */
    method GetKey(k: nat) returns (found: bool, out: int)
      requires Valid()
      modifies this, lines
      ensures Valid()
      ensures GetsKey(old(Contents()), assoc, k, found, out, Contents())
      ensures timestamp == old(timestamp) + if found then 1 else 0
      ensures var heap := old(lines[k % |lines|].minHeap);
              (found <==> First(heap, k) < |heap|) && (found ==> out == heap[First(heap, k)].val)
    {
      ghost var c, i := Contents(), 0;
      found, out, i := lines[k % |lines|].Get(timestamp, k);
      if found {
        timestamp := timestamp + 1;
      }
      OtherLines(k % |lines|);
      GotKey(c, assoc, k, found, out, i, Contents());
    }

    /** One of the entries with the key, if there is any, gets the value and becomes the most recently used one. */
    method UpdateKey(k: nat, val: int)
      requires Valid()
      modifies this, lines
      ensures Valid()
      ensures UpdatesKey(old(Contents()), assoc, k, val, Contents())
      ensures timestamp == old(timestamp) + 1
    {
      ghost var c := Contents();
      ghost var i := lines[k % |lines|].Update(timestamp, k, val);
      timestamp := timestamp + 1;
      OtherLines(k % |lines|);
      UpdatedKey(c, assoc, k, val, i, Contents());
    }

    /** Right after an insert, the hit is the new value exactly if no other entry with the key survives with another. */
    method InsertThenGet(k: nat, x: int) returns (found: bool, out: int)
      requires Valid() && UniqueKeys(Contents()[k % |lines|])
      modifies this, lines
      ensures Valid() && found
      ensures var v := old(Contents())[k % |lines|];
              out == HitAfterInsert(v, assoc, k, x) && (out == x <==> InsertIsSafe(v, assoc, k, x))
    {
      var l := k % |lines|;
      ghost var heap, recent, e := lines[l].minHeap, lines[l].recent, Entry(timestamp, k, x);
      HitIsRight(Contents()[l], assoc, k, x);
      FirstAfterInsert(heap, recent, assoc, e);
      InsertKey(k, x);
      found, out := GetKey(k);
    }
  }

  /** In line l, an entry for k with the value was becomes the most recently used one, with value x. */
  ghost predicate Touched(c: seq<seq<Pair>>, l: nat, k: nat, was: int, x: int, c': seq<seq<Pair>>)
  {
    l < |c| && exists i: nat :: TouchedAt(c, l, k, was, x, c', i)
  }

  ghost predicate TouchedAt(c: seq<seq<Pair>>, l: nat, k: nat, was: int, x: int, c': seq<seq<Pair>>, i: nat)
    requires l < |c|
  {
    i < |c[l]| && c[l][i] == Pair(k, was) && c' == c[l := Touch(c[l], i, x)]
  }

  /** A hit exactly on a cached key; with distinct keys it is the step of the recency lists. */
  ghost predicate GetsKey(c: seq<seq<Pair>>, assoc: nat, k: nat, found: bool, out: int, c': seq<seq<Pair>>)
  {
    c != [] &&
    var v := c[k % |c|];
    && (found <==> HasKey(v, k))
    && (found ==> Touched(c, k % |c|, k, out, out, c'))
    && (!found ==> c' == c)
    && (UniqueKeys(v) ==> c' == Step(c, assoc, Get(k)))
    && (found && UniqueKeys(v) ==> out == v[IndexOf(v, k)].val)
  }

  lemma {:induction false} GotKey(c: seq<seq<Pair>>, assoc: nat, k: nat, found: bool, out: int, i: nat,
                                  c': seq<seq<Pair>>)
    requires c != [] && |c'| == |c| && forall j :: 0 <= j < |c| && j != k % |c| ==> c'[j] == c[j]
    requires found <==> HasKey(c[k % |c|], k)
    requires found ==> i < |c[k % |c|]| && c[k % |c|][i] == Pair(k, out) && c'[k % |c|] == Touch(c[k % |c|], i, out)
    requires !found ==> c'[k % |c|] == c[k % |c|]
    ensures GetsKey(c, assoc, k, found, out, c')
  {
    var l := k % |c|;
    UniqueIndex(c[l], k, i);
    if found {
      assert c' == c[l := Touch(c[l], i, out)];
      assert TouchedAt(c, l, k, out, out, c', i);
    } else {
      assert c' == c;
    }
  }

  /** The same for an update. */
  ghost predicate UpdatesKey(c: seq<seq<Pair>>, assoc: nat, k: nat, val: int, c': seq<seq<Pair>>)
  {
    c != [] &&
    var v := c[k % |c|];
    && (HasKey(v, k) ==> exists was :: Touched(c, k % |c|, k, was, val, c'))
    && (!HasKey(v, k) ==> c' == c)
    && (UniqueKeys(v) ==> c' == Step(c, assoc, Update(k, val)))
  }

  lemma {:induction false} UpdatedKey(c: seq<seq<Pair>>, assoc: nat, k: nat, val: int, i: nat, c': seq<seq<Pair>>)
    requires c != [] && |c'| == |c| && forall j :: 0 <= j < |c| && j != k % |c| ==> c'[j] == c[j]
    requires HasKey(c[k % |c|], k) ==>
               i < |c[k % |c|]| && c[k % |c|][i].key == k && c'[k % |c|] == Touch(c[k % |c|], i, val)
    requires !HasKey(c[k % |c|], k) ==> c'[k % |c|] == c[k % |c|]
    ensures UpdatesKey(c, assoc, k, val, c')
  {
    var l := k % |c|;
    UniqueIndex(c[l], k, i);
    if HasKey(c[l], k) {
      assert c' == c[l := Touch(c[l], i, val)];
      assert TouchedAt(c, l, k, c[l][i].val, val, c', i);
      assert Touched(c, l, k, c[l][i].val, val, c');
    } else {
      assert c' == c;
    }
  }

  // ---------- Which of two entries with the same key is hit ----------

  ghost function Survivors(heap: seq<Entry>, assoc: nat): seq<Entry>
  {
    if |heap| == assoc && heap != [] then Pop(heap, Time) else heap
  }

  /** The newest entry never rises: it stays behind all the others. */
  lemma {:induction false} NewestIsLast(heap: seq<Entry>, e: Entry)
    requires forall i :: 0 <= i < |heap| ==> heap[i].timestamp < e.timestamp
    ensures Push(heap, Time, e) == heap + [e]
  {
    var s := heap + [e];
    if heap != [] {
      assert s[Parent(|heap|)] == heap[Parent(|heap|)];
    }
  }

  lemma {:induction false} FirstOfAll(heap: seq<Entry>, e: Entry)
    ensures var h := heap + [e];
            var i := First(heap, e.key);
            First(h, e.key) == i && h[i].val == if i < |heap| then heap[i].val else e.val
  {
    var h := heap + [e];
    var i, j := First(heap, e.key), First(h, e.key);
    assert forall q :: 0 <= q < |heap| ==> h[q] == heap[q];
    assert h[|heap|].key == e.key;
  }

  /** With distinct keys, the first entry in heap order and in order of use are the same one. */
  lemma {:induction false} FirstIsIndex(heap: seq<Entry>, recent: seq<Entry>, k: nat)
    requires multiset(heap) == multiset(recent) && UniqueKeys(Views(recent))
    ensures var v, i, j := Views(recent), First(heap, k), IndexOf(Views(recent), k);
            (i < |heap| <==> j < |v|) && (j < |v| ==> i < |heap| && heap[i].val == v[j].val)
  {
    SameEntries(heap, recent);
    var v, i, j := Views(recent), First(heap, k), IndexOf(Views(recent), k);
    if i < |heap| {
      assert heap[i] in recent;
      var q :| 0 <= q < |recent| && recent[q] == heap[i];
      assert v[q].key == k;
    }
    if j < |v| {
      assert recent[j] in heap;
    }
  }

  ghost function SurvivingEntries(recent: seq<Entry>, assoc: nat): seq<Entry>
  {
    if |recent| == assoc && recent != [] then recent[1..] else recent
  }

  lemma SurvivingViews(recent: seq<Entry>, assoc: nat)
    ensures Views(SurvivingEntries(recent, assoc)) == Surviving(Views(recent), assoc)
    ensures UniqueKeys(Views(recent)) ==> UniqueKeys(Surviving(Views(recent), assoc))
  {}

  lemma {:induction false} FirstAfterInsert(heap: seq<Entry>, recent: seq<Entry>, assoc: nat, e: Entry)
    requires Lists(heap, recent) && |heap| <= assoc && assoc > 0 && Before(recent, e.timestamp)
    requires UniqueKeys(Views(recent))
    ensures var h := HeapWith(heap, assoc, e);
            var i := First(h, e.key);
            i < |h| && h[i].val == HitAfterInsert(Views(recent), assoc, e.key, e.val)
  {
    SameEntries(heap, recent);
    var rest, kept := Survivors(heap, assoc), SurvivingEntries(recent, assoc);
    if |heap| == assoc {
      EvictOldest(heap, recent);
    }
    SurvivingViews(recent, assoc);
    SameEntries(rest, kept);
    forall i | 0 <= i < |rest|
      ensures rest[i].timestamp < e.timestamp
    {
      assert rest[i] in kept;
    }
    NewestIsLast(rest, e);
    FirstOfAll(rest, e);
    FirstIsIndex(rest, kept, e.key);
  }

  // ---------- Whole runs ----------

  /** What a lookup of k finds in a line with distinct keys. */
  function Lookup(v: seq<Pair>, k: nat): Option<int>
  {
    var i := IndexOf(v, k);
    if i < |v| then Some(v[i].val) else None
  }

  /** The answer to the operation number i of a run: that of the recency lists, and for a hit the value last stored. */
  ghost predicate AnsweredAt(lines: nat, assoc: nat, h: seq<Op>, i: nat, answer: Option<int>)
    requires lines > 0
  {
    i < |h| && h[i].Get? ==>
      && answer == Lookup(Run(lines, assoc, h[..i])[h[i].key % lines], h[i].key)
      && (answer.Some? ==> answer == LastStored(h[..i], h[i].key))
  }

  ghost predicate Answered(lines: nat, assoc: nat, h: seq<Op>, answers: seq<Option<int>>)
    requires lines > 0
  {
    |answers| == |h| && forall i: nat :: i < |h| ==> AnsweredAt(lines, assoc, h, i, answers[i])
  }

  lemma {:induction false} AnsweredMore(lines: nat, assoc: nat, g: seq<Op>, answers: seq<Option<int>>, op: Op,
                                        a: Option<int>)
    requires lines > 0 && Answered(lines, assoc, g, answers) && AnsweredAt(lines, assoc, g + [op], |g|, a)
    ensures Answered(lines, assoc, g + [op], answers + [a])
  {
    var h := g + [op];
    forall i: nat | i < |h|
      ensures AnsweredAt(lines, assoc, h, i, (answers + [a])[i])
    {
      if i < |g| {
        assert AnsweredAt(lines, assoc, g, i, answers[i]);
        assert h[..i] == g[..i] && h[i] == g[i];
      }
    }
  }

  /** Each get is a hit exactly if the history keeps its key cached, and then it returns what was last stored. */
  ghost predicate AnswersHistory(lines: nat, assoc: nat, h: seq<Op>, answers: seq<Option<int>>)
    requires lines > 0
  {
    && |answers| == |h|
    && forall i: nat :: i < |h| && h[i].Get? ==>
         answers[i] == if Cached(lines, assoc, h, i, h[i].key) then LastStored(h[..i], h[i].key) else None
  }

  lemma {:induction false} AnsweredByHistory(lines: nat, assoc: nat, h: seq<Op>, answers: seq<Option<int>>)
    requires lines > 0 && assoc > 0 && InsertsUncached(lines, assoc, h, |h|) && Answered(lines, assoc, h, answers)
    ensures AnswersHistory(lines, assoc, h, answers)
  {
    forall i: nat | i < |h| && h[i].Get?
      ensures answers[i] == if Cached(lines, assoc, h, i, h[i].key) then LastStored(h[..i], h[i].key) else None
    {
      assert AnsweredAt(lines, assoc, h, i, answers[i]);
      CachedExactly(lines, assoc, h, i, h[i].key);
      UniqueIndex(Run(lines, assoc, h[..i])[h[i].key % lines], h[i].key, 0);
    }
  }

  /**
   A new cache driven through a history that inserts no cached key: its lines are the recency lists, and its answers
   are those that the history tells.
   */
  method Replay(blocks: nat, associativity: nat, h: seq<Op>) returns (c: Cache, answers: seq<Option<int>>)
    requires associativity > 0 && blocks / associativity > 0
    requires InsertsUncached(blocks / associativity, associativity, h, |h|)
    ensures c.Valid() && fresh(c) && fresh(c.lines) && c.assoc == associativity && |c.lines| == blocks / associativity
    ensures c.Contents() == Run(blocks / associativity, associativity, h)
    ensures AnswersHistory(blocks / associativity, associativity, h, answers)
  {
    c := new Cache(blocks, associativity);
    AllowedIff(|c.lines|, c.assoc, h, |h|);
    assert h[..|h|] == h;
    answers := Drive(c, h);
    AnsweredByHistory(|c.lines|, c.assoc, h, answers);
  }

  /** An empty cache, driven through a history. */
  method Drive(c: Cache, h: seq<Op>) returns (answers: seq<Option<int>>)
    requires c.Valid() && c.Contents() == Run(|c.lines|, c.assoc, []) && AllowedRun(|c.lines|, c.assoc, h)
    modifies c, c.lines
    ensures c.Valid() && c.Contents() == Run(|c.lines|, c.assoc, h) && Answered(|c.lines|, c.assoc, h, answers)
    decreases |h|
  {
    if h == [] {
      return [];
    }
    var n := |h| - 1;
    SplitLast(h, n);
    answers := Drive(c, h[..n]);
    var answer := Perform(c, h[..n], h[n]);
    AnsweredMore(|c.lines|, c.assoc, h[..n], answers, h[n], answer);
    answers := answers + [answer];
  }

  /** One more operation on a cache whose lines are those of the run g. */
  method Perform(c: Cache, ghost g: seq<Op>, op: Op) returns (answer: Option<int>)
    requires c.Valid() && c.Contents() == Run(|c.lines|, c.assoc, g)
    requires AllowedRun(|c.lines|, c.assoc, g) && Allowed(Run(|c.lines|, c.assoc, g), op)
    modifies c, c.lines
    ensures c.Valid() && c.Contents() == Run(|c.lines|, c.assoc, g + [op])
    ensures AnsweredAt(|c.lines|, c.assoc, g + [op], |g|, answer)
  {
    RunMore(|c.lines|, c.assoc, g, op);
    answer := None;
    match op
    case Insert(k, x) => c.InsertKey(k, x);
    case Update(k, x) => c.UpdateKey(k, x);
    case Get(k) => answer := PerformGet(c, g, k);
  }

  method PerformGet(c: Cache, ghost g: seq<Op>, k: nat) returns (answer: Option<int>)
    requires c.Valid() && c.Contents() == Run(|c.lines|, c.assoc, g) && AllowedRun(|c.lines|, c.assoc, g)
    modifies c, c.lines
    ensures c.Valid() && c.Contents() == Run(|c.lines|, c.assoc, g + [Get(k)])
    ensures AnsweredAt(|c.lines|, c.assoc, g + [Get(k)], |g|, answer)
  {
    var found, out := c.GetKey(k);
    GetAnswers(|c.lines|, c.assoc, g, k, found, out, c.Contents());
    answer := if found then Some(out) else None;
  }

  lemma {:induction false} RunMore(lines: nat, assoc: nat, g: seq<Op>, op: Op)
    requires lines > 0 && assoc > 0 && AllowedRun(lines, assoc, g)
    ensures Run(lines, assoc, g + [op]) == Step(Run(lines, assoc, g), assoc, op) && (g + [op])[..|g|] == g
    ensures UniqueKeys(Run(lines, assoc, g)[op.key % lines])
  {
    assert (g + [op])[..|g|] == g;
    RunIsFaithful(lines, assoc, g, op.key % lines);
  }

  lemma {:induction false} GetAnswers(lines: nat, assoc: nat, g: seq<Op>, k: nat, found: bool, out: int,
                                      c': seq<seq<Pair>>)
    requires lines > 0 && assoc > 0 && AllowedRun(lines, assoc, g)
    requires GetsKey(Run(lines, assoc, g), assoc, k, found, out, c')
    ensures c' == Run(lines, assoc, g + [Get(k)])
    ensures AnsweredAt(lines, assoc, g + [Get(k)], |g|, if found then Some(out) else None)
  {
    RunMore(lines, assoc, g, Get(k));
    RunIsFaithful(lines, assoc, g, k % lines);
    UniqueIndex(Run(lines, assoc, g)[k % lines], k, 0);
  }

  /** The first insert of a cached key in a run: the next hit is right exactly under the stated condition. */
  method FirstDuplicate(blocks: nat, associativity: nat, h: seq<Op>, k: nat, x: int) returns (found: bool, out: int)
    requires associativity > 0 && blocks / associativity > 0
    requires InsertsUncached(blocks / associativity, associativity, h, |h|)
    ensures found
    ensures var v := Run(blocks / associativity, associativity, h)[k % (blocks / associativity)];
            out == x <==>
              IndexOf(v, k) == |v| || (IndexOf(v, k) == 0 && |v| == associativity) || LastStored(h, k) == Some(x)
  {
    var c, answers := Replay(blocks, associativity, h);
    AllowedIff(blocks / associativity, associativity, h, |h|);
    assert h[..|h|] == h;
    RunIsFaithful(blocks / associativity, associativity, h, k % (blocks / associativity));
    HitIsRightAfterRun(blocks / associativity, associativity, h, k, x);
    found, out := c.InsertThenGet(k, x);
  }

  lemma FirstStep(k: nat, x: int)
    ensures Step([[]], 2, Insert(k, x)) == [[Pair(k, x)]]
  {
    var c: seq<seq<Pair>> := [[]];
    assert k % |c| == 0;
    assert LineStep([], 2, Insert(k, x)) == [Pair(k, x)];
  }

  method OneEntry(k: nat, x: int) returns (c: Cache)
    ensures c.Valid() && fresh(c) && fresh(c.lines) && c.assoc == 2 && c.Contents() == [[Pair(k, x)]]
  {
    c := new Cache(2, 2);
    assert c.Contents() == [[]];
    FirstStep(k, x);
    c.InsertKey(k, x);
  }

  /** Inserting a cached key: the hit that follows returns the old value. */
  method DuplicateInsertIsStale(k: nat, x: int, y: int) returns (found: bool, out: int)
    ensures found && out == x
  {
    var c := OneEntry(k, x);
    found, out := c.InsertThenGet(k, y);
  }

  ghost predicate InUse(line: CacheLine, assoc: nat, now: nat)
    reads line
  {
    line.Valid() && line.assoc == assoc && Before(line.recent, now)
  }

  method EmptyLines(n: nat, associativity: nat) returns (ls: seq<CacheLine>)
    requires associativity > 0
    ensures |ls| == n && fresh(ls) && NoDup(ls)
    ensures forall j :: 0 <= j < n ==> ls[j].assoc == associativity && ls[j].minHeap == [] && ls[j].recent == []
  {
    if n == 0 {
      return [];
    }
    ls := EmptyLines(n - 1, associativity);
    var line := new CacheLine(associativity);
    ls := ls + [line];
  }

  lemma EmptyInUse(line: CacheLine, assoc: nat)
    requires line.assoc == assoc > 0 && line.minHeap == [] && line.recent == []
    ensures InUse(line, assoc, 0) && line.View() == []
  {}

  lemma OneLine(c: seq<seq<Pair>>, c': seq<seq<Pair>>, assoc: nat, op: Op)
    requires c != [] && |c'| == |c|
    requires c'[op.key % |c|] == LineStep(c[op.key % |c|], assoc, op)
    requires forall j :: 0 <= j < |c| && j != op.key % |c| ==> c'[j] == c[j]
    ensures c' == Step(c, assoc, op)
  {}

  lemma UniqueIndex(v: seq<Pair>, k: nat, i: nat)
    ensures IndexOf(v, k) < |v| <==> HasKey(v, k)
    ensures UniqueKeys(v) && i < |v| && v[i].key == k ==> i == IndexOf(v, k)
  {}
}
