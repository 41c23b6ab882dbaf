/**
 A binary trie over the bits of an address, against the plain list of the entries of a
 routing table.
 */
module RoutingTrie {
  import opened Wrappers

  // ---------- Addresses, masks and bits ----------

  /** The mask that selects bit n, counted from the most significant one. */
  function Mask(n: nat): bv32
  {
    if n == 0 then 0x8000_0000 else Mask(n - 1) >> 1
  }

  lemma {:induction false} MaskStep(n: nat)
    ensures Mask(n + 1) == Mask(n) >> 1
  {}

  predicate Bit(ip: bv32, mask: bv32) { ip & mask != 0 }

  /** The first n bits of an address. */
  ghost function Path(ip: bv32, n: nat): (p: seq<bool>)
    ensures |p| == n
  {
    if n == 0 then [] else Path(ip, n - 1) + [Bit(ip, Mask(n - 1))]
  }

  lemma {:induction false} PathStep(ip: bv32, n: nat)
    ensures Path(ip, n + 1) == Path(ip, n) + [Bit(ip, Mask(n))]
  {}

  /** The two addresses have the same first n bits. */
  ghost predicate Agree(x: bv32, y: bv32, n: nat)
  {
    forall i: nat {:trigger Mask(i)} :: i < n ==> Bit(x, Mask(i)) == Bit(y, Mask(i))
  }

  /** The mask at which add_entry stops; a length of 32 or more leaves none. */
  function MaskLimit(cidr: bv8): bv32
  {
    if cidr < 32 then (1 as bv32) << (31 - cidr) else 0
  }

  lemma LimitStep(d: bv8)
    requires d < 32
    ensures MaskLimit(d) >> 1 == MaskLimit(d + 1)
  {}

  lemma LimitInjective(d: bv8, e: bv8)
    requires d <= 32 && e <= 32 && MaskLimit(d) == MaskLimit(e)
    ensures d == e
  {}

  lemma OneLess(d: bv8)
    requires d > 0
    ensures (d - 1) as nat == d as nat - 1
  {}

  lemma {:induction false} MaskIs(d: bv8)
    requires d <= 32
    ensures Mask(d as nat) == MaskLimit(d)
  {
    if d > 0 {
      OneLess(d);
      MaskIs(d - 1);
      LimitStep(d - 1);
    }
  }

  lemma {:induction false} ToByte(n: nat) returns (d: bv8)
    requires n <= 32
    ensures d <= 32 && d as nat == n
  {
    d := 0;
    for i := 0 to n
      invariant d as nat == i && d <= 32
    {
      assert d < 32;
      OneLess(d + 1);
      d := d + 1;
    }
  }

  /** The loops of add_entry stop exactly at the depth of the prefix. */
  lemma {:induction false} StopsAt(n: nat, cidr: bv8)
    requires n <= Depth(cidr)
    ensures Mask(n) == MaskLimit(cidr) <==> n == Depth(cidr)
  {
    var len: bv8 := if cidr < 32 then cidr else 32;
    var d := ToByte(n);
    MaskIs(d);
    if Mask(n) == MaskLimit(len) {
      LimitInjective(d, len);
    }
  }

  lemma {:induction false} AgreeingPaths(x: bv32, y: bv32, n: nat)
    requires Agree(x, y, n)
    ensures Path(x, n) == Path(y, n)
  {
    if n > 0 {
      AgreeingPaths(x, y, n - 1);
    }
  }

  lemma {:induction false} PathsAgree(x: bv32, y: bv32, n: nat)
    requires Path(x, n) == Path(y, n)
    ensures Agree(x, y, n)
  {
    if n > 0 {
      SameEnds(Path(x, n - 1), Path(y, n - 1), Bit(x, Mask(n - 1)), Bit(y, Mask(n - 1)));
      PathsAgree(x, y, n - 1);
    }
  }

  lemma SameEnds(p: seq<bool>, q: seq<bool>, b: bool, c: bool)
    ensures p + [b] == q + [c] <==> p == q && b == c
  {
    if p + [b] == q + [c] {
      assert |p + [b]| == |q + [c]|;
      assert p == (p + [b])[..|p|] && q == (q + [c])[..|q|];
      assert b == (p + [b])[|p|] && c == (q + [c])[|q|];
    }
  }

  // ---------- The plain table ----------

  datatype Entry = Entry(ip: bv32, cidr: bv8, dest: bv32)

  /** The prefix length: a value above 32 counts as 32. */
  function Depth(cidr: bv8): nat { if cidr < 32 then cidr as nat else 32 }

  function Len(e: Entry): nat { Depth(e.cidr) }

  /** The two addresses, shifted down to their first bits, are the same number. */
  predicate SamePrefix(x: bv32, y: bv32, len: bv8)
    requires len <= 32
  {
    x >> (32 - len) == y >> (32 - len)
  }

  predicate Matches(e: Entry, ip: bv32) { SamePrefix(ip, e.ip, if e.cidr < 32 then e.cidr else 32) }

  function Half(x: bv32): bv32 { x >> 1 }

  predicate IsOdd(x: bv32) { x & 1 != 0 }

  lemma ShiftOne(x: bv32, s: bv8)
    requires s < 32
    ensures x >> (s + 1) == (x >> s) >> 1
  {}

  lemma BitAt(x: bv32, s: bv8)
    requires s < 32
    ensures Bit(x, (1 as bv32) << s) <==> IsOdd(x >> s)
  {}

  lemma Halves(x: bv32, y: bv32)
    ensures x == y <==> Half(x) == Half(y) && IsOdd(x) == IsOdd(y)
  {}

  /** The address without its last n bits. */
  ghost function Drop(x: bv32, n: nat): bv32
  {
    if n == 0 then x else Half(Drop(x, n - 1))
  }

  lemma {:induction false} DropIs(x: bv32, s: bv8)
    requires s <= 32
    ensures Drop(x, s as nat) == x >> s
  {
    if s > 0 {
      OneLess(s);
      DropIs(x, s - 1);
      ShiftOne(x, s - 1);
    }
  }

  lemma DropAll(x: bv32)
    ensures Drop(x, 32) == 0
  {
    DropIs(x, 32);
  }

  lemma MaskFromBelow(s: bv8)
    requires s < 32
    ensures MaskLimit(31 - s) == (1 as bv32) << s && (31 - s) as nat == 31 - s as nat
  {}

  lemma {:induction false} LowBit(x: bv32, s: bv8)
    requires s < 32
    ensures Bit(x, Mask(31 - s as nat)) <==> IsOdd(Drop(x, s as nat))
  {
    MaskFromBelow(s);
    MaskIs(31 - s);
    BitAt(x, s);
    DropIs(x, s);
  }

  lemma {:induction false} LowBitAt(x: bv32, n: nat)
    requires n < 32
    ensures Bit(x, Mask(31 - n)) <==> IsOdd(Drop(x, n))
  {
    var s := ToByte(n);
    LowBit(x, s);
  }

  /** Bit by bit or as numbers: the same prefixes. */
  lemma {:induction false} AgreeIffDrop(x: bv32, y: bv32, n: nat)
    requires n <= 32
    ensures Agree(x, y, n) <==> Drop(x, 32 - n) == Drop(y, 32 - n)
  {
    if n == 0 {
      DropAll(x);
      DropAll(y);
    } else {
      AgreeIffDrop(x, y, n - 1);
      AgreeStep(x, y, n);
      LowBitAt(x, 32 - n);
      LowBitAt(y, 32 - n);
      Halves(Drop(x, 32 - n), Drop(y, 32 - n));
    }
  }

  lemma PrefixIsDrop(x: bv32, len: bv8)
    requires len <= 32
    ensures x >> (32 - len) == Drop(x, 32 - len as nat)
  {
    FromBelow(len);
    DropIs(x, 32 - len);
  }

  lemma AgreeIff(x: bv32, y: bv32, len: bv8, n: nat)
    requires len <= 32 && n == len as nat
    ensures Agree(x, y, n) <==> SamePrefix(x, y, len)
  {
    PrefixIsDrop(x, len);
    PrefixIsDrop(y, len);
    AgreeIffDrop(x, y, n);
  }

  lemma FromBelow(len: bv8)
    requires len <= 32
    ensures (32 - len) as nat == 32 - len as nat && 32 - len <= 32
  {}

  lemma {:induction false} AgreeStep(x: bv32, y: bv32, n: nat)
    requires n > 0
    ensures Agree(x, y, n) <==> Agree(x, y, n - 1) && Bit(x, Mask(n - 1)) == Bit(y, Mask(n - 1))
  {
    if Agree(x, y, n - 1) && Bit(x, Mask(n - 1)) == Bit(y, Mask(n - 1)) {
      forall i: nat {:trigger Mask(i)} | i < n
        ensures Bit(x, Mask(i)) == Bit(y, Mask(i))
      {
        assert i < n - 1 || i == n - 1;
      }
    }
  }

  /** An entry matches exactly if the address takes its path. */
  lemma {:induction false} MatchesIff(e: Entry, ip: bv32)
    ensures Matches(e, ip) <==> Path(ip, Len(e)) == EntryPath(e)
  {
    AgreeIff(ip, e.ip, if e.cidr < 32 then e.cidr else 32, Len(e));
    if Agree(ip, e.ip, Len(e)) {
      AgreeingPaths(ip, e.ip, Len(e));
    }
    if Path(ip, Len(e)) == EntryPath(e) {
      PathsAgree(ip, e.ip, Len(e));
    }
  }

  /** Entry k is the last one written among the matching ones with the longest prefix. */
  ghost predicate IsBest(log: seq<Entry>, ip: bv32, k: nat)
  {
    && k < |log| && Matches(log[k], ip)
    && forall j: nat :: j < |log| && Matches(log[j], ip) ==>
         Len(log[j]) < Len(log[k]) || (Len(log[j]) == Len(log[k]) && j <= k)
  }

  ghost function EntryPath(e: Entry): seq<bool> { Path(e.ip, Len(e)) }

  /** The value last written for the prefix p. */
  ghost function Value(log: seq<Entry>, p: seq<bool>): Option<bv32>
  {
    if log == [] then None
    else if EntryPath(log[|log| - 1]) == p then Some(log[|log| - 1].dest)
    else Value(log[..|log| - 1], p)
  }

  lemma {:induction false} LastWritten(log: seq<Entry>, p: seq<bool>) returns (k: nat)
    requires Value(log, p).Some?
    ensures k < |log| && EntryPath(log[k]) == p && Value(log, p) == Some(log[k].dest)
    ensures forall j :: k < j < |log| ==> EntryPath(log[j]) != p
  {
    var n := |log| - 1;
    if EntryPath(log[n]) == p {
      k := n;
    } else {
      k := LastWritten(log[..n], p);
    }
  }

  lemma {:induction false} Written(log: seq<Entry>, j: nat)
    requires j < |log|
    ensures Value(log, EntryPath(log[j])).Some?
  {
    var n := |log| - 1;
    if j < n {
      Written(log[..n], j);
    }
  }

  lemma {:induction false} NeverWritten(log: seq<Entry>, p: seq<bool>)
    requires forall k :: 0 <= k < |log| ==> EntryPath(log[k]) != p
    ensures Value(log, p) == None
  {
    if log != [] {
      NeverWritten(log[..|log| - 1], p);
    }
  }

  /** The longest prefix of ip with a value gives the best entry. */
  lemma {:induction false} LongestIsBest(log: seq<Entry>, ip: bv32, len: nat) returns (k: nat)
    requires Value(log, Path(ip, len)).Some?
    requires forall d: nat {:trigger Path(ip, d)} :: len < d <= 32 ==> Value(log, Path(ip, d)) == None
    ensures IsBest(log, ip, k) && Value(log, Path(ip, len)) == Some(log[k].dest)
  {
    k := LastWritten(log, Path(ip, len));
    SameLen(ip, log[k], len);
    forall j: nat | j < |log| && Matches(log[j], ip)
      ensures Len(log[j]) < Len(log[k]) || (Len(log[j]) == Len(log[k]) && j <= k)
    {
      MatchesIff(log[j], ip);
      Written(log, j);
    }
  }

  lemma {:induction false} SameLen(ip: bv32, e: Entry, len: nat)
    requires EntryPath(e) == Path(ip, len)
    ensures Len(e) == len && Matches(e, ip)
  {
    assert |EntryPath(e)| == Len(e);
    MatchesIff(e, ip);
  }

  lemma {:induction false} BestIsUnique(log: seq<Entry>, ip: bv32, k: nat, l: nat)
    requires IsBest(log, ip, k) && IsBest(log, ip, l)
    ensures k == l
  {}

  // ---------- The trie ----------

  class TrieNode {
    var isEnd: bool
    var dest: bv32
    var zero: TrieNode?
    var one: TrieNode?

    constructor (isEnd: bool, dest: bv32)
      ensures this.isEnd == isEnd && this.dest == dest && zero == null && one == null
    {
      this.isEnd, this.dest, zero, one := isEnd, dest, null, null;
    }

    function Child(b: bool): TrieNode?
      reads this
    {
      if b then one else zero
    }

    ghost function Word(): Option<bv32>
      reads this
    {
      if isEnd then Some(dest) else None
    }
  }

  type Nodes = map<seq<bool>, TrieNode>

  /** The child b of the node at p is the node at p + [b]; no node hangs in the air. */
  ghost predicate LinkAt(nodes: Nodes, p: seq<bool>, b: bool)
    reads nodes.Values
  {
    && (p in nodes ==> nodes[p].Child(b) == if p + [b] in nodes then nodes[p + [b]] else null)
    && (p + [b] in nodes ==> p in nodes)
  }

  ghost predicate Distinct(nodes: Nodes)
  {
    forall p, q :: p in nodes && q in nodes && nodes[p] == nodes[q] ==> p == q
  }

  ghost predicate Linked(nodes: Nodes)
    reads nodes.Values
  {
    && [] in nodes && Distinct(nodes) && (forall p :: p in nodes ==> |p| <= 32)
    && forall p, b {:trigger LinkAt(nodes, p, b)} :: LinkAt(nodes, p, b)
  }

  /** Every prefix of the list has a node, and each node knows the value last written for it. */
  ghost predicate Stores(nodes: Nodes, log: seq<Entry>)
    reads nodes.Values
  {
    && (forall k :: 0 <= k < |log| ==> EntryPath(log[k]) in nodes)
    && forall p :: p in nodes ==> nodes[p].Word() == Value(log, p)
  }

  ghost predicate Sound(nodes: Nodes, log: seq<Entry>)
    reads nodes.Values
  {
    Linked(nodes) && Stores(nodes, log)
  }

  /** The loop variables of both operations at depth d on the way to ip. */
  ghost predicate AtDepth(nodes: Nodes, ip: bv32, d: nat, node: TrieNode, mask: bv32, val: bool)
  {
    mask == Mask(d) && val == Bit(ip, Mask(d)) && Path(ip, d) in nodes && node == nodes[Path(ip, d)]
  }

  /** The list begins with the default route. */
  ghost predicate HasDefault(log: seq<Entry>)
  {
    log != [] && EntryPath(log[0]) == []
  }

  lemma {:induction false} RootHasValue(nodes: Nodes, log: seq<Entry>)
    requires Sound(nodes, log) && HasDefault(log)
    ensures nodes[[]].isEnd
  {
    Written(log, 0);
    assert nodes[[]].Word() == Value(log, []);
  }

  lemma {:induction false} StepDown(nodes: Nodes, ip: bv32, d: nat, node: TrieNode, mask: bv32, val: bool)
    requires Linked(nodes) && AtDepth(nodes, ip, d, node, mask, val) && node.Child(val) != null
    ensures AtDepth(nodes, ip, d + 1, node.Child(val), mask >> 1, Bit(ip, mask >> 1)) && d < 32
  {
    ChildOnPath(nodes, ip, d);
    MaskStep(d);
  }

  /** Hangs a new node below the one at p. */
  method Grow(curr: TrieNode, bit: bool, ghost nodes: Nodes, ghost p: seq<bool>)
    returns (child: TrieNode, ghost nodes': Nodes)
    requires Linked(nodes) && p in nodes && nodes[p] == curr && p + [bit] !in nodes && |p| < 32
    modifies curr`zero, curr`one
    ensures fresh(child) && child.Word() == None && nodes' == nodes[p + [bit] := child] && Linked(nodes')
    ensures forall b :: p + [bit] + [b] !in nodes'
  {
    child := new TrieNode(false, 0);
    if bit {
      curr.one := child;
    } else {
      curr.zero := child;
    }
    nodes' := nodes[p + [bit] := child];
    forall q, b {:trigger LinkAt(nodes', q, b)}
      ensures old(LinkAt(nodes, q, b)) && LinkAt(nodes', q, b)
    {
      assert old(LinkAt(nodes, q, b));
      SameEnds(q, p, b, bit);
    }
    forall b
      ensures p + [bit] + [b] !in nodes'
    {
      assert LinkAt(nodes', p + [bit], b);
      assert old(LinkAt(nodes, p + [bit], b));
    }
  }

  lemma {:induction false} GrowStores(nodes: Nodes, log: seq<Entry>, p: seq<bool>)
    requires p !in nodes && forall k :: 0 <= k < |log| ==> EntryPath(log[k]) in nodes
    ensures Value(log, p) == None
  {
    NeverWritten(log, p);
  }

  lemma {:induction false} ChildOnPath(nodes: Nodes, ip: bv32, d: nat)
    requires Linked(nodes) && Path(ip, d) in nodes
    ensures d <= 32
    ensures nodes[Path(ip, d)].Child(Bit(ip, Mask(d))) ==
            if Path(ip, d + 1) in nodes then nodes[Path(ip, d + 1)] else null
    ensures Path(ip, d + 1) in nodes ==> d < 32
  {
    assert LinkAt(nodes, Path(ip, d), Bit(ip, Mask(d)));
    assert |Path(ip, d + 1)| == d + 1;
  }

  lemma {:induction false} Appended(log: seq<Entry>, e: Entry, p: seq<bool>)
    ensures Value(log + [e], p) == if EntryPath(e) == p then Some(e.dest) else Value(log, p)
  {
    assert (log + [e])[..|log|] == log;
  }

  /**
   Writing a destination into the node of a prefix, which is marked or already has a value: all links and all
   other values stay.
   */
  method Write(node: TrieNode, mark: bool, dest: bv32, ghost nodes: Nodes, ghost log: seq<Entry>, ghost e: Entry)
    requires Sound(nodes, log) && EntryPath(e) in nodes && nodes[EntryPath(e)] == node && e.dest == dest
    requires mark || node.isEnd
    modifies node`isEnd, node`dest
    ensures Sound(nodes, log + [e]) && node.isEnd
  {
    if mark {
      node.isEnd := true;
    }
    node.dest := dest;
    forall p, b {:trigger LinkAt(nodes, p, b)}
      ensures LinkAt(nodes, p, b)
    {
      assert old(LinkAt(nodes, p, b));
    }
    forall p | p in nodes
      ensures nodes[p].Word() == Value(log + [e], p)
    {
      Appended(log, e, p);
      assert old(nodes[p].Word()) == Value(log, p);
    }
  }

  /** Past the first missing node there is none further down. */
  lemma {:induction false} NothingBelow(nodes: Nodes, ip: bv32, d: nat, e: nat)
    requires Linked(nodes) && d <= e && Path(ip, d) !in nodes
    ensures Path(ip, e) !in nodes
    decreases e
  {
    if d < e {
      NothingBelow(nodes, ip, d, e - 1);
      assert LinkAt(nodes, Path(ip, e - 1), Bit(ip, Mask(e - 1)));
    }
  }

  /** Along ip, the longest prefix with a value up to depth d is the one of length e. */
  ghost predicate LastWord(nodes: Nodes, ip: bv32, e: nat, d: nat)
    reads nodes.Values
  {
    && e <= d && Path(ip, e) in nodes && nodes[Path(ip, e)].isEnd
    && forall f: nat {:trigger Path(ip, f)} :: e < f <= d ==> Path(ip, f) in nodes && !nodes[Path(ip, f)].isEnd
  }

  lemma {:induction false} LastWordStep(nodes: Nodes, ip: bv32, e: nat, d: nat)
    requires Linked(nodes) && LastWord(nodes, ip, e, d) && Path(ip, d + 1) in nodes
    ensures LastWord(nodes, ip, if nodes[Path(ip, d + 1)].isEnd then d + 1 else e, d + 1)
  {
    forall f: nat {:trigger Path(ip, f)} | e < f <= d + 1
      ensures Path(ip, f) in nodes && (f <= d ==> !nodes[Path(ip, f)].isEnd)
    {
      assert f <= d || f == d + 1;
    }
  }

  lemma {:induction false} LastWordIsBest(nodes: Nodes, log: seq<Entry>, ip: bv32, e: nat, d: nat) returns (k: nat)
    requires Linked(nodes) && Stores(nodes, log) && LastWord(nodes, ip, e, d) && Path(ip, d + 1) !in nodes
    ensures IsBest(log, ip, k) && log[k].dest == nodes[Path(ip, e)].dest
  {
    forall f: nat {:trigger Path(ip, f)} | e < f <= 32
      ensures Value(log, Path(ip, f)) == None
    {
      if f > d {
        NothingBelow(nodes, ip, d + 1, f);
        NeverWritten(log, Path(ip, f));
      }
    }
    k := LongestIsBest(log, ip, e);
  }

  /** A new node changes no value. */
  method GrowStored(curr: TrieNode, bit: bool, ghost nodes: Nodes, ghost p: seq<bool>, ghost log: seq<Entry>)
    returns (child: TrieNode, ghost nodes': Nodes)
    requires Sound(nodes, log) && p in nodes && nodes[p] == curr && p + [bit] !in nodes && |p| < 32
    modifies curr`zero, curr`one
    ensures fresh(child) && nodes' == nodes[p + [bit] := child] && Sound(nodes', log)
    ensures forall b :: p + [bit] + [b] !in nodes'
  {
    child, nodes' := Grow(curr, bit, nodes, p);
    GrowStores(nodes, log, p + [bit]);
    forall q | q in nodes'
      ensures nodes'[q].Word() == Value(log, q)
    {
      if q in nodes && q != p + [bit] {
        assert old(nodes[q].Word()) == Value(log, q);
      }
    }
  }
}
