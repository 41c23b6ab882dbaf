/**
 A routing table kept as a binary trie: lookup obeys the longest-match rule of section
 5.2.4.3 of RFC 1812 for the list of all entries written so far.
 */
module RoutingTable {
  import opened RoutingTrie

  /** One step down to the child that the next bit selects, and the mask moved to the bit after it. */
  method MoveDown(curr: TrieNode, mask: bv32, bit: bool, ip: bv32, ghost d: nat, ghost nodes: Nodes)
    returns (child: TrieNode, mask': bv32, bit': bool, ghost d': nat)
    requires Linked(nodes) && AtDepth(nodes, ip, d, curr, mask, bit) && curr.Child(bit) != null
    ensures d' == d + 1 <= 32 && child == curr.Child(bit) && AtDepth(nodes, ip, d', child, mask', bit')
  {
    StepDown(nodes, ip, d, curr, mask, bit);
    child, mask', bit', d' := curr.Child(bit), mask >> 1, Bit(ip, mask >> 1), d + 1;
  }

  /** The first loop of add_entry: follow the nodes that exist. */
  method Descend(root: TrieNode, ip: bv32, maskLim: bv32, ghost cidr: bv8, ghost nodes: Nodes)
    returns (currNode: TrieNode, currMask: bv32, currVal: bool, ghost d: nat)
    requires Linked(nodes) && nodes[[]] == root && maskLim == MaskLimit(cidr)
    ensures d <= Depth(cidr) && AtDepth(nodes, ip, d, currNode, currMask, currVal)
    ensures d < Depth(cidr) ==> Path(ip, d + 1) !in nodes
  {
    currMask := 1 << 31;
    currVal := Bit(ip, currMask);
    currNode, d := root, 0;
    while currMask != maskLim && currNode.Child(currVal) != null
      invariant d <= Depth(cidr) && AtDepth(nodes, ip, d, currNode, currMask, currVal)
      decreases Depth(cidr) - d
    {
      StopsAt(d, cidr);
      currNode, currMask, currVal, d := MoveDown(currNode, currMask, currVal, ip, d, nodes);
    }
    StopsAt(d, cidr);
    ChildOnPath(nodes, ip, d);
  }

  /** The second loop of add_entry: hang new nodes below the last one. */
  method Extend(node: TrieNode, mask: bv32, val: bool, ip: bv32, maskLim: bv32, ghost cidr: bv8, ghost d0: nat,
                ghost nodes0: Nodes, ghost log: seq<Entry>)
    returns (currNode: TrieNode, ghost nodes: Nodes)
    requires Sound(nodes0, log) && maskLim == MaskLimit(cidr)
    requires d0 <= Depth(cidr) && AtDepth(nodes0, ip, d0, node, mask, val)
    requires d0 < Depth(cidr) ==> Path(ip, d0 + 1) !in nodes0
    modifies nodes0.Values
    ensures Sound(nodes, log) && Path(ip, Depth(cidr)) in nodes && currNode == nodes[Path(ip, Depth(cidr))]
    ensures Grown(nodes0, nodes) && fresh(nodes.Values - nodes0.Values)
  {
    currNode, nodes := node, nodes0;
    var currMask, currVal := mask, val;
    ghost var d := d0;
    while currMask != maskLim
      invariant d <= Depth(cidr) && AtDepth(nodes, ip, d, currNode, currMask, currVal)
      invariant Sound(nodes, log)
      invariant Grown(nodes0, nodes) && fresh(nodes.Values - nodes0.Values)
      invariant d < Depth(cidr) ==> Path(ip, d + 1) !in nodes
      decreases Depth(cidr) - d
    {
      StopsAt(d, cidr);
      currNode, currMask, currVal, d, nodes := GrowAndMove(currNode, currMask, currVal, ip, d, nodes, log);
    }
    StopsAt(d, cidr);
  }

  ghost predicate Grown(nodes: Nodes, nodes': Nodes)
  {
    forall p :: p in nodes ==> p in nodes' && nodes'[p] == nodes[p]
  }

  lemma NextDepth(nodes: Nodes, ip: bv32, d: nat, node: TrieNode, mask: bv32)
    requires Path(ip, d + 1) in nodes && nodes[Path(ip, d + 1)] == node && mask == Mask(d)
    ensures AtDepth(nodes, ip, d + 1, node, mask >> 1, Bit(ip, mask >> 1))
  {
    MaskStep(d);
  }

  /** One new node on the way to ip: no value changes, and nothing hangs below it. */
  method GrowOnPath(curr: TrieNode, bit: bool, ghost ip: bv32, ghost d: nat, ghost nodes: Nodes, ghost log: seq<Entry>)
    returns (child: TrieNode, ghost nodes': Nodes)
    requires Sound(nodes, log) && d < 32 && Path(ip, d) in nodes && nodes[Path(ip, d)] == curr
    requires bit == Bit(ip, Mask(d)) && Path(ip, d + 1) !in nodes
    modifies curr`zero, curr`one
    ensures fresh(nodes'.Values - nodes.Values) && Grown(nodes, nodes') && Sound(nodes', log)
    ensures Path(ip, d + 1) in nodes' && nodes'[Path(ip, d + 1)] == child && Path(ip, d + 2) !in nodes'
  {
    PathStep(ip, d);
    PathStep(ip, d + 1);
    child, nodes' := GrowStored(curr, bit, nodes, Path(ip, d), log);
  }

  /** The body of that loop: a new node, and the mask moved to the next bit. */
  method GrowAndMove(curr: TrieNode, mask: bv32, bit: bool, ip: bv32, ghost d: nat, ghost nodes: Nodes,
                     ghost log: seq<Entry>)
    returns (child: TrieNode, mask': bv32, bit': bool, ghost d': nat, ghost nodes': Nodes)
    requires Sound(nodes, log) && d < 32 && AtDepth(nodes, ip, d, curr, mask, bit) && Path(ip, d + 1) !in nodes
    modifies curr`zero, curr`one
    ensures fresh(nodes'.Values - nodes.Values) && Grown(nodes, nodes') && Sound(nodes', log)
    ensures d' == d + 1 && AtDepth(nodes', ip, d', child, mask', bit') && Path(ip, d' + 1) !in nodes'
  {
    child, nodes' := GrowOnPath(curr, bit, ip, d, nodes, log);
    NextDepth(nodes', ip, d, child, mask);
    mask', bit', d' := mask >> 1, Bit(ip, mask >> 1), d + 1;
  }

  /** A node one step further down becomes the last word if it has a value. */
  method LatestWord(curr: TrieNode, lastWord: TrieNode, ghost ip: bv32, ghost d: nat, ghost e: nat, ghost nodes: Nodes)
    returns (lastWord': TrieNode, ghost e': nat)
    requires Linked(nodes) && d > 0 && Path(ip, d) in nodes && curr == nodes[Path(ip, d)]
    requires LastWord(nodes, ip, e, d - 1) && lastWord == nodes[Path(ip, e)]
    ensures LastWord(nodes, ip, e', d) && lastWord' == nodes[Path(ip, e')]
  {
    LastWordStep(nodes, ip, e, d - 1);
    lastWord', e' := lastWord, e;
    if curr.isEnd {
      lastWord', e' := curr, d;
    }
  }

  /** The loop of lookup: the last node with a value on the way down. */
  method Search(root: TrieNode, ip: bv32, ghost nodes: Nodes) returns (lastWord: TrieNode, ghost d: nat, ghost e: nat)
    requires Linked(nodes) && nodes[[]] == root && root.isEnd
    ensures LastWord(nodes, ip, e, d) && lastWord == nodes[Path(ip, e)] && Path(ip, d + 1) !in nodes
  {
    var currMask: bv32 := 1 << 31;
    var currVal := Bit(ip, currMask);
    var currNode: TrieNode := root;
    lastWord, d, e := root, 0, 0;
    ChildOnPath(nodes, ip, 0);
    while currNode.Child(currVal) != null
      invariant AtDepth(nodes, ip, d, currNode, currMask, currVal) && d <= 32
      invariant LastWord(nodes, ip, e, d) && lastWord == nodes[Path(ip, e)]
      decreases 32 - d
    {
      currNode, currMask, currVal, d := MoveDown(currNode, currMask, currVal, ip, d, nodes);
      lastWord, e := LatestWord(currNode, lastWord, ip, d, e, nodes);
    }
    ChildOnPath(nodes, ip, d);
  }

  /** The node of a prefix, made when there is none. */
  method FindOrMake(root: TrieNode, ip: bv32, maskLim: bv32, ghost cidr: bv8, ghost nodes0: Nodes,
                    ghost log: seq<Entry>)
    returns (currNode: TrieNode, ghost nodes: Nodes)
    requires Sound(nodes0, log) && nodes0[[]] == root && maskLim == MaskLimit(cidr)
    modifies nodes0.Values
    ensures Sound(nodes, log) && Path(ip, Depth(cidr)) in nodes && currNode == nodes[Path(ip, Depth(cidr))]
    ensures nodes[[]] == root && fresh(nodes.Values - nodes0.Values) && currNode in nodes.Values
  {
    var currMask, currVal;
    ghost var d;
    currNode, currMask, currVal, d := Descend(root, ip, maskLim, cidr, nodes0);
    currNode, nodes := Extend(currNode, currMask, currVal, ip, maskLim, cidr, d, nodes0, log);
  }

  /** The whole of add_entry below the root. */
  method Put(root: TrieNode, ip: bv32, cidr: bv8, dest: bv32, ghost nodes0: Nodes, ghost log: seq<Entry>)
    returns (ghost nodes: Nodes)
    requires Sound(nodes0, log) && nodes0[[]] == root
    modifies nodes0.Values
    ensures Sound(nodes, log + [Entry(ip, cidr, dest)]) && nodes[[]] == root && fresh(nodes.Values - nodes0.Values)
  {
    var maskLim := MaskLimit(cidr);
    var currNode;
    currNode, nodes := FindOrMake(root, ip, maskLim, cidr, nodes0, log);
    Write(currNode, true, dest, nodes, log, Entry(ip, cidr, dest));
  }

  class Table {
    const root: TrieNode
    ghost var nodes: Nodes
    ghost var log: seq<Entry>

    ghost predicate Valid()
      reads this, nodes.Values
    {
      Sound(nodes, log) && nodes[[]] == root && HasDefault(log)
    }

    /** The table starts with the default route to the broadcast address. */
    constructor ()
      ensures Valid() && fresh(root) && fresh(nodes.Values) && log == [Entry(0, 0, 0xFFFF_FFFF)]
    {
      root := new TrieNode(true, 0xFFFF_FFFF);
      log := [Entry(0, 0, 0xFFFF_FFFF)];
      new;
      nodes := map[[] := root];
      assert EntryPath(log[0]) == [];
    }

    /** The default gateway is the entry of length zero. */
    method SetDefaultGateway(ip: bv32)
      requires Valid()
      modifies this, root
      ensures Valid() && log == old(log) + [Entry(0, 0, ip)] && nodes == old(nodes)
    {
      ghost var e := Entry(0, 0, ip);
      assert EntryPath(e) == [];
      RootHasValue(nodes, log);
      Write(root, false, ip, nodes, log, e);
      log := log + [e];
    }

    method AddEntry(ip: bv32, cidr: bv8, dest: bv32)
      requires Valid()
      modifies this, nodes.Values
      ensures Valid() && log == old(log) + [Entry(ip, cidr, dest)]
      ensures fresh(nodes.Values - old(nodes.Values))
    {
      nodes := Put(root, ip, cidr, dest, nodes, log);
      log := log + [Entry(ip, cidr, dest)];
    }

    method Lookup(ip: bv32) returns (dest: bv32, ghost k: nat)
      requires Valid()
      ensures IsBest(log, ip, k) && dest == log[k].dest
    {
      var lastWord;
      ghost var d, e;
      RootHasValue(nodes, log);
      lastWord, d, e := Search(root, ip, nodes);
      dest := lastWord.dest;
      k := LastWordIsBest(nodes, log, ip, e, d);
    }
  }
}
