/** The hash map of lib/hashmap.c on the heap: an array of bucket heads with linked overflow nodes.
    Each operation is the C code step by step and is specified by the functions of Buckets. */
module HashMaps {
  import opened Bits
  import opened Wrappers
  import opened Buckets

  /** struct hashmap_entry. Two ghost fields say which bucket a node was made for and whether free()
      has been called on it; the code below may only look at nodes that are not freed. */
  class Entry<V> {
    var key: Option<string>
    var value: Option<V>
    var next: Entry?<V>
    ghost var bucket: nat
    ghost var freed: bool

    /** calloc: all pointers are NULL. */
    constructor (ghost i: nat)
      ensures key == None && value == None && next == null && bucket == i && !freed
    {
      key, value, next := None, None, null;
      bucket, freed := i, false;
    }

    predicate HasKey()
      requires !freed
      reads this
    {
      key.Some?
    }

    ghost method Free()
      requires !freed
      modifies this
      ensures freed && key == old(key) && value == old(value) && next == old(next) && bucket == old(bucket)
    {
      freed := true;
    }
  }

  /** The nodes ns are linked in this order and hold the bucket b. */
  ghost predicate Chain<V>(i: nat, ns: seq<Entry<V>>, b: Bucket<V>)
    reads ns
  {
    && |ns| == |b.live| + (if b.blank then 1 else 0)
    && |ns| > 0
    && (forall j :: 0 <= j < |ns| ==> ns[j].bucket == i && !ns[j].freed)
    && (forall j, k :: 0 <= j < k < |ns| ==> ns[j] != ns[k])
    && (forall j {:trigger ns[j].next} :: 0 <= j < |ns| ==> ns[j].next == if j + 1 < |ns| then ns[j + 1] else null)
    && (forall j {:trigger ns[j].key} {:trigger ns[j].value} :: 0 <= j < |b.live| ==>
          ns[j].key == Some(b.live[j].0) && ns[j].value == Some(b.live[j].1))
    && (b.blank ==> ns[|ns| - 1].key == None)
  }

  /** The table's slots start the chains and the chains hold the buckets bs, except in bucket x. */
  ghost predicate ShapeExcept<V>(table: array<Entry<V>>, chains: seq<seq<Entry<V>>>, bs: seq<Bucket<V>>,
                                 nodes: set<Entry<V>>, x: int)
    reads table, nodes
  {
    && table.Length == |chains| == |bs| > 0
    && (forall i, n :: 0 <= i < |chains| && n in chains[i] ==> n in nodes)
    && (forall i :: 0 <= i < |chains| && i != x ==> Chain(i, chains[i], bs[i]) && table[i] == chains[i][0])
  }

  ghost predicate Shape<V>(table: array<Entry<V>>, chains: seq<seq<Entry<V>>>, bs: seq<Bucket<V>>, nodes: set<Entry<V>>)
    reads table, nodes
  {
    ShapeExcept(table, chains, bs, nodes, -1)
  }

  lemma Reshape<V>(table: array<Entry<V>>, chains: seq<seq<Entry<V>>>, bs: seq<Bucket<V>>, nodes: set<Entry<V>>,
                   x: nat, ns: seq<Entry<V>>, b: Bucket<V>, nodes': set<Entry<V>>)
    requires ShapeExcept(table, chains, bs, nodes, x) && x < |bs|
    requires Chain(x, ns, b) && table[x] == ns[0]
    requires nodes <= nodes' && forall n :: n in ns ==> n in nodes'
    ensures Shape(table, chains[x := ns], bs[x := b], nodes')
  {
  }

  lemma ChainOf<V>(table: array<Entry<V>>, chains: seq<seq<Entry<V>>>, bs: seq<Bucket<V>>, nodes: set<Entry<V>>, i: nat)
    requires Shape(table, chains, bs, nodes)
    ensures |chains| == |bs| == table.Length > 0
    ensures i < |bs| ==>
              Chain(i, chains[i], bs[i]) && table[i] == chains[i][0] && forall n :: n in chains[i] ==> n in nodes
  {
  }

  /** A key was found: only its value changes. */
  method SetValue<V>(entry: Entry<V>, value: V, ghost i: nat, ghost p: nat, ghost table: array<Entry<V>>,
                     ghost chains: seq<seq<Entry<V>>>, ghost bs: seq<Bucket<V>>, ghost nodes: set<Entry<V>>)
    requires Shape(table, chains, bs, nodes)
    requires i < |bs| && p < |bs[i].live| && entry == chains[i][p]
    modifies entry
    ensures Shape(table, chains, bs[i := bs[i].(live := bs[i].live[p := (bs[i].live[p].0, value)])], nodes)
  {
    ghost var ns, b := chains[i], bs[i];
    assert Chain(i, ns, b);
    entry.value := Some(value);
    assert ShapeExcept(table, chains, bs, nodes, i);
    ghost var c := b.(live := b.live[p := (b.live[p].0, value)]);
    assert Chain(i, ns, c);
    Reshape(table, chains, bs, nodes, i, ns, c, nodes);
    assert chains[i := ns] == chains;
  }

  /** An empty bucket takes its first entry in the table slot itself. */
  method FillSlot<V>(entry: Entry<V>, key: string, value: V, ghost i: nat, ghost table: array<Entry<V>>,
                     ghost chains: seq<seq<Entry<V>>>, ghost bs: seq<Bucket<V>>, ghost nodes: set<Entry<V>>)
    requires Shape(table, chains, bs, nodes)
    requires i < |bs| && bs[i].live == [] && entry == chains[i][0]
    modifies entry
    ensures Shape(table, chains, bs[i := Bucket([(key, value)], false)], nodes)
  {
    ghost var ns, b := chains[i], bs[i];
    assert Chain(i, ns, b);
    entry.key := Some(key);
    entry.value := Some(value);
    assert ShapeExcept(table, chains, bs, nodes, i);
    assert Chain(i, ns, Bucket([(key, value)], false));
    Reshape(table, chains, bs, nodes, i, ns, Bucket([(key, value)], false), nodes);
    assert chains[i := ns] == chains;
  }

  method AppendToChain<V>(lastEntry: Entry<V>, entry: Entry<V>, key: string, value: V, ghost i: nat,
                          ghost ns: seq<Entry<V>>, ghost b: Bucket<V>)
    requires Chain(i, ns, b) && 0 < |b.live| && lastEntry == ns[|b.live| - 1]
    requires entry !in ns && entry.next == null && entry.bucket == i && !entry.freed
    modifies lastEntry, entry
    ensures Chain(i, ns[..|b.live|] + [entry], Bucket(b.live + [(key, value)], false))
  {
    entry.key := Some(key);
    entry.value := Some(value);
    lastEntry.next := entry;
  }

  /** A chain grows after its last live node; a blank node there is dropped. */
  method LinkNew<V>(lastEntry: Entry<V>, key: string, value: V, ghost i: nat, ghost table: array<Entry<V>>,
                    ghost chains: seq<seq<Entry<V>>>, ghost bs: seq<Bucket<V>>, ghost nodes: set<Entry<V>>)
    returns (entry: Entry<V>)
    requires Shape(table, chains, bs, nodes)
    requires i < |bs| && 0 < |bs[i].live| && lastEntry == chains[i][|bs[i].live| - 1]
    modifies lastEntry
    ensures fresh(entry)
    ensures Shape(table, chains[i := chains[i][..|bs[i].live|] + [entry]],
                  bs[i := Bucket(bs[i].live + [(key, value)], false)], nodes + {entry})
  {
    ghost var ns, b := chains[i], bs[i];
    assert Chain(i, ns, b);
    entry := new Entry(i);
    AppendToChain(lastEntry, entry, key, value, i, ns, b);
    assert ShapeExcept(table, chains, bs, nodes, i);
    ghost var ns' := ns[..|b.live|] + [entry];
    Reshape(table, chains, bs, nodes, i, ns', Bucket(b.live + [(key, value)], false), nodes + {entry});
  }

  /** hashmap_insert_table: 1 (true) if the key is new, 0 if its value was updated. */
  method InsertTable<V>(h: Hash, table: array<Entry<V>>, key: string, value: V, compare: bool,
                        ghost chains: seq<seq<Entry<V>>>, ghost bs: seq<Bucket<V>>, ghost nodes: set<Entry<V>>)
    returns (isNew: bool, ghost chains': seq<seq<Entry<V>>>, ghost nodes': set<Entry<V>>)
    requires Shape(table, chains, bs, nodes)
    modifies nodes
    ensures Shape(table, chains', Insert(h, bs, key, value, compare), nodes')
    ensures nodes <= nodes' && fresh(nodes' - nodes)
    ensures isNew <==> !compare || LookupIn(bs[Slot(h, |bs|, key)].live, key) == None
  {
    hide ShapeExcept, Shape, IndexOf;
    ChainOf(table, chains, bs, nodes, 0);
    var index := h(key) % table.Length;
    ChainOf(table, chains, bs, nodes, index);
    var entry: Entry?<V> := table[index];
    var lastEntry: Entry?<V> := null;
    ghost var ns, b, p := chains[index], bs[index], 0;
    while entry != null && entry.HasKey()
      invariant p <= |b.live|
      invariant entry == if p < |ns| then ns[p] else null
      invariant lastEntry == if p == 0 then null else ns[p - 1]
      invariant compare ==> p <= IndexOf(b.live, key)
      decreases |b.live| - p
    {
      if compare && entry.key.value == key {
        assert IndexOf(b.live, key) == p;
        SetValue(entry, value, index, p, table, chains, bs, nodes);
        return false, chains, nodes;
      }
      lastEntry := entry;
      entry := entry.next;
      p := p + 1;
    }
    isNew := true;
    assert InsertInBucket(b, key, value, compare) == Bucket(b.live + [(key, value)], false);
    if lastEntry == null {
      assert b.live + [(key, value)] == [(key, value)];
      FillSlot(entry, key, value, index, table, chains, bs, nodes);
      chains', nodes' := chains, nodes;
    } else {
      entry := LinkNew(lastEntry, key, value, index, table, chains, bs, nodes);
      chains', nodes' := chains[index := ns[..p] + [entry]], nodes + {entry};
    }
  }

  /** calloc of a table: every bucket is one blank node. */
  method NewTable<V>(size: nat)
    returns (table: array<Entry<V>>, ghost chains: seq<seq<Entry<V>>>, ghost nodes: set<Entry<V>>)
    requires size > 0
    ensures fresh(table) && fresh(nodes)
    ensures Shape(table, chains, seq(size, _ => Bucket([], true)), nodes)
  {
    var first := new Entry<V>(0);
    table := new Entry<V>[size](_ => first);
    chains, nodes := [[first]], {first};
    for i := 1 to size
      invariant |chains| == i && fresh(nodes) && fresh(table) && table.Length == size
      invariant forall k :: 0 <= k < i ==> chains[k] == [table[k]] && table[k] in nodes
      invariant forall k :: 0 <= k < i ==> Chain(k, chains[k], Bucket([], true))
    {
      var entry := new Entry<V>(i);
      table[i] := entry;
      chains, nodes := chains + [[entry]], nodes + {entry};
    }
  }

  /** The chains from bucket x on are still whole. */
  ghost predicate ShapeFrom<V>(table: array<Entry<V>>, chains: seq<seq<Entry<V>>>, bs: seq<Bucket<V>>,
                               nodes: set<Entry<V>>, x: nat)
    reads table, nodes
  {
    && table.Length == |chains| == |bs| > 0
    && (forall i, n :: 0 <= i < |chains| && n in chains[i] ==> n in nodes)
    && (forall i :: x <= i < |chains| ==> Chain(i, chains[i], bs[i]) && table[i] == chains[i][0])
  }

  lemma OldChain<V>(table: array<Entry<V>>, chains: seq<seq<Entry<V>>>, bs: seq<Bucket<V>>,
                    nodes: set<Entry<V>>, i: nat)
    requires ShapeFrom(table, chains, bs, nodes, i) && i < table.Length
    ensures table.Length == |chains| == |bs|
    ensures Chain(i, chains[i], bs[i]) && table[i] == chains[i][0] && forall n :: n in chains[i] ==> n in nodes
    ensures ShapeFrom(table, chains, bs, nodes, i + 1)
  {
  }

  lemma StartMoving<V>(table: array<Entry<V>>, chains: seq<seq<Entry<V>>>, bs: seq<Bucket<V>>, nodes: set<Entry<V>>)
    requires Shape(table, chains, bs, nodes)
    ensures table.Length == |chains| == |bs| > 0 && forall i, n :: 0 <= i < |chains| && n in chains[i] ==> n in nodes
    ensures ShapeFrom(table, chains, bs, nodes, 0)
  {
  }

  method FreeMoved<V>(entry: Entry<V>, ghost table: array<Entry<V>>, ghost chains: seq<seq<Entry<V>>>,
                      ghost bs: seq<Bucket<V>>, ghost nodes: set<Entry<V>>)
    requires ShapeFrom(table, chains, bs, nodes, entry.bucket + 1)
    requires !entry.freed
    modifies entry
    ensures entry.freed && entry.bucket == old(entry.bucket) && entry.next == old(entry.next)
    ensures ShapeFrom(table, chains, bs, nodes, entry.bucket + 1)
  {
    entry.Free();
  }

  /** The inner loop of hashmap_double_size: the nodes of one old chain. */
  method MoveChain<V>(h: Hash, table: array<Entry<V>>, i: nat, ghost chains: seq<seq<Entry<V>>>,
                      ghost bs: seq<Bucket<V>>, ghost nodes: set<Entry<V>>, newTable: array<Entry<V>>,
                      ghost newChains: seq<seq<Entry<V>>>, ghost newNodes: set<Entry<V>>)
    returns (ghost newChains': seq<seq<Entry<V>>>, ghost newNodes': set<Entry<V>>)
    requires i < table.Length && ShapeFrom(table, chains, bs, nodes, i) && BucketsOk(h, bs)
    requires Shape(newTable, newChains, PartlyDoubled(h, bs, i, 0), newNodes) && nodes !! newNodes
    modifies chains[i], newNodes
    ensures ShapeFrom(table, chains, bs, nodes, i + 1)
    ensures Shape(newTable, newChains', PartlyDoubled(h, bs, i + 1, 0), newNodes')
    ensures newNodes <= newNodes' && fresh(newNodes' - newNodes)
    ensures forall j :: 1 <= j < |chains[i]| ==> (chains[i][j].freed <==> j < |bs[i].live|)
  {
    hide Insert, PartlyDoubled, Shape, ShapeFrom, BucketsOk, LookupIn, Slot;
    newChains', newNodes' := newChains, newNodes;
    OldChain(table, chains, bs, nodes, i);
    ghost var ns, b, p := chains[i], bs[i], 0;
    var entry: Entry?<V> := table[i];
    var inTable := true;
    while entry != null && entry.HasKey()
      invariant p <= |b.live|
      invariant entry == if p < |ns| then ns[p] else null
      invariant newNodes <= newNodes' && fresh(newNodes' - newNodes)
      invariant Shape(newTable, newChains', PartlyDoubled(h, bs, i, p), newNodes')
      invariant ShapeFrom(table, chains, bs, nodes, i + 1)
      invariant forall j :: p <= j < |ns| ==> unchanged(ns[j])
      invariant forall j :: 1 <= j < p ==> ns[j].freed
      invariant inTable <==> p == 0
      decreases |b.live| - p
    {
      var moved := entry;
      entry := entry.next;
      ghost var e := b.live[p];
      DoublingMoves(h, bs, i, p);
      var isNew;
      isNew, newChains', newNodes' := InsertTable(h, newTable, moved.key.value, moved.value.value, false,
                                                  newChains', PartlyDoubled(h, bs, i, p), newNodes');
      if !inTable {
        FreeMoved(moved, table, chains, bs, nodes);
      }
      inTable := false;
      p := p + 1;
    }
    DoublingGoesOn(h, bs, i);
  }

  /** The loop of hashmap_double_size. Old overflow nodes are freed one by one; the old slots go
      with the old table. */
  method MoveEntries<V>(h: Hash, table: array<Entry<V>>, ghost chains: seq<seq<Entry<V>>>, ghost bs: seq<Bucket<V>>,
                        ghost nodes: set<Entry<V>>)
    returns (newTable: array<Entry<V>>, ghost newChains: seq<seq<Entry<V>>>, ghost newNodes: set<Entry<V>>)
    requires Shape(table, chains, bs, nodes) && BucketsOk(h, bs)
    modifies nodes
    ensures fresh(newTable) && fresh(newNodes)
    ensures Shape(newTable, newChains, Doubled(h, bs), newNodes)
  {
    hide Shape, ShapeFrom, PartlyDoubled, Doubled, BucketsOk;
    StartMoving(table, chains, bs, nodes);
    var newSize := table.Length * 2;
    newTable, newChains, newNodes := NewTable(newSize);
    DoublingStarts(h, bs);
    for i := 0 to table.Length
      invariant fresh(newTable) && fresh(newNodes)
      invariant Shape(newTable, newChains, PartlyDoubled(h, bs, i, 0), newNodes)
      invariant ShapeFrom(table, chains, bs, nodes, i)
    {
      newChains, newNodes := MoveChain(h, table, i, chains, bs, nodes, newTable, newChains, newNodes);
    }
    DoublingEnds(h, bs);
  }

  /** What a deletion does to the nodes of its chain. */
  ghost function ChainWithout<V>(ns: seq<Entry<V>>, p: nat): seq<Entry<V>> {
    if p + 1 < |ns| then ns[..p + 1] + ns[p + 2..] else ns
  }

  /** The node n after entry p was copied into it. */
  ghost predicate Bypassed<V>(i: nat, p: nat, ns: seq<Entry<V>>, b: Bucket<V>)
    requires |ns| == |b.live| + (if b.blank then 1 else 0) && p + 1 < |ns|
    reads ns
  {
    && (forall j :: 0 <= j < |ns| && j != p + 1 ==> ns[j].bucket == i && !ns[j].freed)
    && (forall j {:trigger ns[j].next} :: 0 <= j < |ns| && j != p && j != p + 1 ==>
          ns[j].next == if j + 1 < |ns| then ns[j + 1] else null)
    && (forall j {:trigger ns[j].key} {:trigger ns[j].value} :: 0 <= j < |b.live| && j != p && j != p + 1 ==>
          ns[j].key == Some(b.live[j].0) && ns[j].value == Some(b.live[j].1))
    && ns[p].next == (if p + 2 < |ns| then ns[p + 2] else null)
    && (p + 1 < |b.live| ==> ns[p].key == Some(b.live[p + 1].0) && ns[p].value == Some(b.live[p + 1].1))
    && (b.blank ==> ns[if p + 1 < |b.live| then |ns| - 1 else p].key == None)
  }

  lemma Shortened<V>(i: nat, p: nat, ns: seq<Entry<V>>, b: Bucket<V>)
    requires |ns| == |b.live| + (if b.blank then 1 else 0) && p < |b.live| && p + 1 < |ns|
    requires forall j, k :: 0 <= j < k < |ns| ==> ns[j] != ns[k]
    requires Bypassed(i, p, ns, b)
    ensures Chain(i, ChainWithout(ns, p), DeleteAt(b, p))
  {
    var ns', c := ChainWithout(ns, p), DeleteAt(b, p);
    assert forall j :: 0 <= j < |ns'| ==> ns'[j] == ns[if j <= p then j else j + 1];
    assert forall j :: 0 <= j < |c.live| ==> c.live[j] == b.live[if j < p then j else j + 1];
  }

  /** The node after a deleted one is copied into it and freed. */
  method CopySuccessor<V>(entry: Entry<V>, n: Entry<V>, ghost i: nat, ghost p: nat,
                          ghost ns: seq<Entry<V>>, ghost b: Bucket<V>)
    requires Chain(i, ns, b)
    requires p < |b.live| && p + 1 < |ns| && entry == ns[p] && n == ns[p + 1]
    modifies entry, n
    ensures n.freed && Chain(i, ChainWithout(ns, p), DeleteAt(b, p))
  {
    hide ChainWithout, DeleteAt;
    assert forall j :: 0 <= j < |ns| ==> (j != p ==> ns[j] != entry) && (j != p + 1 ==> ns[j] != n);
    entry.key := n.key;
    entry.value := n.value;
    entry.next := n.next;
    n.Free();
    Shortened(i, p, ns, b);
  }

  /** A deleted node without a successor is blanked. */
  method BlankOut<V>(entry: Entry<V>, ghost i: nat, ghost p: nat, ghost ns: seq<Entry<V>>, ghost b: Bucket<V>)
    requires Chain(i, ns, b)
    requires p < |b.live| && p + 1 == |ns| && entry == ns[p]
    modifies entry
    ensures Chain(i, ns, DeleteAt(b, p))
  {
    entry.key := None;
    entry.value := None;
  }

  /** The deletion of the node that hashmap_delete found. */
  method RemoveEntry<V>(entry: Entry<V>, ghost i: nat, ghost p: nat, ghost table: array<Entry<V>>,
                        ghost chains: seq<seq<Entry<V>>>, ghost bs: seq<Bucket<V>>, ghost nodes: set<Entry<V>>)
    requires Shape(table, chains, bs, nodes)
    requires i < |bs| && p < |bs[i].live| && entry == chains[i][p]
    modifies chains[i]
    ensures Shape(table, chains[i := ChainWithout(chains[i], p)], bs[i := DeleteAt(bs[i], p)], nodes)
  {
    ghost var ns, b := chains[i], bs[i];
    assert Chain(i, ns, b);
    if entry.next != null {
      CopySuccessor(entry, entry.next, i, p, ns, b);
    } else {
      BlankOut(entry, i, p, ns, b);
    }
    assert ShapeExcept(table, chains, bs, nodes, i);
    Reshape(table, chains, bs, nodes, i, ChainWithout(ns, p), DeleteAt(b, p), nodes);
  }

  // ----- The map -----

  const DEFAULT_CAPACITY := 128

  ghost predicate LeastPow2(n: nat, p: nat) {
    && n <= p
    && (exists e: nat :: p == Pow2(e))
    && (forall e: nat :: n <= Pow2(e) ==> p <= Pow2(e))
  }

  /** After the scan of the bits below idx: msb is the highest one set, if any is. */
  ghost predicate Scanned(n: nat, idx: nat, msb: nat) {
    var low := n % Pow2(idx);
    if low == 0 then msb == 0 else Pow2(msb) <= low < Pow2(msb + 1)
  }

  lemma ScanBit(n: nat, idx: nat, msb: nat)
    requires Scanned(n, idx, msb)
    ensures Scanned(n, idx + 1, if Shr(n, idx) % 2 == 1 then idx else msb)
  {
    hide Shr;
    NextDigit(n, idx);
  }

  /** The bit scan of hashmap_init: find the most significant bit, and go one up unless it is the
      only one. */
  method RoundUp(n: nat) returns (size: nat)
    requires 1 <= n <= 0x4000_0000
    ensures LeastPow2(n, size)
  {
    hide Shr, Scanned, LeastPow2;
    var mostSigBit := 0;
    ScanStarts(n);
    for idx := 0 to 32
      invariant Scanned(n, idx, mostSigBit)
    {
      ScanBit(n, idx, mostSigBit);
      if Shr(n, idx) % 2 == 1 {
        mostSigBit := idx;
      }
    }
    ScanEnds(n, mostSigBit);
    RoundedUp(n, mostSigBit);
    if Pow2(mostSigBit) != n {
      mostSigBit := mostSigBit + 1;
    }
    size := Pow2(mostSigBit);
  }

  lemma ScanStarts(n: nat)
    ensures Scanned(n, 0, 0)
  {
  }

  lemma ScanEnds(n: nat, msb: nat)
    requires 1 <= n <= 0x4000_0000 && Scanned(n, 32, msb)
    ensures Pow2(msb) <= n < Pow2(msb + 1)
  {
    hide Pow2;
    Pow2Values();
  }

  lemma RoundedUp(n: nat, m: nat)
    requires Pow2(m) <= n < Pow2(m + 1)
    ensures LeastPow2(n, if Pow2(m) == n then Pow2(m) else Pow2(m + 1))
  {
    var p := if Pow2(m) == n then m else m + 1;
    forall e: nat | n <= Pow2(e) ensures Pow2(p) <= Pow2(e) {
      if e < m {
        Pow2Monotone(e, m);
        assert false;
      } else if p < e {
        Pow2Monotone(p, e);
      }
    }
  }

  class HashMap<V> {
    const hash: Hash
    var count: int
    var tableSize: int
    var maxSize: int
    var table: array<Entry<V>>

    ghost var chains: seq<seq<Entry<V>>>
    ghost var buckets: seq<Bucket<V>>
    ghost var nodes: set<Entry<V>>
    ghost var contents: map<string, V>

    /** Every reachable state: the heap holds the buckets, the buckets are well placed and represent
        the finite map contents, and the counters agree with it. */
    ghost predicate Valid()
      reads this, table, nodes
    {
      && tableSize == |buckets|
      && Shape(table, chains, buckets, nodes)
      && BucketsOk(hash, buckets)
      && Represents(hash, buckets, contents)
      && count == |contents|
      && Roomy(count, tableSize, maxSize)
    }

    /** What Valid says of one bucket. */
    lemma ChainAt(i: nat)
      requires Valid()
      ensures tableSize == table.Length == |chains| == |buckets| > 0
      ensures i < |buckets| ==> Chain(i, chains[i], buckets[i]) && table[i] == chains[i][0]
    {
      hide Chain, BucketsOk, Represents;
      ChainOf(table, chains, buckets, nodes, i);
    }

    /** What Valid says of the counters. */
    lemma Counters()
      requires Valid()
      ensures |buckets| > 0 && Roomy(count, tableSize, maxSize)
    {
      hide Chain, BucketsOk, Represents;
    }

    ghost function View(): Table<V>
      reads this
    {
      Table(buckets, count, maxSize)
    }

    /** hashmap_init */
    constructor (initialSize: int, hash: Hash)
      requires initialSize <= 0x4000_0000
      ensures Valid() && fresh(table) && fresh(nodes)
      ensures this.hash == hash && contents == map[]
      ensures initialSize <= 0 ==> tableSize == DEFAULT_CAPACITY
      ensures initialSize > 0 ==> LeastPow2(initialSize, tableSize)
      ensures maxSize == 3 * tableSize / 4
    {
      var size := DEFAULT_CAPACITY;
      if initialSize > 0 {
        size := RoundUp(initialSize);
      }
      this.hash := hash;
      tableSize := size;
      count := 0;
      maxSize := 3 * size / 4;
      ghost var cs, ns;
      var newTable;
      newTable, cs, ns := NewTable(size);
      table := newTable;
      chains, nodes, buckets, contents := cs, ns, seq(size, _ => Bucket([], true)), map[];
      new;
      assert forall key :: Lookup(hash, buckets, key) == None;
    }

    /** hashmap_size */
    method Size() returns (n: int)
      requires Valid()
      ensures n == |contents|
    {
      n := count;
    }

    /** hashmap_get; the C code's -1 is None. */
    method Get(key: string) returns (value: Option<V>)
      requires Valid()
      ensures value == MapLookup(contents, key)
    {
      hide ShapeExcept, Shape, BucketsOk, Represents;
      ChainOf(table, chains, buckets, nodes, 0);
      var index := hash(key) % tableSize;
      ChainOf(table, chains, buckets, nodes, index);
      LookupAgrees(hash, buckets, contents, key);
      var entry: Entry?<V> := table[index];
      ghost var ns, b, p := chains[index], buckets[index], 0;
      while entry != null && entry.HasKey()
        invariant p <= |b.live| && p <= IndexOf(b.live, key)
        invariant entry == if p < |ns| then ns[p] else null
        decreases |b.live| - p
      {
        if entry.key.value == key {
          return entry.value;
        }
        entry := entry.next;
        p := p + 1;
      }
      return None;
    }

    /** hashmap_double_size */
    method DoubleSize()
      requires Valid()
      modifies this, nodes
      ensures Valid() && contents == old(contents) && buckets == Doubled(hash, old(buckets))
      ensures count == old(count) && tableSize == 2 * old(tableSize) && maxSize == 2 * old(maxSize)
      ensures fresh(table) && fresh(nodes)
    {
      hide ShapeExcept, Shape, Chain, BucketOk, Represents;
      var newSize := tableSize * 2;
      var newMaxSize := maxSize * 2;
      ghost var cs, ns;
      DoubledRepresents(hash, buckets, contents);
      var newTable;
      newTable, cs, ns := MoveEntries(hash, table, chains, buckets, nodes);
      table := newTable;
      tableSize := newSize;
      maxSize := newMaxSize;
      chains, nodes, buckets := cs, ns, Doubled(hash, buckets);
    }

    /** hashmap_put; true is the C code's 1. The recursion ends after one doubling. */
    method Put(key: string, value: V) returns (isNew: bool)
      requires Valid() && maxSize >= 1
      modifies this, nodes
      ensures Valid()
      ensures contents == old(contents)[key := value]
      ensures isNew <==> key !in old(contents)
      ensures var full := old(count) + 1 > old(maxSize);
              && tableSize == (if full then 2 * old(tableSize) else old(tableSize))
              && maxSize == (if full then 2 * old(maxSize) else old(maxSize))
              && buckets == Insert(hash, if full then Doubled(hash, old(buckets)) else old(buckets), key, value, true)
      ensures |old(buckets)| > 0 && PutWithin(hash, old(View()), key, value, 2) == Some((View(), isNew))
      ensures fresh(nodes - old(nodes)) && (table == old(table) || fresh(table))
      decreases if count + 1 > maxSize then 1 else 0
    {
      hide HashMap.Valid, BucketOk, Represents, Insert, Doubled, Slot, PutWithin, Lookup;
      Counters();
      PutUnfolds(hash, View(), key, value);
      if count + 1 > maxSize {
        DoubleSize();
        Counters();
        PutUnfolds(hash, View(), key, value);
        isNew := Put(key, value);
        return;
      }
      isNew := PutWithRoom(key, value);
    }

    /** The part of hashmap_put that runs once there is room. */
    method PutWithRoom(key: string, value: V) returns (isNew: bool)
      requires Valid() && count + 1 <= maxSize
      modifies this, nodes
      ensures Valid() && |old(buckets)| > 0
      ensures contents == old(contents)[key := value]
      ensures isNew <==> Lookup(hash, old(buckets), key) == None
      ensures isNew <==> key !in old(contents)
      ensures tableSize == old(tableSize) && maxSize == old(maxSize) && table == old(table)
      ensures buckets == Insert(hash, old(buckets), key, value, true)
      ensures count == old(count) + if isNew then 1 else 0
      ensures fresh(nodes - old(nodes))
    {
      hide ShapeExcept, Shape, BucketsOk, Represents, Insert, Slot, LookupIn, Lookup, Chain;
      ChainOf(table, chains, buckets, nodes, 0);
      LookupAgrees(hash, buckets, contents, key);
      InsertRepresents(hash, buckets, contents, key, value);
      ghost var cs, ns;
      isNew, cs, ns := InsertTable(hash, table, key, value, true, chains, buckets, nodes);
      chains, nodes, buckets, contents := cs, ns, Insert(hash, buckets, key, value, true), contents[key := value];
      assert Shape(table, chains, buckets, nodes);
      if isNew {
        count := count + 1;
      }
      assert BucketsOk(hash, buckets) && Represents(hash, buckets, contents);
      assert count == |contents| && Roomy(count, tableSize, maxSize);
    }

    /** The part of hashmap_delete that runs once entry p of bucket i was found to have the key. */
    method DeleteFound(entry: Entry<V>, ghost i: nat, ghost p: nat)
      requires Valid()
      requires i < |buckets| && p < |buckets[i].live| && p < |chains[i]| && entry == chains[i][p]
      requires var key := buckets[i].live[p].0; i == Slot(hash, |buckets|, key) && p == IndexOf(buckets[i].live, key)
      modifies this, nodes
      ensures Valid() && table == old(table) && tableSize == old(tableSize) && maxSize == old(maxSize)
      ensures var key := old(buckets)[i].live[p].0;
              && key in old(contents) && contents == old(contents) - {key}
              && buckets == Buckets.Delete(hash, old(buckets), key)
      ensures nodes == old(nodes) && chains == old(chains)[i := ChainWithout(old(chains)[i], p)]
    {
      hide ShapeExcept, Shape, BucketsOk, Represents, DeleteAt, ChainWithout, IndexOf;
      ghost var key := buckets[i].live[p].0;
      ChainOf(table, chains, buckets, nodes, i);
      LookupAgrees(hash, buckets, contents, key);
      DeleteRepresents(hash, buckets, contents, key);
      count := count - 1;
      RemoveEntry(entry, i, p, table, chains, buckets, nodes);
      chains := chains[i := ChainWithout(chains[i], p)];
      buckets, contents := buckets[i := DeleteAt(buckets[i], p)], contents - {key};
    }

    /** hashmap_delete; true is the C code's 0. lastEntry is never set in the loop, so the branch
        that would unlink a node does not run: see RemoveEntry for what happens instead. */
    method Delete(key: string) returns (found: bool)
      requires Valid()
      modifies this, nodes
      ensures Valid() && table == old(table) && tableSize == old(tableSize) && maxSize == old(maxSize)
      ensures found <==> key in old(contents)
      ensures contents == old(contents) - {key}
      ensures buckets == Buckets.Delete(hash, old(buckets), key)
      ensures nodes == old(nodes)
      ensures var i := Slot(hash, |old(buckets)|, key);
              chains == if found then old(chains)[i := ChainWithout(old(chains)[i], IndexOf(old(buckets)[i].live, key))]
                        else old(chains)
    {
      hide ShapeExcept, Shape, BucketsOk, Represents, DeleteAt, ChainWithout;
      ChainOf(table, chains, buckets, nodes, 0);
      var index := hash(key) % tableSize;
      ChainOf(table, chains, buckets, nodes, index);
      LookupAgrees(hash, buckets, contents, key);
      var entry: Entry?<V> := table[index];
      var lastEntry: Entry?<V> := null;
      ghost var ns, b, p := chains[index], buckets[index], 0;
      while entry != null && entry.HasKey()
        invariant p <= |b.live| && p <= IndexOf(b.live, key)
        invariant entry == if p < |ns| then ns[p] else null
        invariant lastEntry == null
        decreases |b.live| - p
      {
        if entry.key.value == key {
          assert IndexOf(b.live, key) == p && b.live[p].0 == key;
          if lastEntry == null {
            DeleteFound(entry, index, p);
          } else {
            assert false;
          }
          return true;
        }
        entry := entry.next;
        p := p + 1;
      }
      assert IndexOf(b.live, key) == |b.live| && contents - {key} == contents;
      return false;
    }

    /** The inner loop of hashmap_iter. */
    method IterateBucket(i: nat, cb: (string, V) -> int) returns (r: int, calls: seq<Pair<V>>)
      requires Valid() && i < tableSize
      ensures calls <= buckets[i].live
      ensures r == 0 ==> calls == buckets[i].live && forall j :: 0 <= j < |calls| ==> cb(calls[j].0, calls[j].1) == 0
      ensures r != 0 ==> Stopped(cb, calls, r)
    {
      hide ShapeExcept, Shape, BucketsOk, Represents;
      ChainOf(table, chains, buckets, nodes, i);
      var shouldBreak := 0;
      calls := [];
      var entry: Entry?<V> := table[i];
      ghost var ns, b, p := chains[i], buckets[i], 0;
      while entry != null && entry.HasKey() && shouldBreak == 0
        invariant p <= |b.live|
        invariant entry == if p < |ns| then ns[p] else null
        invariant calls == b.live[..p]
        invariant shouldBreak == 0 ==> forall j :: 0 <= j < |calls| ==> cb(calls[j].0, calls[j].1) == 0
        invariant shouldBreak != 0 ==> Stopped(cb, calls, shouldBreak)
        decreases |b.live| - p
      {
        shouldBreak := cb(entry.key.value, entry.value.value);
        calls := calls + [(entry.key.value, entry.value.value)];
        entry := entry.next;
        p := p + 1;
      }
      return shouldBreak, calls;
    }

    /** hashmap_iter, for a callback that leaves the map alone. */
    method Iterate(cb: (string, V) -> int) returns (r: int, calls: seq<Pair<V>>)
      requires Valid()
      ensures calls <= Entries(buckets)
      ensures forall j :: 0 <= j < |calls| - 1 ==> cb(calls[j].0, calls[j].1) == 0
      ensures r == if calls == [] then 0 else cb(calls[|calls| - 1].0, calls[|calls| - 1].1)
      ensures r == 0 ==> calls == Entries(buckets)
    {
      hide ShapeExcept, Shape, BucketsOk, Represents, Entries;
      var shouldBreak := 0;
      calls := [];
      var i := 0;
      NoEntries(buckets);
      while i < tableSize && shouldBreak == 0
        invariant 0 <= i <= tableSize
        invariant shouldBreak == 0 ==> calls == Entries(buckets[..i])
        invariant shouldBreak == 0 ==> forall j :: 0 <= j < |calls| ==> cb(calls[j].0, calls[j].1) == 0
        invariant shouldBreak != 0 ==> Stopped(cb, calls, shouldBreak) && calls <= Entries(buckets)
      {
        EntriesPrefix(buckets, i);
        var more;
        shouldBreak, more := IterateBucket(i, cb);
        calls := calls + more;
        i := i + 1;
      }
      assert buckets[..|buckets|] == buckets;
      return shouldBreak, calls;
    }
  }

  /** The walk stopped after its last call, the first one that did not return 0. */
  ghost predicate Stopped<V>(cb: (string, V) -> int, calls: seq<Pair<V>>, r: int) {
    && calls != []
    && cb(calls[|calls| - 1].0, calls[|calls| - 1].1) == r
    && forall j :: 0 <= j < |calls| - 1 ==> cb(calls[j].0, calls[j].1) == 0
  }

  /** The counters of every reachable map; a map created with size 1 has maxSize 0 for ever. */
  ghost predicate Roomy(count: int, tableSize: int, maxSize: int) {
    && 0 <= count <= maxSize
    && 4 * maxSize <= 3 * tableSize
    && (maxSize >= 1 ==> tableSize <= 2 * maxSize)
  }

  /** The put that doubles a table finds at least a quarter of the new size in entries, so that with at
      most 2^28 entries the size stays within 2^30 and is an int. */
  lemma GrowthNeedsEntries(count: int, tableSize: int, maxSize: int)
    requires Roomy(count, tableSize, maxSize) && maxSize >= 1
    requires count + 1 > maxSize
    ensures 2 * tableSize <= 4 * count
  {
  }
}
