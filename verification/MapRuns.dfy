/** Whole runs of the map against a plain finite map, from its creation on. */
module MapRuns {
  import opened Bits
  import opened Wrappers
  import opened Buckets
  import opened HashMaps

  datatype Op<V> = Put(key: string, v: V) | Get(key: string) | Delete(key: string) | Size

  /** What the caller is told: put and delete return a flag, get a value, size a number. */
  datatype Answer<V> = Flag(b: bool) | Found(value: Option<V>) | Number(n: int)

  // ----- The reference: a plain finite map -----

  function MapAfter<V>(m: map<string, V>, op: Op<V>): map<string, V> {
    match op
    case Put(key, v) => m[key := v]
    case Delete(key) => m - {key}
    case _ => m
  }

  function MapAnswer<V>(m: map<string, V>, op: Op<V>): Answer<V> {
    match op
    case Put(key, _) => Flag(key !in m)
    case Get(key) => Found(MapLookup(m, key))
    case Delete(key) => Flag(key in m)
    case Size => Number(|m|)
  }

  function MapAfterAll<V>(m: map<string, V>, ops: seq<Op<V>>): map<string, V> {
    if ops == [] then m else MapAfter(MapAfterAll(m, ops[..|ops| - 1]), ops[|ops| - 1])
  }

  function MapAnswers<V>(m: map<string, V>, ops: seq<Op<V>>): seq<Answer<V>> {
    if ops == [] then [] else
      var n := |ops| - 1;
      MapAnswers(m, ops[..n]) + [MapAnswer(MapAfterAll(m, ops[..n]), ops[n])]
  }

  // ----- The chained table, run on the heap -----

  /** One operation on a map. */
  method Perform<V>(m: HashMap<V>, op: Op<V>) returns (answer: Answer<V>)
    requires m.Valid() && m.maxSize >= 1
    modifies m, m.nodes
    ensures m.Valid() && m.maxSize >= 1 && fresh(m.nodes - old(m.nodes))
    ensures m.contents == MapAfter(old(m.contents), op)
    ensures answer == MapAnswer(old(m.contents), op)
  {
    hide Shape, BucketsOk, Represents, Buckets.Insert, Buckets.Delete, Doubled, Slot, ChainWithout, IndexOf;
    match op {
      case Put(key, v) =>
        var isNew := m.Put(key, v);
        return Flag(isNew);
      case Get(key) =>
        var value := m.Get(key);
        return Found(value);
      case Delete(key) =>
        var found := m.Delete(key);
        return Flag(found);
      case Size =>
        var n := m.Size();
        return Number(n);
    }
  }

  /** For every hash function, every sequence of operations and every initial size but 1, the chained
      table gives exactly the answers of a finite map. */
  method Run<V>(initialSize: int, hash: Hash, ops: seq<Op<V>>) returns (answers: seq<Answer<V>>)
    requires initialSize <= 0 || 2 <= initialSize <= 0x4000_0000
    ensures answers == MapAnswers(map[], ops)
  {
    hide Shape, BucketsOk, Represents, LeastPow2, MapAfter, MapAnswer;
    var m := new HashMap<V>(initialSize, hash);
    InitialRoom(initialSize, m.tableSize);
    answers := [];
    for i := 0 to |ops|
      invariant m.Valid() && m.maxSize >= 1 && fresh(m) && fresh(m.nodes)
      invariant m.contents == MapAfterAll(map[], ops[..i])
      invariant answers == MapAnswers(map[], ops[..i])
    {
      assert ops[..i + 1][..i] == ops[..i];
      var answer := Perform(m, ops[i]);
      answers := answers + [answer];
    }
    assert ops[..|ops|] == ops;
  }

  /** Only a map asked to have one slot is created without room for an entry. */
  lemma InitialRoom(initialSize: int, tableSize: int)
    requires if initialSize <= 0 then tableSize == DEFAULT_CAPACITY
             else tableSize >= 0 && LeastPow2(initialSize, tableSize)
    ensures 3 * tableSize / 4 >= 1 <==> initialSize != 1
  {
    if initialSize == 1 {
      assert Pow2(0) == 1;
    }
  }
}
