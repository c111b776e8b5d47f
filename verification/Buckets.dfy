/** What the chained table of lib/hashmap.c is, seen as values: a row of buckets, each a list of
    live entries that may end in one blank node. The operations are given here as functions on
    that row, and each is related to a plain finite map. */
module Buckets {
  import opened Arithmetic
  import opened Wrappers

  type Hash = string -> nat
  type Pair<V> = (string, V)

  /** The nodes of one chain in order. Only the last node of a chain can be blank (no key). */
  datatype Bucket<V> = Bucket(live: seq<Pair<V>>, blank: bool)

  datatype Table<V> = Table(buckets: seq<Bucket<V>>, count: int, maxSize: int)

  // ----- Lists with distinct keys -----

  ghost predicate DistinctKeys<V>(live: seq<Pair<V>>) {
    forall i, j :: 0 <= i < j < |live| ==> live[i].0 != live[j].0
  }

  function IndexOf<V>(live: seq<Pair<V>>, key: string): (r: nat)
    ensures r <= |live|
    ensures forall j :: 0 <= j < r ==> live[j].0 != key
    ensures r < |live| ==> live[r].0 == key
  {
    if live == [] || live[0].0 == key then 0 else 1 + IndexOf(live[1..], key)
  }

  function LookupIn<V>(live: seq<Pair<V>>, key: string): Option<V> {
    var j := IndexOf(live, key);
    if j < |live| then Some(live[j].1) else None
  }

  lemma IndexIsUnique<V>(live: seq<Pair<V>>, j: nat)
    requires DistinctKeys(live) && j < |live|
    ensures IndexOf(live, live[j].0) == j
  {
  }

  /** With distinct keys a lookup is membership. */
  lemma LookupIsMembership<V>(live: seq<Pair<V>>, key: string, v: V)
    requires DistinctKeys(live)
    ensures LookupIn(live, key) == Some(v) <==> (key, v) in live
  {
    if (key, v) in live {
      var j :| 0 <= j < |live| && live[j] == (key, v);
      IndexIsUnique(live, j);
    }
  }

  lemma SameMembersSameLookup<V>(a: seq<Pair<V>>, b: seq<Pair<V>>, key: string)
    requires DistinctKeys(a) && DistinctKeys(b)
    requires forall v :: (key, v) in a <==> (key, v) in b
    ensures LookupIn(a, key) == LookupIn(b, key)
  {
    if LookupIn(a, key).Some? {
      LookupIsMembership(a, key, LookupIn(a, key).value);
      LookupIsMembership(b, key, LookupIn(a, key).value);
    } else if LookupIn(b, key).Some? {
      LookupIsMembership(a, key, LookupIn(b, key).value);
      LookupIsMembership(b, key, LookupIn(b, key).value);
    }
  }

  function Without<V>(live: seq<Pair<V>>, j: nat): seq<Pair<V>>
    requires j < |live|
  {
    live[..j] + live[j + 1..]
  }

  // ----- Where keys belong -----

  function Slot(h: Hash, size: nat, key: string): nat
    requires size > 0
  {
    h(key) % size
  }

  ghost predicate BucketOk<V>(h: Hash, size: nat, i: nat, b: Bucket<V>)
    requires size > 0
  {
    && (b.live == [] ==> b.blank)
    && DistinctKeys(b.live)
    && forall j :: 0 <= j < |b.live| ==> Slot(h, size, b.live[j].0) == i
  }

  /** The shape that every operation keeps: distinct keys, each in the bucket it hashes to. */
  ghost predicate BucketsOk<V>(h: Hash, bs: seq<Bucket<V>>) {
    && |bs| > 0
    && forall i :: 0 <= i < |bs| ==> BucketOk(h, |bs|, i, bs[i])
  }

  function Lookup<V>(h: Hash, bs: seq<Bucket<V>>, key: string): Option<V>
    requires |bs| > 0
  {
    LookupIn(bs[Slot(h, |bs|, key)].live, key)
  }

  function MapLookup<V>(m: map<string, V>, key: string): Option<V> {
    if key in m then Some(m[key]) else None
  }

  /** The row of buckets answers every lookup as the finite map m does. */
  ghost predicate Represents<V>(h: Hash, bs: seq<Bucket<V>>, m: map<string, V>)
    requires |bs| > 0
  {
    forall key :: Lookup(h, bs, key) == MapLookup(m, key)
  }

  lemma LookupAgrees<V>(h: Hash, bs: seq<Bucket<V>>, m: map<string, V>, key: string)
    requires |bs| > 0 && Represents(h, bs, m)
    ensures LookupIn(bs[Slot(h, |bs|, key)].live, key) == Lookup(h, bs, key) == MapLookup(m, key)
  {
  }

  // ----- Inserting into a table -----

  function InsertInBucket<V>(b: Bucket<V>, key: string, v: V, compare: bool): Bucket<V> {
    var j := IndexOf(b.live, key);
    if compare && j < |b.live| then b.(live := b.live[j := (b.live[j].0, v)])
    else Bucket(b.live + [(key, v)], false)
  }

  function Insert<V>(h: Hash, bs: seq<Bucket<V>>, key: string, v: V, compare: bool): (r: seq<Bucket<V>>)
    requires |bs| > 0
    ensures |r| == |bs|
  {
    var i := Slot(h, |bs|, key);
    bs[i := InsertInBucket(bs[i], key, v, compare)]
  }

  lemma InsertInBucketLookup<V>(b: Bucket<V>, key: string, v: V, other: string)
    requires DistinctKeys(b.live)
    ensures var c := InsertInBucket(b, key, v, true).live;
            && DistinctKeys(c)
            && LookupIn(c, other) == if other == key then Some(v) else LookupIn(b.live, other)
  {
    var c := InsertInBucket(b, key, v, true).live;
    var j := IndexOf(b.live, key);
    assert c[j] == (key, v);
    IndexIsUnique(c, j);
    if other != key {
      forall w ensures (other, w) in c <==> (other, w) in b.live {
        if (other, w) in b.live {
          var i :| 0 <= i < |b.live| && b.live[i] == (other, w);
          assert c[i] == (other, w);
        }
      }
      SameMembersSameLookup(b.live, c, other);
    }
  }

  lemma InsertKeepsBucketsOk<V>(h: Hash, bs: seq<Bucket<V>>, key: string, v: V)
    requires BucketsOk(h, bs)
    ensures BucketsOk(h, Insert(h, bs, key, v, true))
  {
    var i := Slot(h, |bs|, key);
    InsertInBucketLookup(bs[i], key, v, key);
    forall k | 0 <= k < |bs| ensures BucketOk(h, |bs|, k, Insert(h, bs, key, v, true)[k]) {
      assert BucketOk(h, |bs|, k, bs[k]);
    }
  }

  lemma InsertLookup<V>(h: Hash, bs: seq<Bucket<V>>, key: string, v: V, other: string)
    requires BucketsOk(h, bs)
    ensures Lookup(h, Insert(h, bs, key, v, true), other) == if other == key then Some(v) else Lookup(h, bs, other)
  {
    var i := Slot(h, |bs|, key);
    assert BucketOk(h, |bs|, i, bs[i]);
    InsertInBucketLookup(bs[i], key, v, other);
  }

  lemma InsertRepresents<V>(h: Hash, bs: seq<Bucket<V>>, m: map<string, V>, key: string, v: V)
    requires BucketsOk(h, bs) && Represents(h, bs, m)
    ensures BucketsOk(h, Insert(h, bs, key, v, true))
    ensures Represents(h, Insert(h, bs, key, v, true), m[key := v])
  {
    InsertKeepsBucketsOk(h, bs, key, v);
    forall other ensures Lookup(h, Insert(h, bs, key, v, true), other) == MapLookup(m[key := v], other) {
      assert Lookup(h, bs, other) == MapLookup(m, other);
      InsertLookup(h, bs, key, v, other);
    }
  }

  // ----- Deleting -----

  /** The node after the deleted one is copied into it; a deleted last node becomes the blank. */
  function DeleteAt<V>(b: Bucket<V>, j: nat): Bucket<V>
    requires j < |b.live|
  {
    Bucket(Without(b.live, j), b.blank || j + 1 == |b.live|)
  }

  function Delete<V>(h: Hash, bs: seq<Bucket<V>>, key: string): (r: seq<Bucket<V>>)
    requires |bs| > 0
    ensures |r| == |bs|
  {
    var i := Slot(h, |bs|, key);
    var j := IndexOf(bs[i].live, key);
    if j < |bs[i].live| then bs[i := DeleteAt(bs[i], j)] else bs
  }

  lemma WithoutLookup<V>(live: seq<Pair<V>>, j: nat, other: string)
    requires DistinctKeys(live) && j < |live|
    ensures DistinctKeys(Without(live, j))
    ensures LookupIn(Without(live, j), other) == if other == live[j].0 then None else LookupIn(live, other)
  {
    var c := Without(live, j);
    forall i | 0 <= i < |c| ensures c[i] == live[if i < j then i else i + 1] {}
    if other != live[j].0 {
      forall w ensures (other, w) in c <==> (other, w) in live {
        if (other, w) in live {
          var i :| 0 <= i < |live| && live[i] == (other, w);
          assert c[if i < j then i else i - 1] == (other, w);
        }
      }
      SameMembersSameLookup(live, c, other);
    }
  }

  lemma DeleteKeepsBucketsOk<V>(h: Hash, bs: seq<Bucket<V>>, key: string)
    requires BucketsOk(h, bs)
    ensures BucketsOk(h, Delete(h, bs, key))
  {
    var i := Slot(h, |bs|, key);
    var j := IndexOf(bs[i].live, key);
    if j < |bs[i].live| {
      assert BucketOk(h, |bs|, i, bs[i]);
      WithoutLookup(bs[i].live, j, key);
      forall k | 0 <= k < |bs| ensures BucketOk(h, |bs|, k, Delete(h, bs, key)[k]) {
        assert BucketOk(h, |bs|, k, bs[k]);
      }
    }
  }

  lemma DeleteLookup<V>(h: Hash, bs: seq<Bucket<V>>, key: string, other: string)
    requires BucketsOk(h, bs)
    ensures Lookup(h, Delete(h, bs, key), other) == if other == key then None else Lookup(h, bs, other)
  {
    var i := Slot(h, |bs|, key);
    var j := IndexOf(bs[i].live, key);
    assert BucketOk(h, |bs|, i, bs[i]);
    if j < |bs[i].live| {
      WithoutLookup(bs[i].live, j, other);
    }
  }

  lemma DeleteRepresents<V>(h: Hash, bs: seq<Bucket<V>>, m: map<string, V>, key: string)
    requires BucketsOk(h, bs) && Represents(h, bs, m)
    ensures BucketsOk(h, Delete(h, bs, key))
    ensures Represents(h, Delete(h, bs, key), m - {key})
  {
    DeleteKeepsBucketsOk(h, bs, key);
    forall other ensures Lookup(h, Delete(h, bs, key), other) == MapLookup(m - {key}, other) {
      assert Lookup(h, bs, other) == MapLookup(m, other);
      DeleteLookup(h, bs, key, other);
    }
  }

  // ----- Doubling -----

  /** The entries of a list that belong to bucket i of a table with size buckets, in their order. */
  function Belonging<V>(h: Hash, size: nat, i: nat, live: seq<Pair<V>>): seq<Pair<V>>
    requires size > 0
  {
    if live == [] then [] else
      var e := live[|live| - 1];
      Belonging(h, size, i, live[..|live| - 1]) + if Slot(h, size, e.0) == i then [e] else []
  }

  lemma {:induction false} BelongingMembers<V>(h: Hash, size: nat, i: nat, live: seq<Pair<V>>, e: Pair<V>)
    requires size > 0
    ensures e in Belonging(h, size, i, live) <==> e in live && Slot(h, size, e.0) == i
  {
    if live != [] {
      var n := |live| - 1;
      assert live == live[..n] + [live[n]];
      BelongingMembers(h, size, i, live[..n], e);
    }
  }

  lemma {:induction false} BelongingOk<V>(h: Hash, size: nat, i: nat, live: seq<Pair<V>>)
    requires size > 0 && DistinctKeys(live)
    ensures var r := Belonging(h, size, i, live);
            DistinctKeys(r) && forall j :: 0 <= j < |r| ==> Slot(h, size, r[j].0) == i
  {
    if live != [] {
      var n := |live| - 1;
      BelongingOk(h, size, i, live[..n]);
      var r := Belonging(h, size, i, live[..n]);
      forall j | 0 <= j < |r| ensures r[j].0 != live[n].0 {
        BelongingMembers(h, size, i, live[..n], r[j]);
        var k :| 0 <= k < n && live[..n][k] == r[j];
        assert live[k].0 != live[n].0;
      }
    }
  }

  /** Bucket i of the doubled table takes the fitting entries of the one old bucket that can have
      them; nothing blank is carried over. */
  function DoubledBucket<V>(h: Hash, bs: seq<Bucket<V>>, i: nat): Bucket<V>
    requires |bs| > 0
  {
    var live := Belonging(h, 2 * |bs|, i, bs[i % |bs|].live);
    Bucket(live, live == [])
  }

  function Doubled<V>(h: Hash, bs: seq<Bucket<V>>): (r: seq<Bucket<V>>)
    requires |bs| > 0
    ensures |r| == 2 * |bs|
  {
    seq(2 * |bs|, i requires 0 <= i < 2 * |bs| => DoubledBucket(h, bs, i))
  }

  lemma ModOfDouble(x: nat, n: nat)
    requires n > 0
    ensures x % (2 * n) % n == x % n
    ensures x % (2 * n) == x % n || x % (2 * n) == x % n + n
  {
    var q, r := x / (2 * n), x % (2 * n);
    assert x == n * (2 * q) + r;
    if r < n {
      DivUnique(x, n, 2 * q, r);
    } else {
      assert x == n * (2 * q + 1) + (r - n);
      DivUnique(x, n, 2 * q + 1, r - n);
    }
    DivUnique(r, n, if r < n then 0 else 1, if r < n then r else r - n);
  }

  lemma DoubledLookup<V>(h: Hash, bs: seq<Bucket<V>>, key: string)
    requires BucketsOk(h, bs)
    ensures Lookup(h, Doubled(h, bs), key) == Lookup(h, bs, key)
  {
    var n := |bs|;
    var i := Slot(h, 2 * n, key);
    ModOfDouble(h(key), n);
    var live := bs[i % n].live;
    assert BucketOk(h, n, i % n, bs[i % n]);
    BelongingOk(h, 2 * n, i, live);
    forall v ensures (key, v) in live <==> (key, v) in Belonging(h, 2 * n, i, live) {
      BelongingMembers(h, 2 * n, i, live, (key, v));
    }
    SameMembersSameLookup(live, Belonging(h, 2 * n, i, live), key);
  }

  lemma DoubledBucketOk<V>(h: Hash, bs: seq<Bucket<V>>, i: nat)
    requires BucketsOk(h, bs) && i < 2 * |bs|
    ensures BucketOk(h, 2 * |bs|, i, DoubledBucket(h, bs, i))
  {
    var n := |bs|;
    assert BucketOk(h, n, i % n, bs[i % n]);
    BelongingOk(h, 2 * n, i, bs[i % n].live);
  }

  lemma DoubledKeepsBucketsOk<V>(h: Hash, bs: seq<Bucket<V>>)
    requires BucketsOk(h, bs)
    ensures BucketsOk(h, Doubled(h, bs))
  {
    forall i | 0 <= i < 2 * |bs| ensures BucketOk(h, 2 * |bs|, i, Doubled(h, bs)[i]) {
      DoubledBucketOk(h, bs, i);
    }
  }

  /** Doubling changes the answer to no lookup, although it compares no keys. */
  lemma DoubledRepresents<V>(h: Hash, bs: seq<Bucket<V>>, m: map<string, V>)
    requires BucketsOk(h, bs) && Represents(h, bs, m)
    ensures BucketsOk(h, Doubled(h, bs))
    ensures Represents(h, Doubled(h, bs), m)
  {
    DoubledKeepsBucketsOk(h, bs);
    forall key ensures Lookup(h, Doubled(h, bs), key) == MapLookup(m, key) {
      DoubledLookup(h, bs, key);
    }
  }

  lemma {:induction false} SplitSizes<V>(h: Hash, n: nat, i: nat, live: seq<Pair<V>>)
    requires i < n && forall j :: 0 <= j < |live| ==> Slot(h, n, live[j].0) == i
    ensures |Belonging(h, 2 * n, i, live)| + |Belonging(h, 2 * n, i + n, live)| == |live|
  {
    if live != [] {
      var e := live[|live| - 1];
      ModOfDouble(h(e.0), n);
      SplitSizes(h, n, i, live[..|live| - 1]);
    }
  }

  /** Doubling deals the entries of old bucket i out to the buckets i and i + n, each entry to the
      one it hashes to and in the old order, and leaves a blank only where nothing is live. */
  lemma DoubledSplitsBuckets<V>(h: Hash, bs: seq<Bucket<V>>, i: nat)
    requires BucketsOk(h, bs) && i < |bs|
    ensures var cs, n, live := Doubled(h, bs), |bs|, bs[i].live;
            && cs[i].live == Belonging(h, 2 * n, i, live)
            && cs[i + n].live == Belonging(h, 2 * n, i + n, live)
            && |cs[i].live| + |cs[i + n].live| == |live|
            && (cs[i].blank <==> cs[i].live == []) && (cs[i + n].blank <==> cs[i + n].live == [])
  {
    var n := |bs|;
    DivUnique(i, n, 0, i);
    DivUnique(i + n, n, 1, i);
    assert BucketOk(h, n, i, bs[i]);
    SplitSizes(h, n, i, bs[i].live);
  }

  // ----- The doubling loop, part way through -----

  /** The entries of old bucket k that have been moved once the loop stands at entry p of bucket i. */
  function Moved<V>(bs: seq<Bucket<V>>, i: nat, p: nat, k: nat): seq<Pair<V>>
    requires k < |bs| && (i < |bs| ==> p <= |bs[i].live|)
  {
    if k < i then bs[k].live else if k == i then bs[i].live[..p] else []
  }

  function PartlyDoubledBucket<V>(h: Hash, bs: seq<Bucket<V>>, i: nat, p: nat, j: nat): Bucket<V>
    requires 0 < |bs| && (i < |bs| ==> p <= |bs[i].live|)
  {
    var live := Belonging(h, 2 * |bs|, j, Moved(bs, i, p, j % |bs|));
    Bucket(live, live == [])
  }

  function PartlyDoubled<V>(h: Hash, bs: seq<Bucket<V>>, i: nat, p: nat): seq<Bucket<V>>
    requires 0 < |bs| && (i < |bs| ==> p <= |bs[i].live|)
  {
    seq(2 * |bs|, j requires 0 <= j < 2 * |bs| => PartlyDoubledBucket(h, bs, i, p, j))
  }

  lemma DoublingStarts<V>(h: Hash, bs: seq<Bucket<V>>)
    requires 0 < |bs|
    ensures PartlyDoubled(h, bs, 0, 0) == seq(2 * |bs|, _ => Bucket([], true))
  {
    forall j | 0 <= j < 2 * |bs| ensures PartlyDoubledBucket(h, bs, 0, 0, j) == Bucket([], true) {
      assert Moved(bs, 0, 0, j % |bs|) == [];
    }
  }

  /** Moving one entry inserts it, unseen by any other bucket. */
  lemma DoublingMoves<V>(h: Hash, bs: seq<Bucket<V>>, i: nat, p: nat)
    requires BucketsOk(h, bs) && i < |bs| && p < |bs[i].live|
    ensures var e := bs[i].live[p];
            Insert(h, PartlyDoubled(h, bs, i, p), e.0, e.1, false) == PartlyDoubled(h, bs, i, p + 1)
  {
    var n, live, e := |bs|, bs[i].live, bs[i].live[p];
    assert BucketOk(h, n, i, bs[i]);
    ModOfDouble(h(e.0), n);
    var s := Slot(h, 2 * n, e.0);
    var before, after := PartlyDoubled(h, bs, i, p), PartlyDoubled(h, bs, i, p + 1);
    assert live[..p + 1][..p] == live[..p];
    forall j | 0 <= j < 2 * n
      ensures after[j] == if j == s then InsertInBucket(before[j], e.0, e.1, false) else before[j]
    {
      if j % n == i {
        assert Moved(bs, i, p, j % n) == live[..p] && Moved(bs, i, p + 1, j % n) == live[..p + 1];
      } else {
        assert Moved(bs, i, p, j % n) == Moved(bs, i, p + 1, j % n);
      }
    }
  }

  lemma DoublingGoesOn<V>(h: Hash, bs: seq<Bucket<V>>, i: nat)
    requires i < |bs|
    ensures PartlyDoubled(h, bs, i, |bs[i].live|) == PartlyDoubled(h, bs, i + 1, 0)
  {
    forall j | 0 <= j < 2 * |bs|
      ensures PartlyDoubledBucket(h, bs, i, |bs[i].live|, j) == PartlyDoubledBucket(h, bs, i + 1, 0, j)
    {
      var k := j % |bs|;
      assert Moved(bs, i, |bs[i].live|, k) == Moved(bs, i + 1, 0, k);
    }
  }

  lemma DoublingEnds<V>(h: Hash, bs: seq<Bucket<V>>)
    requires 0 < |bs|
    ensures PartlyDoubled(h, bs, |bs|, 0) == Doubled(h, bs)
  {
    forall j | 0 <= j < 2 * |bs| ensures PartlyDoubledBucket(h, bs, |bs|, 0, j) == DoubledBucket(h, bs, j) {
    }
  }

  // ----- All entries, in the order of a walk -----

  /** Bucket by bucket, and in chain order inside a bucket. */
  function Entries<V>(bs: seq<Bucket<V>>): seq<Pair<V>> {
    if bs == [] then [] else Entries(bs[..|bs| - 1]) + bs[|bs| - 1].live
  }

  lemma NoEntries<V>(bs: seq<Bucket<V>>)
    ensures Entries(bs[..0]) == []
  {
  }

  lemma {:induction false} EntriesPrefix<V>(bs: seq<Bucket<V>>, i: nat)
    requires i < |bs|
    ensures Entries(bs[..i + 1]) == Entries(bs[..i]) + bs[i].live
    ensures Entries(bs[..i]) + bs[i].live <= Entries(bs)
    decreases |bs| - i
  {
    assert bs[..i + 1][..i] == bs[..i];
    if i + 1 < |bs| {
      EntriesPrefix(bs, i + 1);
    } else {
      assert bs[..i + 1] == bs;
    }
  }

  lemma {:induction false} IndexOfConcat<V>(a: seq<Pair<V>>, b: seq<Pair<V>>, key: string)
    ensures IndexOf(a + b, key) == if IndexOf(a, key) < |a| then IndexOf(a, key) else |a| + IndexOf(b, key)
  {
    if a == [] {
      assert a + b == b;
    } else {
      assert (a + b)[1..] == a[1..] + b;
      IndexOfConcat(a[1..], b, key);
    }
  }

  lemma LookupInAppend<V>(a: seq<Pair<V>>, b: seq<Pair<V>>, key: string)
    ensures LookupIn(a + b, key) == if LookupIn(a, key).Some? then LookupIn(a, key) else LookupIn(b, key)
  {
    IndexOfConcat(a, b, key);
  }

  lemma {:induction false} EntriesOfFirst<V>(h: Hash, bs: seq<Bucket<V>>, k: nat)
    requires BucketsOk(h, bs) && k <= |bs|
    ensures DistinctKeys(Entries(bs[..k]))
    ensures forall j :: 0 <= j < |Entries(bs[..k])| ==> Slot(h, |bs|, Entries(bs[..k])[j].0) < k
  {
    if k > 0 {
      EntriesOfFirst(h, bs, k - 1);
      assert BucketOk(h, |bs|, k - 1, bs[k - 1]);
      assert bs[..k][..k - 1] == bs[..k - 1];
    }
  }

  lemma {:induction false} EntriesLookup<V>(h: Hash, bs: seq<Bucket<V>>, k: nat, key: string)
    requires BucketsOk(h, bs) && k <= |bs|
    ensures LookupIn(Entries(bs[..k]), key) == if Slot(h, |bs|, key) < k then Lookup(h, bs, key) else None
  {
    if k > 0 {
      EntriesLookup(h, bs, k - 1, key);
      assert BucketOk(h, |bs|, k - 1, bs[k - 1]);
      assert bs[..k][..k - 1] == bs[..k - 1];
      LookupInAppend(Entries(bs[..k - 1]), bs[k - 1].live, key);
    }
  }

  ghost function KeysOf<V>(live: seq<Pair<V>>): set<string> {
    set j | 0 <= j < |live| :: live[j].0
  }

  lemma {:induction false} DistinctKeysCount<V>(live: seq<Pair<V>>)
    requires DistinctKeys(live)
    ensures |KeysOf(live)| == |live|
  {
    if live != [] {
      DistinctKeysCount(live[1..]);
      assert KeysOf(live) == {live[0].0} + KeysOf(live[1..]) by {
        forall k | k in KeysOf(live) ensures k in {live[0].0} + KeysOf(live[1..]) {
          var j :| 0 <= j < |live| && live[j].0 == k;
          assert j > 0 ==> live[1..][j - 1].0 == k;
        }
      }
      assert live[0].0 !in KeysOf(live[1..]);
    }
  }

  /** The walk's entries are the finite map, each key once. */
  lemma EntriesAreTheMap<V>(h: Hash, bs: seq<Bucket<V>>, m: map<string, V>)
    requires BucketsOk(h, bs) && Represents(h, bs, m)
    ensures DistinctKeys(Entries(bs)) && |Entries(bs)| == |m|
    ensures forall key :: LookupIn(Entries(bs), key) == MapLookup(m, key)
  {
    assert bs[..|bs|] == bs;
    EntriesOfFirst(h, bs, |bs|);
    forall key ensures LookupIn(Entries(bs), key) == MapLookup(m, key) {
      assert Lookup(h, bs, key) == MapLookup(m, key);
      EntriesLookup(h, bs, |bs|, key);
    }
    DistinctKeysCount(Entries(bs));
    assert KeysOf(Entries(bs)) == m.Keys by {
      forall key ensures key in KeysOf(Entries(bs)) <==> key in m {
        assert LookupIn(Entries(bs), key) == MapLookup(m, key);
      }
    }
    assert |m.Keys| == |m|;
  }

  // ----- Putting, with the doubling it may take -----

  /** hashmap_put on values, with its recursion cut off after fuel calls. None: it has not returned. */
  function PutWithin<V>(h: Hash, t: Table<V>, key: string, v: V, fuel: nat): Option<(Table<V>, bool)>
    requires |t.buckets| > 0
    decreases fuel
  {
    if fuel == 0 then None
    else if t.count + 1 > t.maxSize then
      PutWithin(h, Table(Doubled(h, t.buckets), t.count, 2 * t.maxSize), key, v, fuel - 1)
    else
      var isNew := Lookup(h, t.buckets, key) == None;
      Some((Table(Insert(h, t.buckets, key, v, true), t.count + if isNew then 1 else 0, t.maxSize), isNew))
  }

  /** A put returns after finitely many calls if and only if max_size was at least 1, and then after at
      most two. So the first put into a map created with size 1 never returns: doubling leaves max_size
      at 0. */
  lemma PutReturnsIffRoom<V>(h: Hash, t: Table<V>, key: string, v: V)
    requires |t.buckets| > 0 && 0 <= t.count <= t.maxSize
    ensures (exists fuel: nat :: PutWithin(h, t, key, v, fuel).Some?) <==> t.maxSize >= 1
    ensures PutWithin(h, t, key, v, 2).Some? <==> t.maxSize >= 1
  {
    if t.maxSize == 0 {
      forall fuel: nat ensures PutWithin(h, t, key, v, fuel) == None {
        NoRoomForEver(h, t, key, v, fuel);
      }
    } else {
      assert PutWithin(h, t, key, v, 2).Some?;
    }
  }

  lemma {:induction false} NoRoomForEver<V>(h: Hash, t: Table<V>, key: string, v: V, fuel: nat)
    requires |t.buckets| > 0 && t.count == t.maxSize == 0
    ensures PutWithin(h, t, key, v, fuel) == None
    decreases fuel
  {
    if fuel > 0 {
      NoRoomForEver(h, Table(Doubled(h, t.buckets), 0, 0), key, v, fuel - 1);
    }
  }

  /** What a put with room does at once, and a put into a full table after one doubling. */
  lemma PutUnfolds<V>(h: Hash, t: Table<V>, key: string, v: V)
    requires |t.buckets| > 0 && 0 <= t.count <= t.maxSize && t.maxSize >= 1
    ensures var full := t.count + 1 > t.maxSize;
            var u := if full then Table(Doubled(h, t.buckets), t.count, 2 * t.maxSize) else t;
            var isNew := Lookup(h, u.buckets, key) == None;
            PutWithin(h, t, key, v, 2) ==
            Some((Table(Insert(h, u.buckets, key, v, true), t.count + if isNew then 1 else 0, u.maxSize), isNew))
  {
  }
}
