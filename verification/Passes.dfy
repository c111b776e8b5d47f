/** Deleting from the table while hashmap_iter walks it. The callback deletes the entry it is called
    with whenever its value is in a set S. Because a deletion copies the next node into the deleted
    one, the walk then steps over that copied entry. */
module Passes {
  import opened Arithmetic
  import opened Bits
  import opened Wrappers
  import opened Buckets

  /** The walk through one bucket from position p on. */
  ghost function PassFrom<V>(b: Bucket<V>, p: nat, S: set<V>): Bucket<V>
    decreases |b.live| - p
  {
    if p >= |b.live| then b
    else if b.live[p].1 in S then PassFrom(DeleteAt(b, p), p + 1, S)
    else PassFrom(b, p + 1, S)
  }

  lemma PassStep<V>(b: Bucket<V>, p: nat, S: set<V>)
    ensures if p >= |b.live| then PassFrom(b, p, S) == b
            else PassFrom(b, p, S) == PassFrom(if b.live[p].1 in S then DeleteAt(b, p) else b, p + 1, S)
  {
  }

  ghost function Pass<V>(bs: seq<Bucket<V>>, S: set<V>): seq<Bucket<V>> {
    seq(|bs|, i requires 0 <= i < |bs| => PassFrom(bs[i], 0, S))
  }

  /** The same as a plain recursion over the list: a deleted entry shields the one after it. */
  ghost function Survivors<V>(live: seq<Pair<V>>, S: set<V>): seq<Pair<V>> {
    if live == [] then []
    else if live[0].1 !in S then [live[0]] + Survivors(live[1..], S)
    else if |live| == 1 then []
    else [live[1]] + Survivors(live[2..], S)
  }

  /** What the walk has behind it and before it after a deletion. */
  lemma DeletedAt<V>(b: Bucket<V>, p: nat)
    requires p < |b.live|
    ensures |DeleteAt(b, p).live| == |b.live| - 1
    ensures var c := DeleteAt(b, p);
            if p + 1 == |b.live| then c.live == b.live[..p]
            else c.live[..p + 1] == b.live[..p] + [b.live[p + 1]] && c.live[p + 1..] == b.live[p + 2..]
  {
  }

  lemma {:induction false} PassLeavesSurvivors<V>(b: Bucket<V>, p: nat, S: set<V>)
    requires p <= |b.live|
    ensures PassFrom(b, p, S).live == b.live[..p] + Survivors(b.live[p..], S)
    decreases |b.live| - p
  {
    hide DeleteAt, PassFrom;
    PassStep(b, p, S);
    if p < |b.live| {
      var live := b.live[p..];
      if b.live[p].1 in S {
        DeletedAt(b, p);
        if |live| == 1 {
          PassStep(DeleteAt(b, p), p + 1, S);
        } else {
          PassLeavesSurvivors(DeleteAt(b, p), p + 1, S);
          assert live[2..] == b.live[p + 2..];
        }
      } else {
        PassLeavesSurvivors(b, p + 1, S);
        assert live[1..] == b.live[p + 1..] && b.live[..p + 1] == b.live[..p] + [live[0]];
      }
    }
  }

  lemma PassBucket<V>(bs: seq<Bucket<V>>, i: nat, S: set<V>)
    requires i < |bs|
    ensures Pass(bs, S)[i].live == Survivors(bs[i].live, S)
  {
    PassLeavesSurvivors(bs[i], 0, S);
    assert bs[i].live[0..] == bs[i].live;
  }

  // ----- Who survives -----

  lemma {:induction false} SurvivorsComeFromTheList<V>(live: seq<Pair<V>>, S: set<V>, e: Pair<V>)
    ensures e in Survivors(live, S) ==> e in live
    ensures e in live && e.1 !in S ==> e in Survivors(live, S)
  {
    if live == [] {
    } else if live[0].1 !in S {
      SurvivorsComeFromTheList(live[1..], S, e);
      assert live == [live[0]] + live[1..];
    } else if |live| > 1 {
      SurvivorsComeFromTheList(live[2..], S, e);
      assert live == [live[0], live[1]] + live[2..];
    }
  }

  lemma {:induction false} SurvivorsKeepOrder<V>(live: seq<Pair<V>>, S: set<V>, h: Hash, size: nat, i: nat)
    requires size > 0 && DistinctKeys(live)
    requires forall j :: 0 <= j < |live| ==> Slot(h, size, live[j].0) == i
    ensures DistinctKeys(Survivors(live, S))
    ensures forall j :: 0 <= j < |Survivors(live, S)| ==> Slot(h, size, Survivors(live, S)[j].0) == i
  {
    if live != [] && (live[0].1 !in S || |live| > 1) {
      var k := if live[0].1 !in S then 0 else 1;
      var rest := live[k + 1..];
      SurvivorsKeepOrder(rest, S, h, size, i);
      var r := Survivors(rest, S);
      forall j | 0 <= j < |r| ensures r[j].0 != live[k].0 && Slot(h, size, r[j].0) == i {
        SurvivorsComeFromTheList(rest, S, r[j]);
        var m :| 0 <= m < |rest| && rest[m] == r[j];
        assert live[k + 1 + m] == r[j];
      }
    }
  }

  lemma PassKeepsBucketsOk<V>(h: Hash, bs: seq<Bucket<V>>, S: set<V>)
    requires BucketsOk(h, bs)
    ensures BucketsOk(h, Pass(bs, S))
  {
    forall i | 0 <= i < |bs| ensures BucketOk(h, |bs|, i, Pass(bs, S)[i]) {
      assert BucketOk(h, |bs|, i, bs[i]);
      PassBucket(bs, i, S);
      SurvivorsKeepOrder(bs[i].live, S, h, |bs|, i);
      EmptiedIsBlank(bs[i], 0, S);
    }
  }

  lemma {:induction false} EmptiedIsBlank<V>(b: Bucket<V>, p: nat, S: set<V>)
    requires b.live == [] ==> b.blank
    ensures PassFrom(b, p, S).live == [] ==> PassFrom(b, p, S).blank
    decreases |b.live| - p
  {
    if p < |b.live| {
      EmptiedIsBlank(if b.live[p].1 in S then DeleteAt(b, p) else b, p + 1, S);
    }
  }

  // ----- How many stale entries are left -----

  ghost function StaleIn<V>(live: seq<Pair<V>>, S: set<V>): nat {
    if live == [] then 0 else (if live[0].1 in S then 1 else 0) + StaleIn(live[1..], S)
  }

  ghost function StaleTotal<V>(bs: seq<Bucket<V>>, S: set<V>): nat {
    if bs == [] then 0 else StaleTotal(bs[..|bs| - 1], S) + StaleIn(bs[|bs| - 1].live, S)
  }

  lemma {:induction false} SurvivorsHalve<V>(live: seq<Pair<V>>, S: set<V>)
    ensures 2 * StaleIn(Survivors(live, S), S) <= StaleIn(live, S)
  {
    if live != [] {
      if live[0].1 !in S {
        SurvivorsHalve(live[1..], S);
        assert Survivors(live, S)[1..] == Survivors(live[1..], S);
      } else if |live| > 1 {
        SurvivorsHalve(live[2..], S);
        assert live[1..][1..] == live[2..];
        assert Survivors(live, S)[1..] == Survivors(live[2..], S);
      }
    }
  }

  /** One pass leaves at most half of the stale entries, rounded down. */
  lemma {:induction false} PassHalves<V>(bs: seq<Bucket<V>>, S: set<V>)
    ensures 2 * StaleTotal(Pass(bs, S), S) <= StaleTotal(bs, S)
  {
    if bs != [] {
      var n := |bs| - 1;
      PassBucket(bs, n, S);
      SurvivorsHalve(bs[n].live, S);
      PassHalves(bs[..n], S);
      assert Pass(bs, S)[..n] == Pass(bs[..n], S);
    }
  }

  lemma {:induction false} StaleInAppend<V>(a: seq<Pair<V>>, b: seq<Pair<V>>, S: set<V>)
    ensures StaleIn(a + b, S) == StaleIn(a, S) + StaleIn(b, S)
  {
    if a == [] {
      assert a + b == b;
    } else {
      assert (a + b)[1..] == a[1..] + b;
      StaleInAppend(a[1..], b, S);
    }
  }

  /** Counting bucket by bucket is counting along the walk. */
  lemma {:induction false} StaleTotalIsStaleIn<V>(bs: seq<Bucket<V>>, S: set<V>)
    ensures StaleTotal(bs, S) == StaleIn(Entries(bs), S)
  {
    if bs != [] {
      var n := |bs| - 1;
      StaleTotalIsStaleIn(bs[..n], S);
      StaleInAppend(Entries(bs[..n]), bs[n].live, S);
    }
  }

  /** The bound is met: a bucket of stale entries only keeps exactly half of them, rounded down. */
  lemma {:induction false} AllStaleLeavesHalf<V>(live: seq<Pair<V>>, S: set<V>)
    requires forall j :: 0 <= j < |live| ==> live[j].1 in S
    ensures |Survivors(live, S)| == |live| / 2
  {
    if |live| > 1 {
      AllStaleLeavesHalf(live[2..], S);
    }
  }

  /** No two neighbours are both stale. */
  ghost predicate StaleApart<V>(live: seq<Pair<V>>, S: set<V>) {
    forall j :: 0 <= j < |live| - 1 ==> live[j].1 !in S || live[j + 1].1 !in S
  }

  /** A bucket is cleared exactly if it has no two stale neighbours. */
  lemma {:induction false} ClearedIfApart<V>(live: seq<Pair<V>>, S: set<V>)
    ensures StaleIn(Survivors(live, S), S) == 0 <==> StaleApart(live, S)
  {
    if live != [] {
      if live[0].1 !in S {
        ClearedIfApart(live[1..], S);
        assert Survivors(live, S)[1..] == Survivors(live[1..], S);
        ApartTail(live, 1, S);
      } else if |live| > 1 {
        ClearedIfApart(live[2..], S);
        assert Survivors(live, S)[1..] == Survivors(live[2..], S);
        if live[1].1 !in S {
          ApartTail(live, 2, S);
        }
      }
    }
  }

  lemma ApartTail<V>(live: seq<Pair<V>>, n: nat, S: set<V>)
    requires 0 < n <= |live| && StaleApart(live[..n], S)
    requires n == |live| || live[n - 1].1 !in S
    ensures StaleApart(live, S) <==> StaleApart(live[n..], S)
  {
    if StaleApart(live[n..], S) {
      forall j | 0 <= j < |live| - 1 ensures live[j].1 !in S || live[j + 1].1 !in S {
        if j >= n {
          assert live[n..][j - n] == live[j] && live[n..][j - n + 1] == live[j + 1];
        } else if j + 1 < n {
          assert live[..n][j] == live[j] && live[..n][j + 1] == live[j + 1];
        }
      }
    }
  }

  /** One pass removes every stale entry if and only if no bucket has two stale neighbours. */
  lemma {:induction false} PassClearsIff<V>(bs: seq<Bucket<V>>, S: set<V>)
    ensures StaleTotal(Pass(bs, S), S) == 0 <==> forall i :: 0 <= i < |bs| ==> StaleApart(bs[i].live, S)
  {
    hide StaleApart;
    if bs != [] {
      var n := |bs| - 1;
      PassBucket(bs, n, S);
      ClearedIfApart(bs[n].live, S);
      PassClearsIff(bs[..n], S);
      assert Pass(bs, S)[..n] == Pass(bs[..n], S);
      assert forall i :: 0 <= i < n ==> bs[..n][i] == bs[i];
    }
  }

  ghost function Passes<V>(bs: seq<Bucket<V>>, S: set<V>, k: nat): seq<Bucket<V>>
    decreases k
  {
    if k == 0 then bs else Passes(Pass(bs, S), S, k - 1)
  }

  /** After k passes at most n / 2^k stale entries are left of n. */
  lemma {:induction false} PassesHalveRepeatedly<V>(bs: seq<Bucket<V>>, S: set<V>, k: nat)
    ensures Pow2(k) * StaleTotal(Passes(bs, S, k), S) <= StaleTotal(bs, S)
    decreases k
  {
    if k > 0 {
      PassHalves(bs, S);
      PassesHalveRepeatedly(Pass(bs, S), S, k - 1);
      var x := StaleTotal(Passes(bs, S, k), S);
      Regroup(Pow2(k - 1), x);
    }
  }

  /** Fewer than 2^k stale entries are all gone after k passes. */
  lemma PassesFinish<V>(bs: seq<Bucket<V>>, S: set<V>, k: nat)
    requires StaleTotal(bs, S) < Pow2(k)
    ensures StaleTotal(Passes(bs, S, k), S) == 0
  {
    PassesHalveRepeatedly(bs, S, k);
    var x := StaleTotal(Passes(bs, S, k), S);
    if x >= 1 {
      MulStep(Pow2(k), 0, x);
      assert false;
    }
  }

  // ----- How long one stale entry can stay, whatever else happens to the table -----

  /** Everything that changes the table: a put (which may first double it), a delete, a pass. */
  datatype Change<V> = ChangePut(key: string, v: V, grows: bool) | ChangeDelete(key: string) | ChangePass(S: set<V>)

  ghost function Apply<V>(h: Hash, bs: seq<Bucket<V>>, c: Change<V>): seq<Bucket<V>>
    requires |bs| > 0
    ensures |Apply(h, bs, c)| > 0
  {
    match c
    case ChangePut(key, v, grows) => Insert(h, if grows then Doubled(h, bs) else bs, key, v, true)
    case ChangeDelete(key) => Delete(h, bs, key)
    case ChangePass(S) => Pass(bs, S)
  }

  ghost function ApplyAll<V>(h: Hash, bs: seq<Bucket<V>>, cs: seq<Change<V>>): (r: seq<Bucket<V>>)
    requires |bs| > 0
    ensures |r| > 0
    decreases |cs|
  {
    if cs == [] then bs else Apply(h, ApplyAll(h, bs, cs[..|cs| - 1]), cs[|cs| - 1])
  }

  ghost function PassCount<V>(cs: seq<Change<V>>): nat {
    if cs == [] then 0 else PassCount(cs[..|cs| - 1]) + if cs[|cs| - 1].ChangePass? then 1 else 0
  }

  /** How many entries are in front of the key in its bucket. */
  function Position<V>(h: Hash, bs: seq<Bucket<V>>, key: string): nat
    requires |bs| > 0
  {
    IndexOf(bs[Slot(h, |bs|, key)].live, key)
  }

  lemma {:induction false} BelongingMovesUp<V>(h: Hash, size: nat, i: nat, live: seq<Pair<V>>, key: string)
    requires size > 0 && Slot(h, size, key) == i
    ensures |Belonging(h, size, i, live)| <= |live|
    ensures IndexOf(Belonging(h, size, i, live), key) <= IndexOf(live, key)
    ensures IndexOf(live, key) < |live| ==> IndexOf(Belonging(h, size, i, live), key) < |Belonging(h, size, i, live)|
  {
    if live != [] {
      var n := |live| - 1;
      BelongingMovesUp(h, size, i, live[..n], key);
      IndexOfAppend(live[..n], live[n], key);
      assert live == live[..n] + [live[n]];
      var r := Belonging(h, size, i, live[..n]);
      IndexOfAppend(r, live[n], key);
      assert r + [] == r;
    }
  }

  lemma IndexOfAppend<V>(live: seq<Pair<V>>, e: Pair<V>, key: string)
    ensures IndexOf(live + [e], key) ==
            if IndexOf(live, key) < |live| || e.0 == key then IndexOf(live, key) else |live| + 1
  {
    var j, k, l := IndexOf(live, key), IndexOf(live + [e], key), live + [e];
    assert forall m :: 0 <= m < |live| ==> l[m] == live[m];
    assert l[|live|] == e;
  }

  lemma HeadOrTail<V>(live: seq<Pair<V>>, key: string)
    requires live != []
    ensures IndexOf(live, key) == if live[0].0 == key then 0 else 1 + IndexOf(live[1..], key)
    ensures LookupIn(live, key) == if live[0].0 == key then Some(live[0].1) else LookupIn(live[1..], key)
  {
  }

  lemma AbsentFromTail<V>(live: seq<Pair<V>>, n: nat, key: string)
    requires DistinctKeys(live) && IndexOf(live, key) < n <= |live|
    ensures DistinctKeys(live[n..]) && LookupIn(live[n..], key) == None
  {
    TailDistinct(live, n);
  }

  /** A stale entry that a pass leaves behind has moved up in its bucket. */
  lemma {:induction false} SurvivorMovesUp<V>(live: seq<Pair<V>>, S: set<V>, key: string)
    requires DistinctKeys(live)
    requires LookupIn(live, key).Some? && LookupIn(live, key).value in S
    ensures var r := Survivors(live, S);
            || LookupIn(r, key) == None
            || (IndexOf(r, key) < IndexOf(live, key) && LookupIn(r, key) == LookupIn(live, key))
  {
    hide DistinctKeys, IndexOf, LookupIn;
    assert live != [] by { NothingInEmpty<V>(key); }
    var r := Survivors(live, S);
    HeadOrTail(live, key);
    if live[0].1 !in S {
      TailDistinct(live, 1);
      SurvivorMovesUp(live[1..], S, key);
      HeadOrTail(r, key);
      assert r[1..] == Survivors(live[1..], S);
    } else if |live| == 1 {
      NothingInEmpty<V>(key);
    } else {
      HeadOrTail(live[1..], key);
      assert live[1..][1..] == live[2..] && live[1..][0] == live[1];
      HeadOrTail(r, key);
      assert r[0] == live[1] && r[1..] == Survivors(live[2..], S);
      if live[0].0 == key {
        AbsentFromTail(live, 1, key);
        AbsentFromTail(live, 2, key);
        NotAmongSurvivors(live[2..], S, key);
      } else if live[1].0 != key {
        TailDistinct(live, 2);
        SurvivorMovesUp(live[2..], S, key);
      }
    }
  }

  lemma NothingInEmpty<V>(key: string)
    ensures LookupIn<V>([], key) == None
  {
  }

  /** The keys of a tail are distinct, and not among those before it. */
  lemma TailDistinct<V>(live: seq<Pair<V>>, n: nat)
    requires DistinctKeys(live) && n <= |live|
    ensures DistinctKeys(live[n..])
    ensures forall i, j :: 0 <= i < n && 0 <= j < |live| - n ==> live[n..][j].0 != live[i].0
  {
  }

  lemma NotAmongSurvivors<V>(live: seq<Pair<V>>, S: set<V>, key: string)
    requires LookupIn(live, key) == None
    ensures LookupIn(Survivors(live, S), key) == None
  {
    var r := Survivors(live, S);
    var j := IndexOf(r, key);
    if j < |r| {
      SurvivorsComeFromTheList(live, S, r[j]);
    }
  }

  lemma InsertMovesNoOther<V>(h: Hash, bs: seq<Bucket<V>>, key: string, k: string, v: V)
    requires BucketsOk(h, bs) && k != key && Lookup(h, bs, key).Some?
    ensures Position(h, Insert(h, bs, k, v, true), key) == Position(h, bs, key)
  {
    var i := Slot(h, |bs|, key);
    var b := bs[i];
    var c := InsertInBucket(b, k, v, true);
    assert BucketOk(h, |bs|, i, b);
    InsertInBucketLookup(b, k, v, key);
    var j := IndexOf(b.live, key);
    assert c.live[j].0 == key;
    IndexIsUnique(c.live, j);
  }

  lemma DeleteMovesUp<V>(h: Hash, bs: seq<Bucket<V>>, key: string, k: string)
    requires BucketsOk(h, bs) && k != key && Lookup(h, bs, key).Some?
    ensures Position(h, Delete(h, bs, k), key) <= Position(h, bs, key)
  {
    var i := Slot(h, |bs|, key);
    var b := bs[i];
    assert BucketOk(h, |bs|, i, b);
    var j, d := IndexOf(b.live, key), IndexOf(b.live, k);
    if Slot(h, |bs|, k) == i && d < |b.live| {
      var c := Without(b.live, d);
      WithoutLookup(b.live, d, key);
      var j' := if j < d then j else j - 1;
      assert c[j'].0 == key;
      IndexIsUnique(c, j');
    }
  }

  lemma DoublingMovesUp<V>(h: Hash, bs: seq<Bucket<V>>, key: string)
    requires |bs| > 0
    ensures Position(h, Doubled(h, bs), key) <= Position(h, bs, key)
  {
    var n := |bs|;
    var s := Slot(h, 2 * n, key);
    ModOfDouble(h(key), n);
    assert Doubled(h, bs)[s] == DoubledBucket(h, bs, s);
    BelongingMovesUp(h, 2 * n, s, bs[s % n].live, key);
  }

  lemma PassMovesUp<V>(h: Hash, bs: seq<Bucket<V>>, S: set<V>, key: string, v: V)
    requires BucketsOk(h, bs) && Lookup(h, bs, key) == Some(v) && v in S
    ensures var cs := Pass(bs, S);
            || Lookup(h, cs, key) == None
            || (Lookup(h, cs, key) == Some(v) && Position(h, cs, key) < Position(h, bs, key))
  {
    var i := Slot(h, |bs|, key);
    assert BucketOk(h, |bs|, i, bs[i]);
    PassBucket(bs, i, S);
    SurvivorMovesUp(bs[i].live, S, key);
  }

  /** One change: the key stays where it is or moves up; a pass that finds it stale moves it up or out. */
  lemma ChangeMovesUp<V>(h: Hash, bs: seq<Bucket<V>>, c: Change<V>, key: string, v: V)
    requires BucketsOk(h, bs) && Lookup(h, bs, key) == Some(v)
    requires c.ChangePut? ==> c.key != key
    requires c.ChangePass? ==> v in c.S
    ensures BucketsOk(h, Apply(h, bs, c))
    ensures var cs := Apply(h, bs, c);
            || Lookup(h, cs, key) == None
            || (Lookup(h, cs, key) == Some(v)
                && Position(h, cs, key) + (if c.ChangePass? then 1 else 0) <= Position(h, bs, key))
  {
    hide Lookup, Position, BucketOk, InsertInBucket, DeleteAt, DoubledBucket, PassFrom;
    match c
    case ChangePut(k, w, grows) =>
      var ds := bs;
      if grows {
        ds := Doubled(h, bs);
        DoubledKeepsBucketsOk(h, bs);
        DoubledLookup(h, bs, key);
        DoublingMovesUp(h, bs, key);
      }
      InsertKeepsBucketsOk(h, ds, k, w);
      InsertLookup(h, ds, k, w, key);
      InsertMovesNoOther(h, ds, key, k, w);
    case ChangeDelete(k) =>
      DeleteKeepsBucketsOk(h, bs, k);
      DeleteLookup(h, bs, k, key);
      if k != key {
        DeleteMovesUp(h, bs, key, k);
      }
    case ChangePass(S) =>
      PassKeepsBucketsOk(h, bs, S);
      PassMovesUp(h, bs, S, key, v);
  }

  lemma ChangeKeepsAbsent<V>(h: Hash, bs: seq<Bucket<V>>, c: Change<V>, key: string)
    requires BucketsOk(h, bs) && Lookup(h, bs, key) == None
    requires c.ChangePut? ==> c.key != key
    ensures BucketsOk(h, Apply(h, bs, c)) && Lookup(h, Apply(h, bs, c), key) == None
  {
    match c
    case ChangePut(k, w, grows) =>
      var ds := bs;
      if grows {
        ds := Doubled(h, bs);
        DoubledKeepsBucketsOk(h, bs);
        DoubledLookup(h, bs, key);
      }
      InsertKeepsBucketsOk(h, ds, k, w);
      InsertLookup(h, ds, k, w, key);
    case ChangeDelete(k) =>
      DeleteKeepsBucketsOk(h, bs, k);
      DeleteLookup(h, bs, k, key);
    case ChangePass(S) =>
      PassKeepsBucketsOk(h, bs, S);
      var i := Slot(h, |bs|, key);
      PassBucket(bs, i, S);
      NotAmongSurvivors(bs[i].live, S, key);
  }

  /** Nothing puts the key, and every pass that comes while the entry is there finds it stale. */
  ghost predicate StaysStale<V>(h: Hash, bs: seq<Bucket<V>>, cs: seq<Change<V>>, key: string, v: V)
    requires |bs| > 0
  {
    && (forall j :: 0 <= j < |cs| && cs[j].ChangePut? ==> cs[j].key != key)
    && (forall j :: 0 <= j < |cs| && cs[j].ChangePass? ==>
          Lookup(h, ApplyAll(h, bs, cs[..j]), key) == Some(v) ==> v in cs[j].S)
  }

  lemma {:induction false} StaleEntryMovesUp<V>(h: Hash, bs: seq<Bucket<V>>, cs: seq<Change<V>>, key: string, v: V)
    requires BucketsOk(h, bs) && Lookup(h, bs, key) == Some(v)
    requires StaysStale(h, bs, cs, key, v)
    ensures var ds := ApplyAll(h, bs, cs);
            && BucketsOk(h, ds)
            && (|| Lookup(h, ds, key) == None
                || (Lookup(h, ds, key) == Some(v) && Position(h, ds, key) + PassCount(cs) <= Position(h, bs, key)))
    decreases |cs|
  {
    hide BucketOk, Lookup, Position, Apply;
    if cs != [] {
      var n := |cs| - 1;
      assert StaysStale(h, bs, cs[..n], key, v) by {
        assert forall j :: 0 <= j < n ==> cs[..n][j] == cs[j] && cs[..n][..j] == cs[..j];
      }
      StaleEntryMovesUp(h, bs, cs[..n], key, v);
      var ds := ApplyAll(h, bs, cs[..n]);
      if Lookup(h, ds, key) == None {
        ChangeKeepsAbsent(h, ds, cs[n], key);
      } else {
        ChangeMovesUp(h, ds, cs[n], key, v);
      }
    }
  }

  /** A stale entry with p entries in front of it is gone after p + 1 passes, whatever puts of other
      keys (with or without doubling) and deletes happen in between. */
  lemma StaleEntryLeaves<V>(h: Hash, bs: seq<Bucket<V>>, cs: seq<Change<V>>, key: string, v: V)
    requires BucketsOk(h, bs) && Lookup(h, bs, key) == Some(v)
    requires StaysStale(h, bs, cs, key, v)
    requires PassCount(cs) > Position(h, bs, key)
    ensures Lookup(h, ApplyAll(h, bs, cs), key) == None
  {
    StaleEntryMovesUp(h, bs, cs, key, v);
  }
}
