/** The contents of a chained hash table as values: buckets of key-value pairs, and the map they stand for. */
module Buckets {

  import opened Options

  datatype Pair<K, V> = Pair(key: K, value: V)

  /** The equality function is an equivalence, and equal keys have equal hashes. */
  ghost predicate Consistent<K(!new)>(equal: (K, K) -> bool, hash: K -> nat) {
    && (forall a :: equal(a, a))
    && (forall a, b :: equal(a, b) ==> equal(b, a) && hash(a) == hash(b))
    && (forall a, b, c :: equal(a, b) && equal(b, c) ==> equal(a, c))
  }

  lemma EqualLaws<K(!new)>(equal: (K, K) -> bool, hash: K -> nat, a: K, b: K, c: K)
    requires Consistent(equal, hash)
    ensures equal(a, a) && (equal(a, b) <==> equal(b, a)) && (equal(a, b) ==> hash(a) == hash(b))
    ensures equal(a, b) ==> (equal(a, c) <==> equal(b, c))
  {
  }

  /** All pairs in all buckets. */
  ghost function Pairs<K, V>(buckets: seq<seq<Pair<K, V>>>): multiset<Pair<K, V>> {
    if buckets == [] then multiset{} else multiset(buckets[0]) + Pairs(buckets[1..])
  }

  lemma {:induction false} PairsUpdate<K, V>(buckets: seq<seq<Pair<K, V>>>, i: nat, b: seq<Pair<K, V>>)
    requires i < |buckets|
    ensures multiset(buckets[i]) <= Pairs(buckets)
    ensures Pairs(buckets[i := b]) == Pairs(buckets) - multiset(buckets[i]) + multiset(b)
  {
    var rest, u := buckets[1..], buckets[i := b];
    if i == 0 {
      assert u[1..] == rest;
    } else {
      PairsUpdate(rest, i - 1, b);
      assert u[1..] == rest[i - 1 := b];
    }
  }

  lemma {:induction false} PairsIn<K, V>(buckets: seq<seq<Pair<K, V>>>, p: Pair<K, V>) returns (i: nat)
    requires p in Pairs(buckets)
    ensures i < |buckets| && p in buckets[i]
  {
    if p in multiset(buckets[0]) {
      i := 0;
    } else {
      i := PairsIn(buckets[1..], p);
      i := i + 1;
    }
  }

  lemma {:induction false} PairsConcat<K, V>(a: seq<seq<Pair<K, V>>>, b: seq<seq<Pair<K, V>>>)
    ensures Pairs(a + b) == Pairs(a) + Pairs(b)
  {
    if a == [] {
      assert a + b == b;
    } else {
      assert (a + b)[1..] == a[1..] + b;
      PairsConcat(a[1..], b);
    }
  }

  lemma {:induction false} PairsEmpty<K, V>(buckets: seq<seq<Pair<K, V>>>)
    requires forall i :: 0 <= i < |buckets| ==> buckets[i] == []
    ensures Pairs(buckets) == multiset{}
  {
    if buckets != [] { PairsEmpty(buckets[1..]); }
  }

  /** Every pair is in the bucket its hash selects. */
  ghost predicate WellPlaced<K, V>(hash: K -> nat, buckets: seq<seq<Pair<K, V>>>) {
    forall i, j :: 0 <= i < |buckets| && 0 <= j < |buckets[i]| ==> hash(buckets[i][j].key) % |buckets| == i
  }

  /** No two pairs have equal keys. */
  ghost predicate Unique<K, V>(equal: (K, K) -> bool, m: multiset<Pair<K, V>>) {
    && (forall p :: p in m ==> m[p] == 1)
    && (forall p, q :: p in m && q in m && equal(p.key, q.key) ==> p == q)
  }

  /** The map a set of pairs with unique keys stands for. */
  ghost function Get<K, V>(equal: (K, K) -> bool, m: multiset<Pair<K, V>>, k: K): Option<V> {
    if exists p :: p in m && equal(p.key, k) then (var p :| p in m && equal(p.key, k); Some(p.value)) else None
  }

  lemma GetPresent<K(!new), V>(equal: (K, K) -> bool, hash: K -> nat, m: multiset<Pair<K, V>>, p: Pair<K, V>, k: K)
    requires Consistent(equal, hash) && Unique(equal, m) && p in m && equal(p.key, k)
    ensures Get(equal, m, k) == Some(p.value)
  {
    forall q | q in m && equal(q.key, k) ensures q == p {
      EqualLaws(equal, hash, k, p.key, q.key);
      EqualLaws(equal, hash, p.key, k, q.key);
      EqualLaws(equal, hash, q.key, k, p.key);
    }
  }

  /** A bucket without an equal key: no pair in the table has one. */
  lemma NotInBucket<K(!new), V>(equal: (K, K) -> bool, hash: K -> nat, buckets: seq<seq<Pair<K, V>>>, k: K)
    requires Consistent(equal, hash) && WellPlaced(hash, buckets) && |buckets| > 0
    requires forall j :: 0 <= j < |buckets[hash(k) % |buckets|]| ==> !equal(buckets[hash(k) % |buckets|][j].key, k)
    ensures forall p :: p in Pairs(buckets) ==> !equal(p.key, k)
    ensures Get(equal, Pairs(buckets), k) == None
  {
    forall p | p in Pairs(buckets) ensures !equal(p.key, k) {
      var i := PairsIn(buckets, p);
      var j :| 0 <= j < |buckets[i]| && buckets[i][j] == p;
      EqualLaws(equal, hash, p.key, k, k);
    }
  }

  /** Adding a pair whose key is new adds it to the map. */
  lemma PutNew<K(!new), V>(equal: (K, K) -> bool, hash: K -> nat, m: multiset<Pair<K, V>>, p: Pair<K, V>)
    requires Consistent(equal, hash) && Unique(equal, m) && forall q :: q in m ==> !equal(q.key, p.key)
    ensures Unique(equal, m + multiset{p})
    ensures forall k :: Get(equal, m + multiset{p}, k) == if equal(k, p.key) then Some(p.value) else Get(equal, m, k)
  {
    var m' := m + multiset{p};
    forall q, r | q in m' && r in m' && equal(q.key, r.key) ensures q == r {
      EqualLaws(equal, hash, q.key, r.key, r.key);
    }
    assert p !in m by { EqualLaws(equal, hash, p.key, p.key, p.key); }
    forall k ensures Get(equal, m', k) == if equal(k, p.key) then Some(p.value) else Get(equal, m, k) {
      EqualLaws(equal, hash, k, p.key, p.key);
      if equal(k, p.key) {
        GetPresent(equal, hash, m', p, k);
      } else if q :| q in m && equal(q.key, k) {
        GetPresent(equal, hash, m, q, k);
        GetPresent(equal, hash, m', q, k);
      }
    }
  }

  /** Removing a pair removes its key from the map. */
  lemma Take<K(!new), V>(equal: (K, K) -> bool, hash: K -> nat, m: multiset<Pair<K, V>>, p: Pair<K, V>)
    requires Consistent(equal, hash) && Unique(equal, m) && p in m
    ensures Unique(equal, m - multiset{p}) && forall q :: q in m - multiset{p} ==> !equal(q.key, p.key)
    ensures forall k :: Get(equal, m - multiset{p}, k) == if equal(k, p.key) then None else Get(equal, m, k)
  {
    var m' := m - multiset{p};
    assert p !in m';
    forall k ensures Get(equal, m', k) == if equal(k, p.key) then None else Get(equal, m, k) {
      EqualLaws(equal, hash, k, p.key, p.key);
      if equal(k, p.key) {
        forall q | q in m' ensures !equal(q.key, k) {
          EqualLaws(equal, hash, q.key, k, p.key);
          EqualLaws(equal, hash, k, p.key, q.key);
        }
      } else if q :| q in m && equal(q.key, k) {
        assert q != p by { EqualLaws(equal, hash, p.key, k, k); }
        GetPresent(equal, hash, m, q, k);
        GetPresent(equal, hash, m', q, k);
      }
    }
  }

  /** Overwriting the pair of an equal key. */
  lemma Replace<K(!new), V>(equal: (K, K) -> bool, hash: K -> nat, m: multiset<Pair<K, V>>, p: Pair<K, V>,
                            p': Pair<K, V>)
    requires Consistent(equal, hash) && Unique(equal, m) && p in m && equal(p.key, p'.key)
    ensures var m' := m - multiset{p} + multiset{p'};
      Unique(equal, m')
        && forall k :: Get(equal, m', k) == if equal(k, p'.key) then Some(p'.value) else Get(equal, m, k)
  {
    Take(equal, hash, m, p);
    var m0 := m - multiset{p};
    forall q | q in m0 ensures !equal(q.key, p'.key) {
      EqualLaws(equal, hash, p'.key, p.key, q.key);
      EqualLaws(equal, hash, q.key, p'.key, p.key);
      EqualLaws(equal, hash, p.key, p'.key, q.key);
    }
    PutNew(equal, hash, m0, p');
    forall k ensures equal(k, p'.key) <==> equal(k, p.key) {
      EqualLaws(equal, hash, p.key, p'.key, k);
      EqualLaws(equal, hash, k, p.key, k);
      EqualLaws(equal, hash, k, p'.key, k);
    }
  }

  /** The pairs bucket by bucket. */
  ghost function Flatten<K, V>(buckets: seq<seq<Pair<K, V>>>): seq<Pair<K, V>> {
    if buckets == [] then [] else buckets[0] + Flatten(buckets[1..])
  }

  /** Bucket by bucket, every pair is met exactly once. */
  lemma {:induction false} FlattenPairs<K, V>(buckets: seq<seq<Pair<K, V>>>)
    ensures multiset(Flatten(buckets)) == Pairs(buckets)
  {
    if buckets != [] { FlattenPairs(buckets[1..]); }
  }

  lemma FlattenFrom<K, V>(buckets: seq<seq<Pair<K, V>>>, c: nat)
    requires c < |buckets|
    ensures Flatten(buckets[c..]) == buckets[c] + Flatten(buckets[c + 1..])
  {
    assert buckets[c..][1..] == buckets[c + 1..];
  }
}
