/** The chained hash table: an array of chains of entries, enlarged as it fills, and its iterator. */
module HashTables {
  import opened Buckets
  import opened Allocation
  import opened Options
  import opened Sequences

  class Entry<K, V> {
    var key: K
    var value: V
    var next: Entry?<K, V>

    constructor (key: K, value: V)
      ensures this.key == key && this.value == value && next == null
    {
      this.key, this.value, next := key, value, null;
    }
  }

  // ---------- how chains lie in the heap ----------

  /** The chains of entries, the pairs they hold, and the chain each entry is in. */
  datatype Layout<K, V> = Layout(chains: seq<seq<Entry<K, V>>>, buckets: seq<seq<Pair<K, V>>>,
                                 home: map<Entry<K, V>, nat>)

  function At<K, V>(chain: seq<Entry<K, V>>, j: nat): Entry?<K, V> {
    if j < |chain| then chain[j] else null
  }

  ghost predicate ChainOk<K, V>(head: Entry?<K, V>, chain: seq<Entry<K, V>>, bucket: seq<Pair<K, V>>)
    reads chain
  {
    && |chain| == |bucket| && head == At(chain, 0)
    && (forall j {:trigger chain[j].next} :: 0 <= j < |chain| ==> chain[j].next == At(chain, j + 1))
    && (forall j :: 0 <= j < |chain| ==> chain[j].key == bucket[j].key && chain[j].value == bucket[j].value)
  }

  /** No entry is in two chains or twice in one. */
  ghost predicate Apart<K, V>(w: Layout<K, V>) {
    && |w.chains| == |w.buckets|
    && (forall i, j :: 0 <= i < |w.chains| && 0 <= j < |w.chains[i]| ==>
         w.chains[i][j] in w.home
         && w.home[w.chains[i][j]] == i)
    && (forall i, j, k :: 0 <= i < |w.chains| && 0 <= j < k < |w.chains[i]| ==> w.chains[i][j] != w.chains[i][k])
    && (forall e :: e in w.home ==> w.home[e] < |w.chains| && e in w.chains[w.home[e]])
  }

  ghost predicate Laid<K, V>(heads: seq<Entry?<K, V>>, w: Layout<K, V>)
    reads w.home.Keys
  {
    && Apart(w) && |heads| == |w.chains| == |w.buckets|
    && forall i :: 0 <= i < |heads| ==> ChainOk(heads[i], w.chains[i], w.buckets[i])
  }

  ghost function Push<K, V>(w: Layout<K, V>, i: nat, e: Entry<K, V>, p: Pair<K, V>): Layout<K, V>
    requires i < |w.chains| == |w.buckets|
  {
    Layout(w.chains[i := [e] + w.chains[i]], w.buckets[i := [p] + w.buckets[i]], w.home[e := i])
  }

  /** Without the entry at position j of chain i. */
  ghost function Drop<K, V>(w: Layout<K, V>, i: nat, j: nat): Layout<K, V>
    requires i < |w.chains| == |w.buckets| && j < |w.chains[i]| == |w.buckets[i]|
  {
    var c, b := w.chains[i], w.buckets[i];
    Layout(w.chains[i := c[..j] + c[j + 1..]], w.buckets[i := b[..j] + b[j + 1..]], w.home - {c[j]})
  }

  lemma PushApart<K, V>(w: Layout<K, V>, i: nat, e: Entry<K, V>, p: Pair<K, V>)
    requires Apart(w) && i < |w.chains| && e !in w.home
    ensures Apart(Push(w, i, e, p))
  {
  }

  lemma DropApart<K, V>(w: Layout<K, V>, i: nat, j: nat)
    requires Apart(w) && i < |w.chains| && j < |w.chains[i]| == |w.buckets[i]|
    ensures Apart(Drop(w, i, j))
  {
  }

  /** An entry that leads to a chain is in front of it. */
  lemma PushLaid<K, V>(heads: seq<Entry?<K, V>>, w: Layout<K, V>, i: nat, e: Entry<K, V>, p: Pair<K, V>)
    requires Laid(heads, w) && i < |heads| && e !in w.home
    requires e.next == heads[i] && e.key == p.key && e.value == p.value
    ensures Laid(heads[i := e], Push(w, i, e, p))
  {
    hide Apart, ChainOk;
    PushApart(w, i, e, p);
    var w', c, b := Push(w, i, e, p), w.chains[i], w.buckets[i];
    ChainFront(heads[i], c, b, e, p);
    forall k | 0 <= k < |heads| ensures ChainOk(heads[i := e][k], w'.chains[k], w'.buckets[k]) {
      if k != i { assert ChainOk(heads[k], w.chains[k], w.buckets[k]); }
    }
  }

  lemma ChainFront<K, V>(head: Entry?<K, V>, chain: seq<Entry<K, V>>, bucket: seq<Pair<K, V>>, e: Entry<K, V>,
                         p: Pair<K, V>)
    requires ChainOk(head, chain, bucket) && e.next == head && e.key == p.key && e.value == p.value
    ensures ChainOk(e, [e] + chain, [p] + bucket)
  {
    var c := [e] + chain;
    forall j | 0 <= j < |c| ensures c[j].next == At(c, j + 1) {
      if j > 0 { assert c[j] == chain[j - 1]; }
    }
  }

  lemma ChainTail<K, V>(head: Entry?<K, V>, chain: seq<Entry<K, V>>, bucket: seq<Pair<K, V>>)
    requires ChainOk(head, chain, bucket) && head != null
    ensures chain != [] && chain[0] == head && ChainOk(head.next, chain[1..], bucket[1..])
  {
    var c := chain[1..];
    assert head.next == At(chain, 1) == At(c, 0);
    forall j | 0 <= j < |c| ensures c[j].next == At(c, j + 1) {
      assert c[j] == chain[j + 1];
    }
  }

  lemma PopLaid<K, V>(heads: seq<Entry?<K, V>>, w: Layout<K, V>, i: nat)
    requires Laid(heads, w) && i < |heads| && heads[i] != null
    ensures |w.chains[i]| == |w.buckets[i]| > 0 && w.chains[i][0] == heads[i] && heads[i] in w.home
    ensures Laid(heads[i := heads[i].next], Drop(w, i, 0))
    ensures heads[i].key == w.buckets[i][0].key && heads[i].value == w.buckets[i][0].value
  {
    var c, b := w.chains[i], w.buckets[i];
    ChainTail(heads[i], c, b);
    assert c[0] in w.home;
    DropApart(w, i, 0);
    hide Apart;
    var w' := Drop(w, i, 0);
    assert c[..0] + c[1..] == c[1..] && b[..0] + b[1..] == b[1..];
    forall k | 0 <= k < |heads| ensures ChainOk(heads[i := heads[i].next][k], w'.chains[k], w'.buckets[k]) {
      assert ChainOk(heads[k], w.chains[k], w.buckets[k]);
    }
  }

  lemma Here<K, V>(heads: seq<Entry?<K, V>>, w: Layout<K, V>, i: nat, j: nat)
    requires Laid(heads, w) && i < |heads|
    ensures |w.chains| == |w.buckets| == |heads| && |w.chains[i]| == |w.buckets[i]| && heads[i] == At(w.chains[i], 0)
    ensures j < |w.chains[i]| ==> var e := w.chains[i][j];
      e in w.home && e.next == At(w.chains[i], j + 1) && e.key == w.buckets[i][j].key
        && e.value == w.buckets[i][j].value
  {
    assert ChainOk(heads[i], w.chains[i], w.buckets[i]);
  }

  /** A chain whose entry before position j was led past it. */
  ghost predicate Skipping<K, V>(head: Entry?<K, V>, c: seq<Entry<K, V>>, b: seq<Pair<K, V>>, j: nat)
    reads c
  {
    && 0 < j < |c| == |b| && head == c[0] && c[j - 1].next == At(c, j + 1)
    && (forall k :: 0 <= k < |c| && k != j - 1 ==> c[k].next == At(c, k + 1))
    && (forall k :: 0 <= k < |c| ==> c[k].key == b[k].key && c[k].value == b[k].value)
  }

  lemma BeforeSkip<K, V>(head: Entry?<K, V>, c: seq<Entry<K, V>>, b: seq<Pair<K, V>>, j: nat)
    requires ChainOk(head, c, b) && 0 < j < |c|
    ensures |c| == |b| && head == c[0] && forall k :: 0 <= k < |c| ==> c[k].next == At(c, k + 1)
    ensures forall k :: 0 <= k < |c| ==> c[k].key == b[k].key && c[k].value == b[k].value
  {
  }

  lemma AfterSkip<K, V>(head: Entry?<K, V>, c: seq<Entry<K, V>>, b: seq<Pair<K, V>>, j: nat)
    requires 0 < j < |c| == |b| && head == c[0] && c[j - 1].next == At(c, j + 1)
    requires forall k :: 0 <= k < |c| && k != j - 1 ==> c[k].next == At(c, k + 1)
    requires forall k :: 0 <= k < |c| ==> c[k].key == b[k].key && c[k].value == b[k].value
    ensures Skipping(head, c, b, j)
  {
  }

  lemma SkipChain<K, V>(head: Entry?<K, V>, c: seq<Entry<K, V>>, b: seq<Pair<K, V>>, j: nat)
    requires Skipping(head, c, b, j)
    ensures ChainOk(head, c[..j] + c[j + 1..], b[..j] + b[j + 1..])
  {
    var c', b' := c[..j] + c[j + 1..], b[..j] + b[j + 1..];
    forall k | 0 <= k < |c'| ensures c'[k].next == At(c', k + 1) && c'[k].key == b'[k].key
      && c'[k].value == b'[k].value {
      var k' := if k < j then k else k + 1;
      assert c'[k] == c[k'] && b'[k] == b[k'];
    }
  }

  /** Unlinking an entry that is not the first of its chain, after the one before it was led past it. */
  lemma DropLaid<K, V>(heads: seq<Entry?<K, V>>, w: Layout<K, V>, i: nat, j: nat)
    requires Apart(w) && |heads| == |w.chains| == |w.buckets| && i < |heads|
    requires forall k :: 0 <= k < |heads| && k != i ==> ChainOk(heads[k], w.chains[k], w.buckets[k])
    requires Skipping(heads[i], w.chains[i], w.buckets[i], j)
    ensures Laid(heads, Drop(w, i, j))
  {
    DropApart(w, i, j);
    SkipChain(heads[i], w.chains[i], w.buckets[i], j);
    hide Apart, ChainOk, Skipping;
  }

  lemma AloneInChain<K, V>(w: Layout<K, V>, i: nat, j: nat)
    requires Apart(w) && i < |w.chains| && j < |w.chains[i]|
    ensures w.chains[i][j] in w.home
    ensures forall k :: 0 <= k < |w.chains| && k != i ==> w.chains[i][j] !in w.chains[k]
    ensures forall k :: 0 <= k < |w.chains[i]| && k != j ==> w.chains[i][k] != w.chains[i][j]
  {
    var e := w.chains[i][j];
    forall k | 0 <= k < |w.chains| && k != i ensures e !in w.chains[k] {
      assert w.home[e] == i;
    }
  }

  lemma Parts<K, V>(heads: seq<Entry?<K, V>>, w: Layout<K, V>)
    requires Laid(heads, w)
    ensures Apart(w) && |heads| == |w.chains| == |w.buckets|
    ensures forall i :: 0 <= i < |heads| ==> ChainOk(heads[i], w.chains[i], w.buckets[i])
  {
  }

  lemma BeforeRewrite<K, V>(head: Entry?<K, V>, c: seq<Entry<K, V>>, b: seq<Pair<K, V>>, j: nat)
    requires ChainOk(head, c, b) && j < |c|
    ensures |c| == |b| && head == At(c, 0) && forall k :: 0 <= k < |c| ==> c[k].next == At(c, k + 1)
    ensures forall k :: 0 <= k < |c| && k != j ==> c[k].key == b[k].key && c[k].value == b[k].value
  {
  }

  lemma AfterRewrite<K, V>(head: Entry?<K, V>, c: seq<Entry<K, V>>, b: seq<Pair<K, V>>, j: nat, p: Pair<K, V>)
    requires j < |c| == |b| && head == At(c, 0) && forall k :: 0 <= k < |c| ==> c[k].next == At(c, k + 1)
    requires forall k :: 0 <= k < |c| && k != j ==> c[k].key == b[k].key && c[k].value == b[k].value
    requires c[j].key == p.key && c[j].value == p.value
    ensures ChainOk(head, c, b[j := p])
  {
  }

  lemma RewriteLaid<K, V>(heads: seq<Entry?<K, V>>, w: Layout<K, V>, i: nat, j: nat, p: Pair<K, V>)
    requires Apart(w) && |heads| == |w.chains| == |w.buckets| && i < |heads| && j < |w.buckets[i]|
    requires forall k :: 0 <= k < |heads| && k != i ==> ChainOk(heads[k], w.chains[k], w.buckets[k])
    requires ChainOk(heads[i], w.chains[i], w.buckets[i][j := p])
    ensures Laid(heads, Rewritten(w, i, j, p))
  {
    hide ChainOk;
  }

  /** Overwriting the pair at position j of chain i. */
  ghost function Rewritten<K, V>(w: Layout<K, V>, i: nat, j: nat, p: Pair<K, V>): Layout<K, V>
    requires i < |w.chains| == |w.buckets| && j < |w.buckets[i]|
  {
    Layout(w.chains, w.buckets[i := w.buckets[i][j := p]], w.home)
  }

  /** The first n buckets hold pairs whose hash selects them among n. */
  ghost predicate Placed<K, V>(hash: K -> nat, n: nat, buckets: seq<seq<Pair<K, V>>>) {
    n > 0 && forall a, j :: 0 <= a < n && a < |buckets| && 0 <= j < |buckets[a]| ==> hash(buckets[a][j].key) % n == a
  }

  lemma Exchange<K, V>(buckets: seq<seq<Pair<K, V>>>, i: nat, b: seq<Pair<K, V>>)
    requires i < |buckets|
    ensures Pairs(buckets[i := b]) + multiset(buckets[i]) == Pairs(buckets) + multiset(b)
  {
    PairsUpdate(buckets, i, b);
  }

  lemma Cons<T>(p: T, r: seq<T>)
    ensures multiset([p] + r) == multiset{p} + multiset(r)
  {
  }

  /** From m to m' the part b was exchanged for b', which has p more or less. */
  lemma More<T>(m: multiset<T>, m': multiset<T>, b: multiset<T>, p: T)
    requires m' + b == m + (multiset{p} + b)
    ensures m' == m + multiset{p} && |m'| == |m| + 1 && m == m' - multiset{p} && p in m'
  {
    forall t ensures m'[t] == (m + multiset{p})[t] {
      assert (m' + b)[t] == (m + (multiset{p} + b))[t];
    }
  }

  lemma DropPairs<K, V>(buckets: seq<seq<Pair<K, V>>>, i: nat, j: nat)
    requires i < |buckets| && j < |buckets[i]|
    ensures var u, p := buckets[i := buckets[i][..j] + buckets[i][j + 1..]], buckets[i][j];
      p in Pairs(buckets) && Pairs(u) == Pairs(buckets) - multiset{p} && |Pairs(u)| == |Pairs(buckets)| - 1
  {
    hide Pairs;
    var b, p := buckets[i], buckets[i][j];
    var b' := b[..j] + b[j + 1..];
    Exchange(buckets, i, b');
    DropBag(b, j);
    More(Pairs(buckets[i := b']), Pairs(buckets), multiset(b'), p);
  }

  lemma PushPairs<K, V>(buckets: seq<seq<Pair<K, V>>>, i: nat, p: Pair<K, V>)
    requires i < |buckets|
    ensures var u := buckets[i := [p] + buckets[i]];
      Pairs(u) == Pairs(buckets) + multiset{p}
      && |Pairs(u)| == |Pairs(buckets)| + 1
  {
    hide Pairs;
    Exchange(buckets, i, [p] + buckets[i]);
    Cons(p, buckets[i]);
    More(Pairs(buckets), Pairs(buckets[i := [p] + buckets[i]]), multiset(buckets[i]), p);
  }

  lemma RewritePairs<K, V>(buckets: seq<seq<Pair<K, V>>>, i: nat, j: nat, p: Pair<K, V>)
    requires i < |buckets| && j < |buckets[i]|
    ensures var u, q := buckets[i := buckets[i][j := p]], buckets[i][j];
      q in Pairs(buckets) && Pairs(u) == Pairs(buckets) - multiset{q} + multiset{p} && |Pairs(u)| == |Pairs(buckets)|
  {
    hide Pairs;
    var b, u: seq<Pair<K, V>> := buckets[i], buckets[i][j := p];
    var b' := b[..j] + b[j + 1..];
    var d := buckets[i := b'];
    DropPairs(buckets, i, j);
    Exchange(d, i, u);
    DropBag(u, j);
    assert u[..j] + u[j + 1..] == b';
    assert d[i := u] == buckets[i := u];
    More(Pairs(d), Pairs(buckets[i := u]), multiset(b'), p);
  }

  lemma DropPlaced<K, V>(buckets: seq<seq<Pair<K, V>>>, i: nat, j: nat, hash: K -> nat, n: nat)
    requires i < |buckets| && j < |buckets[i]| && Placed(hash, n, buckets)
    ensures Placed(hash, n, buckets[i := buckets[i][..j] + buckets[i][j + 1..]])
  {
    var b: seq<Pair<K, V>> := buckets[i];
    var u: seq<seq<Pair<K, V>>> := buckets[i := b[..j] + b[j + 1..]];
    forall a, k | 0 <= a < n && a < |u| && 0 <= k < |u[a]| ensures hash(u[a][k].key) % n == a {
      if a == i { assert u[a][k] == b[if k < j then k else k + 1]; }
    }
  }

  lemma PushPlaced<K, V>(buckets: seq<seq<Pair<K, V>>>, i: nat, p: Pair<K, V>, hash: K -> nat, n: nat)
    requires i < |buckets| && Placed(hash, n, buckets) && (i < n ==> hash(p.key) % n == i)
    ensures Placed(hash, n, buckets[i := [p] + buckets[i]])
  {
  }

  lemma RewritePlaced<K, V>(buckets: seq<seq<Pair<K, V>>>, i: nat, j: nat, p: Pair<K, V>, hash: K -> nat, n: nat)
    requires i < |buckets| && j < |buckets[i]| && Placed(hash, n, buckets) && (i < n ==> hash(p.key) % n == i)
    ensures Placed(hash, n, buckets[i := buckets[i][j := p]])
  {
  }

  lemma SameKey<K(!new)>(equal: (K, K) -> bool, hash: K -> nat, a: K, b: K)
    requires Consistent(equal, hash) && equal(a, b)
    ensures hash(a) == hash(b) && forall k :: equal(k, a) <==> equal(k, b)
  {
    forall k ensures equal(k, a) <==> equal(k, b) {
      EqualLaws(equal, hash, a, b, k);
      EqualLaws(equal, hash, k, a, k);
      EqualLaws(equal, hash, k, b, k);
    }
  }

  /** Moving the first entry of chain a to the front of chain b. */
  ghost function Moved<K, V>(w: Layout<K, V>, a: nat, b: nat): Layout<K, V>
    requires a < |w.chains| == |w.buckets| && b < |w.chains| && a != b && 0 < |w.chains[a]| == |w.buckets[a]|
  {
    Push(Drop(w, a, 0), b, w.chains[a][0], w.buckets[a][0])
  }

  /** Taking p from one part of m and adding it to another gives m again. */
  lemma Rebalanced<T>(m: multiset<T>, m1: multiset<T>, m2: multiset<T>, p: T, x: multiset<T>, d: multiset<T>)
    requires m1 + (multiset{p} + x) == m + x && m2 + d == m1 + (multiset{p} + d)
    ensures m2 == m
  {
    forall t ensures m2[t] == m[t] {
      assert (m1 + (multiset{p} + x))[t] == (m + x)[t];
      assert (m2 + d)[t] == (m1 + (multiset{p} + d))[t];
    }
  }

  lemma MovedPairs<K, V>(buckets: seq<seq<Pair<K, V>>>, a: nat, b: nat, d: seq<seq<Pair<K, V>>>)
    requires b < |buckets| && a < |buckets| && buckets[a] != [] && d == buckets[a := buckets[a][1..]]
    ensures Pairs(d[b := [buckets[a][0]] + d[b]]) == Pairs(buckets)
  {
    hide Pairs;
    var p, x := buckets[a][0], buckets[a];
    var u := d[b := [p] + d[b]];
    Exchange(buckets, a, x[1..]);
    Exchange(d, b, [p] + d[b]);
    assert x == [p] + x[1..];
    Cons(p, x[1..]);
    Cons(p, d[b]);
    Rebalanced(Pairs(buckets), Pairs(d), Pairs(u), p, multiset(x[1..]), multiset(d[b]));
  }

  lemma MovedPlaced<K, V>(buckets: seq<seq<Pair<K, V>>>, a: nat, b: nat, hash: K -> nat, n: nat)
    requires b < n <= a < |buckets| && buckets[a] != []
    requires Placed(hash, n, buckets) && hash(buckets[a][0].key) % n == b
    ensures var d := buckets[a := buckets[a][1..]]; Placed(hash, n, d[b := [buckets[a][0]] + d[b]])
  {
  }

  lemma MovedSame<K, V>(w: Layout<K, V>, a: nat, b: nat, hash: K -> nat, n: nat)
    requires a < |w.chains| == |w.buckets| && b < n <= a && 0 < |w.chains[a]| == |w.buckets[a]|
      && w.chains[a][0] in w.home
    requires Placed(hash, n, w.buckets) && hash(w.buckets[a][0].key) % n == b
    ensures var w' := Moved(w, a, b);
      && Pairs(w'.buckets) == Pairs(w.buckets) && Placed(hash, n, w'.buckets) && w'.home.Keys == w.home.Keys
      && |w'.chains| == |w.chains| && |w'.chains[a]| == |w.chains[a]| - 1
  {
    MovedPairs(w.buckets, a, b, w.buckets[a := w.buckets[a][1..]]);
    MovedPlaced(w.buckets, a, b, hash, n);
    hide Pairs, Placed;
    var p, x := w.buckets[a][0], w.buckets[a];
    assert x[..0] + x[1..] == x[1..];
    var d := w.buckets[a := x[1..]];
    assert Moved(w, a, b).buckets == d[b := [p] + d[b]];
  }

  /** n empty chains in front of the others. */
  ghost function Prepended<K, V>(w: Layout<K, V>, n: nat): Layout<K, V> {
    Layout(seq(n, _ => []) + w.chains, seq(n, _ => []) + w.buckets, map e | e in w.home :: w.home[e] + n)
  }

  lemma PrependedAt<K, V>(w: Layout<K, V>, n: nat)
    requires |w.chains| == |w.buckets|
    ensures var w' := Prepended(w, n);
      && |w'.chains| == |w'.buckets| == n + |w.chains| && w'.home.Keys == w.home.Keys
      && (forall e :: e in w.home ==> w'.home[e] == w.home[e] + n)
      && (forall i :: 0 <= i < n ==> w'.chains[i] == [] && w'.buckets[i] == [])
      && (forall i :: n <= i < n + |w.chains| ==> w'.chains[i] == w.chains[i - n] && w'.buckets[i] == w.buckets[i - n])
  {
  }

  lemma PrependApart<K, V>(w: Layout<K, V>, n: nat)
    requires Apart(w)
    ensures Apart(Prepended(w, n))
  {
    PrependedAt(w, n);
    hide Prepended;
    var w' := Prepended(w, n);
    forall i, j | 0 <= i < |w'.chains| && 0 <= j < |w'.chains[i]|
      ensures w'.chains[i][j] in w'.home && w'.home[w'.chains[i][j]] == i
    {
      assert w.chains[i - n][j] == w'.chains[i][j];
    }
  }

  lemma EmptyChain<K, V>()
    ensures ChainOk<K, V>(null, [], [])
  {
  }

  lemma PrependLaid<K, V>(none: seq<Entry?<K, V>>, heads: seq<Entry?<K, V>>, w: Layout<K, V>, n: nat)
    requires Laid(heads, w) && n == |none| > 0 && forall i :: 0 <= i < n ==> none[i] == null
    ensures var w' := Prepended(w, n);
      Laid(none + heads, w') && w'.home.Keys == w.home.Keys
  {
    PrependApart(w, n);
    PrependedAt(w, n);
    EmptyChain<K, V>();
    hide Prepended, Apart, ChainOk;
    var w', hs := Prepended(w, n), none + heads;
    forall i | 0 <= i < |hs| ensures ChainOk(hs[i], w'.chains[i], w'.buckets[i]) {
      if i >= n {
        assert hs[i] == heads[i - n] && ChainOk(heads[i - n], w.chains[i - n], w.buckets[i - n]);
      } else {
        assert hs[i] == none[i];
      }
    }
  }

  lemma PrependPairs<K, V>(w: Layout<K, V>, n: nat, hash: K -> nat)
    requires n > 0
    ensures Pairs(Prepended(w, n).buckets) == Pairs(w.buckets) && Placed(hash, n, Prepended(w, n).buckets)
  {
    var none: seq<seq<Pair<K, V>>> := seq(n, _ => []);
    PairsConcat(none, w.buckets);
    PairsEmpty(none);
  }

  /** The first n chains only. */
  ghost function Truncated<K, V>(w: Layout<K, V>, n: nat): Layout<K, V>
    requires n <= |w.chains| == |w.buckets|
  {
    Layout(w.chains[..n], w.buckets[..n], w.home)
  }

  lemma TruncateLaid<K, V>(heads: seq<Entry?<K, V>>, tail: seq<Entry?<K, V>>, w: Layout<K, V>)
    requires Laid(heads + tail, w) && forall k :: 0 <= k < |tail| ==> tail[k] == null
    ensures Laid(heads, Truncated(w, |heads|)) && Pairs(Truncated(w, |heads|).buckets) == Pairs(w.buckets)
  {
    var n, w' := |heads|, Truncated(w, |heads|);
    forall k | n <= k < |w.chains| ensures w.chains[k] == [] && w.buckets[k] == [] {
      assert ChainOk((heads + tail)[k], w.chains[k], w.buckets[k]) && (heads + tail)[k] == tail[k - n];
    }
    forall i | 0 <= i < n ensures ChainOk(heads[i], w'.chains[i], w'.buckets[i]) {
      assert ChainOk((heads + tail)[i], w.chains[i], w.buckets[i]);
    }
    assert w.buckets == w.buckets[..n] + w.buckets[n..];
    PairsConcat(w.buckets[..n], w.buckets[n..]);
    PairsEmpty(w.buckets[n..]);
  }

  lemma TruncatePlaced<K, V>(hash: K -> nat, n: nat, buckets: seq<seq<Pair<K, V>>>)
    requires Placed(hash, n, buckets) && n <= |buckets|
    ensures Placed(hash, n, buckets[..n])
  {
  }

  const PRIMES: seq<nat> := [
    193, 389, 769, 1543, 3079, 6151, 12289, 24593, 49157, 98317,
    196613, 393241, 786433, 1572869, 3145739, 6291469,
    12582917, 25165843, 50331653, 100663319, 201326611,
    402653189, 805306457, 1610612741]

  /** Each prime exceeds the one before by more than two. */
  lemma PrimesGrow(i: nat)
    ensures |PRIMES| == 24
    ensures i < |PRIMES| ==> PRIMES[i] > 0
    ensures i + 1 < |PRIMES| ==> PRIMES[i] + 3 <= PRIMES[i + 1]
  {
  }

  class HashTable<K(!new), V> {
    const hash: K -> nat
    const equal: (K, K) -> bool
    var table: array?<Entry?<K, V>>
    var tableSize: nat
    var entries: nat
    var primeIndex: nat
    ghost var layout: Layout<K, V>
    /** All entries ever linked. */
    ghost var repr: set<Entry<K, V>>

    /** Links an entry that is in no chain in front of a chain. */
    method LinkFront(e: Entry<K, V>, index: nat, ghost tail: seq<Entry?<K, V>>, ghost w: Layout<K, V>,
                     ghost p: Pair<K, V>)
      requires table != null && index < table.Length && w.home.Keys <= repr && e !in w.home
      requires Laid(table[..] + tail, w) && e.key == p.key && e.value == p.value
      modifies table, e`next
      ensures Laid(table[..] + tail, Push(w, index, e, p))
    {
      hide Apart;
      ghost var heads := table[..] + tail;
      e.next := table[index];
      assert Laid(heads, w);
      PushLaid(heads, w, index, e, p);
      table[index] := e;
      assert table[..] + tail == heads[index := e];
    }

    /** Moves the first entry of the chain at `tail[i]` to the front of the table chain its hash selects. */
    method Relink(rover: Entry<K, V>, index: nat, ghost i: nat, ghost tail: seq<Entry?<K, V>>, ghost w: Layout<K, V>)
      requires table != null && table.Length > 0 && w.home.Keys <= repr && i < |tail| && tail[i] == rover
      requires Laid(table[..] + tail, w) && Placed(hash, table.Length, w.buckets)
        && index == hash(rover.key) % table.Length
      modifies table, rover`next
      ensures var a := table.Length + i;
        && a < |w.chains| == |w.buckets| && 0 < |w.chains[a]| == |w.buckets[a]|
        && Laid(table[..] + tail[i := old(rover.next)], Moved(w, a, index))
    {
      hide Apart, ChainOk;
      ghost var a, heads := table.Length + i, table[..] + tail;
      PopLaid(heads, w, a);
      ghost var w1 := Drop(w, a, 0);
      assert heads[a := rover.next] == table[..] + tail[i := rover.next];
      LinkFront(rover, index, tail[i := rover.next], w1, w.buckets[a][0]);
    }

    ghost function Contents(): multiset<Pair<K, V>>
      reads this
    {
      Pairs(layout.buckets)
    }

    /** Everything but the load limit. */
    ghost predicate Sound()
      reads this, table, repr
    {
      && table != null && table.Length == tableSize && tableSize > 0
      && layout.home.Keys <= repr && Laid(table[..], layout)
      && Consistent(equal, hash) && Placed(hash, tableSize, layout.buckets) && Unique(equal, Contents())
      && entries == |Contents()| && (primeIndex < |PRIMES| ==> tableSize == PRIMES[primeIndex])
    }

    ghost predicate Valid()
      reads this, table, repr
    {
      Sound() && (entries > 0 ==> 3 * (entries - 1) < tableSize)
    }

    /** A new table with empty chains, its size taken from the primes while there are any. */
    method AllocateTable(memory: Memory) returns (ok: bool)
      requires primeIndex < |PRIMES| || entries > 0
      modifies this`table, this`tableSize, memory`calls
      ensures memory.Decides(old(memory.calls), memory.calls, 1, ok)
      ensures tableSize == if primeIndex < |PRIMES| then PRIMES[primeIndex] else entries * 10
      ensures ok <==> table != null
      ensures ok ==> fresh(table) && table.Length == tableSize && forall i :: 0 <= i < tableSize ==> table[i] == null
    {
      if primeIndex < |PRIMES| {
        tableSize := PRIMES[primeIndex];
      } else {
        tableSize := entries * 10;
      }
      ok := memory.Request();
      if ok {
        table := new Entry?<K, V>[tableSize](_ => null);
      } else {
        table := null;
      }
    }

    /** Moves every entry of one old chain into the new table. */
    method MoveChain(oldTable: array<Entry?<K, V>>, i: nat, ghost tail: seq<Entry?<K, V>>, ghost w: Layout<K, V>)
      returns (ghost tail': seq<Entry?<K, V>>, ghost w': Layout<K, V>)
      requires table != null && table.Length == tableSize > 0 && table != oldTable && w.home.Keys <= repr
      requires i < |tail| == oldTable.Length && tail[i] == oldTable[i]
      requires Laid(table[..] + tail, w) && Placed(hash, tableSize, w.buckets)
      modifies table, repr`next
      ensures |tail'| == |tail| && tail'[i] == null && forall k :: 0 <= k < |tail| && k != i ==> tail'[k] == tail[k]
      ensures Laid(table[..] + tail', w') && Placed(hash, tableSize, w'.buckets)
      ensures Pairs(w'.buckets) == Pairs(w.buckets) && w'.home.Keys == w.home.Keys
    {
      hide Apart, ChainOk, Placed, Pairs, Moved;
      tail', w' := tail, w;
      var rover := oldTable[i];
      while rover != null
        invariant |tail'| == |tail| && tail'[i] == rover
          && forall k :: 0 <= k < |tail| && k != i ==> tail'[k] == tail[k]
        invariant Laid(table[..] + tail', w') && Placed(hash, tableSize, w'.buckets)
        invariant Pairs(w'.buckets) == Pairs(w.buckets) && w'.home.Keys == w.home.Keys
        decreases |w'.chains[tableSize + i]|
      {
        var next := rover.next;
        var index := hash(rover.key) % tableSize;
        PopLaid(table[..] + tail', w', tableSize + i);
        MovedSame(w', tableSize + i, index, hash, tableSize);
        Relink(rover, index, i, tail', w');
        tail', w' := tail'[i := next], Moved(w', tableSize + i, index);
        rover := next;
      }
    }

    /** Moves every entry of the old table into the new one. */
    method MoveAll(oldTable: array<Entry?<K, V>>, ghost w0: Layout<K, V>)
      requires table != null && table.Length == tableSize > 0 && table != oldTable && w0.home.Keys <= repr
      requires Laid(table[..] + oldTable[..], w0) && Placed(hash, tableSize, w0.buckets)
      modifies table, repr`next, this`layout
      ensures Laid(table[..], layout) && Placed(hash, tableSize, layout.buckets)
      ensures Pairs(layout.buckets) == Pairs(w0.buckets) && layout.home.Keys == w0.home.Keys
    {
      hide Apart, ChainOk, Placed, Pairs;
      ghost var w, tail := w0, oldTable[..];
      var i := 0;
      while i < oldTable.Length
        invariant i <= oldTable.Length == |tail| && Laid(table[..] + tail, w) && Placed(hash, tableSize, w.buckets)
        invariant Pairs(w.buckets) == Pairs(w0.buckets) && w.home.Keys == w0.home.Keys
        invariant (forall k :: 0 <= k < i ==> tail[k] == null) && forall k :: i <= k < |tail| ==> tail[k] == oldTable[k]
      {
        tail, w := MoveChain(oldTable, i, tail, w);
        i := i + 1;
      }
      TruncateLaid(table[..], tail, w);
      TruncatePlaced(hash, tableSize, w.buckets);
      layout := Truncated(w, tableSize);
    }

    /** Moves all entries into a larger table; when memory refuses it, the old one stays. */
    method Enlarge(memory: Memory) returns (ok: bool)
      requires Valid() && entries * 3 >= tableSize
      modifies this, table, repr`next, memory`calls
      ensures memory.Decides(old(memory.calls), memory.calls, 1, ok)
      ensures Sound() && Contents() == old(Contents()) && repr == old(repr) && entries == old(entries)
      ensures ok ==> 3 * entries < tableSize && fresh(table) && primeIndex == old(primeIndex) + 1
      ensures ok ==> tableSize == if primeIndex < |PRIMES| then PRIMES[primeIndex] else entries * 10
      ensures !ok ==> layout == old(layout) && table == old(table) && tableSize == old(tableSize)
      ensures !ok ==> primeIndex == old(primeIndex)
    {
      hide Apart, ChainOk, Placed, Pairs, Prepended, Unique, Consistent, PRIMES;
      var oldTable, oldTableSize, oldPrimeIndex := table, tableSize, primeIndex;
      PrimesGrow(primeIndex);
      primeIndex := primeIndex + 1;
      ok := AllocateTable(memory);
      if !ok {
        table, tableSize, primeIndex := oldTable, oldTableSize, oldPrimeIndex;
      } else {
        PrependLaid(table[..], oldTable[..], layout, tableSize);
        PrependPairs(layout, tableSize, hash);
        MoveAll(oldTable, Prepended(layout, tableSize));
      }
    }

    /** The first entry with an equal key in the chain that the hash of the key selects, with the entry before it. */
    method Find(key: K) returns (index: nat, prev: Entry?<K, V>, rover: Entry?<K, V>, ghost j: nat)
      requires Valid()
      ensures index == hash(key) % tableSize && index < |layout.chains| == |layout.buckets| == tableSize
      ensures j <= |layout.chains[index]| == |layout.buckets[index]| && rover == At(layout.chains[index], j)
      ensures prev == if j > 0 then layout.chains[index][j - 1] else null
      ensures rover != null ==>
        equal(rover.key, key) && rover.key == layout.buckets[index][j].key
        && rover.value == layout.buckets[index][j].value
      ensures rover == null
        ==> forall k :: 0 <= k < |layout.buckets[index]| ==> !equal(layout.buckets[index][k].key, key)
    {
      hide Apart, ChainOk, Placed, Pairs, Unique, Laid;
      index := hash(key) % tableSize;
      Here(table[..], layout, index, 0);
      prev, rover, j := null, table[index], 0;
      ghost var chain, bucket := layout.chains[index], layout.buckets[index];
      while rover != null
        invariant j <= |chain| && rover == At(chain, j) && prev == if j > 0 then chain[j - 1] else null
        invariant forall k :: 0 <= k < j ==> !equal(bucket[k].key, key)
        decreases |chain| - j
      {
        Here(table[..], layout, index, j);
        if equal(rover.key, key) {
          return;
        }
        prev, rover, j := rover, rover.next, j + 1;
      }
    }

    /** The value stored for a key. */
    method Lookup(key: K) returns (result: Option<V>)
      requires Valid()
      ensures result == Get(equal, Contents(), key)
    {
      var index, prev, rover;
      ghost var j;
      index, prev, rover, j := Find(key);
      if rover != null {
        result := Some(rover.value);
        InBucket(index, j);
        GetPresent(equal, hash, Contents(), layout.buckets[index][j], key);
      } else {
        result := None;
        NotInBucket(equal, hash, layout.buckets, key);
      }
    }

    lemma InBucket(i: nat, j: nat)
      requires i < |layout.buckets| && j < |layout.buckets[i]|
      ensures layout.buckets[i][j] in Contents()
    {
      PairsUpdate(layout.buckets, i, []);
      assert layout.buckets[i][j] in multiset(layout.buckets[i]);
    }

    method SkipOver(prev: Entry<K, V>, rover: Entry<K, V>, ghost i: nat, ghost j: nat, ghost heads: seq<Entry?<K, V>>,
                    ghost w: Layout<K, V>)
      requires w.home.Keys <= repr && Laid(heads, w) && i < |heads| && 0 < j < |w.chains[i]| == |w.buckets[i]|
      requires rover == w.chains[i][j] && prev == w.chains[i][j - 1] && prev in w.home
      modifies prev`next
      ensures Laid(heads, Drop(w, i, j))
    {
      hide Apart, Laid, ChainOk, Skipping;
      Parts(heads, w);
      ghost var c, b := w.chains[i], w.buckets[i];
      AloneInChain(w, i, j - 1);
      BeforeSkip(heads[i], c, b, j);
      prev.next := rover.next;
      AfterSkip(heads[i], c, b, j);
      DropLaid(heads, w, i, j);
    }

    /** Leads the link before position j of a chain past the entry there. */
    method Unlink(index: nat, prev: Entry?<K, V>, rover: Entry<K, V>, ghost j: nat)
      requires table != null && index < table.Length && layout.home.Keys <= repr && Laid(table[..], layout)
      requires |layout.chains| == |layout.buckets| && index < |layout.chains|
      requires j < |layout.chains[index]| == |layout.buckets[index]|
      requires rover == layout.chains[index][j] && prev == if j > 0 then layout.chains[index][j - 1] else null
      modifies table, repr`next, this`layout
      ensures layout == Drop(old(layout), index, j) && Laid(table[..], layout)
    {
      hide Apart, ChainOk, Laid;
      ghost var w, heads := layout, table[..];
      Here(heads, w, index, j);
      if prev == null {
        PopLaid(heads, w, index);
        table[index] := rover.next;
        assert table[..] == heads[index := rover.next];
      } else {
        Here(heads, w, index, j - 1);
        SkipOver(prev, rover, index, j, heads, w);
      }
      layout := Drop(w, index, j);
    }

    /** Removes the entry with an equal key, if there is one. */
    method Remove(key: K) returns (removed: bool)
      requires Valid()
      modifies this, table, repr`next
      ensures Valid() && table == old(table) && repr == old(repr)
      ensures removed <==> Get(equal, old(Contents()), key) != None
      ensures forall k :: Get(equal, Contents(), k) == if equal(k, key) then None else Get(equal, old(Contents()), k)
      ensures entries == old(entries) - if removed then 1 else 0
    {
      hide Apart, ChainOk, Placed, Pairs, Unique, Laid, Get, PRIMES;
      var index, prev, rover;
      ghost var j;
      index, prev, rover, j := Find(key);
      removed := rover != null;
      if removed {
        ghost var p := layout.buckets[index][j];
        DropPairs(layout.buckets, index, j);
        DropPlaced(layout.buckets, index, j, hash, tableSize);
        Take(equal, hash, Contents(), p);
        GetPresent(equal, hash, Contents(), p, key);
        SameKey(equal, hash, p.key, key);
        Unlink(index, prev, rover, j);
        entries := entries - 1;
      } else {
        NotPresent(key);
      }
    }

    /** Nothing is stored for a key whose chain has no equal one. */
    lemma NotPresent(key: K)
      requires Valid()
      requires var i := hash(key) % tableSize;
        |layout.buckets| == tableSize
          && forall k :: 0 <= k < |layout.buckets[i]| ==> !equal(layout.buckets[i][k].key, key)
      ensures forall p :: p in Contents() ==> !equal(p.key, key)
      ensures forall k :: equal(k, key) ==> Get(equal, Contents(), k) == None
    {
      NotInBucket(equal, hash, layout.buckets, key);
      forall k | equal(k, key) ensures Get(equal, Contents(), k) == None {
        forall p | p in Contents() ensures !equal(p.key, k) {
          EqualLaws(equal, hash, k, key, p.key);
          EqualLaws(equal, hash, p.key, k, key);
          EqualLaws(equal, hash, p.key, key, k);
        }
      }
    }

    method Assign(rover: Entry<K, V>, key: K, value: V, ghost heads: seq<Entry?<K, V>>, ghost w: Layout<K, V>,
                  ghost i: nat, ghost j: nat)
      requires w.home.Keys <= repr && Laid(heads, w) && i < |heads| == |w.chains| == |w.buckets|
      requires j < |w.chains[i]| == |w.buckets[i]| && rover == w.chains[i][j]
      modifies rover`key, rover`value
      ensures forall k :: 0 <= k < |heads| && k != i ==> ChainOk(heads[k], w.chains[k], w.buckets[k])
      ensures ChainOk(heads[i], w.chains[i], w.buckets[i][j := Pair(key, value)])
    {
      hide Apart, Laid, ChainOk;
      Parts(heads, w);
      AloneInChain(w, i, j);
      ghost var c, b := w.chains[i], w.buckets[i];
      BeforeRewrite(heads[i], c, b, j);
      rover.key := key;
      rover.value := value;
      AfterRewrite(heads[i], c, b, j, Pair(key, value));
    }

    /** Overwrites the key and the value of an entry. */
    method Overwrite(rover: Entry<K, V>, ghost i: nat, ghost j: nat, key: K, value: V)
      requires table != null && layout.home.Keys <= repr && Laid(table[..], layout)
      requires i < |layout.chains| == |layout.buckets| && j < |layout.chains[i]| == |layout.buckets[i]|
      requires rover == layout.chains[i][j]
      modifies rover`key, rover`value, this`layout
      ensures layout == Rewritten(old(layout), i, j, Pair(key, value)) && Laid(table[..], layout)
    {
      hide Apart, Laid, ChainOk;
      ghost var w, heads := layout, table[..];
      Parts(heads, w);
      Assign(rover, key, value, heads, w, i, j);
      RewriteLaid(heads, w, i, j, Pair(key, value));
      layout := Rewritten(w, i, j, Pair(key, value));
    }

    /** Links a new entry in front of a chain of the table. */
    method LinkNew(e: Entry<K, V>, index: nat, ghost p: Pair<K, V>)
      requires table != null && index < table.Length && layout.home.Keys <= repr && e !in repr
      requires Laid(table[..], layout) && |layout.chains| == |layout.buckets| == table.Length
      requires e.key == p.key && e.value == p.value
      modifies table, e`next, this`layout, this`repr
      ensures repr == old(repr) + {e}
        && layout.buckets == old(layout.buckets)[index := [p] + old(layout.buckets)[index]]
      ensures Laid(table[..], layout) && layout.home.Keys <= repr
    {
      hide Apart, ChainOk, Laid;
      assert table[..] + [] == table[..];
      LinkFront(e, index, [], layout, p);
      assert table[..] + [] == table[..];
      layout := Push(layout, index, e, p);
      repr := repr + {e};
    }

    /** Adds a new entry for a key that no entry has. */
    method AddEntry(key: K, value: V, index: nat, memory: Memory) returns (ok: bool)
      requires Sound() && 3 * entries < tableSize && index == hash(key) % tableSize
      requires |layout.buckets| == |layout.chains| == tableSize
      requires (forall p :: p in Contents() ==> !equal(p.key, key))
      modifies this, table, memory`calls
      ensures memory.Decides(old(memory.calls), memory.calls, 1, ok)
      ensures Valid() && table == old(table) && primeIndex == old(primeIndex)
      ensures fresh(repr - old(repr)) && old(repr) <= repr
      ensures Contents() == if ok then old(Contents()) + multiset{Pair(key, value)} else old(Contents())
      ensures entries == old(entries) + if ok then 1 else 0
    {
      hide Apart, ChainOk, Placed, Pairs, Unique, Laid, PRIMES, Get, Consistent, Memory.Decides;
      var granted := memory.Request();
      if !granted {
        return false;
      }
      ghost var p := Pair(key, value);
      var newEntry := new Entry(key, value);
      PushPairs(layout.buckets, index, p);
      PushPlaced(layout.buckets, index, p, hash, tableSize);
      PutNew(equal, hash, Contents(), p);
      LinkNew(newEntry, index, p);
      entries := entries + 1;
      ok := true;
    }

    /** Overwrites the entry that Find returned. */
    method Replace(rover: Entry<K, V>, ghost i: nat, ghost j: nat, key: K, value: V)
      requires Valid() && i == hash(key) % tableSize && i < |layout.chains| == |layout.buckets|
      requires j < |layout.chains[i]| == |layout.buckets[i]| && rover == layout.chains[i][j] && rover in layout.home
      requires equal(layout.buckets[i][j].key, key)
      modifies rover`key, rover`value, this`layout
      ensures Valid()
      ensures var q := old(layout.buckets)[i][j];
        q in old(Contents()) && Contents() == old(Contents()) - multiset{q} + multiset{Pair(key, value)}
    {
      hide Apart, ChainOk, Placed, Pairs, Unique, Laid, PRIMES;
      ghost var p := Pair(key, value);
      RewritePairs(layout.buckets, i, j, p);
      RewritePlaced(layout.buckets, i, j, p, hash, tableSize);
      Buckets.Replace(equal, hash, Contents(), layout.buckets[i][j], p);
      Overwrite(rover, i, j, key, value);
    }

    /** Inserts a key or overwrites the entry of an equal one. A full table and a new key ask for memory; when a request
        is refused the contents stay. */
    method Insert(key: K, value: V, memory: Memory) returns (ok: bool)
      requires Valid()
      modifies this, table, repr, memory`calls
      ensures var full, absent := 3 * old(entries) >= old(tableSize), Get(equal, old(Contents()), key) == None;
        && memory.Decides(old(memory.calls), memory.calls, (if full then 1 else 0) + (if absent then 1 else 0), ok)
        && (!full ==> table == old(table)) && (full && ok ==> primeIndex == old(primeIndex) + 1)
      ensures Valid() && fresh(repr - old(repr))
      ensures !ok ==> Contents() == old(Contents()) && entries == old(entries)
      ensures ok ==> Pair(key, value) in Contents()
      ensures ok ==> forall k ::
        Get(equal, Contents(), k)
          == if equal(k, key) then Some(value) else Get(equal, old(Contents()), k)
      ensures ok ==> entries == old(entries) + if Get(equal, old(Contents()), key) == None then 1 else 0
    {
      hide Apart, ChainOk, Placed, Pairs, Unique, Laid, PRIMES, Get, Consistent, Contents, Memory.Decides;
      ghost var first, middle, one := memory.calls, memory.calls, if Get(equal, Contents(), key) == None then 1 else 0;
      if (entries * 3) / tableSize > 0 {
        ok := Enlarge(memory);
        middle := memory.calls;
        if !ok {
          memory.Refused(first, middle, 1, 1 + one);
          return;
        }
      } else {
        memory.NoneYet(first);
      }
      hide *;
      ghost var sofar := if 3 * old(entries) >= old(tableSize) then 1 else 0;
      ok := InsertHere(key, value, memory);
      memory.Chained(first, middle, memory.calls, sofar, one, ok);
    }

    /** The rest of an insertion, once there is room. */
    method InsertHere(key: K, value: V, memory: Memory) returns (ok: bool)
      requires Valid() && 3 * entries < tableSize
      modifies this, table, repr, memory`calls
      ensures memory.Decides(old(memory.calls), memory.calls,
                             if Get(equal, old(Contents()), key) == None then 1 else 0, ok)
      ensures table == old(table) && primeIndex == old(primeIndex)
      ensures Valid() && fresh(repr - old(repr))
      ensures !ok ==> Contents() == old(Contents()) && entries == old(entries)
      ensures ok ==> Pair(key, value) in Contents()
      ensures ok ==> forall k ::
        Get(equal, Contents(), k)
          == if equal(k, key) then Some(value) else Get(equal, old(Contents()), k)
      ensures ok ==> entries == old(entries) + if Get(equal, old(Contents()), key) == None then 1 else 0
    {
      hide Apart, ChainOk, Placed, Pairs, Unique, Laid, PRIMES, Get, Consistent;
      var index, prev, rover;
      ghost var j;
      index, prev, rover, j := Find(key);
      if rover != null {
        StoreOver(rover, index, j, key, value);
        ok := true;
      } else {
        NotPresent(key);
        PutNew(equal, hash, Contents(), Pair(key, value));
        NotEqual(key);
        ok := AddEntry(key, value, index, memory);
      }
    }

    /** The effect on the map of overwriting the entry found. */
    method StoreOver(rover: Entry<K, V>, ghost i: nat, ghost j: nat, key: K, value: V)
      requires Valid() && i == hash(key) % tableSize && i < |layout.chains| == |layout.buckets|
      requires j < |layout.chains[i]| == |layout.buckets[i]| && rover == layout.chains[i][j]
      requires equal(layout.buckets[i][j].key, key)
      modifies this`layout, repr
      ensures Valid() && Get(equal, old(Contents()), key) != None && Pair(key, value) in Contents()
      ensures forall k ::
        Get(equal, Contents(), k)
          == if equal(k, key) then Some(value) else Get(equal, old(Contents()), k)
    {
      hide Apart, ChainOk, Placed, Pairs, Unique, Laid, PRIMES, Get, Consistent;
      ghost var q := layout.buckets[i][j];
      InTable(i, j);
      GetPresent(equal, hash, Contents(), q, key);
      Buckets.Replace(equal, hash, Contents(), q, Pair(key, value));
      Replace(rover, i, j, key, value);
    }

    lemma InTable(i: nat, j: nat)
      requires Valid() && i < |layout.chains| == |layout.buckets| && j < |layout.chains[i]| == |layout.buckets[i]|
      ensures layout.buckets[i][j] in Contents() && layout.chains[i][j] in layout.home && layout.chains[i][j] in repr
    {
      InBucket(i, j);
      Here(table[..], layout, i, j);
    }

    lemma NotEqual(key: K)
      requires Consistent(equal, hash) && forall k :: equal(k, key) ==> Get(equal, Contents(), k) == None
      ensures Get(equal, Contents(), key) == None
    {
      EqualLaws(equal, hash, key, key, key);
    }

    method NumEntries() returns (n: nat)
      requires Valid()
      ensures n == |Contents()|
    {
      n := entries;
    }

    constructor (hash: K -> nat, equal: (K, K) -> bool)
      ensures this.hash == hash && this.equal == equal
      ensures Consistent(equal, hash) ==> Valid() && Contents() == multiset{}
      ensures fresh(table) && fresh(repr)
    {
      this.hash, this.equal := hash, equal;
      entries, primeIndex, tableSize := 0, 0, PRIMES[0];
      table := new Entry?<K, V>[PRIMES[0]](_ => null);
      repr := {};
      layout := Layout(seq(PRIMES[0], _ => []), seq(PRIMES[0], _ => []), map[]);
      new;
      PairsEmpty(layout.buckets);
    }
  }

  class HashTableIterator<K(!new), V> {
    var hashTable: HashTable<K, V>
    var nextEntry: Entry?<K, V>
    var nextChain: nat
    /** The position of the next entry in its chain. */
    ghost var position: nat
    /** The pairs still to come. */
    ghost var remaining: seq<Pair<K, V>>

    /** The next entry is where the remaining pairs start. */
    ghost predicate Points(w: Layout<K, V>)
      reads this
    {
      if nextEntry == null then remaining == []
      else
        && nextChain < |w.chains| == |w.buckets| && position < |w.chains[nextChain]| == |w.buckets[nextChain]|
        && nextEntry == w.chains[nextChain][position]
        && remaining == w.buckets[nextChain][position..] + Flatten(w.buckets[nextChain + 1..])
    }

    ghost predicate Valid()
      reads this, hashTable, hashTable.table, hashTable.repr
    {
      hashTable.Valid() && Points(hashTable.layout)
    }

    static lemma ShapeAt(h: HashTable<K, V>, i: nat, j: nat)
      requires h.Valid()
      ensures |h.layout.chains| == |h.layout.buckets| == h.tableSize && h.table != null && h.table.Length == h.tableSize
      ensures i < h.tableSize ==>
        |h.layout.chains[i]| == |h.layout.buckets[i]|
        && h.table[i] == At(h.layout.chains[i], 0)
      ensures i < h.tableSize && j < |h.layout.chains[i]| ==> var e := h.layout.chains[i][j];
        e.next == At(h.layout.chains[i], j + 1) && e.value == h.layout.buckets[i][j].value
          && e.key == h.layout.buckets[i][j].key
    {
      if i < h.tableSize { Here(h.table[..], h.layout, i, j); }
    }

    /** Finds the first non-empty chain from `chain` on. */
    method Advance(chain: nat)
      requires hashTable.Valid() && chain <= hashTable.tableSize
      modifies this
      ensures hashTable == old(hashTable) && Valid()
      ensures chain <= |hashTable.layout.buckets| && remaining == Flatten(hashTable.layout.buckets[chain..])
    {
      hide HashTable.Valid;
      ghost var w := hashTable.layout;
      ShapeAt(hashTable, chain, 0);
      nextEntry, position := null, 0;
      remaining := Flatten(w.buckets[chain..]);
      var c := chain;
      while c < hashTable.tableSize
        invariant chain <= c <= hashTable.tableSize && hashTable == old(hashTable) && nextEntry == null && position == 0
        invariant remaining == Flatten(w.buckets[chain..]) == Flatten(w.buckets[c..])
      {
        ShapeAt(hashTable, c, 0);
        FlattenFrom(w.buckets, c);
        if hashTable.table[c] != null {
          nextEntry := hashTable.table[c];
          assert w.buckets[c][0..] == w.buckets[c];
          break;
        }
        c := c + 1;
      }
      nextChain := c;
    }

    /** An iterator over a whole table. */
    constructor (hashTable: HashTable<K, V>)
      requires hashTable.Valid()
      ensures this.hashTable == hashTable && Valid() && remaining == Flatten(hashTable.layout.buckets)
    {
      this.hashTable := hashTable;
      nextEntry, nextChain, position, remaining := null, 0, 0, [];
      new;
      Advance(0);
      assert hashTable.layout.buckets[0..] == hashTable.layout.buckets;
    }

    method HasMore() returns (more: bool)
      requires Valid()
      ensures more <==> remaining != []
    {
      more := nextEntry != null;
    }

    /** Returns the value of the next entry and moves on; None at the end. */
    method Next() returns (result: Option<V>)
      requires Valid()
      modifies this
      ensures hashTable == old(hashTable) && Valid()
      ensures old(remaining) == [] ==> result == None && remaining == []
      ensures old(remaining) != [] ==> result == Some(old(remaining)[0].value) && remaining == old(remaining)[1..]
    {
      hide HashTable.Valid, Flatten;
      if nextEntry == null {
        result := None;
      } else {
        ghost var w := hashTable.layout;
        ShapeAt(hashTable, nextChain, position);
        RestStep(w.buckets, nextChain, position);
        result := Some(nextEntry.value);
        MoveOn();
      }
    }

    /** Moves to the next entry of the chain, or to the next non-empty chain. */
    method MoveOn()
      requires Valid() && nextEntry != null && remaining != []
      modifies this
      ensures hashTable == old(hashTable) && Valid() && remaining == old(remaining)[1..]
    {
      hide HashTable.Valid, Flatten;
      ghost var w := hashTable.layout;
      ShapeAt(hashTable, nextChain, position);
      RestStep(w.buckets, nextChain, position);
      var current := nextEntry;
      if current.next != null {
        nextEntry := current.next;
        position, remaining := position + 1, remaining[1..];
      } else {
        Advance(nextChain + 1);
      }
    }

    static lemma RestStep(buckets: seq<seq<Pair<K, V>>>, c: nat, j: nat)
      requires c < |buckets| && j < |buckets[c]|
      ensures var rest := buckets[c][j..] + Flatten(buckets[c + 1..]);
        rest[0] == buckets[c][j] && rest[1..] == buckets[c][j + 1..] + Flatten(buckets[c + 1..])
      ensures j + 1 == |buckets[c]| ==> (buckets[c][j..] + Flatten(buckets[c + 1..]))[1..] == Flatten(buckets[c + 1..])
    {
      hide Flatten;
      assert buckets[c][j..] == [buckets[c][j]] + buckets[c][j + 1..];
    }
  }

  /** A client's loop over an undisturbed table sees every stored pair exactly once. */
  method AllValues<K(!new), V>(hashTable: HashTable<K, V>) returns (values: seq<V>, ghost pairs: seq<Pair<K, V>>)
    requires hashTable.Valid()
    ensures multiset(pairs) == hashTable.Contents() && |values| == |pairs| == hashTable.entries
    ensures forall i :: 0 <= i < |pairs| ==> values[i] == pairs[i].value
  {
    hide HashTable.Valid, HashTableIterator.Valid, Flatten, HashTable.Contents;
    pairs := Flatten(hashTable.layout.buckets);
    Counted(hashTable);
    var it := new HashTableIterator(hashTable);
    values := [];
    var more := it.HasMore();
    while more
      invariant it.hashTable == hashTable && it.Valid() && more == (it.remaining != [])
      invariant |values| <= |pairs| && it.remaining == pairs[|values|..]
      invariant forall i :: 0 <= i < |values| ==> values[i] == pairs[i].value
      decreases |pairs| - |values|
    {
      var next := it.Next();
      values := values + [next.value];
      more := it.HasMore();
    }
  }

  lemma Counted<K(!new), V>(hashTable: HashTable<K, V>)
    requires hashTable.Valid()
    ensures var pairs := Flatten(hashTable.layout.buckets);
      multiset(pairs) == hashTable.Contents()
      && |pairs| == hashTable.entries
  {
    FlattenPairs(hashTable.layout.buckets);
    assert |multiset(Flatten(hashTable.layout.buckets))| == |Flatten(hashTable.layout.buckets)|;
  }
}
