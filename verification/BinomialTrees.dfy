/** The memory of a binomial heap: tree records with reference counts, the ownership discipline over
    them, and the binomial trees they represent. */
module BinomialTrees {
  import opened Numbers
  import opened Vli
  import opened Orders

  /** Addresses of tree records; zero is the null pointer. */
  type Ptr = nat
  const NULL: Ptr := 0

  datatype Tree<V> = Tree(value: V, order: nat, refcount: nat, subtrees: seq<Ptr>)

  type Store<V> = map<Ptr, Tree<V>>

  // ---------- shape and ownership ----------

  /** A record of order k has k subtrees, the j-th of order j, whose roots are not less than its own. */
  ghost predicate ShapeAt<V>(s: Store<V>, p: Ptr, kind: HeapType, f: (V, V) -> int)
    requires p in s
  {
    && p != NULL && |s[p].subtrees| == s[p].order
    && forall j :: 0 <= j < |s[p].subtrees| ==>
         s[p].subtrees[j] in s && s[s[p].subtrees[j]].order == j && Leq(kind, f, s[p].value, s[s[p].subtrees[j]].value)
  }

  ghost predicate Shape<V>(s: Store<V>, kind: HeapType, f: (V, V) -> int) {
    forall p :: p in s ==> ShapeAt(s, p, kind, f)
  }

  /** The records that refer to `p`. */
  ghost function Parents<V>(s: Store<V>, p: Ptr): set<Ptr> {
    set q | q in s && p in s[q].subtrees
  }

  /** Every count is positive and counts the referring records and the references held outside. */
  ghost predicate Counted<V>(s: Store<V>, ext: multiset<Ptr>) {
    && (forall p :: p in ext ==> p in s)
    && (forall p :: p in s ==> s[p].refcount == |Parents(s, p)| + ext[p] && s[p].refcount > 0)
  }

  ghost predicate Owned<V>(s: Store<V>, ext: multiset<Ptr>, kind: HeapType, f: (V, V) -> int) {
    Shape(s, kind, f) && Counted(s, ext)
  }

  /** The two records agree in everything but the count. */
  ghost predicate SameRecord<V>(a: Tree<V>, b: Tree<V>) {
    a.value == b.value && a.order == b.order && a.subtrees == b.subtrees
  }

  /** `t` has only records of `s`, unchanged but for their counts. */
  ghost predicate Survives<V>(t: Store<V>, s: Store<V>) {
    forall p :: p in t ==> p in s && SameRecord(t[p], s[p])
  }

  lemma DistinctSubtrees<V>(s: Store<V>, p: Ptr, kind: HeapType, f: (V, V) -> int)
    requires Shape(s, kind, f) && p in s
    ensures forall i, j :: 0 <= i < j < |s[p].subtrees| ==> s[p].subtrees[i] != s[p].subtrees[j]
    ensures forall q :: q in s[p].subtrees ==> q in s && s[q].order < s[p].order
    ensures forall q :: multiset(s[p].subtrees)[q] == if q in s[p].subtrees then 1 else 0
  {
    assert ShapeAt(s, p, kind, f);
    var subs := s[p].subtrees;
    forall i, j | 0 <= i < j < |subs| ensures subs[i] != subs[j] {
      assert s[subs[i]].order == i && s[subs[j]].order == j;
    }
    DistinctOnce(subs);
  }

  lemma {:induction false} DistinctOnce(a: seq<Ptr>)
    requires forall i, j :: 0 <= i < j < |a| ==> a[i] != a[j]
    ensures forall q :: multiset(a)[q] == if q in a then 1 else 0
  {
    if a != [] {
      var n := |a| - 1;
      DistinctOnce(a[..n]);
      assert a == a[..n] + [a[n]];
      assert a[n] !in a[..n];
    }
  }

  // ---------- elementary steps and what they do to ownership ----------

  /** One more reference held outside. */
  lemma RefStep<V>(s: Store<V>, ext: multiset<Ptr>, p: Ptr, kind: HeapType, f: (V, V) -> int)
    requires Owned(s, ext, kind, f) && p in s
    ensures var t := s[p := s[p].(refcount := s[p].refcount + 1)];
      Owned(t, ext + multiset{p}, kind, f) && Survives(t, s)
  {
    var t := s[p := s[p].(refcount := s[p].refcount + 1)];
    SameParents(t, s);
    SameShape(t, s, kind, f);
  }

  /** One reference less, the record staying alive. */
  lemma UnrefStep<V>(s: Store<V>, ext: multiset<Ptr>, p: Ptr, kind: HeapType, f: (V, V) -> int)
    requires Owned(s, ext, kind, f) && p in ext && p in s && s[p].refcount > 1
    ensures var t := s[p := s[p].(refcount := s[p].refcount - 1)];
      Owned(t, ext - multiset{p}, kind, f) && Survives(t, s)
  {
    var t := s[p := s[p].(refcount := s[p].refcount - 1)];
    SameParents(t, s);
    SameShape(t, s, kind, f);
  }

  lemma SameParents<V>(t: Store<V>, s: Store<V>)
    requires t.Keys == s.Keys && Survives(t, s)
    ensures forall p :: Parents(t, p) == Parents(s, p)
  {
    forall p ensures Parents(t, p) == Parents(s, p) {
      assert forall q :: q in t ==> t[q].subtrees == s[q].subtrees by {
        assert forall q :: q in t ==> SameRecord(t[q], s[q]);
      }
    }
  }

  lemma SameShape<V>(t: Store<V>, s: Store<V>, kind: HeapType, f: (V, V) -> int)
    requires t.Keys == s.Keys && Survives(t, s) && Shape(s, kind, f)
    ensures Shape(t, kind, f)
  {
    forall p | p in t ensures ShapeAt(t, p, kind, f) {
      assert ShapeAt(s, p, kind, f) && SameRecord(t[p], s[p]);
      forall j | 0 <= j < |t[p].subtrees| ensures SameRecord(t[t[p].subtrees[j]], s[t[p].subtrees[j]]) {
        assert s[p].subtrees[j] in s;
      }
    }
  }

  lemma ExtLive<V>(s: Store<V>, ext: multiset<Ptr>, p: Ptr, kind: HeapType, f: (V, V) -> int)
    requires Owned(s, ext, kind, f) && p in ext
    ensures p in s && p != NULL && s[p].refcount > 0 && |s[p].subtrees| == s[p].order
  {
    assert ShapeAt(s, p, kind, f);
  }

  lemma SurvivesTrans<V>(u: Store<V>, t: Store<V>, s: Store<V>)
    requires Survives(u, t) && Survives(t, s)
    ensures Survives(u, s)
  {
    forall p | p in u ensures p in s && SameRecord(u[p], s[p]) {
      assert SameRecord(u[p], t[p]) && SameRecord(t[p], s[p]);
    }
  }

  lemma OneRef(p: Ptr)
    ensures Refs([p]) == if p == NULL then multiset{} else multiset{p}
  {
    assert [p][1..] == [];
  }

  lemma TakeOne(rest: multiset<Ptr>, a: seq<Ptr>, i: nat)
    requires i < |a|
    ensures a[i] in rest + multiset(a[i..])
    ensures rest + multiset(a[i..]) - multiset{a[i]} == rest + multiset(a[i + 1..])
  {
    assert a[i..] == [a[i]] + a[i + 1..];
  }

  /** A record added to (or taken from) a store refers to each of its subtrees once more (or less). */
  lemma ParentsWith<V>(t: Store<V>, p: Ptr, r: Tree<V>, q: Ptr)
    requires p !in t
    ensures |Parents(t[p := r], q)| == |Parents(t, q)| + (if q in r.subtrees then 1 else 0)
  {
    var s := t[p := r];
    if q in r.subtrees {
      assert Parents(s, q) == Parents(t, q) + {p};
    } else {
      assert Parents(s, q) == Parents(t, q);
    }
  }

  lemma ShapeWithout<V>(s: Store<V>, p: Ptr, kind: HeapType, f: (V, V) -> int)
    requires Shape(s, kind, f) && p in s && Parents(s, p) == {}
    ensures Shape(s - {p}, kind, f)
  {
    var t := s - {p};
    forall q | q in t ensures ShapeAt(t, q, kind, f) {
      assert ShapeAt(s, q, kind, f);
      assert q !in Parents(s, p);
      assert forall j :: 0 <= j < |s[q].subtrees| ==> s[q].subtrees[j] in t;
    }
  }

  lemma ShapeWith<V>(t: Store<V>, p: Ptr, r: Tree<V>, kind: HeapType, f: (V, V) -> int)
    requires Shape(t, kind, f) && p !in t && ShapeAt(t[p := r], p, kind, f)
    ensures Shape(t[p := r], kind, f)
    ensures Parents(t, p) == {}
  {
    forall q | q in t ensures ShapeAt(t[p := r], q, kind, f) && p !in t[q].subtrees {
      assert ShapeAt(t, q, kind, f);
    }
  }

  /** Taking out a record whose last reference is the outside one: its own references to its subtrees become
      outside references. */
  lemma DropStep<V>(s: Store<V>, ext: multiset<Ptr>, p: Ptr, kind: HeapType, f: (V, V) -> int)
    requires Owned(s, ext, kind, f) && p in ext && p in s && s[p].refcount == 1
    ensures Owned(s - {p}, ext - multiset{p} + multiset(s[p].subtrees), kind, f) && Survives(s - {p}, s)
  {
    assert Parents(s, p) == {};
    ShapeWithout(s, p, kind, f);
    DistinctSubtrees(s, p, kind, f);
    DropCounted(s, ext, p);
  }

  lemma DropCounted<V>(s: Store<V>, ext: multiset<Ptr>, p: Ptr)
    requires Counted(s, ext) && p in ext && p in s && s[p].refcount == 1 && Parents(s, p) == {}
    requires p !in s[p].subtrees && forall q :: q in s[p].subtrees ==> q in s
    requires forall q :: multiset(s[p].subtrees)[q] == if q in s[p].subtrees then 1 else 0
    ensures Counted(s - {p}, ext - multiset{p} + multiset(s[p].subtrees))
  {
    hide Parents;
    var t, subs := s - {p}, s[p].subtrees;
    var ext' := ext - multiset{p} + multiset(subs);
    assert s == t[p := s[p]];
    assert ext[p] == 1;
    forall q | q in t ensures t[q].refcount == |Parents(t, q)| + ext'[q] && t[q].refcount > 0 {
      ParentsWith(t, p, s[p], q);
      assert s[q].refcount == |Parents(s, q)| + ext[q];
    }
    forall q | q in ext' ensures q in t {
      assert ext'[q] > 0;
    }
  }

  /** Bringing in a record: outside references to its subtrees become its own. */
  lemma AddStep<V>(s: Store<V>, ext: multiset<Ptr>, p: Ptr, r: Tree<V>, kind: HeapType, f: (V, V) -> int)
    requires Owned(s, ext + multiset(r.subtrees), kind, f) && p !in s && p !in ext
    requires ShapeAt(s[p := r], p, kind, f) && r.refcount == 1
    ensures Owned(s[p := r], ext + multiset{p}, kind, f)
  {
    var t, ext' := s[p := r], ext + multiset{p};
    ShapeWith(s, p, r, kind, f);
    DistinctSubtrees(t, p, kind, f);
    assert p !in r.subtrees;
    assert Counted(t, ext') by {
      hide Shape, Parents;
      forall q | q in t ensures t[q].refcount == |Parents(t, q)| + ext'[q] && t[q].refcount > 0 {
        ParentsWith(s, p, r, q);
      }
      forall q | q in ext' ensures q in t {
        if q != p { assert q in ext + multiset(r.subtrees); }
      }
    }
  }

  // ---------- the trees in the store, as values ----------

  datatype BT<V> = BT(ptr: Ptr, value: V, kids: seq<BT<V>>)

  /** The tree that hangs from record `p`. */
  ghost function Unfold<V>(s: Store<V>, p: Ptr, kind: HeapType, f: (V, V) -> int): (t: BT<V>)
    requires Shape(s, kind, f) && p in s
    ensures t.ptr == p && t.value == s[p].value && |t.kids| == s[p].order
    decreases s[p].order
  {
    assert ShapeAt(s, p, kind, f);
    var subs := s[p].subtrees;
    BT(p, s[p].value, seq(|subs|, j requires 0 <= j < |subs| => Unfold(s, subs[j], kind, f)))
  }

  lemma UnfoldKid<V>(s: Store<V>, p: Ptr, j: nat, kind: HeapType, f: (V, V) -> int)
    requires Shape(s, kind, f) && p in s && j < |s[p].subtrees|
    ensures |s[p].subtrees| == s[p].order && s[p].subtrees[j] in s && s[s[p].subtrees[j]].order == j
    ensures Unfold(s, p, kind, f).kids[j] == Unfold(s, s[p].subtrees[j], kind, f)
  {
    assert ShapeAt(s, p, kind, f);
  }

  /** Counts and dead records do not matter to a tree. */
  lemma {:induction false} UnfoldSame<V>(t: Store<V>, s: Store<V>, p: Ptr, kind: HeapType, f: (V, V) -> int)
    requires Shape(s, kind, f) && Shape(t, kind, f) && Survives(t, s) && p in t
    ensures p in s && Unfold(t, p, kind, f) == Unfold(s, p, kind, f)
    decreases t[p].order
  {
    assert SameRecord(t[p], s[p]);
    var a, b := Unfold(t, p, kind, f), Unfold(s, p, kind, f);
    forall j | 0 <= j < |t[p].subtrees| ensures a.kids[j] == b.kids[j] {
      UnfoldKid(t, p, j, kind, f);
      UnfoldKid(s, p, j, kind, f);
      UnfoldSame(t, s, t[p].subtrees[j], kind, f);
    }
    assert ShapeAt(t, p, kind, f);
    assert a.kids == b.kids;
  }

  /** A forest is a list of trees; its addresses and its values, with multiplicity. */
  ghost function Ptrs<V>(ts: seq<BT<V>>): multiset<Ptr> {
    if ts == [] then multiset{} else multiset{ts[0].ptr} + Ptrs(ts[0].kids) + Ptrs(ts[1..])
  }

  ghost function Values<V>(ts: seq<BT<V>>): multiset<V> {
    if ts == [] then multiset{} else multiset{ts[0].value} + Values(ts[0].kids) + Values(ts[1..])
  }

  lemma {:induction false} PtrsConcat<V>(a: seq<BT<V>>, b: seq<BT<V>>)
    ensures Ptrs(a + b) == Ptrs(a) + Ptrs(b)
  {
    hide Ptrs;
    if a == [] {
      assert a + b == b;
      PtrsNil<V>();
    } else {
      PtrsConcat(a[1..], b);
      PtrsHead(a[0], a[1..] + b);
      PtrsHead(a[0], a[1..]);
      assert a + b == [a[0]] + (a[1..] + b) && a == [a[0]] + a[1..];
    }
  }

  lemma PtrsNil<V>()
    ensures Ptrs<V>([]) == multiset{}
  {
  }

  lemma ValuesNil<V>()
    ensures Values<V>([]) == multiset{}
  {
  }

  lemma PtrsHead<V>(t: BT<V>, ts: seq<BT<V>>)
    ensures Ptrs([t] + ts) == multiset{t.ptr} + Ptrs(t.kids) + Ptrs(ts)
  {
    assert ([t] + ts)[1..] == ts;
  }

  lemma {:induction false} ValuesConcat<V>(a: seq<BT<V>>, b: seq<BT<V>>)
    ensures Values(a + b) == Values(a) + Values(b)
  {
    hide Values;
    if a == [] {
      assert a + b == b;
      ValuesNil<V>();
    } else {
      ValuesConcat(a[1..], b);
      ValuesHead(a[0], a[1..] + b);
      ValuesHead(a[0], a[1..]);
      assert a + b == [a[0]] + (a[1..] + b) && a == [a[0]] + a[1..];
    }
  }

  lemma ValuesHead<V>(t: BT<V>, ts: seq<BT<V>>)
    ensures Values([t] + ts) == multiset{t.value} + Values(t.kids) + Values(ts)
  {
    assert ([t] + ts)[1..] == ts;
  }

  lemma ForestConcat<V>(a: seq<BT<V>>, b: seq<BT<V>>)
    ensures Ptrs(a + b) == Ptrs(a) + Ptrs(b)
    ensures Values(a + b) == Values(a) + Values(b)
  {
    PtrsConcat(a, b);
    ValuesConcat(a, b);
  }

  lemma ForestOne<V>(t: BT<V>)
    ensures Ptrs([t]) == multiset{t.ptr} + Ptrs(t.kids)
    ensures Values([t]) == multiset{t.value} + Values(t.kids)
  {
    assert [t][1..] == [];
  }

  lemma {:induction false} KidInForest<V>(ts: seq<BT<V>>, j: nat)
    requires j < |ts|
    ensures Ptrs([ts[j]]) <= Ptrs(ts) && Values([ts[j]]) <= Values(ts)
  {
    var a, b := ts[..j], ts[j + 1..];
    assert ts == a + ([ts[j]] + b);
    ForestConcat(a, [ts[j]] + b);
    ForestConcat([ts[j]], b);
  }

  /** The trees of the non-null entries of a roots array. */
  ghost function Forest<V>(s: Store<V>, ps: seq<Ptr>, kind: HeapType, f: (V, V) -> int): seq<BT<V>>
    requires Shape(s, kind, f) && forall p :: p in ps && p != NULL ==> p in s
  {
    if ps == [] then [] else EntryForest(s, ps[0], kind, f) + Forest(s, ps[1..], kind, f)
  }

  /** The references a roots array holds. */
  ghost function Refs(ps: seq<Ptr>): multiset<Ptr> {
    if ps == [] then multiset{} else (if ps[0] == NULL then multiset{} else multiset{ps[0]}) + Refs(ps[1..])
  }

  lemma {:induction false} RefsMember(ps: seq<Ptr>, p: Ptr)
    ensures p in Refs(ps) <==> p in ps && p != NULL
  {
    if ps != [] { RefsMember(ps[1..], p); }
  }

  lemma {:induction false} RefsConcat(a: seq<Ptr>, b: seq<Ptr>)
    ensures Refs(a + b) == Refs(a) + Refs(b)
  {
    if a == [] {
      assert a + b == b;
    } else {
      assert (a + b)[1..] == a[1..] + b;
      RefsConcat(a[1..], b);
    }
  }

  lemma {:induction false} ForestOfConcat<V>(s: Store<V>, a: seq<Ptr>, b: seq<Ptr>, kind: HeapType, f: (V, V) -> int)
    requires Shape(s, kind, f) && (forall p :: p in a && p != NULL ==> p in s)
    requires (forall p :: p in b && p != NULL ==> p in s)
    ensures Forest(s, a + b, kind, f) == Forest(s, a, kind, f) + Forest(s, b, kind, f)
  {
    if a == [] {
      assert a + b == b;
    } else {
      assert (a + b)[1..] == a[1..] + b;
      ForestOfConcat(s, a[1..], b, kind, f);
    }
  }

  lemma {:induction false} ForestSame<V>(t: Store<V>, s: Store<V>, ps: seq<Ptr>, kind: HeapType, f: (V, V) -> int)
    requires Shape(s, kind, f) && Shape(t, kind, f) && Survives(t, s) && forall p :: p in ps && p != NULL ==> p in t
    ensures (forall p :: p in ps && p != NULL ==> p in s) && Forest(t, ps, kind, f) == Forest(s, ps, kind, f)
  {
    if ps != [] {
      if ps[0] != NULL { UnfoldSame(t, s, ps[0], kind, f); }
      ForestSame(t, s, ps[1..], kind, f);
    }
  }

  // ---------- every live record hangs from an outside reference ----------

  lemma {:induction false} PtrsLive<V>(s: Store<V>, p: Ptr, q: Ptr, kind: HeapType, f: (V, V) -> int)
    requires Shape(s, kind, f) && p in s && q in Ptrs([Unfold(s, p, kind, f)])
    ensures q in s && s[q].order <= s[p].order && (q != p ==> s[q].order < s[p].order)
    decreases s[p].order, 1
  {
    var t := Unfold(s, p, kind, f);
    ForestOne(t);
    if q != p { KidsLive(s, p, t.kids, 0, q, kind, f); }
  }

  lemma {:induction false} KidsLive<V>(s: Store<V>, p: Ptr, kids: seq<BT<V>>, i: nat, q: Ptr, kind: HeapType,
                                       f: (V, V) -> int)
    requires Shape(s, kind, f) && p in s && i <= s[p].order && kids == Unfold(s, p, kind, f).kids[i..]
      && q in Ptrs(kids)
    ensures q in s && s[q].order < s[p].order
    decreases s[p].order, 0, |kids|
  {
    assert ShapeAt(s, p, kind, f);
    UnfoldKid(s, p, i, kind, f);
    var k := kids[0];
    ForestOne(k);
    if q in Ptrs([k]) {
      PtrsLive(s, s[p].subtrees[i], q, kind, f);
    } else {
      KidsLive(s, p, kids[1..], i + 1, q, kind, f);
    }
  }

  /** With `q` a tree contains the subtrees of `q`. */
  lemma {:induction false} PtrsClosed<V>(s: Store<V>, p: Ptr, q: Ptr, c: Ptr, kind: HeapType, f: (V, V) -> int)
    requires Shape(s, kind, f) && p in s && q in Ptrs([Unfold(s, p, kind, f)]) && q in s && c in s[q].subtrees
    ensures c in Ptrs([Unfold(s, p, kind, f)])
    decreases s[p].order, 1
  {
    var t := Unfold(s, p, kind, f);
    ForestOne(t);
    if q == p {
      var j :| 0 <= j < |s[p].subtrees| && s[p].subtrees[j] == c;
      UnfoldKid(s, p, j, kind, f);
      KidInForest(t.kids, j);
      ForestOne(t.kids[j]);
      assert c in Ptrs([t.kids[j]]);
    } else {
      KidsClosed(s, p, t.kids, 0, q, c, kind, f);
    }
  }

  lemma {:induction false} KidsClosed<V>(s: Store<V>, p: Ptr, kids: seq<BT<V>>, i: nat, q: Ptr, c: Ptr,
                                         kind: HeapType, f: (V, V) -> int)
    requires Shape(s, kind, f) && p in s && i <= s[p].order && kids == Unfold(s, p, kind, f).kids[i..]
    requires q in Ptrs(kids) && q in s && c in s[q].subtrees
    ensures c in Ptrs(kids)
    decreases s[p].order, 0, |kids|
  {
    assert ShapeAt(s, p, kind, f);
    UnfoldKid(s, p, i, kind, f);
    var k := kids[0];
    ForestOne(k);
    if q in Ptrs([k]) {
      PtrsClosed(s, s[p].subtrees[i], q, c, kind, f);
    } else {
      KidsClosed(s, p, kids[1..], i + 1, q, c, kind, f);
    }
  }

  lemma {:induction false} ForestClosed<V>(s: Store<V>, ps: seq<Ptr>, q: Ptr, c: Ptr, kind: HeapType, f: (V, V) -> int)
    requires Shape(s, kind, f) && (forall p :: p in ps && p != NULL ==> p in s)
    requires q in Ptrs(Forest(s, ps, kind, f)) && q in s && c in s[q].subtrees
    ensures c in Ptrs(Forest(s, ps, kind, f))
  {
    var rest := Forest(s, ps[1..], kind, f);
    if ps[0] == NULL {
      assert Forest(s, ps, kind, f) == rest;
      ForestClosed(s, ps[1..], q, c, kind, f);
    } else {
      var t := Unfold(s, ps[0], kind, f);
      ForestConcat([t], rest);
      if q in Ptrs([t]) { PtrsClosed(s, ps[0], q, c, kind, f); } else { ForestClosed(s, ps[1..], q, c, kind, f); }
    }
  }

  lemma {:induction false} RootsInForest<V>(s: Store<V>, ps: seq<Ptr>, q: Ptr, kind: HeapType, f: (V, V) -> int)
    requires Shape(s, kind, f) && (forall p :: p in ps && p != NULL ==> p in s) && q in ps && q != NULL
    ensures q in Ptrs(Forest(s, ps, kind, f))
  {
    var rest := Forest(s, ps[1..], kind, f);
    if ps[0] == NULL {
      assert Forest(s, ps, kind, f) == rest;
      RootsInForest(s, ps[1..], q, kind, f);
    } else {
      var t := Unfold(s, ps[0], kind, f);
      ForestConcat([t], rest);
      ForestOne(t);
      if q != ps[0] { RootsInForest(s, ps[1..], q, kind, f); }
    }
  }

  lemma {:induction false} OrdersBounded<V>(s: Store<V>) returns (m: nat)
    ensures forall p :: p in s ==> s[p].order < m
    decreases |s|
  {
    if s == map[] {
      m := 0;
    } else {
      var p :| p in s;
      var t := s - {p};
      assert s == t[p := s[p]];
      m := OrdersBounded(t);
      if s[p].order >= m { m := s[p].order + 1; }
    }
  }

  /** No leak: a record with a positive count is reachable from the outside references. */
  lemma {:induction false} Reachable<V>(s: Store<V>, ps: seq<Ptr>, q: Ptr, m: nat, kind: HeapType, f: (V, V) -> int)
    requires Owned(s, Refs(ps), kind, f) && q in s && s[q].order < m && forall p :: p in s ==> s[p].order < m
    ensures forall p :: p in ps && p != NULL ==> p in s
    ensures q in Ptrs(Forest(s, ps, kind, f))
    decreases m - s[q].order
  {
    forall p | p in ps && p != NULL ensures p in s { RefsMember(ps, p); }
    RefsMember(ps, q);
    if q in Refs(ps) {
      RootsInForest(s, ps, q, kind, f);
    } else {
      assert |Parents(s, q)| > 0;
      var p :| p in Parents(s, q);
      DistinctSubtrees(s, p, kind, f);
      Reachable(s, ps, p, m, kind, f);
      ForestClosed(s, ps, p, q, kind, f);
    }
  }

  // ---------- undoing leaves no trace ----------

  /** Records present in both stores are the same but for their counts. */
  ghost predicate Compatible<V>(t: Store<V>, s: Store<V>) {
    forall p :: p in t && p in s ==> SameRecord(t[p], s[p])
  }

  /** What the outside references keep alive in one store is alive in every compatible store they point into. */
  lemma {:induction false} KeyWithin<V>(t: Store<V>, s: Store<V>, ext: multiset<Ptr>, q: Ptr, m: nat, kind: HeapType,
                                        f: (V, V) -> int)
    requires Owned(t, ext, kind, f) && Shape(s, kind, f) && Compatible(t, s) && forall p :: p in ext ==> p in s
    requires q in t && forall p :: p in t ==> t[p].order < m
    ensures q in s
    decreases m - t[q].order
  {
    if q !in ext {
      assert |Parents(t, q)| > 0;
      var p :| p in Parents(t, q);
      DistinctSubtrees(t, p, kind, f);
      KeyWithin(t, s, ext, p, m, kind, f);
      assert SameRecord(t[p], s[p]);
      DistinctSubtrees(s, p, kind, f);
    }
  }

  lemma AllSurvive<V>(t: Store<V>, s: Store<V>, ext: multiset<Ptr>, kind: HeapType, f: (V, V) -> int)
    requires Owned(t, ext, kind, f) && Shape(s, kind, f) && Compatible(t, s) && forall p :: p in ext ==> p in s
    ensures Survives(t, s)
  {
    var m := OrdersBounded(t);
    forall q | q in t ensures q in s { KeyWithin(t, s, ext, q, m, kind, f); }
  }

  /** Two compatible stores owned by the same outside references are equal, counts included. */
  lemma SameStore<V>(t: Store<V>, s: Store<V>, ext: multiset<Ptr>, kind: HeapType, f: (V, V) -> int)
    requires Owned(t, ext, kind, f) && Owned(s, ext, kind, f) && Compatible(t, s)
    ensures t == s
  {
    var m := OrdersBounded(t);
    var n := OrdersBounded(s);
    forall q | q in t ensures q in s { KeyWithin(t, s, ext, q, m, kind, f); }
    forall q | q in s ensures q in t { KeyWithin(s, t, ext, q, n, kind, f); }
    assert t.Keys == s.Keys;
    SameParents(t, s);
    forall q | q in t ensures t[q] == s[q] {
      assert SameRecord(t[q], s[q]);
    }
  }

  // ---------- one reference each ----------

  /** No address occurs twice. */
  ghost predicate Simple(m: multiset<Ptr>) {
    forall p :: m[p] <= 1
  }

  ghost function Roots<V>(ts: seq<BT<V>>): multiset<Ptr> {
    if ts == [] then multiset{} else multiset{ts[0].ptr} + Roots(ts[1..])
  }

  /** The references from each node of a forest to its kids. */
  ghost function KidRefs<V>(ts: seq<BT<V>>): multiset<Ptr> {
    if ts == [] then multiset{} else Roots(ts[0].kids) + KidRefs(ts[0].kids) + KidRefs(ts[1..])
  }

  lemma {:induction false} PtrsAreRefs<V>(ts: seq<BT<V>>)
    ensures Ptrs(ts) == Roots(ts) + KidRefs(ts)
  {
    if ts != [] {
      PtrsAreRefs(ts[0].kids);
      PtrsAreRefs(ts[1..]);
    }
  }

  ghost predicate FromStore<V>(s: Store<V>, ts: seq<BT<V>>, kind: HeapType, f: (V, V) -> int)
    requires Shape(s, kind, f)
  {
    forall i :: 0 <= i < |ts| ==> ts[i].ptr in s && ts[i] == Unfold(s, ts[i].ptr, kind, f)
  }

  lemma KidsFromStore<V>(s: Store<V>, p: Ptr, kind: HeapType, f: (V, V) -> int)
    requires Shape(s, kind, f) && p in s
    ensures FromStore(s, Unfold(s, p, kind, f).kids, kind, f)
    ensures forall q :: q in s[p].subtrees ==> Roots(Unfold(s, p, kind, f).kids)[q] >= 1
  {
    var kids := Unfold(s, p, kind, f).kids;
    assert ShapeAt(s, p, kind, f);
    forall i | 0 <= i < |kids| ensures kids[i].ptr in s && kids[i] == Unfold(s, kids[i].ptr, kind, f) {
      UnfoldKid(s, p, i, kind, f);
    }
    forall q | q in s[p].subtrees ensures Roots(kids)[q] >= 1 {
      var j :| 0 <= j < |s[p].subtrees| && s[p].subtrees[j] == q;
      UnfoldKid(s, p, j, kind, f);
      RootCounted(kids, j);
    }
  }

  lemma {:induction false} RootCounted<V>(ts: seq<BT<V>>, j: nat)
    requires j < |ts|
    ensures Roots(ts)[ts[j].ptr] >= 1
  {
    if j > 0 { RootCounted(ts[1..], j - 1); }
  }

  /** A forest contains at least one reference to `q` from each of its nodes that has `q` as a subtree. */
  lemma {:induction false} KidRefsBound<V>(s: Store<V>, ts: seq<BT<V>>, ps: set<Ptr>, q: Ptr, kind: HeapType,
                                           f: (V, V) -> int)
    requires Shape(s, kind, f) && FromStore(s, ts, kind, f)
    requires forall p :: p in ps ==> p in Ptrs(ts) && p in s && q in s[p].subtrees
    ensures KidRefs(ts)[q] >= |ps|
    decreases ts
  {
    hide Ptrs, KidRefs, Roots, Unfold, Shape;
    if ts == [] {
      PtrsNil<V>();
      assert ps == {};
    } else {
      var t := ts[0];
      assert ts == [t] + ts[1..];
      PtrsHead(t, ts[1..]);
      KidRefsHead(t, ts[1..]);
      var here, below, rest := Within(ps, multiset{t.ptr}), Within(ps, Ptrs(t.kids)), Within(ps, Ptrs(ts[1..]));
      SplitSet(ps, multiset{t.ptr}, Ptrs(t.kids), Ptrs(ts[1..]));
      KidsFromStore(s, t.ptr, kind, f);
      KidRefsBound(s, t.kids, below, q, kind, f);
      KidRefsBound(s, ts[1..], rest, q, kind, f);
      OwnKid(s, t.ptr, here, q, Roots(t.kids));
    }
  }

  ghost function Within(ps: set<Ptr>, m: multiset<Ptr>): set<Ptr> {
    set p | p in ps && p in m
  }

  lemma SplitSet(ps: set<Ptr>, a: multiset<Ptr>, b: multiset<Ptr>, c: multiset<Ptr>)
    requires forall p :: p in ps ==> p in a + b + c
    ensures |ps| <= |Within(ps, a)| + |Within(ps, b)| + |Within(ps, c)|
  {
    assert ps <= Within(ps, a) + Within(ps, b) + Within(ps, c);
    CardUnion(ps, Within(ps, a), Within(ps, b), Within(ps, c));
  }

  lemma OwnKid<V>(s: Store<V>, p: Ptr, here: set<Ptr>, q: Ptr, kids: multiset<Ptr>)
    requires p in s && here <= {p} && (p in here ==> q in s[p].subtrees)
    requires forall c :: c in s[p].subtrees ==> kids[c] >= 1
    ensures |here| <= kids[q]
  {
    if p in here { assert here == {p}; } else { assert here == {}; }
  }

  lemma KidRefsHead<V>(t: BT<V>, ts: seq<BT<V>>)
    ensures KidRefs([t] + ts) == Roots(t.kids) + KidRefs(t.kids) + KidRefs(ts)
  {
    assert ([t] + ts)[1..] == ts;
  }

  lemma CardUnion(ps: set<Ptr>, a: set<Ptr>, b: set<Ptr>, c: set<Ptr>)
    requires ps <= a + b + c
    ensures |ps| <= |a| + |b| + |c|
  {
    SubsetCard(ps, a + b + c);
    UnionCard(a + b, c);
    UnionCard(a, b);
  }

  lemma UnionCard(a: set<Ptr>, b: set<Ptr>)
    ensures |a + b| <= |a| + |b|
  {
    assert |a + b| + |a * b| == |a| + |b|;
  }

  lemma SubsetCard(a: set<Ptr>, b: set<Ptr>)
    requires a <= b
    ensures |a| <= |b|
  {
    assert b == a + (b - a);
  }

  lemma {:induction false} ForestRoots<V>(s: Store<V>, ps: seq<Ptr>, kind: HeapType, f: (V, V) -> int)
    requires Shape(s, kind, f) && forall p :: p in ps && p != NULL ==> p in s
    ensures FromStore(s, Forest(s, ps, kind, f), kind, f)
    ensures Roots(Forest(s, ps, kind, f)) == Refs(ps)
  {
    if ps != [] {
      ForestRoots(s, ps[1..], kind, f);
      var rest := Forest(s, ps[1..], kind, f);
      if ps[0] == NULL {
        assert Forest(s, ps, kind, f) == rest;
      } else {
        var ts := [Unfold(s, ps[0], kind, f)] + rest;
        assert ts[1..] == rest;
        assert Forest(s, ps, kind, f) == ts;
      }
    }
  }

  /** When the trees hanging from the roots share nothing, every live record has exactly one reference. */
  lemma SingleReferences<V>(s: Store<V>, ps: seq<Ptr>, kind: HeapType, f: (V, V) -> int)
    requires Owned(s, Refs(ps), kind, f) && (forall p :: p in ps && p != NULL ==> p in s)
    requires Simple(Ptrs(Forest(s, ps, kind, f)))
    ensures forall q :: q in s ==> s[q].refcount == 1 && q in Ptrs(Forest(s, ps, kind, f))
  {
    var ts := Forest(s, ps, kind, f);
    var m := OrdersBounded(s);
    ForestRoots(s, ps, kind, f);
    PtrsAreRefs(ts);
    forall q | q in s ensures s[q].refcount == 1 && q in Ptrs(ts) {
      Reachable(s, ps, q, m, kind, f);
      var up := Parents(s, q);
      forall p | p in up ensures p in Ptrs(ts) { Reachable(s, ps, p, m, kind, f); }
      KidRefsBound(s, ts, up, q, kind, f);
      assert Ptrs(ts)[q] == Refs(ps)[q] + KidRefs(ts)[q];
    }
  }

  // ---------- merging two trees ----------

  /** The tree with the smaller root first. */
  function Ordered<V>(s: Store<V>, a: Ptr, b: Ptr, kind: HeapType, f: (V, V) -> int): (Ptr, Ptr)
    requires a in s && b in s
  {
    if Compare(kind, f, s[a].value, s[b].value) > 0 then (b, a) else (a, b)
  }

  /** The record that merges two trees of equal order: the subtrees of the smaller root, then the larger tree. */
  function Merged<V>(s: Store<V>, a: Ptr, b: Ptr, kind: HeapType, f: (V, V) -> int): Tree<V>
    requires a in s && b in s
  {
    var (x, y) := Ordered(s, a, b, kind, f);
    Tree(s[x].value, s[x].order + 1, 0, s[x].subtrees + [y])
  }

  /** The merged record fits any store in which its subtrees survive. */
  lemma MergedShape<V(!new)>(s: Store<V>, live: Store<V>, np: Ptr, r: Tree<V>, a: Ptr, b: Ptr, kind: HeapType,
                      f: (V, V) -> int)
    requires Shape(s, kind, f) && TotalPreorder(f) && a in s && b in s && s[a].order == s[b].order
    requires Survives(live, s) && np !in live && np != NULL && SameRecord(r, Merged(s, a, b, kind, f))
    requires forall q :: q in r.subtrees ==> q in live
    ensures ShapeAt(live[np := r], np, kind, f)
  {
    var (x, y) := Ordered(s, a, b, kind, f);
    assert ShapeAt(s, x, kind, f);
    LeqLaws(kind, f, s[a].value, s[b].value, s[a].value);
    var t := live[np := r];
    forall j | 0 <= j < |r.subtrees|
      ensures r.subtrees[j] in t && t[r.subtrees[j]].order == j && Leq(kind, f, r.value, t[r.subtrees[j]].value)
    {
      var q := r.subtrees[j];
      assert q in live && SameRecord(live[q], s[q]);
      if j < s[x].order { assert q == s[x].subtrees[j]; }
    }
  }

  /** The merged tree holds the values of both, and their addresses with the smaller root replaced by the new record. */
  lemma MergedForest<V>(s: Store<V>, t: Store<V>, np: Ptr, a: Ptr, b: Ptr, kind: HeapType, f: (V, V) -> int)
    requires Shape(s, kind, f) && Shape(t, kind, f) && Shape(t - {np}, kind, f)
    requires a in s && b in s && np in t && np !in s
    requires Survives(t - {np}, s) && SameRecord(t[np], Merged(s, a, b, kind, f))
    ensures var (x, y) := Ordered(s, a, b, kind, f);
      && Unfold(t, np, kind, f).kids == Unfold(s, x, kind, f).kids + [Unfold(s, y, kind, f)]
      && Values([Unfold(t, np, kind, f)]) == Values([Unfold(s, a, kind, f)]) + Values([Unfold(s, b, kind, f)])
      && Ptrs([Unfold(t, np, kind, f)]) + multiset{x}
           == multiset{np} + Ptrs([Unfold(s, a, kind, f)]) + Ptrs([Unfold(s, b, kind, f)])
  {
    hide Unfold, Shape, Ptrs, Values, Survives;
    var (x, y) := Ordered(s, a, b, kind, f);
    var u, v, n := Unfold(s, x, kind, f), Unfold(s, y, kind, f), Unfold(t, np, kind, f);
    MergedKids(s, t, np, x, y, kind, f);
    ForestOne(n);
    ForestOne(u);
    ForestConcat(u.kids, [v]);
  }

  lemma MergedKids<V>(s: Store<V>, t: Store<V>, np: Ptr, x: Ptr, y: Ptr, kind: HeapType, f: (V, V) -> int)
    requires Shape(s, kind, f) && Shape(t, kind, f) && Shape(t - {np}, kind, f)
    requires x in s && y in s && np in t && np !in s && Survives(t - {np}, s)
    requires t[np].subtrees == s[x].subtrees + [y] && t[np].order == s[x].order + 1
    ensures Unfold(t, np, kind, f).kids == Unfold(s, x, kind, f).kids + [Unfold(s, y, kind, f)]
  {
    var live := t - {np};
    assert ShapeAt(s, x, kind, f) && ShapeAt(t, np, kind, f);
    var l, r := Unfold(t, np, kind, f).kids, Unfold(s, x, kind, f).kids + [Unfold(s, y, kind, f)];
    DistinctSubtrees(t, np, kind, f);
    forall j | 0 <= j < |t[np].subtrees| ensures l[j] == r[j] {
      var q := t[np].subtrees[j];
      UnfoldKid(t, np, j, kind, f);
      assert q in live;
      UnfoldSame(live, s, q, kind, f);
      UnfoldSame(live, t, q, kind, f);
      if j < |s[x].subtrees| { UnfoldKid(s, x, j, kind, f); }
    }
    assert l == r;
  }

  lemma FreshPtr<V>(s: Store<V>)
    ensures exists p: Ptr :: p != NULL && p !in s
  {
    var m := PtrBound(s.Keys);
    assert m + 1 != NULL && m + 1 !in s;
  }

  lemma {:induction false} PtrBound(ps: set<Ptr>) returns (m: Ptr)
    ensures forall p :: p in ps ==> p <= m
    decreases |ps|
  {
    if ps == {} {
      m := 0;
    } else {
      var p :| p in ps;
      var n := PtrBound(ps - {p});
      m := if p > n then p else n;
      forall q | q in ps ensures q <= m {
        if q != p { assert q in ps - {p}; }
      }
    }
  }

  // ---------- single entries of a roots array ----------

  /** The entry is NULL or a live tree of the given order. */
  ghost predicate Entry<V>(s: Store<V>, p: Ptr, order: nat) {
    p != NULL ==> p in s && s[p].order == order
  }

  ghost predicate LiveOrNull<V>(s: Store<V>, p: Ptr) {
    p != NULL ==> p in s
  }

  /** Values and addresses of the tree at an entry. */
  ghost function EntryValues<V>(s: Store<V>, p: Ptr, kind: HeapType, f: (V, V) -> int): multiset<V>
    requires Shape(s, kind, f) && LiveOrNull(s, p)
  {
    if p == NULL then multiset{} else Values([Unfold(s, p, kind, f)])
  }

  ghost function EntryPtrs<V>(s: Store<V>, p: Ptr, kind: HeapType, f: (V, V) -> int): multiset<Ptr>
    requires Shape(s, kind, f) && LiveOrNull(s, p)
  {
    if p == NULL then multiset{} else Ptrs([Unfold(s, p, kind, f)])
  }

  lemma EntrySame<V>(t: Store<V>, s: Store<V>, p: Ptr, kind: HeapType, f: (V, V) -> int)
    requires Shape(s, kind, f) && Shape(t, kind, f) && Survives(t, s) && LiveOrNull(t, p)
    ensures LiveOrNull(s, p) && EntryValues(t, p, kind, f) == EntryValues(s, p, kind, f)
    ensures EntryPtrs(t, p, kind, f) == EntryPtrs(s, p, kind, f)
    ensures p != NULL ==> t[p].order == s[p].order
  {
    if p != NULL { UnfoldSame(t, s, p, kind, f); assert SameRecord(t[p], s[p]); }
  }

  /** Through a store that lacks one new record. */
  lemma EntrySameBut<V>(t: Store<V>, s: Store<V>, np: Ptr, p: Ptr, kind: HeapType, f: (V, V) -> int)
    requires Shape(s, kind, f) && Shape(t, kind, f) && Shape(t - {np}, kind, f) && Survives(t - {np}, s)
    requires LiveOrNull(t - {np}, p)
    ensures LiveOrNull(s, p) && LiveOrNull(t, p)
    ensures EntryValues(t, p, kind, f) == EntryValues(s, p, kind, f)
    ensures EntryPtrs(t, p, kind, f) == EntryPtrs(s, p, kind, f)
    ensures p != NULL ==> t[p].order == s[p].order
  {
    EntrySame(t - {np}, s, p, kind, f);
    EntrySame(t - {np}, t, p, kind, f);
  }

  ghost predicate AllEntries<V>(s: Store<V>, ps: seq<Ptr>, order: nat) {
    forall i :: 0 <= i < |ps| ==> ps[i] != NULL && ps[i] in s && s[ps[i]].order == order
  }

  ghost function SumValues<V>(s: Store<V>, ps: seq<Ptr>, kind: HeapType, f: (V, V) -> int): multiset<V>
    requires Shape(s, kind, f) && AllLive(s, ps)
  {
    if ps == [] then multiset{} else EntryValues(s, ps[0], kind, f) + SumValues(s, ps[1..], kind, f)
  }

  ghost function SumPtrs<V>(s: Store<V>, ps: seq<Ptr>, kind: HeapType, f: (V, V) -> int): multiset<Ptr>
    requires Shape(s, kind, f) && AllLive(s, ps)
  {
    if ps == [] then multiset{} else EntryPtrs(s, ps[0], kind, f) + SumPtrs(s, ps[1..], kind, f)
  }

  lemma {:induction false} SumConcat<V>(s: Store<V>, a: seq<Ptr>, b: seq<Ptr>, kind: HeapType, f: (V, V) -> int)
    requires Shape(s, kind, f)
    requires (forall i :: 0 <= i < |a| ==> LiveOrNull(s, a[i])) && (forall i :: 0 <= i < |b| ==> LiveOrNull(s, b[i]))
    ensures SumValues(s, a + b, kind, f) == SumValues(s, a, kind, f) + SumValues(s, b, kind, f)
    ensures SumPtrs(s, a + b, kind, f) == SumPtrs(s, a, kind, f) + SumPtrs(s, b, kind, f)
  {
    hide EntryValues, EntryPtrs, Shape;
    if a == [] {
      assert a + b == b;
    } else {
      assert (a + b)[1..] == a[1..] + b && (a + b)[0] == a[0];
      SumConcat(s, a[1..], b, kind, f);
      Regrouped(EntryValues(s, a[0], kind, f), SumValues(s, a[1..], kind, f), SumValues(s, b, kind, f));
      Regrouped(EntryPtrs(s, a[0], kind, f), SumPtrs(s, a[1..], kind, f), SumPtrs(s, b, kind, f));
    }
  }

  lemma Regrouped<T>(a: multiset<T>, b: multiset<T>, c: multiset<T>)
    ensures a + (b + c) == a + b + c
  {
  }

  lemma SumOne<V>(s: Store<V>, p: Ptr, kind: HeapType, f: (V, V) -> int)
    requires Shape(s, kind, f) && LiveOrNull(s, p)
    ensures SumValues(s, [p], kind, f) == EntryValues(s, p, kind, f)
    ensures SumPtrs(s, [p], kind, f) == EntryPtrs(s, p, kind, f)
  {
    hide EntryValues, EntryPtrs, Shape;
    assert [p][1..] == [];
  }

  lemma {:induction false} SumSame<V>(t: Store<V>, s: Store<V>, ps: seq<Ptr>, kind: HeapType, f: (V, V) -> int)
    requires Shape(s, kind, f) && Shape(t, kind, f) && Survives(t, s)
    requires forall i :: 0 <= i < |ps| ==> LiveOrNull(t, ps[i])
    ensures forall i :: 0 <= i < |ps| ==> LiveOrNull(s, ps[i])
    ensures SumValues(t, ps, kind, f) == SumValues(s, ps, kind, f)
    ensures SumPtrs(t, ps, kind, f) == SumPtrs(s, ps, kind, f)
  {
    hide EntryValues, EntryPtrs, Shape;
    if ps != [] {
      assert LiveOrNull(t, ps[0]);
      EntrySame(t, s, ps[0], kind, f);
      SumSame(t, s, ps[1..], kind, f);
      assert forall i :: 0 < i < |ps| ==> ps[i] == ps[1..][i - 1];
    }
  }

  // ---------- roots arrays as binary counters ----------

  function One(p: Ptr): nat { if p == NULL then 0 else 1 }

  function Get(ps: seq<Ptr>, i: nat): Ptr { if i < |ps| then ps[i] else NULL }

  function Take(ps: seq<Ptr>, i: nat): seq<Ptr> { if i <= |ps| then ps[..i] else ps }

  function Drop(ps: seq<Ptr>, i: nat): seq<Ptr> { if i <= |ps| then ps[i..] else [] }

  /** The number of values in trees whose orders are the positions of the non-null entries. */
  ghost function Weight(ps: seq<Ptr>): nat {
    if ps == [] then 0 else Weight(ps[..|ps| - 1]) + One(ps[|ps| - 1]) * Pow(2, |ps| - 1)
  }

  /** The number of trees. */
  ghost function Trees(ps: seq<Ptr>): nat {
    if ps == [] then 0 else Trees(ps[..|ps| - 1]) + One(ps[|ps| - 1])
  }

  lemma TreesSnoc(ps: seq<Ptr>, p: Ptr)
    ensures Trees(ps + [p]) == Trees(ps) + One(p)
  {
    assert (ps + [p])[..|ps|] == ps;
  }

  lemma TreesTake(ps: seq<Ptr>, i: nat)
    ensures Trees(Take(ps, i + 1)) == Trees(Take(ps, i)) + One(Get(ps, i))
  {
    if i < |ps| {
      assert ps[..i + 1] == ps[..i] + [ps[i]];
      TreesSnoc(ps[..i], ps[i]);
    } else {
      assert ps[..|ps|] == ps;
    }
  }

  /** Two or three trees in a column make a carry. */
  function CarryOut(n: nat): nat { if n >= 2 then 1 else 0 }

  /** How often two trees were merged into one on the way to this column: each time there is a tree less. */
  ghost function Carries(a: seq<Ptr>, b: seq<Ptr>, i: nat, done: seq<Ptr>, carry: Ptr): int {
    Trees(Take(a, i)) + Trees(Take(b, i)) - Trees(done) - One(carry)
  }

  lemma CarriesStart(a: seq<Ptr>, b: seq<Ptr>)
    ensures Carries(a, b, 0, [], NULL) == 0
  {
  }

  lemma CarriesStep(a: seq<Ptr>, b: seq<Ptr>, i: nat, done: seq<Ptr>, carry: Ptr, slot: Ptr, next: Ptr)
    requires One(slot) + 2 * One(next) == One(Get(a, i)) + One(Get(b, i)) + One(carry)
    ensures Carries(a, b, i + 1, done + [slot], next) == Carries(a, b, i, done, carry) + One(next)
  {
    hide Trees, Take, One, Get;
    TreesTake(a, i);
    TreesTake(b, i);
    TreesSnoc(done, slot);
  }

  /** The number of binary digits that are one. */
  ghost function Ones(n: nat): nat {
    if n == 0 then 0 else n % 2 + Ones(n / 2)
  }

  lemma {:induction false} OnesTop(n: nat, i: nat)
    requires n < Pow(2, i)
    ensures Ones(n + Pow(2, i)) == Ones(n) + 1
  {
    if i > 0 {
      PowStep(2, i - 1);
      OnesTop(n / 2, i - 1);
      assert (n + Pow(2, i)) / 2 == n / 2 + Pow(2, i - 1) && (n + Pow(2, i)) % 2 == n % 2;
    } else {
      PowZero(2);
    }
  }

  /** One tree for each one among the binary digits. */
  lemma {:induction false} TreesAreOnes(ps: seq<Ptr>)
    ensures Trees(ps) == Ones(Weight(ps)) && Weight(ps) < Pow(2, |ps|)
  {
    PowZero(2);
    if ps != [] {
      var n := |ps| - 1;
      TreesAreOnes(ps[..n]);
      PowStep(2, n);
      OnesTop(Weight(ps[..n]), n);
    }
  }

  /** The carries in the binary addition of two numbers: each replaces two ones by one. */
  ghost function CarriesOf(m: nat, n: nat): int {
    Ones(m) + Ones(n) - Ones(m + n)
  }

  lemma {:induction false} OnesOfSum(m: nat, n: nat, c: nat)
    requires c <= 1
    ensures Ones(m + n + c) <= Ones(m) + Ones(n) + c
    decreases m + n
  {
    if m + n > 0 { OnesOfSum(m / 2, n / 2, (m % 2 + n % 2 + c) / 2); }
  }

  lemma NoFewerOnes(m: nat, n: nat)
    ensures CarriesOf(m, n) >= 0
  {
    OnesOfSum(m, n, 0);
  }

  lemma CarriesEnd(a: seq<Ptr>, b: seq<Ptr>, i: nat, done: seq<Ptr>)
    requires i > |a| && i > |b| && |done| == i && Weight(done) == Weight(a) + Weight(b)
    ensures Carries(a, b, i, done, NULL) == CarriesOf(Weight(a), Weight(b))
  {
    hide Ones, Trees;
    TreesAreOnes(a);
    TreesAreOnes(b);
    TreesAreOnes(done);
  }

  /** The carries so far, with that of this column if there is one, are not more than there are in all. */
  lemma {:induction false} CarriesBound(a: seq<Ptr>, b: seq<Ptr>, i: nat, max: nat, done: seq<Ptr>, carry: Ptr)
    requires max > |a| && max > |b| && |done| == i <= max && (i == max ==> carry == NULL)
    requires Weight(done) + One(carry) * Pow(2, i) == Weight(Take(a, i)) + Weight(Take(b, i))
    ensures Carries(a, b, i, done, carry) + CarryOut(One(Get(a, i)) + One(Get(b, i)) + One(carry))
      <= CarriesOf(Weight(a), Weight(b))
    decreases max - i
  {
    hide Weight, Pow, Carries, CarriesOf;
    if i == max {
      CarriesEnd(a, b, i, done);
    } else {
      var sum := One(Get(a, i)) + One(Get(b, i)) + One(carry);
      var slot, next := if sum % 2 == 0 then NULL else NULL + 1, if sum < 2 then NULL else NULL + 1;
      CountersStep(a, b, i, done, carry, slot, next);
      CarriesStep(a, b, i, done, carry, slot, next);
      CarriesBound(a, b, i + 1, max, done + [slot], next);
    }
  }

  lemma WeightSnoc(ps: seq<Ptr>, p: Ptr)
    ensures Weight(ps + [p]) == Weight(ps) + One(p) * Pow(2, |ps|)
  {
    assert (ps + [p])[..|ps|] == ps;
  }

  lemma WeightTake(ps: seq<Ptr>, i: nat)
    ensures Weight(Take(ps, i + 1)) == Weight(Take(ps, i)) + One(Get(ps, i)) * Pow(2, i)
  {
    if i < |ps| {
      assert Take(ps, i + 1) == Take(ps, i) + [ps[i]];
      WeightSnoc(Take(ps, i), ps[i]);
    } else {
      assert Take(ps, i + 1) == Take(ps, i);
    }
  }

  /** Every entry is NULL or a live tree whose order is its position. */
  ghost predicate RootOrders<V>(s: Store<V>, ps: seq<Ptr>) {
    forall i :: 0 <= i < |ps| ==> Entry(s, ps[i], i)
  }

  ghost predicate AllLive<V>(s: Store<V>, ps: seq<Ptr>) {
    forall i :: 0 <= i < |ps| ==> LiveOrNull(s, ps[i])
  }

  lemma DropLive<V>(s: Store<V>, ps: seq<Ptr>, i: nat, kind: HeapType, f: (V, V) -> int)
    requires Shape(s, kind, f) && AllLive(s, ps)
    ensures LiveOrNull(s, Get(ps, i)) && AllLive(s, Drop(ps, i)) && AllLive(s, Drop(ps, i + 1))
    ensures SumValues(s, Drop(ps, i), kind, f)
      == EntryValues(s, Get(ps, i), kind, f) + SumValues(s, Drop(ps, i + 1), kind, f)
    ensures SumPtrs(s, Drop(ps, i), kind, f) == EntryPtrs(s, Get(ps, i), kind, f) + SumPtrs(s, Drop(ps, i + 1), kind, f)
  {
    if i < |ps| {
      assert LiveOrNull(s, ps[i]);
      assert Drop(ps, i)[1..] == Drop(ps, i + 1) && Drop(ps, i)[0] == ps[i];
      var d, e := Drop(ps, i), Drop(ps, i + 1);
      forall j | 0 <= j < |d| ensures LiveOrNull(s, d[j]) {
        assert d[j] == ps[i + j];
      }
      forall j | 0 <= j < |e| ensures LiveOrNull(s, e[j]) {
        assert e[j] == ps[i + 1 + j];
      }
    }
  }

  // ---------- the state of a merge ----------

  /** Part way through merging the roots a and b of the store s0: `done` holds the new entries below i, `carry` the
      tree carried into column i. Values are conserved, no record is shared, and the counters add up. */
  ghost predicate MergeState<V>(s0: Store<V>, t: Store<V>, a: seq<Ptr>, b: seq<Ptr>, i: nat, done: seq<Ptr>, carry: Ptr,
                                all: multiset<V>, kind: HeapType, f: (V, V) -> int)
  {
    && Shape(s0, kind, f) && Shape(t, kind, f) && AllLive(s0, Drop(a, i)) && AllLive(s0, Drop(b, i))
    && |done| == i && RootOrders(t, done) && AllLive(t, done) && Entry(t, carry, i) && LiveOrNull(t, carry)
    && Weight(done) + One(carry) * Pow(2, i) == Weight(Take(a, i)) + Weight(Take(b, i))
    && SumValues(t, done, kind, f) + EntryValues(t, carry, kind, f)
       + SumValues(s0, Drop(a, i), kind, f) + SumValues(s0, Drop(b, i), kind, f) == all
    && Simple(SumPtrs(t, done, kind, f) + EntryPtrs(t, carry, kind, f)
              + SumPtrs(s0, Drop(a, i), kind, f) + SumPtrs(s0, Drop(b, i), kind, f))
  }

  lemma MergeStart<V>(s: Store<V>, a: seq<Ptr>, b: seq<Ptr>, kind: HeapType, f: (V, V) -> int)
    requires Shape(s, kind, f) && AllLive(s, a) && AllLive(s, b)
    requires Simple(SumPtrs(s, a, kind, f) + SumPtrs(s, b, kind, f))
    ensures MergeState(s, s, a, b, 0, [], NULL, SumValues(s, a, kind, f) + SumValues(s, b, kind, f), kind, f)
  {
    hide EntryValues, EntryPtrs, Shape, Simple;
    EntryNull(s, kind, f);
    assert Drop(a, 0) == a && Drop(b, 0) == b && Take(a, 0) == [] && Take(b, 0) == [];
    var pa, pb := SumPtrs(s, a, kind, f), SumPtrs(s, b, kind, f);
    assert multiset{} + multiset{} + pa + pb == pa + pb;
    var va, vb := SumValues(s, a, kind, f), SumValues(s, b, kind, f);
    assert multiset{} + multiset{} + va + vb == va + vb;
  }

  lemma EntryNull<V>(s: Store<V>, kind: HeapType, f: (V, V) -> int)
    requires Shape(s, kind, f)
    ensures EntryValues(s, NULL, kind, f) == multiset{} && EntryPtrs(s, NULL, kind, f) == multiset{}
  {
  }

  /** The trees to merge in one column. */
  function ValsAt(h: Ptr, o: Ptr, carry: Ptr): (vals: seq<Ptr>)
    ensures |vals| == One(h) + One(o) + One(carry)
  {
    Maybe(h) + Maybe(o) + Maybe(carry)
  }

  function Maybe(p: Ptr): seq<Ptr> { if p != NULL then [p] else [] }

  lemma ValsSum<V>(s: Store<V>, h: Ptr, o: Ptr, carry: Ptr, kind: HeapType, f: (V, V) -> int)
    requires Shape(s, kind, f) && LiveOrNull(s, h) && LiveOrNull(s, o) && LiveOrNull(s, carry)
    ensures AllLive(s, ValsAt(h, o, carry))
    ensures SumValues(s, ValsAt(h, o, carry), kind, f)
         == EntryValues(s, h, kind, f) + EntryValues(s, o, kind, f) + EntryValues(s, carry, kind, f)
    ensures SumPtrs(s, ValsAt(h, o, carry), kind, f)
         == EntryPtrs(s, h, kind, f) + EntryPtrs(s, o, kind, f) + EntryPtrs(s, carry, kind, f)
  {
    hide EntryValues, EntryPtrs, Shape, SumValues, SumPtrs;
    MaybeSum(s, h, kind, f);
    MaybeSum(s, o, kind, f);
    MaybeSum(s, carry, kind, f);
    SumConcat(s, Maybe(h), Maybe(o), kind, f);
    SumConcat(s, Maybe(h) + Maybe(o), Maybe(carry), kind, f);
  }

  lemma MaybeSum<V>(s: Store<V>, p: Ptr, kind: HeapType, f: (V, V) -> int)
    requires Shape(s, kind, f) && LiveOrNull(s, p)
    ensures AllLive(s, Maybe(p)) && SumValues(s, Maybe(p), kind, f) == EntryValues(s, p, kind, f)
    ensures SumPtrs(s, Maybe(p), kind, f) == EntryPtrs(s, p, kind, f)
  {
    hide EntryValues, EntryPtrs, Shape;
    EntryNull(s, kind, f);
    SumOne(s, p, kind, f);
  }

  /** Addresses in a sum of trees are live. */
  lemma {:induction false} SumPtrsLive<V>(s: Store<V>, ps: seq<Ptr>, q: Ptr, kind: HeapType, f: (V, V) -> int)
    requires Shape(s, kind, f) && AllLive(s, ps) && q !in s
    ensures SumPtrs(s, ps, kind, f)[q] == 0
  {
    if ps != [] {
      assert LiveOrNull(s, ps[0]);
      NoDeadPtr(s, ps[0], q, kind, f);
      assert forall i :: 0 <= i < |ps[1..]| ==> ps[1..][i] == ps[i + 1];
      SumPtrsLive(s, ps[1..], q, kind, f);
    }
  }

  lemma NoDeadPtr<V>(s: Store<V>, p: Ptr, q: Ptr, kind: HeapType, f: (V, V) -> int)
    requires Shape(s, kind, f) && LiveOrNull(s, p) && q !in s
    ensures EntryPtrs(s, p, kind, f)[q] == 0
  {
    if q in EntryPtrs(s, p, kind, f) { PtrsLive(s, p, q, kind, f); }
  }

  /** `m` has nothing more often than `n` has it, but for `born`, which it has at most once. */
  ghost predicate AtMost(m: multiset<Ptr>, n: multiset<Ptr>, born: Ptr) {
    m[born] <= 1 && forall p :: p != born ==> m[p] <= n[p]
  }

  lemma SharingStep(done: multiset<Ptr>, slot: multiset<Ptr>, next: multiset<Ptr>, carry: multiset<Ptr>,
                    h: multiset<Ptr>, o: multiset<Ptr>,
                    restA: multiset<Ptr>, restB: multiset<Ptr>, born: Ptr)
    requires AtMost(slot + next, h + o + carry, born) && Simple(done + carry + (h + restA) + (o + restB))
    requires done[born] == 0 && restA[born] == 0 && restB[born] == 0
    ensures Simple((done + slot) + next + restA + restB)
  {
    var m, n := (done + slot) + next + restA + restB, done + carry + (h + restA) + (o + restB);
    forall p ensures m[p] <= 1 {
      assert m[p] == done[p] + (slot + next)[p] + restA[p] + restB[p];
      assert n[p] == done[p] + (h + o + carry)[p] + restA[p] + restB[p];
      if p != born { assert (slot + next)[p] <= (h + o + carry)[p]; }
    }
  }

  /** What one column of the merge yields: the entry `slot`, the tree `next` to carry, and the store u. */
  ghost predicate ColumnDone<V>(t: Store<V>, u: Store<V>, i: nat, done: seq<Ptr>, vals: seq<Ptr>,
                                slot: Ptr, next: Ptr, kind: HeapType, f: (V, V) -> int) {
    && Shape(t, kind, f) && Shape(u, kind, f) && Shape(u - {next}, kind, f) && Survives(u - {next}, t) && next !in t
    && AllLive(t, done) && AllLive(u, done) && AllLive(t, vals)
    && Entry(u, slot, i) && Entry(u, next, i + 1) && LiveOrNull(u, slot) && LiveOrNull(u, next)
    && One(slot) + 2 * One(next) == |vals|
    && EntryValues(u, slot, kind, f) + EntryValues(u, next, kind, f) == SumValues(t, vals, kind, f)
    && AtMost(EntryPtrs(u, slot, kind, f) + EntryPtrs(u, next, kind, f), SumPtrs(t, vals, kind, f), next)
  }

  lemma DoneSame<V>(t: Store<V>, u: Store<V>, i: nat, done: seq<Ptr>, vals: seq<Ptr>, slot: Ptr, next: Ptr,
                    kind: HeapType, f: (V, V) -> int)
    requires ColumnDone(t, u, i, done, vals, slot, next, kind, f)
    ensures AllLive(u, done + [slot])
    ensures SumValues(u, done + [slot], kind, f) == SumValues(t, done, kind, f) + EntryValues(u, slot, kind, f)
    ensures SumPtrs(u, done + [slot], kind, f) == SumPtrs(t, done, kind, f) + EntryPtrs(u, slot, kind, f)
    ensures SumPtrs(t, done, kind, f)[next] == 0
    ensures RootOrders(t, done) && |done| == i ==> RootOrders(u, done + [slot])
  {
    hide EntryValues, EntryPtrs, Shape, SumValues, SumPtrs, Survives, AtMost;
    EntriesWithout(u, next, t, done, kind, f);
    SumSame(u - {next}, t, done, kind, f);
    SumSame(u - {next}, u, done, kind, f);
    SumOne(u, slot, kind, f);
    SumConcat(u, done, [slot], kind, f);
    SumPtrsLive(t, done, next, kind, f);
    if RootOrders(t, done) && |done| == i {
      DoneOrders(u - {next}, t, done);
      forall j | 0 <= j < i + 1 ensures Entry(u, (done + [slot])[j], j) {
        if j < i { assert Entry(u - {next}, done[j], j); }
      }
    }
  }

  lemma RestSame<V>(s0: Store<V>, t: Store<V>, a: seq<Ptr>, i: nat, next: Ptr, kind: HeapType, f: (V, V) -> int)
    requires Shape(s0, kind, f) && Shape(t, kind, f) && Survives(s0, t) && AllLive(s0, a) && next !in t
    ensures AllLive(s0, Drop(a, i)) && AllLive(s0, Drop(a, i + 1)) && LiveOrNull(t, Get(a, i))
    ensures SumValues(s0, Drop(a, i), kind, f)
      == EntryValues(t, Get(a, i), kind, f) + SumValues(s0, Drop(a, i + 1), kind, f)
    ensures SumPtrs(s0, Drop(a, i), kind, f) == EntryPtrs(t, Get(a, i), kind, f) + SumPtrs(s0, Drop(a, i + 1), kind, f)
    ensures SumPtrs(s0, Drop(a, i + 1), kind, f)[next] == 0
  {
    hide EntryValues, EntryPtrs, Shape, SumValues, SumPtrs;
    DropLive(s0, a, i, kind, f);
    EntrySame(s0, t, Get(a, i), kind, f);
    BornNowhere(s0, t, next);
    SumPtrsLive(s0, Drop(a, i + 1), next, kind, f);
  }

  /** One column takes the state of the merge one order further. */
  lemma MergeStep<V>(s0: Store<V>, t: Store<V>, u: Store<V>, a: seq<Ptr>, b: seq<Ptr>, i: nat, done: seq<Ptr>,
                     carry: Ptr,
                     slot: Ptr, next: Ptr, all: multiset<V>, kind: HeapType, f: (V, V) -> int)
    requires MergeState(s0, t, a, b, i, done, carry, all, kind, f) && Survives(s0, t) && AllLive(s0, a)
      && AllLive(s0, b)
    requires ColumnDone(t, u, i, done, ValsAt(Get(a, i), Get(b, i), carry), slot, next, kind, f)
    ensures MergeState(s0, u, a, b, i + 1, done + [slot], next, all, kind, f)
  {
    hide EntryValues, EntryPtrs, Shape, SumValues, SumPtrs, Survives, Simple, AtMost, Weight, ValsAt, Take, Drop;
    var h, o := Get(a, i), Get(b, i);
    DoneSame(t, u, i, done, ValsAt(h, o, carry), slot, next, kind, f);
    RestSame(s0, t, a, i, next, kind, f);
    RestSame(s0, t, b, i, next, kind, f);
    ValsSum(t, h, o, carry, kind, f);
    ValuesStep(SumValues(t, done, kind, f), EntryValues(u, slot, kind, f), EntryValues(u, next, kind, f),
               EntryValues(t, carry, kind, f), EntryValues(t, h, kind, f), EntryValues(t, o, kind, f),
               SumValues(s0, Drop(a, i + 1), kind, f), SumValues(s0, Drop(b, i + 1), kind, f), all);
    SharingStep(SumPtrs(t, done, kind, f), EntryPtrs(u, slot, kind, f), EntryPtrs(u, next, kind, f),
                EntryPtrs(t, carry, kind, f), EntryPtrs(t, h, kind, f), EntryPtrs(t, o, kind, f),
                SumPtrs(s0, Drop(a, i + 1), kind, f), SumPtrs(s0, Drop(b, i + 1), kind, f), next);
    CountersStep(a, b, i, done, carry, slot, next);
  }

  lemma CountersStep(a: seq<Ptr>, b: seq<Ptr>, i: nat, done: seq<Ptr>, carry: Ptr, slot: Ptr, next: Ptr)
    requires |done| == i && Weight(done) + One(carry) * Pow(2, i) == Weight(Take(a, i)) + Weight(Take(b, i))
    requires One(slot) + 2 * One(next) == One(Get(a, i)) + One(Get(b, i)) + One(carry)
    ensures Weight(done + [slot]) + One(next) * Pow(2, i + 1) == Weight(Take(a, i + 1)) + Weight(Take(b, i + 1))
  {
    hide Weight, Take, Pow, One, Get;
    WeightSnoc(done, slot);
    WeightTake(a, i);
    WeightTake(b, i);
    CounterStep(One(slot), One(next), One(Get(a, i)), One(Get(b, i)), One(carry), Pow(2, i));
    PowStep(2, i);
  }

  lemma CounterStep(slot: nat, next: nat, h: nat, o: nat, carry: nat, p: nat)
    requires slot + 2 * next == h + o + carry
    ensures slot * p + next * (2 * p) == h * p + o * p + carry * p
  {
    MulEqual(p, slot + 2 * next, h + o + carry);
  }

  lemma BornNowhere<V>(s0: Store<V>, t: Store<V>, next: Ptr)
    requires Survives(s0, t) && next !in t
    ensures next !in s0
  {
  }

  lemma EntriesWithout<V>(u: Store<V>, next: Ptr, t: Store<V>, done: seq<Ptr>, kind: HeapType, f: (V, V) -> int)
    requires Shape(t, kind, f) && next !in t && AllLive(t, done) && AllLive(u, done)
    requires Shape(u, kind, f) && Shape(u - {next}, kind, f) && Survives(u - {next}, t)
    ensures AllLive(u - {next}, done) && Survives(u - {next}, u)
  {
    forall i | 0 <= i < |done| ensures LiveOrNull(u - {next}, done[i]) {
      assert LiveOrNull(t, done[i]) && LiveOrNull(u, done[i]);
    }
  }

  lemma DoneOrders<V>(live: Store<V>, t: Store<V>, done: seq<Ptr>)
    requires RootOrders(t, done) && Survives(live, t) && AllLive(live, done)
    ensures RootOrders(live, done)
  {
    forall i | 0 <= i < |done| ensures Entry(live, done[i], i) {
      assert Entry(t, done[i], i) && LiveOrNull(live, done[i]);
    }
  }

  /** Column arithmetic on values: bags of the state before and after one column. */
  lemma ValuesStep<V>(done: multiset<V>, slot: multiset<V>, next: multiset<V>, carry: multiset<V>, h: multiset<V>,
                      o: multiset<V>,
                      restA: multiset<V>, restB: multiset<V>, all: multiset<V>)
    requires slot + next == h + o + carry && done + carry + (h + restA) + (o + restB) == all
    ensures (done + slot) + next + restA + restB == all
  {
    assert (done + slot) + next + restA + restB == done + (slot + next) + restA + restB;
    assert done + (h + o + carry) + restA + restB == done + carry + (h + restA) + (o + restB);
  }

  // ---------- sums, forests and subtrees ----------

  lemma {:induction false} SumIsForest<V>(s: Store<V>, ps: seq<Ptr>, kind: HeapType, f: (V, V) -> int)
    requires Shape(s, kind, f) && AllLive(s, ps)
    ensures forall p :: p in ps && p != NULL ==> p in s
    ensures SumValues(s, ps, kind, f) == Values(Forest(s, ps, kind, f))
    ensures SumPtrs(s, ps, kind, f) == Ptrs(Forest(s, ps, kind, f))
  {
    LiveMembers(s, ps);
    if ps == [] {
      PtrsNil<V>();
      ValuesNil<V>();
    } else {
      hide Unfold, Shape, Ptrs, Values, EntryValues, EntryPtrs, LiveOrNull;
      assert LiveOrNull(s, ps[0]);
      assert forall i :: 0 <= i < |ps[1..]| ==> ps[1..][i] == ps[i + 1];
      SumIsForest(s, ps[1..], kind, f);
      EntryAsForest(s, ps[0], kind, f);
      ForestConcat(EntryForest(s, ps[0], kind, f), Forest(s, ps[1..], kind, f));
    }
  }

  ghost function EntryForest<V>(s: Store<V>, p: Ptr, kind: HeapType, f: (V, V) -> int): seq<BT<V>>
    requires Shape(s, kind, f) && LiveOrNull(s, p)
  {
    if p == NULL then [] else [Unfold(s, p, kind, f)]
  }

  lemma EntryAsForest<V>(s: Store<V>, p: Ptr, kind: HeapType, f: (V, V) -> int)
    requires Shape(s, kind, f) && LiveOrNull(s, p)
    ensures EntryValues(s, p, kind, f) == Values(EntryForest(s, p, kind, f))
    ensures EntryPtrs(s, p, kind, f) == Ptrs(EntryForest(s, p, kind, f))
  {
  }

  lemma LiveMembers<V>(s: Store<V>, ps: seq<Ptr>)
    requires AllLive(s, ps)
    ensures forall p :: p in ps && p != NULL ==> p in s
  {
    forall p | p in ps && p != NULL ensures p in s {
      var i :| 0 <= i < |ps| && ps[i] == p;
      assert LiveOrNull(s, ps[i]);
    }
  }

  lemma {:induction false} ForestIsKids<V>(s: Store<V>, p: Ptr, i: nat, kind: HeapType, f: (V, V) -> int)
    requires Shape(s, kind, f) && p in s && i <= |s[p].subtrees|
    ensures forall q :: q in s[p].subtrees[i..] ==> q in s && q != NULL
    ensures |s[p].subtrees| == s[p].order
    ensures Forest(s, s[p].subtrees[i..], kind, f) == Unfold(s, p, kind, f).kids[i..]
    decreases |s[p].subtrees| - i
  {
    assert ShapeAt(s, p, kind, f);
    var subs, kids := s[p].subtrees, Unfold(s, p, kind, f).kids;
    forall q | q in subs[i..] ensures q in s && q != NULL {
      var j :| i <= j < |subs| && subs[j] == q;
      assert ShapeAt(s, subs[j], kind, f);
    }
    if i < |subs| {
      ForestIsKids(s, p, i + 1, kind, f);
      UnfoldKid(s, p, i, kind, f);
      assert subs[i..][1..] == subs[i + 1..] && kids[i..] == [kids[i]] + kids[i + 1..];
      assert subs[i] in subs[i..];
    }
  }

  /** A tree is its root and its subtrees. */
  lemma EntryOpened<V>(s: Store<V>, p: Ptr, kind: HeapType, f: (V, V) -> int)
    requires Shape(s, kind, f) && p in s
    ensures p != NULL && RootOrders(s, s[p].subtrees) && AllLive(s, s[p].subtrees) && NULL !in s[p].subtrees
    ensures |s[p].subtrees| == s[p].order
    ensures EntryValues(s, p, kind, f) == multiset{s[p].value} + SumValues(s, s[p].subtrees, kind, f)
    ensures EntryPtrs(s, p, kind, f) == multiset{p} + SumPtrs(s, s[p].subtrees, kind, f)
  {
    hide Ptrs, Values;
    assert ShapeAt(s, p, kind, f);
    var subs := s[p].subtrees;
    ForestIsKids(s, p, 0, kind, f);
    assert subs[0..] == subs && Unfold(s, p, kind, f).kids[0..] == Unfold(s, p, kind, f).kids;
    forall j | 0 <= j < |subs| ensures Entry(s, subs[j], j) && LiveOrNull(s, subs[j]) { assert subs[j] in subs; }
    SumIsForest(s, subs, kind, f);
    ForestOne(Unfold(s, p, kind, f));
  }

  /** The root of a tree is a least value of it. */
  lemma {:induction false} RootIsLeast<V(!new)>(s: Store<V>, p: Ptr, v: V, kind: HeapType, f: (V, V) -> int)
    requires Shape(s, kind, f) && TotalPreorder(f) && p in s && p != NULL && v in EntryValues(s, p, kind, f)
    ensures Leq(kind, f, s[p].value, v)
    decreases s[p].order, 1
  {
    hide EntryValues, TotalPreorder, SumValues;
    EntryOpened(s, p, kind, f);
    if v == s[p].value {
      LeqLaws(kind, f, v, v, v);
    } else {
      assert v in SumValues(s, s[p].subtrees, kind, f);
      assert s[p].subtrees[0..] == s[p].subtrees;
      SubtreesNotLess(s, p, 0, v, kind, f);
    }
  }

  lemma {:induction false} SubtreesNotLess<V(!new)>(s: Store<V>, p: Ptr, i: nat, v: V, kind: HeapType, f: (V, V) -> int)
    requires Shape(s, kind, f) && TotalPreorder(f) && p in s && i <= |s[p].subtrees|
    requires AllLive(s, s[p].subtrees[i..]) && v in SumValues(s, s[p].subtrees[i..], kind, f)
    ensures Leq(kind, f, s[p].value, v)
    decreases s[p].order, 0, |s[p].subtrees| - i
  {
    hide EntryValues, TotalPreorder;
    assert ShapeAt(s, p, kind, f);
    var subs := s[p].subtrees[i..];
    if subs != [] {
      var q := subs[0];
      assert q == s[p].subtrees[i] && LiveOrNull(s, q);
      assert subs[1..] == s[p].subtrees[i + 1..];
      assert forall j :: 0 <= j < |subs[1..]| ==> subs[1..][j] == subs[j + 1];
      assert ShapeAt(s, q, kind, f);
      if v in EntryValues(s, q, kind, f) {
        RootIsLeast(s, q, v, kind, f);
        LeqLaws(kind, f, s[p].value, s[q].value, v);
      } else {
        SubtreesNotLess(s, p, i + 1, v, kind, f);
      }
    }
  }

  /** Taking one entry out of a roots array. */
  lemma SumWithout<V>(s: Store<V>, ps: seq<Ptr>, l: nat, kind: HeapType, f: (V, V) -> int)
    requires Shape(s, kind, f) && AllLive(s, ps) && l < |ps|
    ensures AllLive(s, ps[l := NULL]) && LiveOrNull(s, ps[l])
    ensures SumValues(s, ps, kind, f) == SumValues(s, ps[l := NULL], kind, f) + EntryValues(s, ps[l], kind, f)
    ensures SumPtrs(s, ps, kind, f) == SumPtrs(s, ps[l := NULL], kind, f) + EntryPtrs(s, ps[l], kind, f)
  {
    hide EntryValues, EntryPtrs, Shape, SumValues, SumPtrs, AllLive;
    var a, b, p := ps[..l], ps[l + 1..], ps[l];
    assert ps == a + ([p] + b) && ps[l := NULL] == a + ([NULL] + b);
    LiveParts(s, a, p, b);
    SumAround(s, a, p, b, kind, f);
    SumAround(s, a, NULL, b, kind, f);
    EntryNull(s, kind, f);
  }

  lemma LiveParts<V>(s: Store<V>, a: seq<Ptr>, p: Ptr, b: seq<Ptr>)
    requires AllLive(s, a + ([p] + b))
    ensures AllLive(s, a) && AllLive(s, b) && LiveOrNull(s, p) && AllLive(s, a + ([NULL] + b))
  {
    var c := a + ([p] + b);
    assert forall i :: 0 <= i < |a| ==> a[i] == c[i];
    assert p == c[|a|];
    assert forall i :: 0 <= i < |b| ==> b[i] == c[|a| + 1 + i];
  }

  lemma SumAround<V>(s: Store<V>, a: seq<Ptr>, p: Ptr, b: seq<Ptr>, kind: HeapType, f: (V, V) -> int)
    requires Shape(s, kind, f) && AllLive(s, a) && AllLive(s, b) && LiveOrNull(s, p)
    ensures AllLive(s, a + ([p] + b))
    ensures SumValues(s, a + ([p] + b), kind, f)
      == SumValues(s, a, kind, f) + (EntryValues(s, p, kind, f) + SumValues(s, b, kind, f))
    ensures SumPtrs(s, a + ([p] + b), kind, f)
      == SumPtrs(s, a, kind, f) + (EntryPtrs(s, p, kind, f) + SumPtrs(s, b, kind, f))
  {
    hide EntryValues, EntryPtrs, Shape, SumValues, SumPtrs;
    SumConcat(s, [p], b, kind, f);
    SumConcat(s, a, [p] + b, kind, f);
    SumOne(s, p, kind, f);
  }

  lemma {:induction false} WeightWithout(ps: seq<Ptr>, l: nat)
    requires l < |ps| && ps[l] != NULL
    ensures Weight(ps) == Weight(ps[l := NULL]) + Pow(2, l)
  {
    var n := |ps| - 1;
    if l < n {
      WeightWithout(ps[..n], l);
      assert ps[l := NULL][..n] == ps[..n][l := NULL];
    } else {
      assert ps[l := NULL][..n] == ps[..n];
    }
  }

  lemma {:induction false} WeightFull(ps: seq<Ptr>)
    requires NULL !in ps
    ensures Weight(ps) + 1 == Pow(2, |ps|)
  {
    if ps != [] {
      var n := |ps| - 1;
      assert forall p :: p in ps[..n] ==> p in ps;
      WeightFull(ps[..n]);
      assert ps[n] in ps;
      PowStep(2, n);
    }
  }

  lemma RefsWithout(ps: seq<Ptr>, l: nat)
    requires l < |ps| && ps[l] != NULL
    ensures Refs(ps) == Refs(ps[l := NULL]) + multiset{ps[l]}
  {
    hide Refs;
    var a, b, p := ps[..l], ps[l + 1..], ps[l];
    assert ps == a + ([p] + b) && ps[l := NULL] == a + ([NULL] + b);
    RefsConcat([p], b);
    RefsConcat(a, [p] + b);
    RefsConcat([NULL], b);
    RefsConcat(a, [NULL] + b);
    OneRef(p);
    OneRef(NULL);
  }

  /** Null entries at the end change nothing. */
  lemma {:induction false} Trim<V>(s: Store<V>, ps: seq<Ptr>, n: nat, kind: HeapType, f: (V, V) -> int)
    requires Shape(s, kind, f) && AllLive(s, ps) && n <= |ps| && forall i :: n <= i < |ps| ==> ps[i] == NULL
    ensures AllLive(s, ps[..n]) && Refs(ps[..n]) == Refs(ps) && Weight(ps[..n]) == Weight(ps)
    ensures SumValues(s, ps[..n], kind, f) == SumValues(s, ps, kind, f)
    ensures SumPtrs(s, ps[..n], kind, f) == SumPtrs(s, ps, kind, f)
    decreases |ps|
  {
    hide EntryValues, EntryPtrs, Shape, SumValues, SumPtrs, Refs;
    if n == |ps| {
      assert ps[..n] == ps;
    } else {
      var m := |ps| - 1;
      var init := ps[..m];
      assert ps == init + [NULL] && init[..n] == ps[..n];
      Trim(s, init, n, kind, f);
      SumConcat(s, init, [NULL], kind, f);
      SumOne(s, NULL, kind, f);
      EntryNull(s, kind, f);
      RefsConcat(init, [NULL]);
      OneRef(NULL);
    }
  }

  // ---------- sizes ----------

  /** A tree of order k holds 2^k values. */
  lemma {:induction false} TreeSize<V>(s: Store<V>, p: Ptr, kind: HeapType, f: (V, V) -> int)
    requires Shape(s, kind, f) && p in s && p != NULL
    ensures |EntryValues(s, p, kind, f)| == Pow(2, s[p].order)
    decreases s[p].order, 1
  {
    hide EntryValues, SumValues, SumPtrs, EntryPtrs, Shape;
    EntryOpened(s, p, kind, f);
    var subs := s[p].subtrees;
    assert subs[..|subs|] == subs;
    RootsSize(s, subs, |subs|, s[p].order, kind, f);
    WeightFull(subs);
  }

  lemma {:induction false} RootsSize<V>(s: Store<V>, ps: seq<Ptr>, n: nat, bound: nat, kind: HeapType, f: (V, V) -> int)
    requires Shape(s, kind, f) && RootOrders(s, ps) && AllLive(s, ps) && n <= |ps| <= bound
    ensures AllLive(s, ps[..n]) && |SumValues(s, ps[..n], kind, f)| == Weight(ps[..n])
    decreases bound, 0, n
  {
    hide EntryValues, SumPtrs, EntryPtrs, Shape, SumValues, Weight;
    if n == 0 {
      assert ps[..0] == [];
      EmptyRoots(s, kind, f);
    } else {
      var p := ps[n - 1];
      RootsSize(s, ps, n - 1, bound, kind, f);
      assert ps[..n] == ps[..n - 1] + [p];
      assert Entry(s, ps[n - 1], n - 1) && LiveOrNull(s, ps[n - 1]);
      SumConcat(s, ps[..n - 1], [p], kind, f);
      SumOne(s, p, kind, f);
      WeightSnoc(ps[..n - 1], p);
      EntryNull(s, kind, f);
      if p != NULL { TreeSize(s, p, kind, f); }
    }
  }

  lemma EmptyRoots<V>(s: Store<V>, kind: HeapType, f: (V, V) -> int)
    requires Shape(s, kind, f)
    ensures AllLive(s, []) && SumValues(s, [], kind, f) == multiset{}
    ensures SumPtrs(s, [], kind, f) == multiset{} && Weight([]) == 0
  {
  }

  lemma {:induction false} WeightBound(ps: seq<Ptr>)
    ensures Weight(ps) < Pow(2, |ps|)
  {
    if ps != [] {
      WeightBound(ps[..|ps| - 1]);
      PowStep(2, |ps| - 1);
    }
  }

  /** The entries of a roots array are the bits of its weight. */
  lemma {:induction false} WeightBits(ps: seq<Ptr>, i: nat)
    ensures Bit(Weight(ps), i) <==> Get(ps, i) != NULL
  {
    hide Pow;
    WeightBound(ps);
    if i >= |ps| {
      PowMonotone(2, |ps|, i);
      BelowPower(Weight(ps), i);
    } else {
      var n := |ps| - 1;
      var init, c := ps[..n], One(ps[n]);
      WeightBound(init);
      WeightSnoc(init, ps[n]);
      assert ps == init + [ps[n]];
      if i < n {
        WeightBits(init, i);
        HighDigits(Weight(init), 2, n, i, c);
      } else {
        TopBit(Weight(init), c, n);
      }
    }
  }

  lemma BelowPower(x: nat, i: nat)
    requires x < Pow(2, i)
    ensures !Bit(x, i)
  {
    hide Pow;
    DivModUnique(x, Pow(2, i), 0, x);
  }

  lemma TopBit(x: nat, c: nat, n: nat)
    requires x < Pow(2, n) && c <= 1
    ensures Bit(x + c * Pow(2, n), n) <==> c == 1
  {
    hide Pow;
    DivModUnique(x + c * Pow(2, n), Pow(2, n), c, x);
  }

  /** Ownership at rest: every live record hangs from the roots and has exactly one reference. */
  lemma OneReferenceEach<V>(s: Store<V>, ps: seq<Ptr>, kind: HeapType, f: (V, V) -> int)
    requires Owned(s, Refs(ps), kind, f) && AllLive(s, ps) && Simple(SumPtrs(s, ps, kind, f))
    ensures forall p :: p in s ==> s[p].refcount == 1 && p in SumPtrs(s, ps, kind, f)
    ensures forall p :: p in SumPtrs(s, ps, kind, f) ==> p in s
  {
    hide Shape, Counted, SumPtrs, SumValues, Refs, Ptrs, Values, Forest;
    SumIsForest(s, ps, kind, f);
    SingleReferences(s, ps, kind, f);
    forall p | p in SumPtrs(s, ps, kind, f) ensures p in s {
      if p !in s { SumPtrsLive(s, ps, p, kind, f); }
    }
  }
}
