/** What the containers rely on in the comparison functions passed to them. */
module Orders {
  /** Swapping the operands swaps the sign, and "not greater" is transitive. */
  ghost predicate TotalPreorder<V(!new)>(f: (V, V) -> int) {
    && (forall a, b :: f(a, b) > 0 <==> f(b, a) < 0)
    && (forall a, b, c :: f(a, b) <= 0 && f(b, c) <= 0 ==> f(a, c) <= 0)
  }

  lemma Laws<V(!new)>(f: (V, V) -> int, a: V, b: V, c: V)
    requires TotalPreorder(f)
    ensures f(a, b) > 0 <==> f(b, a) < 0
    ensures f(a, b) == 0 <==> f(b, a) == 0
    ensures f(a, b) <= 0 && f(b, c) <= 0 ==> f(a, c) <= 0
    ensures f(a, b) < 0 && f(b, c) <= 0 ==> f(a, c) < 0
    ensures f(a, b) <= 0 && f(b, c) < 0 ==> f(a, c) < 0
  {
    assert f(a, b) > 0 <==> f(b, a) < 0;
    assert f(b, a) > 0 <==> f(a, b) < 0;
    assert f(a, c) > 0 <==> f(c, a) < 0;
    assert f(c, a) > 0 <==> f(a, c) < 0;
    assert f(b, c) > 0 <==> f(c, b) < 0;
    assert f(c, b) > 0 <==> f(b, c) < 0;
    assert f(b, c) <= 0 && f(c, a) <= 0 ==> f(b, a) <= 0;
    assert f(c, a) <= 0 && f(a, b) <= 0 ==> f(c, b) <= 0;
  }

  // ---------- heaps ----------

  datatype HeapType = MinHeap | MaxHeap

  /** The comparison a heap of the given type uses (binomial_heap_cmp). */
  function Compare<V>(kind: HeapType, f: (V, V) -> int, a: V, b: V): int {
    if kind == MinHeap then f(a, b) else -f(a, b)
  }

  ghost predicate Leq<V>(kind: HeapType, f: (V, V) -> int, a: V, b: V) {
    Compare(kind, f, a, b) <= 0
  }

  lemma LeqLaws<V(!new)>(kind: HeapType, f: (V, V) -> int, a: V, b: V, c: V)
    requires TotalPreorder(f)
    ensures Leq(kind, f, a, a)
    ensures Leq(kind, f, a, b) || Leq(kind, f, b, a)
    ensures Compare(kind, f, a, b) >= 0 ==> Leq(kind, f, b, a)
    ensures Leq(kind, f, a, b) && Leq(kind, f, b, c) ==> Leq(kind, f, a, c)
    ensures Compare(kind, f, a, b) < 0 && Leq(kind, f, b, c) ==> Compare(kind, f, a, c) < 0
  {
    assert f(a, b) > 0 <==> f(b, a) < 0;
    assert f(b, a) > 0 <==> f(a, b) < 0;
    assert f(a, c) > 0 <==> f(c, a) < 0;
    assert f(b, c) > 0 <==> f(c, b) < 0;
    assert f(c, b) > 0 <==> f(b, c) < 0;
    assert f(c, a) > 0 <==> f(a, c) < 0;
    assert f(a, a) > 0 <==> f(a, a) < 0;
    Laws(f, a, b, c);
    Laws(f, c, b, a);
  }
}
