/** The binary heap in an array, with values percolated up and down. */
module BinaryHeaps {
  import opened Options
  import opened Orders
  import opened Allocation

  function Parent(i: int): int { (i - 1) / 2 }

  ghost predicate Ordered<V>(kind: HeapType, f: (V, V) -> int, h: seq<V>) {
    forall i :: 0 < i < |h| ==> Leq(kind, f, h[Parent(i)], h[i])
  }

  /** The heap order, but for the value at k and its parent; what is below k is in order with the parent of k. */
  ghost predicate OrderedUpTo<V>(kind: HeapType, f: (V, V) -> int, h: seq<V>, k: nat) {
    && (forall i :: 0 < i < |h| && i != k ==> Leq(kind, f, h[Parent(i)], h[i]))
    && (forall i :: 0 < i < |h| && Parent(i) == k && 0 < k < |h| ==> Leq(kind, f, h[Parent(k)], h[i]))
  }

  /** The heap order, but for the value at k and its children; what is below k is in order with the parent of k. */
  ghost predicate OrderedDownTo<V>(kind: HeapType, f: (V, V) -> int, h: seq<V>, k: nat) {
    && (forall i :: 0 < i < |h| && Parent(i) != k ==> Leq(kind, f, h[Parent(i)], h[i]))
    && (forall i :: 0 < i < |h| && Parent(i) == k && 0 < k < |h| ==> Leq(kind, f, h[Parent(k)], h[i]))
  }

  function Swapped<V>(h: seq<V>, i: nat, j: nat): seq<V>
    requires i < |h| && j < |h|
  {
    h[i := h[j]][j := h[i]]
  }

  lemma SwappedSame<V>(h: seq<V>, i: nat, j: nat)
    requires i < |h| && j < |h|
    ensures multiset(Swapped(h, i, j)) == multiset(h) && |Swapped(h, i, j)| == |h|
    ensures Swapped(h, i, j)[j] == h[i] && Swapped(h, i, j)[i] == h[j]
    ensures forall k :: 0 <= k < |h| && k != i && k != j ==> Swapped(h, i, j)[k] == h[k]
  {
  }

  lemma Appended<V>(kind: HeapType, f: (V, V) -> int, h: seq<V>, v: V)
    requires Ordered(kind, f, h)
    ensures OrderedUpTo(kind, f, h + [v], |h|) && multiset(h + [v]) == multiset(h) + multiset{v}
  {
  }

  /** One step of percolating the value at k up. */
  lemma UpStep<V(!new)>(kind: HeapType, f: (V, V) -> int, h: seq<V>, k: nat)
    requires TotalPreorder(f) && 0 < k < |h| && OrderedUpTo(kind, f, h, k) && Leq(kind, f, h[k], h[Parent(k)])
    ensures OrderedUpTo(kind, f, Swapped(h, k, Parent(k)), Parent(k))
  {
    var p := Parent(k);
    var h' := Swapped(h, k, p);
    forall i | 0 < i < |h| && i != p ensures Leq(kind, f, h'[Parent(i)], h'[i]) {
      if i != k && Parent(i) == p { LeqLaws(kind, f, h[k], h[p], h[i]); }
    }
    forall i | 0 < i < |h| && Parent(i) == p && 0 < p ensures Leq(kind, f, h'[Parent(p)], h'[i]) {
      LeqLaws(kind, f, h[Parent(p)], h[p], h[i]);
    }
  }

  lemma UpDone<V(!new)>(kind: HeapType, f: (V, V) -> int, h: seq<V>, k: nat)
    requires OrderedUpTo(kind, f, h, k) && (0 < k < |h| ==> Leq(kind, f, h[Parent(k)], h[k]))
    ensures Ordered(kind, f, h)
  {
  }

  /** One step of percolating the value at k down, to its child c that is not greater than the other. */
  lemma DownStep<V(!new)>(kind: HeapType, f: (V, V) -> int, h: seq<V>, k: nat, c: nat)
    requires TotalPreorder(f) && 0 < c < |h| && Parent(c) == k && OrderedDownTo(kind, f, h, k)
    requires Leq(kind, f, h[c], h[k]) && forall d :: 0 < d < |h| && Parent(d) == k ==> Leq(kind, f, h[c], h[d])
    ensures OrderedDownTo(kind, f, Swapped(h, k, c), c)
  {
    var h' := Swapped(h, k, c);
    forall i | 0 < i < |h| && Parent(i) != c ensures Leq(kind, f, h'[Parent(i)], h'[i]) {
      if Parent(i) == k && i == c { assert h'[i] == h[k]; }
    }
    forall i | 0 < i < |h| && Parent(i) == c && 0 < c ensures Leq(kind, f, h'[Parent(c)], h'[i]) {
      assert h'[i] == h[i];
    }
  }

  lemma DownDone<V(!new)>(kind: HeapType, f: (V, V) -> int, h: seq<V>, k: nat)
    requires OrderedDownTo(kind, f, h, k) && forall d :: 0 < d < |h| && Parent(d) == k ==> Leq(kind, f, h[k], h[d])
    ensures Ordered(kind, f, h)
  {
  }

  /** The root is a least value. */
  lemma {:induction false} RootLeast<V(!new)>(kind: HeapType, f: (V, V) -> int, h: seq<V>, i: nat)
    requires TotalPreorder(f) && Ordered(kind, f, h) && i < |h|
    ensures Leq(kind, f, h[0], h[i])
  {
    if i == 0 {
      LeqLaws(kind, f, h[0], h[0], h[0]);
    } else {
      RootLeast(kind, f, h, Parent(i));
      LeqLaws(kind, f, h[0], h[Parent(i)], h[i]);
    }
  }

  /** What that means for the two heap types. */
  lemma RootBefore<V(!new)>(kind: HeapType, f: (V, V) -> int, h: seq<V>)
    requires TotalPreorder(f) && Ordered(kind, f, h) && h != []
    ensures kind == MinHeap ==> forall v :: v in multiset(h) ==> f(h[0], v) <= 0
    ensures kind == MaxHeap ==> forall v :: v in multiset(h) ==> f(h[0], v) >= 0
  {
    forall v | v in multiset(h) ensures Leq(kind, f, h[0], v) {
      var i :| 0 <= i < |h| && h[i] == v;
      RootLeast(kind, f, h, i);
    }
  }

  /** Taking the root out and the last value to the top. */
  function Beheaded<V>(h: seq<V>): seq<V>
    requires h != []
  {
    var n := |h| - 1;
    if n == 0 then [] else h[..n][0 := h[n]]
  }

  lemma BeheadedSame<V>(h: seq<V>)
    requires h != []
    ensures multiset(h) == multiset{h[0]} + multiset(Beheaded(h))
  {
    var n := |h| - 1;
    assert h == h[..n] + [h[n]];
    if n > 0 {
      assert h[..n] == [h[0]] + h[1..n];
      assert Beheaded(h) == [h[n]] + h[1..n];
    } else {
      assert h == [h[0]];
    }
  }

  lemma BeheadedOrdered<V(!new)>(kind: HeapType, f: (V, V) -> int, h: seq<V>)
    requires h != [] && Ordered(kind, f, h)
    ensures OrderedDownTo(kind, f, Beheaded(h), 0)
  {
  }

  class BinaryHeap<V(!new, 0)> {
    const kind: HeapType
    const compare: (V, V) -> int
    var values: array<V>
    var numValues: nat

    ghost predicate Valid()
      reads this, values
    {
      TotalPreorder(compare) && 0 < values.Length && numValues <= values.Length
        && Ordered(kind, compare, values[..numValues])
    }

    ghost function Contents(): multiset<V>
      reads this, values
    {
      if numValues <= values.Length then multiset(values[..numValues]) else multiset{}
    }

    constructor (kind: HeapType, compare: (V, V) -> int)
      ensures this.kind == kind && this.compare == compare
      ensures numValues == 0 && fresh(values) && values.Length == 16 && (TotalPreorder(compare) ==> Valid())
    {
      this.kind, this.compare, numValues := kind, compare, 0;
      values := new V[16];
    }

    lemma Room()
      requires Valid()
      ensures 0 < values.Length && numValues <= values.Length
    {
    }

    /** Doubles the array; when the allocation fails the old one stays. */
    method Grow(memory: Memory) returns (ok: bool)
      requires Valid() && numValues == values.Length
      modifies this`values, memory`calls
      ensures Valid() && values[..numValues] == old(values[..numValues])
      ensures if ok then fresh(values) && values.Length == 2 * old(values.Length) else values == old(values)
      ensures memory.calls == old(memory.calls) + 1 && memory.Decides(old(memory.calls), memory.calls, 1, ok)
    {
      var granted := memory.Request();
      if !granted {
        return false;
      }
      var size := values.Length;
      var newValues := new V[size * 2];
      var i := 0;
      while i < size
        invariant values == old(values) && values[..] == old(values[..]) && memory.calls == old(memory.calls) + 1
        invariant i <= size && newValues.Length == size * 2 && newValues[..i] == values[..i]
      {
        newValues[i] := values[i];
        i := i + 1;
      }
      values := newValues;
      assert values[..numValues] == old(values[..numValues]);
      ok := true;
    }

    /** Inserts a value. Only a full array asks for memory, once; when it cannot grow, nothing changes. */
    method Insert(value: V, memory: Memory) returns (ok: bool)
      requires Valid()
      modifies this, values, memory`calls
      ensures Valid() && (values == old(values) || fresh(values))
      ensures var full := old(numValues) == old(values.Length);
        && memory.Decides(old(memory.calls), memory.calls, if full then 1 else 0, ok)
        && values.Length == if full && ok then 2 * old(values.Length) else old(values.Length)
      ensures Contents() == old(Contents()) + if ok then multiset{value} else multiset{}
      ensures numValues == old(numValues) + if ok then 1 else 0
      ensures !ok ==> values == old(values) && values[..] == old(values[..])
      ensures ok ==> exists i ::
        && 0 <= i < numValues && values[i] == value
        && (i > 0 ==> Compare(kind, compare, values[Parent(i)], value) < 0)
    {
      if numValues >= values.Length {
        var grown := Grow(memory);
        if !grown {
          return false;
        }
      }
      PercolateUp(value);
      ok := true;
    }

    /** Opens a hole at the bottom and moves it up to where the value belongs. */
    method PercolateUp(value: V)
      requires Valid() && numValues < values.Length
      modifies values, this`numValues
      ensures Valid() && numValues == old(numValues) + 1 && Contents() == old(Contents()) + multiset{value}
      ensures exists i ::
        && 0 <= i < numValues && values[i] == value
        && (i > 0 ==> Compare(kind, compare, values[Parent(i)], value) < 0)
    {
      hide Leq, TotalPreorder, OrderedUpTo, Ordered, Swapped, Compare;
      ghost var h0 := values[..numValues];
      Appended(kind, compare, h0, value);
      numValues := numValues + 1;
      var index;
      ghost var h;
      index, h := MoveHoleUp(value, h0 + [value]);
      values[index] := value;
      assert values[..numValues] == h;
      assert values[index] == value && (index > 0 ==> values[Parent(index)] == h[Parent(index)]);
    }

    /** Moves the hole at the bottom up; h is the array with the value in the hole. */
    method MoveHoleUp(value: V, ghost h0: seq<V>) returns (index: nat, ghost h: seq<V>)
      requires TotalPreorder(compare) && 0 < numValues == |h0| <= values.Length && h0[numValues - 1] == value
      requires OrderedUpTo(kind, compare, h0, numValues - 1)
      requires forall i :: 0 <= i < numValues - 1 ==> values[i] == h0[i]
      modifies values
      ensures index < |h| == numValues && h[index] == value && Ordered(kind, compare, h)
      ensures multiset(h) == multiset(h0) && forall i :: 0 <= i < numValues && i != index ==> values[i] == h[i]
      ensures index > 0 ==> Compare(kind, compare, h[Parent(index)], value) < 0
    {
      hide Leq, TotalPreorder, OrderedUpTo, Ordered, Swapped, Compare;
      index, h := numValues - 1, h0;
      while index > 0
        invariant index < |h| == numValues && h[index] == value
        invariant forall i :: 0 <= i < numValues && i != index ==> values[i] == h[i]
        invariant OrderedUpTo(kind, compare, h, index) && multiset(h) == multiset(h0)
      {
        var parent := (index - 1) / 2;
        CompareLeq(kind, compare, values[parent], value);
        if Compare(kind, compare, values[parent], value) < 0 {
          break;
        }
        UpStep(kind, compare, h, index);
        SwappedSame(h, index, parent);
        h := Swapped(h, index, parent);
        values[index] := values[parent];
        index := parent;
      }
      UpDone(kind, compare, h, index);
    }

    /** Removes a value that no other comes before and returns it: a least one from a min heap, a greatest one from a
        max heap; None when there is none. */
    method Pop() returns (result: Option<V>)
      requires Valid()
      modifies values, this`numValues
      ensures Valid()
      ensures result == None <==> old(numValues) == 0
      ensures result.None? ==> numValues == 0 && Contents() == old(Contents())
      ensures result.Some? ==> old(Contents()) == multiset{result.value} + Contents() && numValues == old(numValues) - 1
      ensures result.Some? ==> result.value == old(values[0])
      ensures result.Some? && kind == MinHeap ==> forall v :: v in old(Contents()) ==> compare(result.value, v) <= 0
      ensures result.Some? && kind == MaxHeap ==> forall v :: v in old(Contents()) ==> compare(result.value, v) >= 0
    {
      hide Leq, TotalPreorder, Ordered, OrderedDownTo;
      if numValues == 0 {
        return None;
      }
      ghost var h := values[..numValues];
      result := Some(values[0]);
      var newValue := values[numValues - 1];
      numValues := numValues - 1;
      BeheadedSame(h);
      BeheadedOrdered(kind, compare, h);
      RootBefore(kind, compare, h);
      PercolateDown(newValue, Beheaded(h));
    }

    /** The child the value has to go below, if any: the lesser one that is less than the value. */
    method NextChild(newValue: V, index: nat, ghost h: seq<V>) returns (next: nat)
      requires TotalPreorder(compare) && numValues == |h| <= values.Length
      requires index <= |h| && (index < |h| ==> h[index] == newValue)
      requires forall i :: 0 <= i < numValues && i != index ==> values[i] == h[i]
      requires index == |h| ==> index == 0
      ensures next == index ==> forall d :: 0 < d < |h| && Parent(d) == index ==> Leq(kind, compare, newValue, h[d])
      ensures next != index ==> index < next < |h| && Parent(next) == index && Leq(kind, compare, h[next], newValue)
      ensures next != index ==> forall d :: 0 < d < |h| && Parent(d) == index ==> Leq(kind, compare, h[next], h[d])
    {
      hide Leq, TotalPreorder, Compare;
      var child1, child2 := index * 2 + 1, index * 2 + 2;
      Children(index);
      if child1 < numValues { CompareLeq(kind, compare, newValue, values[child1]); }
      if child2 < numValues {
        CompareLeq(kind, compare, newValue, values[child2]);
        CompareLeq(kind, compare, values[child1], values[child2]);
        LeqLaws(kind, compare, values[child2], newValue, values[child1]);
      }
      if child1 < numValues && Compare(kind, compare, newValue, values[child1]) > 0 {
        LeqLaws(kind, compare, values[child1], values[child1], values[child1]);
        if child2 < numValues && Compare(kind, compare, values[child1], values[child2]) > 0 {
          LeqLaws(kind, compare, values[child2], values[child1], newValue);
          LeqLaws(kind, compare, values[child2], values[child2], values[child2]);
          next := child2;
        } else {
          next := child1;
        }
      } else if child2 < numValues && Compare(kind, compare, newValue, values[child2]) > 0 {
        LeqLaws(kind, compare, values[child2], values[child2], values[child2]);
        next := child2;
      } else {
        next := index;
      }
    }

    /** Moves a hole at the root down to where the value belongs. */
    method PercolateDown(newValue: V, ghost h0: seq<V>)
      requires TotalPreorder(compare) && numValues < values.Length
      requires |h0| == numValues && OrderedDownTo(kind, compare, h0, 0)
      requires (numValues > 0 ==> h0[0] == newValue) && forall i :: 0 < i < numValues ==> values[i] == h0[i]
      modifies values
      ensures Valid() && Contents() == multiset(h0)
    {
      hide Leq, TotalPreorder, OrderedDownTo, Ordered, Swapped, Compare;
      var index := 0;
      ghost var h := h0;
      while true
        invariant 0 <= index <= numValues == |h| && (index < numValues ==> h[index] == newValue)
        invariant (index == numValues ==> index == 0)
        invariant forall i :: 0 <= i < numValues && i != index ==> values[i] == h[i]
        invariant OrderedDownTo(kind, compare, h, index) && multiset(h) == multiset(h0)
        decreases numValues - index
      {
        var nextIndex := NextChild(newValue, index, h);
        if nextIndex == index {
          DownDone(kind, compare, h, index);
          values[index] := newValue;
          assert values[..numValues] == h;
          return;
        }
        DownStep(kind, compare, h, index, nextIndex);
        SwappedSame(h, index, nextIndex);
        h := Swapped(h, index, nextIndex);
        values[index] := values[nextIndex];
        index := nextIndex;
      }
    }
  }

  lemma Children(k: nat)
    ensures forall d :: d > 0 && Parent(d) == k ==> d == 2 * k + 1 || d == 2 * k + 2
    ensures Parent(2 * k + 1) == k && Parent(2 * k + 2) == k
  {
  }

  lemma CompareLeq<V(!new)>(kind: HeapType, f: (V, V) -> int, a: V, b: V)
    requires TotalPreorder(f)
    ensures Compare(kind, f, a, b) <= 0 ==> Leq(kind, f, a, b)
    ensures Compare(kind, f, a, b) >= 0 ==> Leq(kind, f, b, a)
  {
    LeqLaws(kind, f, a, b, b);
  }

  ghost predicate InOrder<V>(kind: HeapType, f: (V, V) -> int, s: seq<V>) {
    forall i, j :: 0 <= i < j < |s| ==> Leq(kind, f, s[i], s[j])
  }

  ghost predicate NoneBefore<V>(kind: HeapType, f: (V, V) -> int, s: seq<V>, m: multiset<V>) {
    forall i :: 0 <= i < |s| ==> LeastOf(kind, f, s[i], m)
  }

  ghost predicate LeastOf<V>(kind: HeapType, f: (V, V) -> int, u: V, m: multiset<V>) {
    forall v :: v in m ==> Leq(kind, f, u, v)
  }

  lemma Emitted<V>(kind: HeapType, f: (V, V) -> int, s: seq<V>, v: V, m: multiset<V>)
    requires InOrder(kind, f, s) && NoneBefore(kind, f, s, multiset{v} + m) && LeastOf(kind, f, v, multiset{v} + m)
    ensures InOrder(kind, f, s + [v]) && NoneBefore(kind, f, s + [v], m)
  {
    hide Leq;
    var m' := multiset{v} + m;
    assert v in m' && forall u :: u in m ==> u in m';
    forall i | 0 <= i < |s| ensures Leq(kind, f, s[i], v) {
      assert LeastOf(kind, f, s[i], m');
    }
    forall i | 0 <= i < |s| + 1 ensures LeastOf(kind, f, (s + [v])[i], m) {
      if i < |s| { assert LeastOf(kind, f, s[i], m'); }
    }
  }

  /** Popping until the heap is empty emits what it held, in order. */
  method PopAll<V(!new, 0)>(heap: BinaryHeap<V>) returns (output: seq<V>)
    requires heap.Valid()
    modifies heap, heap.values
    ensures heap.Valid() && heap.numValues == 0
    ensures multiset(output) == old(heap.Contents()) && InOrder(heap.kind, heap.compare, output)
  {
    hide Leq, TotalPreorder, Ordered, InOrder, NoneBefore, LeastOf;
    output := [];
    NothingYet(heap.kind, heap.compare, heap.Contents());
    while heap.numValues > 0
      invariant heap.Valid() && heap.values == old(heap.values)
      invariant multiset(output) + heap.Contents() == old(heap.Contents())
      invariant InOrder(heap.kind, heap.compare, output) && NoneBefore(heap.kind, heap.compare, output, heap.Contents())
      decreases heap.numValues
    {
      ghost var m := heap.Contents();
      var popped := heap.Pop();
      FirstIsLeast(heap.kind, heap.compare, popped.value, m);
      Emitted(heap.kind, heap.compare, output, popped.value, heap.Contents());
      output := output + [popped.value];
    }
  }

  /** What a heap type means for the value popped. */
  lemma FirstIsLeast<V>(kind: HeapType, f: (V, V) -> int, u: V, m: multiset<V>)
    requires kind == MinHeap ==> forall v :: v in m ==> f(u, v) <= 0
    requires kind == MaxHeap ==> forall v :: v in m ==> f(u, v) >= 0
    ensures LeastOf(kind, f, u, m)
  {
  }

  lemma NothingYet<V>(kind: HeapType, f: (V, V) -> int, m: multiset<V>)
    ensures InOrder(kind, f, []) && NoneBefore(kind, f, [], m)
  {
  }

  /** How often an array of a size is doubled until it has room for n values. */
  ghost function Doublings(size: nat, n: nat): nat
    requires size > 0
    decreases n - size
  {
    if n <= size then 0 else 1 + Doublings(2 * size, n)
  }

  lemma DoublingStep(memory: Memory, first: nat, middle: nat, last: nat, size: nat, total: nat, n: nat, before: nat,
                     ok: bool)
    requires size > 0 && before > 0 && n <= before && n < total
    requires memory.Decides(first, middle, Doublings(size, total) - Doublings(before, total), true)
    requires memory.Decides(middle, last, if n == before then 1 else 0, ok)
    ensures memory.Decides(first, last, Doublings(size, total) - if !ok then 0
                                        else Doublings(if n == before then 2 * before else before, total), ok)
  {
  }

  /** Inserts every value; false when a request for memory was refused. */
  method InsertAll<V(!new, 0)>(heap: BinaryHeap<V>, input: seq<V>, memory: Memory) returns (ok: bool)
    requires heap.Valid()
    modifies heap, heap.values, memory`calls
    ensures memory.Decides(old(memory.calls), memory.calls,
                           Doublings(old(heap.values.Length), old(heap.numValues) + |input|), ok)
    ensures heap.Valid() && (heap.values == old(heap.values) || fresh(heap.values))
    ensures ok ==> heap.Contents() == old(heap.Contents()) + multiset(input)
  {
    hide BinaryHeap.Valid, BinaryHeap.Contents, Doublings, Memory.Decides;
    heap.Room();
    ghost var first, held, size, total := memory.calls, heap.Contents(), heap.values.Length, heap.numValues + |input|;
    memory.NoneYet(first);
    assert held + multiset(input[..0]) == held;
    var n := 0;
    while n < |input|
      invariant n <= |input| && heap.Valid() && (heap.values == old(heap.values) || fresh(heap.values))
      invariant heap.numValues == total - |input| + n && heap.values.Length > 0
      invariant heap.Contents() == held + multiset(input[..n])
      invariant memory.Decides(first, memory.calls,
                               Doublings(size, total) - Doublings(heap.values.Length, total), true)
    {
      ghost var asked, before := memory.calls, heap.values.Length;
      heap.Room();
      ok := heap.Insert(input[n], memory);
      DoublingStep(memory, first, asked, memory.calls, size, total, total - |input| + n, before, ok);
      if !ok {
        return;
      }
      NextIn(held, input, n);
      n := n + 1;
    }
    assert input[..n] == input;
    heap.Room();
    Roomy(heap.values.Length, total);
    ok := true;
  }

  lemma NextIn<V>(held: multiset<V>, input: seq<V>, n: nat)
    requires n < |input|
    ensures held + multiset(input[..n + 1]) == held + multiset(input[..n]) + multiset{input[n]}
  {
    assert input[..n + 1] == input[..n] + [input[n]];
  }

  lemma Roomy(size: nat, n: nat)
    requires 0 < size && n <= size
    ensures Doublings(size, n) == 0
  {
  }

  /** Inserting values and popping until the heap is empty sorts them: upwards with a min heap, downwards with a max
      heap. */
  method SortThrough<V(!new, 0)>(kind: HeapType, compare: (V, V) -> int, input: seq<V>, memory: Memory)
    returns (ok: bool, output: seq<V>)
    requires TotalPreorder(compare)
    modifies memory`calls
    ensures memory.Decides(old(memory.calls), memory.calls, Doublings(16, |input|), ok)
    ensures ok ==> multiset(output) == multiset(input)
    ensures ok && kind == MinHeap ==> forall i, j :: 0 <= i < j < |output| ==> compare(output[i], output[j]) <= 0
    ensures ok && kind == MaxHeap ==> forall i, j :: 0 <= i < j < |output| ==> compare(output[i], output[j]) >= 0
  {
    hide TotalPreorder, Ordered;
    var heap := new BinaryHeap(kind, compare);
    assert heap.values[..0] == [];
    ok := InsertAll(heap, input, memory);
    output := [];
    if ok {
      output := PopAll(heap);
    }
  }
}
