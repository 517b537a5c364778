/** Sorting a doubly linked list in place: quicksort that relinks the entries. */
module ListSort {
  import opened Orders

  class ListEntry<V> {
    const data: V
    var prev: ListEntry?<V>
    var next: ListEntry?<V>

    constructor (data: V)
      ensures this.data == data && prev == null && next == null
    {
      this.data, prev, next := data, null, null;
    }
  }

  function At<V>(s: seq<ListEntry<V>>, i: int): ListEntry?<V> {
    if 0 <= i < |s| then s[i] else null
  }

  ghost function Entries<V>(s: seq<ListEntry<V>>): set<ListEntry<V>> {
    set e | e in s
  }

  /** The entries are linked in this order, forwards and backwards, from the head to NULL. */
  ghost predicate Linked<V>(head: ListEntry?<V>, s: seq<ListEntry<V>>)
    reads Entries(s)
  {
    && head == At(s, 0) && NoRepeats(s)
    && (forall i {:trigger s[i].next} :: 0 <= i < |s| ==> s[i].next == At(s, i + 1))
    && (forall i {:trigger s[i].prev} :: 0 <= i < |s| ==> s[i].prev == At(s, i - 1))
  }

  ghost predicate NoRepeats<V>(s: seq<ListEntry<V>>) {
    forall i, j :: 0 <= i < j < |s| ==> s[i] != s[j]
  }

  ghost predicate Sorted<V>(compare: (V, V) -> int, s: seq<ListEntry<V>>) {
    forall i, j :: 0 <= i < j < |s| ==> compare(s[i].data, s[j].data) <= 0
  }

  ghost predicate AllLess<V>(compare: (V, V) -> int, s: seq<ListEntry<V>>, pivot: V) {
    forall i :: 0 <= i < |s| ==> compare(s[i].data, pivot) < 0
  }

  ghost predicate NoneLess<V>(compare: (V, V) -> int, s: seq<ListEntry<V>>, pivot: V) {
    forall i :: 0 <= i < |s| ==> compare(s[i].data, pivot) >= 0
  }

  lemma Parts<V>(head: ListEntry?<V>, s: seq<ListEntry<V>>)
    requires Linked(head, s)
    ensures head == At(s, 0) && NoRepeats(s) && (head == null <==> s == []) && (head != null ==> head in Entries(s))
    ensures forall i :: 0 <= i < |s| ==> s[i] in Entries(s)
    ensures forall i {:trigger s[i].next} :: 0 <= i < |s| ==> s[i].next == At(s, i + 1)
    ensures forall i {:trigger s[i].prev} :: 0 <= i < |s| ==> s[i].prev == At(s, i - 1)
  {
  }

  lemma FrontLinked<V>(e: ListEntry<V>, s: seq<ListEntry<V>>)
    requires e !in Entries(s) && NoRepeats(s) && e.prev == null && e.next == At(s, 0)
    requires forall i {:trigger s[i].next} :: 0 <= i < |s| ==> s[i].next == At(s, i + 1)
    requires forall i {:trigger s[i].prev} :: 0 <= i < |s| ==> s[i].prev == if i == 0 then e else At(s, i - 1)
    ensures Linked(e, [e] + s) && Entries([e] + s) == {e} + Entries(s)
  {
    var t := [e] + s;
    forall i | 0 <= i < |t| ensures t[i].next == At(t, i + 1) && t[i].prev == At(t, i - 1) {
      if i > 0 { assert t[i] == s[i - 1]; }
      if i > 1 { assert t[i - 1] == s[i - 2]; }
    }
  }

  /** Puts an entry in front of a list. */
  method PushFront<V>(e: ListEntry<V>, head: ListEntry?<V>, ghost l: seq<ListEntry<V>>)
    requires Linked(head, l) && e !in Entries(l)
    modifies e, if head != null then {head} else {}
    ensures Linked(e, [e] + l) && Entries([e] + l) == {e} + Entries(l)
  {
    hide Linked;
    Parts(head, l);
    e.prev := null;
    e.next := head;
    if head != null {
      head.prev := e;
    }
    FrontLinked(e, l);
  }

  lemma JoinAt<V>(l: seq<ListEntry<V>>, p: ListEntry<V>, m: seq<ListEntry<V>>, i: int)
    ensures At(l + [p] + m, i) == if i < |l| then At(l, i) else if i == |l| then p else At(m, i - |l| - 1)
  {
  }

  lemma JoinApart<V>(l: seq<ListEntry<V>>, p: ListEntry<V>, m: seq<ListEntry<V>>)
    requires NoRepeats(l) && NoRepeats(m) && p !in Entries(l) && p !in Entries(m) && Entries(l) !! Entries(m)
    ensures NoRepeats(l + [p] + m)
  {
    var s, k := l + [p] + m, |l|;
    forall i, j | 0 <= i < j < |s| ensures s[i] != s[j] {
      assert i < k ==> s[i] == l[i] && l[i] in Entries(l);
      assert j < k ==> s[j] == l[j];
      assert i > k ==> s[i] == m[i - k - 1];
      assert j > k ==> s[j] == m[j - k - 1] && m[j - k - 1] in Entries(m);
    }
  }

  lemma Joined<V>(head: ListEntry<V>, l: seq<ListEntry<V>>, pivot: ListEntry<V>, m: seq<ListEntry<V>>)
    requires head == (if l == [] then pivot else l[0]) && NoRepeats(l + [pivot] + m)
    requires forall i {:trigger l[i].next} :: 0 <= i < |l| ==> l[i].next == if i + 1 < |l| then At(l, i + 1) else pivot
    requires forall i {:trigger l[i].prev} :: 0 <= i < |l| ==> l[i].prev == At(l, i - 1)
    requires pivot.prev == At(l, |l| - 1) && pivot.next == At(m, 0)
    requires forall i {:trigger m[i].next} :: 0 <= i < |m| ==> m[i].next == At(m, i + 1)
    requires forall i {:trigger m[i].prev} :: 0 <= i < |m| ==> m[i].prev == if i > 0 then At(m, i - 1) else pivot
    ensures Linked(head, l + [pivot] + m)
  {
    hide NoRepeats;
    var s := l + [pivot] + m;
    JoinAt(l, pivot, m, 0);
    forall i | 0 <= i < |s| ensures s[i].next == At(s, i + 1) && s[i].prev == At(s, i - 1) {
      JoinAt(l, pivot, m, i - 1);
      JoinAt(l, pivot, m, i);
      JoinAt(l, pivot, m, i + 1);
      assert s[i] == At(s, i);
    }
  }

  /** Links the sorted lists before and after the pivot to it. */
  method Join<V>(pivot: ListEntry<V>, less: ListEntry?<V>, lessEnd: ListEntry?<V>, more: ListEntry?<V>,
                 ghost l: seq<ListEntry<V>>, ghost m: seq<ListEntry<V>>) returns (head: ListEntry<V>)
    requires Linked(less, l) && Linked(more, m) && lessEnd == At(l, |l| - 1)
    requires pivot !in Entries(l) && pivot !in Entries(m) && Entries(l) !! Entries(m)
    modifies pivot, Entries(l), Entries(m)
    ensures Linked(head, l + [pivot] + m)
  {
    hide Linked, NoRepeats;
    Parts(less, l);
    Parts(more, m);
    JoinApart(l, pivot, m);
    if less == null {
      pivot.prev := null;
      head := pivot;
    } else {
      head := less;
      pivot.prev := lessEnd;
      lessEnd.next := pivot;
    }
    pivot.next := more;
    if more != null {
      more.prev := pivot;
    }
    Joined(head, l, pivot, m);
  }

  lemma SortedJoin<V(!new)>(compare: (V, V) -> int, l: seq<ListEntry<V>>, p: ListEntry<V>, m: seq<ListEntry<V>>)
    requires TotalPreorder(compare) && Sorted(compare, l) && Sorted(compare, m)
    requires AllLess(compare, l, p.data) && NoneLess(compare, m, p.data)
    ensures Sorted(compare, l + [p] + m)
  {
    var s, k := l + [p] + m, |l|;
    forall i, j | 0 <= i < j < |s| ensures compare(s[i].data, s[j].data) <= 0 {
      assert (i < k ==> s[i] == l[i]) && (j < k ==> s[j] == l[j]);
      assert (i > k ==> s[i] == m[i - k - 1]) && (j > k ==> s[j] == m[j - k - 1]);
      Laws(compare, s[i].data, p.data, s[j].data);
      Laws(compare, p.data, s[j].data, p.data);
    }
  }

  /** A list with the same entries in another order. */
  lemma Reordered<V>(compare: (V, V) -> int, s: seq<ListEntry<V>>, t: seq<ListEntry<V>>, pivot: V)
    requires multiset(s) == multiset(t)
    ensures Entries(s) == Entries(t)
    ensures (AllLess(compare, s, pivot) ==> AllLess(compare, t, pivot))
    ensures (NoneLess(compare, s, pivot) ==> NoneLess(compare, t, pivot))
  {
    forall e ensures e in s <==> e in t {
      assert e in s <==> e in multiset(s);
      assert e in t <==> e in multiset(t);
    }
    forall i | 0 <= i < |t| ensures exists j :: 0 <= j < |s| && s[j] == t[i] {
      assert t[i] in t;
    }
  }

  /** The entries after the pivot that are still to be distributed. */
  ghost predicate Ahead<V>(rover: ListEntry?<V>, s: seq<ListEntry<V>>, k: nat)
    reads Entries(s)
  {
    1 <= k <= |s| && rover == At(s, k) && NoRepeats(s)
    && forall i {:trigger s[i].next} :: k <= i < |s| ==> s[i].next == At(s, i + 1)
  }

  /** The entries before position k are the pivot and those of the two lists. */
  ghost predicate Distributed<V>(s: seq<ListEntry<V>>, k: nat, l: seq<ListEntry<V>>, m: seq<ListEntry<V>>) {
    && 1 <= k <= |s| && |l| + |m| + 1 == k && multiset(s[..k]) == multiset{s[0]} + multiset(l) + multiset(m)
    && Entries(l) !! Entries(m) && s[0] !in Entries(l) && s[0] !in Entries(m)
    && Entries(l) + Entries(m) <= Entries(s)
    && forall i :: k <= i < |s| ==> s[i] !in Entries(l) && s[i] !in Entries(m)
  }

  lemma DistributeOne<V>(s: seq<ListEntry<V>>, k: nat, l: seq<ListEntry<V>>, m: seq<ListEntry<V>>)
    requires Distributed(s, k, l, m) && NoRepeats(s) && k < |s|
    ensures Distributed(s, k + 1, [s[k]] + l, m) && Distributed(s, k + 1, l, [s[k]] + m)
  {
    assert s[..k + 1] == s[..k] + [s[k]];
    assert Entries([s[k]] + l) == {s[k]} + Entries(l) && Entries([s[k]] + m) == {s[k]} + Entries(m);
    assert s[k] in Entries(s);
  }

  lemma Added<V>(compare: (V, V) -> int, e: ListEntry<V>, s: seq<ListEntry<V>>, pivot: V)
    ensures AllLess(compare, s, pivot) && compare(e.data, pivot) < 0 ==> AllLess(compare, [e] + s, pivot)
    ensures NoneLess(compare, s, pivot) && compare(e.data, pivot) >= 0 ==> NoneLess(compare, [e] + s, pivot)
  {
  }

  /** Puts the next entry in front of the list it belongs to. */
  method Place<V(!new)>(rover: ListEntry<V>, pivot: ListEntry<V>, compare: (V, V) -> int, less0: ListEntry?<V>,
                 more0: ListEntry?<V>,
                        ghost s: seq<ListEntry<V>>, ghost k: nat, ghost l0: seq<ListEntry<V>>,
                        ghost m0: seq<ListEntry<V>>)
    returns (less: ListEntry?<V>, more: ListEntry?<V>, ghost l: seq<ListEntry<V>>, ghost m: seq<ListEntry<V>>)
    requires k < |s| && rover == s[k] && NoRepeats(s) && Linked(less0, l0) && Linked(more0, m0)
      && Distributed(s, k, l0, m0)
    requires AllLess(compare, l0, pivot.data) && NoneLess(compare, m0, pivot.data)
    modifies rover, Entries(l0), Entries(m0)
    ensures Linked(less, l) && Linked(more, m) && Distributed(s, k + 1, l, m)
    ensures AllLess(compare, l, pivot.data) && NoneLess(compare, m, pivot.data)
  {
    hide Linked, NoRepeats, Distributed, AllLess, NoneLess;
    less, more, l, m := less0, more0, l0, m0;
    Apart(s, k, l, m);
    DistributeOne(s, k, l, m);
    Added(compare, rover, l, pivot.data);
    Added(compare, rover, m, pivot.data);
    Parts(less, l);
    Parts(more, m);
    if compare(rover.data, pivot.data) < 0 {
      PushFront(rover, less, l);
      less, l := rover, [rover] + l;
    } else {
      PushFront(rover, more, m);
      more, m := rover, [rover] + m;
    }
  }

  /** Distributes the entries after the pivot over a list of smaller ones and a list of the others. */
  method Partition<V(!new)>(pivot: ListEntry<V>, compare: (V, V) -> int, ghost s: seq<ListEntry<V>>)
    returns (less: ListEntry?<V>, more: ListEntry?<V>, ghost l: seq<ListEntry<V>>, ghost m: seq<ListEntry<V>>)
    requires Linked(pivot, s)
    modifies Entries(s)
    ensures Linked(less, l) && Linked(more, m) && Distributed(s, |s|, l, m)
    ensures AllLess(compare, l, pivot.data) && NoneLess(compare, m, pivot.data)
  {
    Parts(pivot, s);
    Begin(s);
    hide Linked, NoRepeats, Distributed, AllLess, NoneLess, Entries;
    less, more, l, m := null, null, [], [];
    NoEntries(compare, pivot.data);
    var rover := pivot.next;
    ghost var k := 1;
    while rover != null
      invariant Ahead(rover, s, k) && Linked(less, l) && Linked(more, m) && Distributed(s, k, l, m)
      invariant AllLess(compare, l, pivot.data) && NoneLess(compare, m, pivot.data)
      decreases |s| - k
    {
      var next := rover.next;
      Apart(s, k, l, m);
      less, more, l, m := Place(rover, pivot, compare, less, more, s, k, l, m);
      rover, k := next, k + 1;
    }
  }

  lemma NoEntries<V>(compare: (V, V) -> int, pivot: V)
    ensures AllLess(compare, [], pivot) && NoneLess(compare, [], pivot)
  {
  }

  lemma Begin<V>(s: seq<ListEntry<V>>)
    ensures Linked<V>(null, []) && (s != [] ==> Distributed(s, 1, [], []))
  {
    if s != [] { assert s[..1] == [s[0]]; }
  }

  lemma Apart<V>(s: seq<ListEntry<V>>, k: nat, l: seq<ListEntry<V>>, m: seq<ListEntry<V>>)
    requires Distributed(s, k, l, m)
    ensures Entries(l) !! Entries(m) && Entries(l) + Entries(m) <= Entries(s) && s[0] !in Entries(l)
      && s[0] !in Entries(m)
    ensures forall i :: k <= i < |s| ==> s[i] !in Entries(l) && s[i] !in Entries(m)
    ensures |l| + |m| + 1 == k <= |s|
    ensures k == |s| ==> multiset(s) == multiset{s[0]} + multiset(l) + multiset(m)
  {
    if k == |s| { assert s[..k] == s; }
  }

  lemma LastOf<V>(head: ListEntry?<V>, s: seq<ListEntry<V>>)
    requires Linked(head, s)
    ensures |s| <= 1 <==> head == null || head.next == null
    ensures |s| == 1 ==> At(s, |s| - 1) == head
  {
  }

  lemma LastOfJoin<V>(l: seq<ListEntry<V>>, p: ListEntry<V>, m: seq<ListEntry<V>>)
    ensures var s := l + [p] + m; At(s, |s| - 1) == if m == [] then p else At(m, |m| - 1)
  {
  }

  lemma Short<V>(compare: (V, V) -> int, s: seq<ListEntry<V>>)
    requires |s| <= 1
    ensures Sorted(compare, s) && (s == [] ==> At(s, |s| - 1) == null)
  {
  }

  /** The pieces put together again are the entries that were there. */
  lemma SameBag<V>(s: seq<ListEntry<V>>, l: seq<ListEntry<V>>, m: seq<ListEntry<V>>, l': seq<ListEntry<V>>,
                   m': seq<ListEntry<V>>)
    requires s != [] && Distributed(s, |s|, l, m) && multiset(l') == multiset(l) && multiset(m') == multiset(m)
    ensures multiset(l' + [s[0]] + m') == multiset(s)
  {
    Apart(s, |s|, l, m);
  }

  lemma EntriesOf<V>(s: seq<ListEntry<V>>)
    ensures Entries(s) == set e | e in s
  {
  }

  /** Sorts the entries of a list in place; returns the new first and last entries. */
  method SortInternal<V(!new)>(list: ListEntry?<V>, compare: (V, V) -> int, ghost s: seq<ListEntry<V>>)
    returns (head: ListEntry?<V>, last: ListEntry?<V>, ghost t: seq<ListEntry<V>>)
    requires TotalPreorder(compare) && Linked(list, s)
    modifies Entries(s)
    ensures Linked(head, t) && last == At(t, |t| - 1)
    ensures multiset(t) == multiset(s) && Sorted(compare, t)
    decreases |s|
  {
    hide Linked, Sorted, TotalPreorder, Distributed, AllLess, NoneLess, NoRepeats, Entries, At;
    Parts(list, s);
    LastOf(list, s);
    if list == null || list.next == null {
      Short(compare, s);
      return list, list, s;
    }
    var pivot := list;
    First(list, s);
    var less, more;
    ghost var l, m;
    less, more, l, m := Partition(pivot, compare, s);
    Apart(s, |s|, l, m);
    var lessEnd, moreEnd;
    ghost var l', m';
    EntriesOf(m);
    less, lessEnd, l' := SortInternal(less, compare, l);
    Reordered(compare, l, l', pivot.data);
    EntriesOf(l');
    more, moreEnd, m' := SortInternal(more, compare, m);
    Reordered(compare, m, m', pivot.data);
    Parts(more, m');
    head := Join(pivot, less, lessEnd, more, l', m');
    SortedJoin(compare, l', pivot, m');
    LastOfJoin(l', pivot, m');
    SameBag(s, l, m, l', m');
    t := l' + [pivot] + m';
    if more == null {
      last := pivot;
    } else {
      last := moreEnd;
    }
  }

  lemma First<V>(head: ListEntry?<V>, s: seq<ListEntry<V>>)
    requires Linked(head, s) && head != null
    ensures s != [] && s[0] == head
  {
  }

  /** Sorts a list: the same entries, in order, linked forwards and backwards from the new head. */
  method Sort<V(!new)>(list: ListEntry?<V>, compare: (V, V) -> int, ghost s: seq<ListEntry<V>>)
    returns (head: ListEntry?<V>, ghost t: seq<ListEntry<V>>)
    requires TotalPreorder(compare) && Linked(list, s)
    modifies Entries(s)
    ensures Linked(head, t) && multiset(t) == multiset(s) && head == At(t, 0)
    ensures forall i :: 0 <= i < |t| ==> t[i].next == At(t, i + 1) && t[i].prev == At(t, i - 1)
    ensures forall i, j :: 0 <= i < j < |t| ==> compare(t[i].data, t[j].data) <= 0
  {
    var last;
    head, last, t := SortInternal(list, compare, s);
  }
}
