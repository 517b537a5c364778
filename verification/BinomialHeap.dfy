/** The binomial heap: insertion and removal of the least value, with manual reference counts
    and an undo path for failed allocations. */
module BinomialHeaps {
  import opened Numbers
  import opened Vli
  import opened Options
  import opened Orders
  import opened Allocation
  import opened BinomialTrees

  class BinomialHeap<V(!new)> {
    const kind: HeapType
    const compare: (V, V) -> int
    var store: Store<V>  // the memory of tree records
    var roots: seq<Ptr>  // one entry per order, NULL where there is no tree
    var numValues: nat

    constructor (kind: HeapType, compare: (V, V) -> int)
      ensures this.kind == kind && this.compare == compare
      ensures store == map[] && roots == [] && numValues == 0
      ensures TotalPreorder(compare) ==> Valid() && Contents() == multiset{}
    {
      this.kind, this.compare := kind, compare;
      store, roots, numValues := map[], [], 0;
    }

    ghost predicate Own(s: Store<V>, ext: multiset<Ptr>) {
      Owned(s, ext, kind, compare)
    }

    // ---------- reference counts ----------

    method Ref(p: Ptr)
      requires p != NULL ==> p in store
      modifies this`store
      ensures store
        == if p == NULL then old(store) else old(store)[p := old(store)[p].(refcount := old(store)[p].refcount + 1)]
    {
      if p != NULL {
        store := store[p := store[p].(refcount := store[p].refcount + 1)];
      }
    }

    /** Gives up one outside reference; a record losing its last reference is released after its subtrees have been
        given up. Records in `out` (being built or being released) are not touched. */
    method Unref(p: Ptr, ghost ext: multiset<Ptr>, ghost out: set<Ptr>)
      requires p != NULL ==> p in ext
      requires Own(store - out, ext)
      modifies this`store
      ensures Own(store - out, ext - Refs([p]))
      ensures Survives(store - out, old(store) - out)
      ensures forall q :: q in store ==> q in old(store)
      ensures forall q :: q in out && q in old(store) ==> q in store && store[q] == old(store)[q]
      decreases if p in store then store[p].order else 0, 1
    {
      hide Owned, Survives, Refs, SameRecord;
      OneRef(p);
      if p == NULL {
        SurvivesSelf(store - out);
        assert ext - multiset{} == ext;
        return;
      }
      ghost var live := store - out;
      ExtLive(live, ext, p, kind, compare);
      store := store[p := store[p].(refcount := store[p].refcount - 1)];
      if store[p].refcount == 0 {
        DropStep(live, ext, p, kind, compare);
        SubtreesLive(live, ext, p, kind, compare);
        ghost var out' := out + {p};
        assert store - out' == live - {p};
        UnrefSubtrees(p, ext - multiset{p}, out');
        assert store - out' == store - {p} - out;
        store := store - {p}; // free
        SurvivesTrans(store - out, live - {p}, live);
      } else {
        UnrefStep(live, ext, p, kind, compare);
        assert store - out == live[p := live[p].(refcount := live[p].refcount - 1)];
      }
    }

    /** Gives up the references a released record holds to its subtrees. */
    method UnrefSubtrees(p: Ptr, ghost ext: multiset<Ptr>, ghost out: set<Ptr>)
      requires p in store && p in out && |store[p].subtrees| == store[p].order
      requires Own(store - out, ext + multiset(store[p].subtrees))
      requires forall j :: 0 <= j < store[p].order ==>
        store[p].subtrees[j] in store
        && store[store[p].subtrees[j]].order == j
      modifies this`store
      ensures Own(store - out, ext)
      ensures Survives(store - out, old(store) - out)
      ensures forall q :: q in store ==> q in old(store)
      ensures forall q :: q in out && q in old(store) ==> q in store && store[q] == old(store)[q]
      decreases store[p].order, 0
    {
      hide Owned, Survives, Refs, SameRecord;
      ghost var subs := store[p].subtrees;
      var i := 0;
      assert subs[0..] == subs;
      SurvivesSelf(store - out);
      while i < store[p].order
        invariant p in store && store[p] == old(store)[p] && 0 <= i <= |subs|
        invariant Own(store - out, ext + multiset(subs[i..]))
        invariant Survives(store - out, old(store) - out)
        invariant forall q :: q in store ==> q in old(store)
        invariant forall q :: q in out && q in old(store) ==> q in store && store[q] == old(store)[q]
      {
        var q := store[p].subtrees[i];
        ghost var e, before := ext + multiset(subs[i..]), store - out;
        TakeOne(ext, subs, i);
        ExtLive(before, e, q, kind, compare);
        SurvivorOrder(before, old(store) - out, q);
        OneRef(q);
        Unref(q, e, out);
        SurvivesTrans(store - out, before, old(store) - out);
        i := i + 1;
      }
      assert subs[i..] == [];
      assert ext + multiset([]) == ext;
    }

    /** A new tree holding both trees, its count still zero and its references to its subtrees already counted;
        NULL, and nothing changed, when the record or its array is refused. */
    method TreeMerge(tree1: Ptr, tree2: Ptr, memory: Memory, ghost ext: multiset<Ptr>) returns (newTree: Ptr)
      requires Own(store, ext) && TotalPreorder(compare)
      requires tree1 in store && tree2 in store && store[tree1].order == store[tree2].order
      modifies this`store, memory`calls
      ensures memory.Decides(old(memory.calls), memory.calls, 2, newTree != NULL)
      ensures newTree == NULL ==> store == old(store)
      ensures newTree != NULL ==>
        && newTree !in old(store) && newTree in store
        && store[newTree] == Merged(old(store), tree1, tree2, kind, compare)
        && Own(store - {newTree}, ext + multiset(store[newTree].subtrees))
        && (store - {newTree}).Keys == old(store).Keys && Survives(store - {newTree}, old(store))
    {
      hide Owned, Survives, TotalPreorder, Merged;
      var granted := memory.Request();
      if !granted {
        return NULL;
      }
      granted := memory.Request();
      if !granted { // the record just allocated is freed again
        return NULL;
      }
      newTree := NewTree(tree1, tree2, ext);
    }

    /** Fills the new record and counts its references to its subtrees. */
    method NewTree(tree1: Ptr, tree2: Ptr, ghost ext: multiset<Ptr>) returns (newTree: Ptr)
      requires Own(store, ext) && TotalPreorder(compare)
      requires tree1 in store && tree2 in store && store[tree1].order == store[tree2].order
      modifies this`store
      ensures newTree != NULL && newTree !in old(store) && newTree in store
      ensures store[newTree] == Merged(old(store), tree1, tree2, kind, compare)
      ensures Own(store - {newTree}, ext + multiset(store[newTree].subtrees))
      ensures (store - {newTree}).Keys == old(store).Keys && Survives(store - {newTree}, old(store))
    {
      hide Owned, Survives, SameRecord, TotalPreorder;
      var (t1, t2) := Ordered(store, tree1, tree2, kind, compare);
      FreshPtr(store);
      newTree :| newTree != NULL && newTree !in store;
      ghost var before := store;
      var subs := store[t1].subtrees + [t2];
      store := store[newTree := Tree(store[t1].value, store[t1].order + 1, 0, subs)];
      assert store - {newTree} == before;
      MergedLive(before, ext, t1, t2, kind, compare);
      SurvivesSelf(before);
      assert subs[..0] == [] && ext + multiset([]) == ext;
      for i := 0 to |subs|
        invariant newTree in store && store[newTree] == Tree(before[t1].value, before[t1].order + 1, 0, subs)
        invariant Own(store - {newTree}, ext + multiset(subs[..i]))
        invariant (store - {newTree}).Keys == before.Keys && Survives(store - {newTree}, before)
      {
        ghost var live := store - {newTree};
        assert subs[i] in live;
        RefStep(live, ext + multiset(subs[..i]), subs[i], kind, compare);
        Ref(subs[i]);
        assert store - {newTree} == live[subs[i] := live[subs[i]].(refcount := live[subs[i]].refcount + 1)];
        assert subs[..i + 1] == subs[..i] + [subs[i]];
        assert ext + multiset(subs[..i]) + multiset{subs[i]} == ext + multiset(subs[..i + 1]);
        SurvivesTrans(store - {newTree}, live, before);
      }
      assert subs[..|subs|] == subs;
    }

    /** Merges two trees into the next carry and gives up the previous one. */
    method CarryMerge(v0: Ptr, v1: Ptr, carry: Ptr, memory: Memory, ghost ext: multiset<Ptr>) returns (next: Ptr)
      requires Own(store, ext + Refs([carry])) && TotalPreorder(compare)
      requires v0 in store && v1 in store && store[v0].order == store[v1].order
      modifies this`store, memory`calls
      ensures memory.Decides(old(memory.calls), memory.calls, 2, next != NULL)
      ensures next == NULL ==> store == old(store)
      ensures next != NULL ==>
        && next !in old(store) && next in store && store[next].order == old(store)[v0].order + 1
        && Own(store, ext + multiset{next}) && Shape(store - {next}, kind, compare)
        && Survives(store - {next}, old(store))
        && EntryValues(store, next, kind, compare)
           == EntryValues(old(store), v0, kind, compare) + EntryValues(old(store), v1, kind, compare)
        && AtMost(EntryPtrs(store, next, kind, compare),
                  EntryPtrs(old(store), v0, kind, compare) + EntryPtrs(old(store), v1, kind, compare), next)
    {
      hide Shape, Counted, Survives, SameRecord, TotalPreorder, Unfold, Ptrs, Values, Refs, Memory.Decides;
      ghost var s0 := store;
      ghost var held := ext + Refs([carry]);
      OneRef(carry);
      next := TreeMerge(v0, v1, memory, held);
      if next == NULL {
        return;
      }
      ghost var r := store[next];
      ghost var subs := multiset(r.subtrees);
      ghost var live1 := store - {next};
      assert carry != NULL ==> carry in held + subs;
      Unref(carry, held + subs, {next});
      ghost var live2 := store - {next};
      assert held + subs - Refs([carry]) == ext + subs;
      SurvivesTrans(live2, live1, s0);
      assert store == live2[next := r];
      Ref(next);
      ghost var r1 := r.(refcount := 1);
      assert store == live2[next := r1] && store - {next} == live2;
      SubtreesHeld(live2, ext, r.subtrees, kind, compare);
      NotHeld(live2, ext + subs, next, kind, compare);
      RecordLike(r1, r);
      MergedShape(s0, live2, next, r1, v0, v1, kind, compare);
      AddStep(live2, ext, next, r1, kind, compare);
      MergedForest(s0, store, next, v0, v1, kind, compare);
      NextPtrs(s0, store, next, v0, v1, kind, compare);
      NotNull(s0, v0, kind, compare);
      NotNull(s0, v1, kind, compare);
    }

    /** The trees to merge at one step, one to three of order i with the carry last if there is one, become the new
        entry of order i and the next carry. When memory refuses a request the carry is still held. */
    method Column(i: nat, vals: seq<Ptr>, carry: Ptr, memory: Memory, ghost ext: multiset<Ptr>)
      returns (ok: bool, slot: Ptr, next: Ptr)
      requires Own(store, ext + Refs([carry])) && TotalPreorder(compare)
      requires |vals| <= 3 && AllEntries(store, vals, i)
      modifies this`store, memory`calls
      ensures memory.Decides(old(memory.calls), memory.calls, 2 * CarryOut(|vals|), ok)
      ensures next !in old(store) && Survives(store - {next}, old(store)) && Shape(store - {next}, kind, compare)
      ensures Own(store, ext + Refs([slot]) + Refs([if ok then next else carry])) && (!ok ==> next == NULL)
      ensures ok ==> Entry(store, slot, i) && Entry(store, next, i + 1) && (slot != NULL ==> slot != next)
      ensures ok ==> One(slot) + 2 * One(next) == |vals|
      ensures ok ==> (EntryValues(store, slot, kind, compare) + EntryValues(store, next, kind, compare)
                      == SumValues(old(store), vals, kind, compare))
      ensures ok ==> AtMost(EntryPtrs(store, slot, kind, compare) + EntryPtrs(store, next, kind, compare),
                            SumPtrs(old(store), vals, kind, compare), next)
    {
      hide Shape, Counted, Survives, SameRecord, TotalPreorder, Unfold, Ptrs, Values, Refs, EntryValues, EntryPtrs,
        SumValues, SumPtrs, AtMost;
      ghost var s0 := store;
      next := NULL;
      slot := KeepEntry(i, vals, ext + Refs([carry]));
      ghost var s1 := store;
      NullNotLive(s1, kind, compare);
      ghost var ext1 := ext + Refs([slot]);
      assert ext1 + Refs([carry]) == ext + Refs([carry]) + Refs([slot]);
      SumSame(s1, s0, vals, kind, compare);
      SumUpTo3(s1, vals, kind, compare);
      EntryNull(s1, kind, compare);
      if |vals| >= 2 {
        next := CarryMerge(vals[0], vals[1], carry, memory, ext1);
        assert s1 - {NULL} == s1;
        if next == NULL {
          return false, slot, NULL;
        }
        FinishCarry(s1, store, ext1, slot, next, kind, compare);
        AtMostSum(EntryPtrs(s1, slot, kind, compare), EntryPtrs(store, next, kind, compare),
                  EntryPtrs(s1, vals[0], kind, compare) + EntryPtrs(s1, vals[1], kind, compare), next);
        SurvivesTrans(store - {next}, s1, s0);
      } else {
        EndCarry(carry, slot, ext1);
        SurvivesTrans(store, s1, s0);
        AtMostSum(EntryPtrs(s1, slot, kind, compare), multiset{}, multiset{}, NULL);
      }
      ok := true;
    }

    /** A column without a carry out: the previous carry is given up and the entry kept is untouched. */
    method EndCarry(carry: Ptr, slot: Ptr, ghost ext: multiset<Ptr>)
      requires Own(store, ext + Refs([carry])) && Refs([slot]) <= ext && LiveOrNull(store, slot)
      modifies this`store
      ensures Own(store, ext + Refs([NULL])) && Survives(store, old(store)) && store - {NULL} == store
      ensures LiveOrNull(store, slot) && (slot != NULL ==> store[slot].order == old(store)[slot].order)
      ensures EntryValues(store, slot, kind, compare) == EntryValues(old(store), slot, kind, compare)
      ensures EntryPtrs(store, slot, kind, compare) == EntryPtrs(old(store), slot, kind, compare)
      ensures EntryPtrs(store, slot, kind, compare)[NULL] == 0
      ensures EntryValues(store, NULL, kind, compare) == multiset{}
        && EntryPtrs(store, NULL, kind, compare) == multiset{}
    {
      hide Shape, Counted, Survives, Refs, EntryValues, EntryPtrs;
      ghost var s1 := store;
      DropCarry(carry, ext);
      OneRef(NULL);
      assert ext + multiset{} == ext;
      NullNotLive(store, kind, compare);
      NullNotLive(s1, kind, compare);
      assert store - {NULL} == store;
      HeldLive(store, ext, slot, kind, compare);
      EntrySame(store, s1, slot, kind, compare);
      NoDeadPtr(s1, slot, NULL, kind, compare);
      EntryNull(store, kind, compare);
    }

    /** When one or three trees meet, the last of them is stored at this order. */
    method KeepEntry(i: nat, vals: seq<Ptr>, ghost held: multiset<Ptr>) returns (slot: Ptr)
      requires Own(store, held) && AllEntries(store, vals, i) && |vals| <= 3
      modifies this`store
      ensures slot == if |vals| == 1 then vals[0] else if |vals| == 3 then vals[2] else NULL
      ensures Entry(store, slot, i) && |vals| == One(slot) + 2 * (if |vals| >= 2 then 1 else 0)
      ensures Own(store, held + Refs([slot])) && Survives(store, old(store)) && AllEntries(store, vals, i)
      ensures store.Keys == old(store).Keys && NULL !in store
    {
      hide Shape, Counted, Survives, Refs;
      slot := NULL;
      OneRef(slot);
      NullNotLive(store, kind, compare);
      assert held + multiset{} == held;
      SurvivesSelf(store);
      if |vals| % 2 == 1 {
        slot := vals[|vals| - 1];
        OneRef(slot);
        RefStep(store, held, slot, kind, compare);
        Ref(slot);
      }
    }

    /** Gives up the previous carry when there is no next one. */
    method DropCarry(carry: Ptr, ghost ext: multiset<Ptr>)
      requires Own(store, ext + Refs([carry]))
      modifies this`store
      ensures Own(store, ext) && Survives(store, old(store))
    {
      hide Owned, Survives, Refs;
      OneRef(carry);
      assert store - {} == store;
      Unref(carry, ext + Refs([carry]), {});
      assert store - {} == store;
      assert ext + Refs([carry]) - Refs([carry]) == ext;
    }

    /** Gives up the references held by the entries of a roots array (also the undo of a partly built one). */
    method UnrefAll(ps: seq<Ptr>, ghost ext: multiset<Ptr>)
      requires Own(store, ext + Refs(ps))
      modifies this`store
      ensures Own(store, ext) && Survives(store, old(store))
    {
      hide Owned, Survives, Refs;
      SurvivesSelf(store);
      assert ps[0..] == ps;
      for i := 0 to |ps|
        invariant Own(store, ext + Refs(ps[i..])) && Survives(store, old(store))
      {
        ghost var before := store;
        assert ps[i..] == [ps[i]] + ps[i + 1..];
        RefsConcat([ps[i]], ps[i + 1..]);
        assert ext + Refs(ps[i..]) == ext + Refs(ps[i + 1..]) + Refs([ps[i]]);
        DropCarry(ps[i], ext + Refs(ps[i + 1..]));
        SurvivesTrans(store, before, old(store));
      }
      assert ps[|ps|..] == [];
      NoRefs();
      assert ext + multiset{} == ext;
    }

    /** binomial_heap_merge_undo and the last unref: the store is back to s0, counts included. */
    method UndoMerge(newRoots: seq<Ptr>, carry: Ptr, ghost ext: multiset<Ptr>, ghost s0: Store<V>)
      requires Own(store, ext + Refs([carry]) + Refs(newRoots)) && Own(s0, ext) && Compatible(store, s0)
      modifies this`store
      ensures store == s0
    {
      hide Owned, Survives, Refs, Compatible;
      ghost var t := store;
      UnrefAll(newRoots, ext + Refs([carry]));
      ghost var u := store;
      DropCarry(carry, ext);
      SurvivesTrans(store, u, t);
      CompatibleWith(store, t, s0);
      SameStore(store, s0, ext, kind, compare);
    }

    /** Gives up the old roots and installs the new ones, cut after the last tree. */
    method InstallRoots(newRoots: seq<Ptr>, newLength: nat, ghost ext: multiset<Ptr>, ghost s0: Store<V>,
                        ghost other: seq<Ptr>,
                        ghost all: multiset<V>)
      requires newLength <= |newRoots| && (forall j :: newLength <= j < |newRoots| ==> newRoots[j] == NULL)
      requires newLength > 0 ==> newRoots[newLength - 1] != NULL
      requires |newRoots| > |roots| && |newRoots| > |other| && Refs(roots) <= ext
      requires Own(store, ext + Refs(newRoots) + Refs([NULL])) && Compatible(store, s0)
      requires MergeState(s0, store, roots, other, |newRoots|, newRoots, NULL, all, kind, compare)
      modifies this`store, this`roots
      ensures Own(store, ext - Refs(old(roots)) + Refs(roots)) && Compatible(store, s0)
      ensures RootOrders(store, roots) && AllLive(store, roots) && (roots != [] ==> roots[|roots| - 1] != NULL)
      ensures Simple(SumPtrs(store, roots, kind, compare)) && SumValues(store, roots, kind, compare) == all
      ensures Weight(roots) == Weight(old(roots)) + Weight(other)
    {
      hide Shape, Counted, Survives, Compatible, Refs, SumValues, SumPtrs, EntryValues, EntryPtrs, Simple, MergeState,
        Weight, RootOrders, AllLive;
      ghost var t := store;
      MergeEnd(s0, t, roots, other, newRoots, all, kind, compare);
      OneRef(NULL);
      ghost var kept := ext - Refs(roots) + Refs(newRoots);
      assert ext + Refs(newRoots) + multiset{} == kept + Refs(roots);
      UnrefAll(roots, kept);
      roots := newRoots[..newLength];
      CompatibleWith(store, t, s0);
      assert Refs(newRoots) <= kept;
      HoldsEntries(store, kept, newRoots, kind, compare);
      SumSame2(store, t, newRoots, kind, compare);
      Trim(store, newRoots, newLength, kind, compare);
      TrimOrders(store, newRoots, newLength);
    }

    /** One column of a merge. When memory refuses a request, everything the merge has done is undone. */
    method MergeColumn(other: seq<Ptr>, i: nat, max: nat, newRoots: seq<Ptr>, carry: Ptr, memory: Memory,
                       ghost ext: multiset<Ptr>, ghost s0: Store<V>, ghost all: multiset<V>, ghost first: nat)
      returns (ok: bool, slot: Ptr, next: Ptr)
      requires TotalPreorder(compare) && Own(s0, ext) && RootOrders(s0, roots) && RootOrders(s0, other)
      requires AllLive(s0, roots) && AllLive(s0, other) && i < max && max > |roots| && max > |other|
      requires Own(store, ext + Refs(newRoots) + Refs([carry])) && Compatible(store, s0)
      requires MergeState(s0, store, roots, other, i, newRoots, carry, all, kind, compare)
      requires memory.Decides(first, memory.calls, 1 + 2 * Carries(roots, other, i, newRoots, carry), true)
      modifies this`store, memory`calls
      ensures memory.Decides(first, memory.calls,
                             1 + 2 * if ok then Carries(roots, other, i + 1, newRoots + [slot], next)
                                     else CarriesOf(Weight(roots), Weight(other)), ok)
      ensures !ok ==> store == s0
      ensures ok ==> Own(store, ext + Refs(newRoots + [slot]) + Refs([next])) && Compatible(store, s0)
      ensures ok ==> MergeState(s0, store, roots, other, i + 1, newRoots + [slot], next, all, kind, compare)
      ensures ok ==> One(slot) + 2 * One(next) == One(Get(roots, i)) + One(Get(other, i)) + One(carry)
    {
      hide Shape, Counted, Survives, Compatible, Refs, SumValues, SumPtrs, EntryValues, EntryPtrs, Simple,
        TotalPreorder, MergeState, ColumnDone, Weight, RootOrders, AllLive, Take, Drop, Trees, Carries,
        CarriesOf, Memory.Decides;
      var vals := ValsAt(Get(roots, i), Get(other, i), carry);
      ghost var t, asked, held := store, memory.calls, ext + Refs(newRoots);
      StillThere(s0, t, ext, held + Refs([carry]), kind, compare);
      ColumnReady(s0, t, roots, other, i, newRoots, carry, all, kind, compare);
      ok, slot, next := Column(i, vals, carry, memory, held);
      MergeWeights(s0, t, roots, other, i, newRoots, carry, all, kind, compare);
      AskMore(memory, roots, other, i, max, newRoots, carry, slot, next, first, asked, memory.calls, ok);
      NewRecords(s0, t, store, next);
      RefsConcat(newRoots, [slot]);
      if ok {
        HoldsEntries(store, held + Refs([slot]) + Refs([next]), newRoots, kind, compare)
          by { RefsWithin(ext, newRoots, slot, next); }
        ColumnResult(s0, t, store, roots, other, i, newRoots, carry, slot, next, all, kind, compare);
        MergeStep(s0, t, store, roots, other, i, newRoots, carry, slot, next, all, kind, compare);
        Reordered(ext, Refs(newRoots), Refs([slot]), Refs([next]));
      } else {
        Reordered(ext, Refs(newRoots), Refs([slot]), Refs([carry]));
        UndoMerge(newRoots + [slot], carry, ext, s0);
      }
    }

    /** Merges the trees in `other` into the heap like a ripple-carry adder: one request for the array of roots and
        two for each carry. When memory refuses one everything is as before the call, reference counts included. */
    method Merge(other: seq<Ptr>, memory: Memory, ghost ext: multiset<Ptr>) returns (ok: bool)
      requires TotalPreorder(compare) && Own(store, ext) && Refs(roots) <= ext
      requires RootOrders(store, roots) && RootOrders(store, other) && AllLive(store, roots) && AllLive(store, other)
      requires Simple(SumPtrs(store, roots, kind, compare) + SumPtrs(store, other, kind, compare))
      modifies this`store, this`roots, memory`calls
      ensures memory.Decides(old(memory.calls), memory.calls, 1 + 2 * CarriesOf(Weight(old(roots)), Weight(other)), ok)
      ensures !ok ==> store == old(store) && roots == old(roots)
      ensures ok ==> Own(store, ext - Refs(old(roots)) + Refs(roots)) && Compatible(store, old(store))
      ensures ok ==> RootOrders(store, roots) && AllLive(store, roots) && (roots != [] ==> roots[|roots| - 1] != NULL)
      ensures ok ==> Simple(SumPtrs(store, roots, kind, compare))
      ensures ok ==> Weight(roots) == Weight(old(roots)) + Weight(other)
      ensures ok ==> (SumValues(store, roots, kind, compare)
                      == SumValues(old(store), old(roots), kind, compare) + SumValues(old(store), other, kind, compare))
    {
      hide Shape, Counted, Survives, Compatible, Refs, SumValues, SumPtrs, EntryValues, EntryPtrs, Simple,
        TotalPreorder, MergeState, ColumnDone, Weight, RootOrders, AllLive, Take, Drop, Trees, Carries,
        CarriesOf;
      ghost var s0 := store;
      ghost var all := SumValues(s0, roots, kind, compare) + SumValues(s0, other, kind, compare);
      var max := (if |roots| > |other| then |roots| else |other|) + 1;
      StartMerge(other, ext, max, all);
      var granted := memory.Request();
      if !granted {
        return false;
      }
      assert memory.Decides(old(memory.calls), memory.calls, 1, true);
      hide Memory.Decides;
      var newRoots: seq<Ptr> := [];
      var newLength := 0;
      var carry: Ptr := NULL;
      var i := 0;
      while i < max
        invariant 0 <= i <= max && |newRoots| == i && newLength <= i && roots == old(roots)
        invariant forall j :: newLength <= j < i ==> newRoots[j] == NULL
        invariant newLength > 0 ==> newRoots[newLength - 1] != NULL
        invariant i == max ==> carry == NULL
        invariant Own(store, ext + Refs(newRoots) + Refs([carry])) && Compatible(store, s0)
        invariant MergeState(s0, store, roots, other, i, newRoots, carry, all, kind, compare)
        invariant memory.Decides(old(memory.calls), memory.calls,
                                 1 + 2 * Carries(roots, other, i, newRoots, carry), true)
      {
        var slot, next;
        ok, slot, next := MergeColumn(other, i, max, newRoots, carry, memory, ext, s0, all, old(memory.calls));
        if !ok {
          return;
        }
        newRoots := newRoots + [slot];
        if slot != NULL { newLength := i + 1; }
        carry := next;
        i := i + 1;
      }
      ok := true;
      MergeEnd(s0, store, roots, other, newRoots, all, kind, compare);
      CarriesEnd(roots, other, i, newRoots);
      InstallRoots(newRoots, newLength, ext, s0, other, all);
    }

    lemma StartMerge(other: seq<Ptr>, ext: multiset<Ptr>, max: nat, all: multiset<V>)
      requires Own(store, ext) && AllLive(store, roots) && AllLive(store, other)
      requires Simple(SumPtrs(store, roots, kind, compare) + SumPtrs(store, other, kind, compare))
      requires all == SumValues(store, roots, kind, compare) + SumValues(store, other, kind, compare)
      requires max > |roots| && max > |other|
      ensures Own(store, ext + Refs([]) + Refs([NULL])) && Compatible(store, store)
      ensures MergeState(store, store, roots, other, 0, [], NULL, all, kind, compare)
      ensures Carries(roots, other, 0, [], NULL) == 0 <= CarriesOf(Weight(roots), Weight(other))
    {
      hide Shape, Counted, Compatible, Refs, SumValues, SumPtrs, Simple, MergeState, AllLive, Carries, CarriesOf,
        Weight;
      NoRefs();
      OneRef(NULL);
      assert ext + multiset{} + multiset{} == ext;
      MergeStart(store, roots, other, kind, compare);
      CompatibleSelf(store);
      CarriesStart(roots, other);
      MergeWeights(store, store, roots, other, 0, [], NULL, all, kind, compare);
      CarriesBound(roots, other, 0, max, [], NULL);
    }

    // ---------- the heap ----------

    /** Every record has the counts its references demand, each tree sits at its order, no record is shared, and the
        entries spell the number of values in binary, without leading zeros. */
    ghost predicate Valid()
      reads this
    {
      && TotalPreorder(compare) && Own(store, Refs(roots)) && RootOrders(store, roots) && AllLive(store, roots)
      && Simple(SumPtrs(store, roots, kind, compare)) && numValues == Weight(roots)
      && (roots != [] ==> roots[|roots| - 1] != NULL)
    }

    /** The values in the heap. */
    ghost function Contents(): multiset<V>
      requires Valid()
      reads this
    {
      SumValues(store, roots, kind, compare)
    }

    /** In a valid heap every record in memory hangs from the roots and has exactly one reference; the entries are
        the bits of the number of values, and an entry at position i holds 2^i of them. */
    lemma Structure()
      requires Valid()
      ensures forall p :: p in store ==> store[p].refcount == 1 && p in SumPtrs(store, roots, kind, compare)
      ensures forall i: nat :: Bit(numValues, i) <==> Get(roots, i) != NULL
      ensures forall i :: 0 <= i < |roots| && roots[i] != NULL ==>
        roots[i] in store && |EntryValues(store, roots[i], kind, compare)| == Pow(2, i)
      ensures |Contents()| == numValues
    {
      hide Shape, Counted, SumPtrs, SumValues, Refs, Weight, Pow, Bit;
      OneReferenceEach(store, roots, kind, compare);
      forall i: nat ensures Bit(numValues, i) <==> Get(roots, i) != NULL { WeightBits(roots, i); }
      forall i | 0 <= i < |roots| && roots[i] != NULL
        ensures roots[i] in store && |EntryValues(store, roots[i], kind, compare)| == Pow(2, i)
      {
        assert Entry(store, roots[i], i);
        TreeSize(store, roots[i], kind, compare);
      }
      RootsSize(store, roots, |roots|, |roots|, kind, compare);
      assert roots[..|roots|] == roots;
    }

    /** Inserts a value; when memory refuses a request nothing changes. */
    method Insert(value: V, memory: Memory) returns (ok: bool)
      requires Valid()
      modifies this, memory`calls
      ensures Valid()
      ensures memory.Decides(old(memory.calls), memory.calls, 2 + 2 * CarriesOf(old(numValues), 1), ok)
      ensures ok ==> Contents() == old(Contents()) + multiset{value} && numValues == old(numValues) + 1
      ensures !ok ==> store == old(store) && roots == old(roots) && numValues == old(numValues)
    {
      hide *;
      NoFewerOnes(numValues, 1);
      ghost var rest := 1 + 2 * CarriesOf(numValues, 1);
      ok := memory.Request();
      ghost var asked := memory.calls;
      if ok {
        ok := InsertLeaf(value, memory);
        memory.Chained(old(memory.calls), asked, memory.calls, 1, rest, ok);
      } else {
        memory.Refused(old(memory.calls), asked, 1, 1 + rest);
      }
    }

    /** The rest of an insertion: the record of the new value is merged in like a heap of one tree. */
    method InsertLeaf(value: V, memory: Memory) returns (ok: bool)
      requires Valid()
      modifies this, memory`calls
      ensures Valid()
      ensures memory.Decides(old(memory.calls), memory.calls, 1 + 2 * CarriesOf(old(numValues), 1), ok)
      ensures ok ==> Contents() == old(Contents()) + multiset{value} && numValues == old(numValues) + 1
      ensures !ok ==> store == old(store) && roots == old(roots) && numValues == old(numValues)
    {
      hide Shape, Counted, Survives, Compatible, Refs, SumValues, SumPtrs, EntryValues, EntryPtrs, Simple,
        TotalPreorder, Weight, RootOrders, AllLive, CarriesOf, Memory.Decides;
      ghost var s0, held := store, Refs(roots);
      FreshPtr(store);
      var newTree: Ptr :| newTree != NULL && newTree !in store;
      store := store[newTree := Tree(value, 0, 1, [])];
      ghost var s1 := store;
      NewLeaf(s0, held, roots, newTree, value, kind, compare);
      ok := Merge([newTree], memory, held + multiset{newTree});
      OneRef(newTree);
      if ok {
        numValues := numValues + 1;
        assert held + multiset{newTree} - held + Refs(roots) == Refs(roots) + Refs([newTree]);
      } else {
        assert held + multiset{newTree} == Refs(roots) + Refs([newTree]);
        CompatibleSelf(s1);
      }
      ghost var t := store;
      DropCarry(newTree, Refs(roots));
      if ok {
        HoldsEntries(store, Refs(roots), roots, kind, compare);
        SumSame2(store, t, roots, kind, compare);
      } else {
        CompatibleWith(store, t, s1);
        OldRecords(store, s1, s0, newTree, value);
        SameStore(store, s0, held, kind, compare);
      }
    }

    /** The position of a tree with a least root. */
    method FindLeast() returns (least: nat)
      requires Valid() && numValues > 0
      ensures least < |roots| && roots[least] != NULL && roots[least] in store
      ensures forall j :: 0 <= j < least && roots[j] != NULL ==>
        roots[j] in store && compare(store[roots[least]].value, store[roots[j]].value) != 0
      ensures kind == MinHeap ==> forall v :: v in Contents() ==> compare(store[roots[least]].value, v) <= 0
      ensures kind == MaxHeap ==> forall v :: v in Contents() ==> compare(store[roots[least]].value, v) >= 0
    {
      hide Owned, Refs, SumValues, SumPtrs, EntryValues, EntryPtrs, Simple, TotalPreorder, AllLive;
      var found: int := -1;
      for i := 0 to |roots|
        invariant -1 <= found < i
        invariant found >= 0 ==> roots[found] != NULL && roots[found] in store
        invariant forall j :: 0 <= j < i && roots[j] != NULL ==>
          found >= 0 && roots[j] in store && Leq(kind, compare, store[roots[found]].value, store[roots[j]].value)
        invariant forall j :: 0 <= j < found && roots[j] != NULL ==>
          Compare(kind, compare, store[roots[found]].value, store[roots[j]].value) < 0
      {
        if roots[i] != NULL {
          assert Entry(store, roots[i], i);
          var v := store[roots[i]].value;
          if found < 0 || Compare(kind, compare, v, store[roots[found]].value) < 0 {
            forall j | 0 <= j < i && roots[j] != NULL ensures Compare(kind, compare, v, store[roots[j]].value) < 0 {
              LeqLaws(kind, compare, v, store[roots[found]].value, store[roots[j]].value);
            }
            LeqLaws(kind, compare, v, v, v);
            found := i;
          } else {
            LeqLaws(kind, compare, v, store[roots[found]].value, v);
          }
        }
      }
      if found < 0 { NoTrees(roots); }
      least := found;
      forall v | v in Contents() ensures Leq(kind, compare, store[roots[least]].value, v) {
        LeastOfAll(store, roots, Refs(roots), least, v, kind, compare);
      }
    }

    /** Takes the root at a position out: its subtrees are merged with the other trees. */
    method TakeOut(least: nat, memory: Memory) returns (result: Option<V>)
      requires Valid() && numValues > 0 && least < |roots| && roots[least] != NULL && roots[least] in store
      modifies this, memory`calls
      ensures Valid() && Pow(2, least) <= old(numValues)
      ensures memory.Decides(old(memory.calls), memory.calls,
                             1 + 2 * CarriesOf(old(numValues) - Pow(2, least), Pow(2, least) - 1), result.Some?)
      ensures result.None? ==> store == old(store) && roots == old(roots) && numValues == old(numValues)
      ensures result.Some? ==> result.value == old(store)[old(roots)[least]].value && numValues == old(numValues) - 1
      ensures result.Some? ==> Contents() + multiset{result.value} == old(Contents())
    {
      hide Shape, Counted, Survives, Compatible, Refs, SumValues, SumPtrs, EntryValues, EntryPtrs, Simple,
        TotalPreorder, Weight, RootOrders, AllLive, Pow, CarriesOf, Memory.Decides;
      ghost var s0, r0 := store, roots;
      var leastTree := roots[least];
      roots := roots[least := NULL];
      var subtrees := store[leastTree].subtrees;
      ghost var held := Refs(roots) + multiset{leastTree};
      TakeTree(s0, r0, least, kind, compare);
      WeightWithout(r0, least);
      var ok := Merge(subtrees, memory, held);
      if ok {
        ghost var t := store;
        OneRef(leastTree);
        assert held - Refs(r0[least := NULL]) + Refs(roots) == Refs(roots) + Refs([leastTree]);
        SameValue(t, s0, Refs(roots) + Refs([leastTree]), leastTree, kind, compare);
        var value := store[leastTree].value;
        DropCarry(leastTree, Refs(roots));
        HoldsEntries(store, Refs(roots), roots, kind, compare);
        SumSame2(store, t, roots, kind, compare);
        numValues := numValues - 1;
        result := Some(value);
      } else {
        roots := roots[least := leastTree];
        assert roots == r0;
        result := None;
      }
    }

    /** Removes a least value from a min heap, a greatest one from a max heap, and returns it. On an empty heap, or when
        memory refuses a request of the merge, returns nothing and changes nothing. */
    method Pop(memory: Memory) returns (result: Option<V>)
      requires Valid()
      modifies this, memory`calls
      ensures Valid()
      ensures old(numValues) == 0 ==> result.None? && memory.calls == old(memory.calls)
      ensures old(numValues) > 0 ==> exists l ::
        && 0 <= l < |old(roots)| && old(roots)[l] != NULL && Pow(2, l) <= old(numValues)
        && memory.Decides(old(memory.calls), memory.calls,
                          1 + 2 * CarriesOf(old(numValues) - Pow(2, l), Pow(2, l) - 1), result.Some?)
        && (result.Some? ==> old(roots)[l] in old(store) && result.value == old(store)[old(roots)[l]].value)
        && forall j :: 0 <= j < l && old(roots)[j] != NULL && result.Some? ==>
          old(roots)[j] in old(store) && compare(result.value, old(store)[old(roots)[j]].value) != 0
      ensures result.None? ==> store == old(store) && roots == old(roots) && numValues == old(numValues)
      ensures result.Some? ==> result.value in old(Contents()) && Contents() == old(Contents()) - multiset{result.value}
      ensures result.Some? && kind == MinHeap ==> forall v :: v in old(Contents()) ==> compare(result.value, v) <= 0
      ensures result.Some? && kind == MaxHeap ==> forall v :: v in old(Contents()) ==> compare(result.value, v) >= 0
      ensures result.Some? ==> numValues == old(numValues) - 1
    {
      hide Shape, Counted, Survives, Compatible, Refs, SumValues, SumPtrs, EntryValues, EntryPtrs, Simple,
        TotalPreorder, Weight, RootOrders, AllLive, Pow, CarriesOf, Memory.Decides;
      if numValues == 0 {
        return None;
      }
      var least := FindLeast();
      result := TakeOut(least, memory);
    }
  }

  /** A new record of order zero joins the heap as an outside reference. */
  lemma NewLeaf<V>(s: Store<V>, held: multiset<Ptr>, ps: seq<Ptr>, p: Ptr, value: V, kind: HeapType, f: (V, V) -> int)
    requires Owned(s, held, kind, f) && held == Refs(ps) && p !in s && p != NULL
    requires RootOrders(s, ps) && AllLive(s, ps) && Simple(SumPtrs(s, ps, kind, f))
    ensures var t := s[p := Tree(value, 0, 1, [])];
      && Owned(t, held + multiset{p}, kind, f) && RootOrders(t, ps) && AllLive(t, ps) && RootOrders(t, [p])
      && AllLive(t, [p])
      && SumValues(t, ps, kind, f) == SumValues(s, ps, kind, f) && SumValues(t, [p], kind, f) == multiset{value}
      && Simple(SumPtrs(t, ps, kind, f) + SumPtrs(t, [p], kind, f))
    ensures Weight([p]) == 1
  {
    hide SumValues, SumPtrs, EntryValues, EntryPtrs, Refs, Shape, Counted, Survives, Weight;
    var r := Tree(value, 0, 1, []);
    var t := s[p := r];
    NotHeld(s, held, p, kind, f);
    assert held + multiset(r.subtrees) == held;
    LeafShape(s, p, value, kind, f);
    AddStep(s, held, p, r, kind, f);
    StoreGrows(s, p, r);
    SumSame(s, t, ps, kind, f);
    assert RootOrders(t, ps) by {
      forall i | 0 <= i < |ps| ensures Entry(t, ps[i], i) { assert Entry(s, ps[i], i); }
    }
    SumOne(t, p, kind, f);
    EntryOpened(t, p, kind, f);
    EmptyRoots(t, kind, f);
    SumPtrsLive(s, ps, p, kind, f);
    OneTree(p);
    var a, b := SumPtrs(t, ps, kind, f), SumPtrs(t, [p], kind, f);
    forall q ensures (a + b)[q] <= 1 {
      assert (a + b)[q] == a[q] + b[q];
    }
  }

  lemma LeafShape<V>(s: Store<V>, p: Ptr, value: V, kind: HeapType, f: (V, V) -> int)
    requires p != NULL
    ensures ShapeAt(s[p := Tree(value, 0, 1, [])], p, kind, f)
  {
  }

  lemma StoreGrows<V>(s: Store<V>, p: Ptr, r: Tree<V>)
    requires p !in s
    ensures Survives(s, s[p := r])
  {
  }

  lemma OneTree(p: Ptr)
    requires p != NULL
    ensures Weight([p]) == 1
  {
    PowZero(2);
    assert [p] == [] + [p];
    WeightSnoc([], p);
  }

  lemma OldRecords<V>(u: Store<V>, s1: Store<V>, s0: Store<V>, p: Ptr, value: V)
    requires Compatible(u, s1) && p !in s0 && s1 == s0[p := Tree(value, 0, 1, [])]
    ensures Compatible(u, s0)
  {
    forall q | q in u && q in s0 ensures SameRecord(u[q], s0[q]) { assert SameRecord(u[q], s1[q]); }
  }

  lemma {:induction false} NoTrees(ps: seq<Ptr>)
    requires forall i :: 0 <= i < |ps| ==> ps[i] == NULL
    ensures Weight(ps) == 0
  {
    if ps != [] { NoTrees(ps[..|ps| - 1]); }
  }

  lemma {:induction false} LeastOfAll<V(!new)>(s: Store<V>, ps: seq<Ptr>, ext: multiset<Ptr>, least: nat, v: V,
                                        kind: HeapType, f: (V, V) -> int)
    requires Owned(s, ext, kind, f) && AllLive(s, ps) && TotalPreorder(f)
    requires least < |ps| && ps[least] != NULL && ps[least] in s
    requires forall j :: 0 <= j < |ps| && ps[j] != NULL ==>
      ps[j] in s
      && Leq(kind, f, s[ps[least]].value, s[ps[j]].value)
    requires v in SumValues(s, ps, kind, f)
    ensures Leq(kind, f, s[ps[least]].value, v)
  {
    hide EntryValues, TotalPreorder, Shape, Counted, SumValues;
    var j := InSomeEntry(s, ps, v, kind, f);
    RootIsLeast(s, ps[j], v, kind, f);
    LeqLaws(kind, f, s[ps[least]].value, s[ps[j]].value, v);
  }

  lemma {:induction false} InSomeEntry<V>(s: Store<V>, ps: seq<Ptr>, v: V, kind: HeapType, f: (V, V) -> int)
    returns (j: nat)
    requires Shape(s, kind, f) && AllLive(s, ps) && v in SumValues(s, ps, kind, f)
    ensures j < |ps| && ps[j] != NULL && ps[j] in s && v in EntryValues(s, ps[j], kind, f)
  {
    hide EntryValues, Shape;
    assert LiveOrNull(s, ps[0]);
    EntryNull(s, kind, f);
    if v in EntryValues(s, ps[0], kind, f) {
      j := 0;
    } else {
      assert forall i :: 0 <= i < |ps[1..]| ==> ps[1..][i] == ps[i + 1];
      var i := InSomeEntry(s, ps[1..], v, kind, f);
      j := i + 1;
    }
  }

  /** Setting aside one tree: its root, its subtrees and the other trees make up the heap. */
  lemma TakeTree<V>(s: Store<V>, ps: seq<Ptr>, l: nat, kind: HeapType, f: (V, V) -> int)
    requires Owned(s, Refs(ps), kind, f) && RootOrders(s, ps) && AllLive(s, ps) && Simple(SumPtrs(s, ps, kind, f))
    requires l < |ps| && ps[l] != NULL && ps[l] in s
    ensures var rest, subs := ps[l := NULL], s[ps[l]].subtrees;
      && Refs(ps) == Refs(rest) + multiset{ps[l]} && RootOrders(s, rest) && AllLive(s, rest)
      && RootOrders(s, subs) && AllLive(s, subs) && Simple(SumPtrs(s, rest, kind, f) + SumPtrs(s, subs, kind, f))
      && SumValues(s, ps, kind, f)
           == SumValues(s, rest, kind, f) + SumValues(s, subs, kind, f) + multiset{s[ps[l]].value}
      && Weight(ps) == Weight(rest) + Weight(subs) + 1
  {
    hide Shape, Counted, SumValues, SumPtrs, EntryValues, EntryPtrs, Refs, Weight;
    var p, rest := ps[l], ps[l := NULL];
    var subs := s[p].subtrees;
    RefsWithout(ps, l);
    SumWithout(s, ps, l, kind, f);
    EntryOpened(s, p, kind, f);
    WeightWithout(ps, l);
    WeightFull(subs);
    assert Entry(s, ps[l], l);
    assert RootOrders(s, rest) by {
      forall i | 0 <= i < |rest| ensures Entry(s, rest[i], i) { assert Entry(s, ps[i], i); }
    }
    var a, b := SumPtrs(s, rest, kind, f), SumPtrs(s, subs, kind, f);
    forall q ensures (a + b)[q] <= 1 {
      assert SumPtrs(s, ps, kind, f)[q] == a[q] + (multiset{p} + b)[q];
    }
  }

  lemma MergeWeights<V>(s0: Store<V>, t: Store<V>, a: seq<Ptr>, b: seq<Ptr>, i: nat, done: seq<Ptr>, carry: Ptr,
                        all: multiset<V>, kind: HeapType, f: (V, V) -> int)
    requires MergeState(s0, t, a, b, i, done, carry, all, kind, f)
    ensures |done| == i && Weight(done) + One(carry) * Pow(2, i) == Weight(Take(a, i)) + Weight(Take(b, i))
  {
  }

  /** The requests of a merge after one more column. */
  lemma AskMore(memory: Memory, a: seq<Ptr>, b: seq<Ptr>, i: nat, max: nat, done: seq<Ptr>, carry: Ptr, slot: Ptr,
                next: Ptr, first: nat, middle: nat, last: nat, ok: bool)
    requires i < max && max > |a| && max > |b| && |done| == i
    requires Weight(done) + One(carry) * Pow(2, i) == Weight(Take(a, i)) + Weight(Take(b, i))
    requires memory.Decides(first, middle, 1 + 2 * Carries(a, b, i, done, carry), true)
    requires memory.Decides(middle, last, 2 * CarryOut(One(Get(a, i)) + One(Get(b, i)) + One(carry)), ok)
    requires ok ==> One(slot) + 2 * One(next) == One(Get(a, i)) + One(Get(b, i)) + One(carry)
    ensures memory.Decides(first, last, 1 + 2 * if ok then Carries(a, b, i + 1, done + [slot], next)
                                                else CarriesOf(Weight(a), Weight(b)), ok)
  {
    hide Weight, Pow, Take, Get, Carries, CarriesOf, Memory.Decides;
    var so, more := Carries(a, b, i, done, carry), CarryOut(One(Get(a, i)) + One(Get(b, i)) + One(carry));
    if ok {
      CarriesStep(a, b, i, done, carry, slot, next);
      Continued(memory, first, middle, last, so, more, Carries(a, b, i + 1, done + [slot], next), ok);
    } else {
      CarriesBound(a, b, i, max, done, carry);
      Continued(memory, first, middle, last, so, more, CarriesOf(Weight(a), Weight(b)), ok);
    }
  }

  lemma Continued(memory: Memory, first: nat, middle: nat, last: nat, so: int, more: int, all: int, ok: bool)
    requires memory.Decides(first, middle, 1 + 2 * so, true) && memory.Decides(middle, last, 2 * more, ok)
    requires if ok then so + more == all else so + more <= all
    ensures memory.Decides(first, last, 1 + 2 * all, ok)
  {
    hide Memory.Decides;
    memory.Chained(first, middle, last, 1 + 2 * so, 2 * more, ok);
    if !ok { memory.Refused(first, last, 1 + 2 * so + 2 * more, 1 + 2 * all); }
  }

  lemma SameValue<V>(t: Store<V>, s: Store<V>, ext: multiset<Ptr>, p: Ptr, kind: HeapType, f: (V, V) -> int)
    requires Owned(t, ext, kind, f) && Refs([p]) <= ext && p != NULL && Compatible(t, s) && p in s
    ensures p in t && t[p].value == s[p].value
  {
    OneRef(p);
    assert p in ext;
    assert SameRecord(t[p], s[p]);
  }

  lemma NoRefs()
    ensures Refs([]) == multiset{}
  {
  }

  lemma CompatibleSelf<V>(s: Store<V>)
    ensures Compatible(s, s)
  {
  }

  lemma CompatibleSym<V>(t: Store<V>, s: Store<V>)
    requires Compatible(t, s)
    ensures Compatible(s, t)
  {
    forall p | p in s && p in t ensures SameRecord(s[p], t[p]) { assert SameRecord(t[p], s[p]); }
  }

  /** All old records stay while the old outside references are among those held. */
  lemma StillThere<V>(s0: Store<V>, t: Store<V>, ext: multiset<Ptr>, held: multiset<Ptr>, kind: HeapType,
                      f: (V, V) -> int)
    requires Owned(s0, ext, kind, f) && Owned(t, held, kind, f) && ext <= held && Compatible(t, s0)
    ensures Survives(s0, t)
  {
    hide Shape;
    CompatibleSym(t, s0);
    forall p | p in ext ensures p in t { assert p in held; }
    AllSurvive(s0, t, ext, kind, f);
  }

  lemma NewRecords<V>(s0: Store<V>, t: Store<V>, u: Store<V>, next: Ptr)
    requires Compatible(t, s0) && Survives(s0, t) && Survives(u - {next}, t) && next !in t
    ensures Compatible(u, s0)
  {
    forall p | p in u && p in s0 ensures SameRecord(u[p], s0[p]) {
      assert p in u - {next};
      assert SameRecord((u - {next})[p], t[p]) && SameRecord(t[p], s0[p]);
    }
  }

  lemma AtMostSum(kept: multiset<Ptr>, m: multiset<Ptr>, n: multiset<Ptr>, born: Ptr)
    requires (AtMost(m, n, born) || (m == multiset{} && n == multiset{})) && kept[born] == 0
    ensures AtMost(kept + m, kept + n, born) && AtMost(m + kept, n + kept, born)
    ensures multiset{} + m == m && multiset{} + n == n && kept + multiset{} == kept
  {
    forall p | p != born ensures (kept + m)[p] <= (kept + n)[p] && (m + kept)[p] <= (n + kept)[p] {}
  }

  lemma SumUpTo3<V>(s: Store<V>, vals: seq<Ptr>, kind: HeapType, f: (V, V) -> int)
    requires Shape(s, kind, f) && |vals| <= 3 && forall i :: 0 <= i < |vals| ==> LiveOrNull(s, vals[i])
    ensures |vals| == 0 ==> SumValues(s, vals, kind, f) == multiset{} && SumPtrs(s, vals, kind, f) == multiset{}
    ensures |vals| == 1 ==>
      && SumValues(s, vals, kind, f) == EntryValues(s, vals[0], kind, f)
      && SumPtrs(s, vals, kind, f) == EntryPtrs(s, vals[0], kind, f)
    ensures |vals| == 2 ==>
      && SumValues(s, vals, kind, f) == EntryValues(s, vals[0], kind, f) + EntryValues(s, vals[1], kind, f)
      && SumPtrs(s, vals, kind, f) == EntryPtrs(s, vals[0], kind, f) + EntryPtrs(s, vals[1], kind, f)
    ensures |vals| == 3 ==>
      && SumValues(s, vals, kind, f)
         == EntryValues(s, vals[2], kind, f) + (EntryValues(s, vals[0], kind, f) + EntryValues(s, vals[1], kind, f))
      && SumPtrs(s, vals, kind, f)
         == EntryPtrs(s, vals[2], kind, f) + (EntryPtrs(s, vals[0], kind, f) + EntryPtrs(s, vals[1], kind, f))
  {
    hide EntryValues, EntryPtrs, Shape;
    if |vals| >= 1 { assert vals == [vals[0]] + vals[1..]; SumOne(s, vals[0], kind, f); }
    if |vals| >= 2 {
      assert vals[1..] == [vals[1]] + vals[2..];
      SumOne(s, vals[1], kind, f);
      SumConcat(s, [vals[0]], vals[1..], kind, f);
    }
    if |vals| == 2 { assert vals[1..] == [vals[1]]; }
    if |vals| == 3 {
      assert vals[2..] == [vals[2]];
      SumOne(s, vals[2], kind, f);
      SumConcat(s, [vals[1]], vals[2..], kind, f);
    }
    if |vals| == 1 { assert vals == [vals[0]]; }
  }

  /** After a successful carry the entry kept at this order is untouched. */
  lemma FinishCarry<V>(s: Store<V>, t: Store<V>, ext: multiset<Ptr>, slot: Ptr, next: Ptr, kind: HeapType,
                       f: (V, V) -> int)
    requires Shape(s, kind, f) && Owned(t, ext + multiset{next}, kind, f) && next !in s && next in t && next != NULL
    requires Shape(t - {next}, kind, f) && Survives(t - {next}, s) && Refs([slot]) <= ext && LiveOrNull(s, slot)
    ensures Refs([next]) == multiset{next} && LiveOrNull(t, slot)
    ensures (slot != NULL ==> slot != next && t[slot].order == s[slot].order)
    ensures EntryValues(t, slot, kind, f) == EntryValues(s, slot, kind, f)
    ensures EntryPtrs(t, slot, kind, f) == EntryPtrs(s, slot, kind, f) && EntryPtrs(s, slot, kind, f)[next] == 0
  {
    hide EntryValues, EntryPtrs, Shape;
    OneRef(next);
    OneRef(slot);
    if slot != NULL { assert slot in ext + multiset{next}; }
    EntrySameBut(t, s, next, slot, kind, f);
    NoDeadPtr(s, slot, next, kind, f);
  }

  lemma NullNotLive<V>(s: Store<V>, kind: HeapType, f: (V, V) -> int)
    requires Shape(s, kind, f)
    ensures NULL !in s
  {
    forall p | p in s ensures p != NULL { assert ShapeAt(s, p, kind, f); }
  }

  lemma HeldLive<V>(s: Store<V>, ext: multiset<Ptr>, slot: Ptr, kind: HeapType, f: (V, V) -> int)
    requires Owned(s, ext, kind, f) && Refs([slot]) <= ext
    ensures LiveOrNull(s, slot)
  {
    OneRef(slot);
    if slot != NULL { assert slot in ext; }
  }

  lemma NotNull<V>(s: Store<V>, p: Ptr, kind: HeapType, f: (V, V) -> int)
    requires Shape(s, kind, f) && p in s
    ensures p != NULL
  {
    assert ShapeAt(s, p, kind, f);
  }

  lemma RecordLike<V>(a: Tree<V>, b: Tree<V>)
    requires a == b.(refcount := a.refcount)
    ensures SameRecord(a, b)
  {
  }

  lemma SubtreesHeld<V>(s: Store<V>, ext: multiset<Ptr>, subs: seq<Ptr>, kind: HeapType, f: (V, V) -> int)
    requires Owned(s, ext + multiset(subs), kind, f)
    ensures forall q :: q in subs ==> q in s
  {
    forall q | q in subs ensures q in s {
      assert q in multiset(subs);
      assert q in ext + multiset(subs);
    }
  }

  lemma NotHeld<V>(s: Store<V>, ext: multiset<Ptr>, p: Ptr, kind: HeapType, f: (V, V) -> int)
    requires Owned(s, ext, kind, f) && p !in s
    ensures p !in ext
  {
  }

  /** The new record occurs once in its tree: nothing below it is new. */
  lemma NextPtrs<V>(s: Store<V>, t: Store<V>, np: Ptr, a: Ptr, b: Ptr, kind: HeapType, f: (V, V) -> int)
    requires Shape(s, kind, f) && Shape(t, kind, f) && a in s && b in s && np in t && np !in s
    requires var (x, y) := Ordered(s, a, b, kind, f);
      Ptrs([Unfold(t, np, kind, f)]) + multiset{x}
        == multiset{np} + Ptrs([Unfold(s, a, kind, f)]) + Ptrs([Unfold(s, b, kind, f)])
    ensures Ptrs([Unfold(t, np, kind, f)])[np] <= 1
    ensures forall p ::
      p != np ==>
        Ptrs([Unfold(t, np, kind, f)])[p] <= (Ptrs([Unfold(s, a, kind, f)])
          + Ptrs([Unfold(s, b, kind, f)]))[p]
  {
    hide Unfold, Shape, Ptrs;
    var (x, y) := Ordered(s, a, b, kind, f);
    var n, u, v := Ptrs([Unfold(t, np, kind, f)]), Ptrs([Unfold(s, a, kind, f)]), Ptrs([Unfold(s, b, kind, f)]);
    if np in u { PtrsLive(s, a, np, kind, f); }
    if np in v { PtrsLive(s, b, np, kind, f); }
    forall p ensures n[p] <= (multiset{np} + u + v)[p] {
      assert n[p] + multiset{x}[p] == (n + multiset{x})[p];
    }
  }

  lemma MergedLive<V>(s: Store<V>, ext: multiset<Ptr>, x: Ptr, y: Ptr, kind: HeapType, f: (V, V) -> int)
    requires Owned(s, ext, kind, f) && x in s && y in s
    ensures forall q :: q in s[x].subtrees + [y] ==> q in s && q != NULL
  {
    DistinctSubtrees(s, x, kind, f);
    forall q | q in s[x].subtrees + [y] ensures q in s && q != NULL {
      assert ShapeAt(s, q, kind, f);
    }
  }

  lemma SubtreesLive<V>(s: Store<V>, ext: multiset<Ptr>, p: Ptr, kind: HeapType, f: (V, V) -> int)
    requires Owned(s, ext, kind, f) && p in s
    ensures forall j :: 0 <= j < |s[p].subtrees| ==>
      s[p].subtrees[j] in s && s[p].subtrees[j] != p && s[s[p].subtrees[j]].order == j
    ensures |s[p].subtrees| == s[p].order
  {
    assert ShapeAt(s, p, kind, f);
  }

  lemma SurvivesSelf<V>(s: Store<V>)
    ensures Survives(s, s)
  {
  }

  lemma SurvivorOrder<V>(t: Store<V>, s: Store<V>, p: Ptr)
    requires Survives(t, s) && p in t
    ensures p in s && t[p].order == s[p].order
  {
  }

  /** The trees of one column are live and of its order. */
  lemma ColumnReady<V>(s0: Store<V>, t: Store<V>, a: seq<Ptr>, b: seq<Ptr>, i: nat, done: seq<Ptr>, carry: Ptr,
                       all: multiset<V>, kind: HeapType, f: (V, V) -> int)
    requires MergeState(s0, t, a, b, i, done, carry, all, kind, f)
    requires Survives(s0, t) && RootOrders(s0, a) && RootOrders(s0, b)
    ensures AllEntries(t, ValsAt(Get(a, i), Get(b, i), carry), i) && AllLive(t, ValsAt(Get(a, i), Get(b, i), carry))
  {
    hide Shape, SumValues, SumPtrs, EntryValues, EntryPtrs, Simple, Weight;
    forall p | p in [Get(a, i), Get(b, i)] && p != NULL ensures p in t && t[p].order == i {
      assert i < |a| && p == a[i] ==> Entry(s0, a[i], i);
      assert i < |b| && p == b[i] ==> Entry(s0, b[i], i);
      assert p in s0 && s0[p].order == i;
      assert SameRecord(s0[p], t[p]);
    }
    assert Get(a, i) in [Get(a, i), Get(b, i)] && Get(b, i) in [Get(a, i), Get(b, i)];
  }

  lemma RefsWithin(ext: multiset<Ptr>, done: seq<Ptr>, slot: Ptr, next: Ptr)
    ensures Refs(done) <= ext + Refs(done) + Refs([slot]) + Refs([next])
  {
    hide Refs;
  }

  lemma HoldsEntries<V>(s: Store<V>, held: multiset<Ptr>, ps: seq<Ptr>, kind: HeapType, f: (V, V) -> int)
    requires Owned(s, held, kind, f) && Refs(ps) <= held
    ensures AllLive(s, ps)
  {
    forall i | 0 <= i < |ps| ensures LiveOrNull(s, ps[i]) {
      RefsMember(ps, ps[i]);
      if ps[i] != NULL { assert ps[i] in held; }
    }
  }

  lemma ColumnResult<V>(s0: Store<V>, t: Store<V>, u: Store<V>, a: seq<Ptr>, b: seq<Ptr>, i: nat, done: seq<Ptr>,
                        carry: Ptr,
                        slot: Ptr, next: Ptr, all: multiset<V>, kind: HeapType, f: (V, V) -> int)
    requires MergeState(s0, t, a, b, i, done, carry, all, kind, f) && Shape(u, kind, f)
    requires next !in t && Survives(u - {next}, t) && Shape(u - {next}, kind, f) && AllLive(u, done)
    requires Entry(u, slot, i) && Entry(u, next, i + 1) && AllLive(t, ValsAt(Get(a, i), Get(b, i), carry))
    requires var vals := ValsAt(Get(a, i), Get(b, i), carry);
      && One(slot) + 2 * One(next) == |vals|
      && EntryValues(u, slot, kind, f) + EntryValues(u, next, kind, f) == SumValues(t, vals, kind, f)
      && AtMost(EntryPtrs(u, slot, kind, f) + EntryPtrs(u, next, kind, f), SumPtrs(t, vals, kind, f), next)
    ensures ColumnDone(t, u, i, done, ValsAt(Get(a, i), Get(b, i), carry), slot, next, kind, f)
  {
    hide Shape, SumValues, SumPtrs, EntryValues, EntryPtrs, Simple, Weight, AtMost, ValsAt;
  }

  lemma CompatibleWith<V>(u: Store<V>, t: Store<V>, s: Store<V>)
    requires Survives(u, t) && Compatible(t, s)
    ensures Compatible(u, s)
  {
    forall p | p in u && p in s ensures SameRecord(u[p], s[p]) {
      assert SameRecord(u[p], t[p]) && SameRecord(t[p], s[p]);
    }
  }

  lemma MergeEnd<V>(s0: Store<V>, t: Store<V>, a: seq<Ptr>, b: seq<Ptr>, done: seq<Ptr>, all: multiset<V>,
                    kind: HeapType, f: (V, V) -> int)
    requires MergeState(s0, t, a, b, |done|, done, NULL, all, kind, f) && |done| > |a| && |done| > |b|
    ensures Shape(t, kind, f) && AllLive(t, done) && RootOrders(t, done)
    ensures SumValues(t, done, kind, f) == all && Simple(SumPtrs(t, done, kind, f))
    ensures Weight(done) == Weight(a) + Weight(b)
  {
    hide EntryValues, EntryPtrs, Shape;
    EntryNull(t, kind, f);
    var i := |done|;
    assert Drop(a, i) == [] && Drop(b, i) == [] && Take(a, i) == a && Take(b, i) == b;
    var v, q := SumValues(t, done, kind, f), SumPtrs(t, done, kind, f);
    assert v + multiset{} + multiset{} + multiset{} == v;
    assert q + multiset{} + multiset{} + multiset{} == q;
  }

  lemma SumSame2<V>(u: Store<V>, t: Store<V>, ps: seq<Ptr>, kind: HeapType, f: (V, V) -> int)
    requires Shape(u, kind, f) && Shape(t, kind, f) && Survives(u, t)
    requires AllLive(u, ps) && RootOrders(t, ps) && AllLive(t, ps)
    ensures SumValues(u, ps, kind, f) == SumValues(t, ps, kind, f) && SumPtrs(u, ps, kind, f) == SumPtrs(t, ps, kind, f)
    ensures RootOrders(u, ps)
  {
    SumSame(u, t, ps, kind, f);
    DoneOrders(u, t, ps);
  }

  lemma Reordered<T>(e: multiset<T>, a: multiset<T>, b: multiset<T>, c: multiset<T>)
    ensures e + a + b + c == e + c + (a + b) == e + (a + b) + c
  {
  }

  lemma TrimOrders<V>(s: Store<V>, ps: seq<Ptr>, n: nat)
    requires RootOrders(s, ps) && n <= |ps|
    ensures RootOrders(s, ps[..n])
  {
  }
}
