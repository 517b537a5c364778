/** The memory the containers ask for: which requests it refuses is settled beforehand, by their number. */
module Allocation {
  class Memory {
    const refuses: nat -> bool
    var calls: nat  // requests made so far

    constructor (refuses: nat -> bool)
      ensures this.refuses == refuses && calls == 0
    {
      this.refuses, calls := refuses, 0;
    }

    /** One request; false for NULL. */
    method Request() returns (granted: bool)
      modifies this`calls
      ensures calls == old(calls) + 1 && granted == !refuses(old(calls)) && Decides(old(calls), calls, 1, granted)
    {
      granted := !refuses(calls);
      calls := calls + 1;
    }

    /** An operation that needs a number of requests succeeds exactly when memory grants them all, and makes no others;
        it gives up at the first that is refused. */
    ghost predicate Decides(first: nat, last: nat, needed: int, ok: bool) {
      && (forall i :: first <= i < last - 1 ==> !refuses(i))
      && if ok then first <= last == first + needed && (last > first ==> !refuses(last - 1))
         else first < last <= first + needed && refuses(last - 1)
    }

    /** In other words: success means that no request needed is refused, and then all of them are made. */
    lemma DecidesExactly(first: nat, last: nat, needed: int, ok: bool)
      requires Decides(first, last, needed, ok)
      ensures ok <==> forall i :: first <= i < first + needed ==> !refuses(i)
      ensures first <= last && if ok then last == first + needed else last <= first + needed
    {
      if !ok { assert refuses(last - 1); }
    }

    lemma NoneYet(first: nat)
      ensures Decides(first, first, 0, true)
    {
    }

    /** One part of an operation after another. */
    lemma Chained(first: nat, middle: nat, last: nat, a: int, b: int, ok: bool)
      requires Decides(first, middle, a, true) && Decides(middle, last, b, ok)
      ensures Decides(first, last, a + b, ok)
    {
    }

    /** What was refused in one part is refused for the whole. */
    lemma Refused(first: nat, last: nat, a: int, b: int)
      requires Decides(first, last, a, false) && a <= b
      ensures Decides(first, last, b, false)
    {
    }
  }
}
