/** Bags of sequence elements. */
module Sequences {
  /** Leaving out one position takes one occurrence of its element out of the bag. */
  lemma DropBag<T>(s: seq<T>, i: nat)
    requires i < |s|
    ensures multiset(s) == multiset(s[..i] + s[i + 1..]) + multiset{s[i]}
  {
    assert s == s[..i] + [s[i]] + s[i + 1..];
  }
}
