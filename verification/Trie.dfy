/** The trie: nodes with a use count and 256 links, one node for each prefix of a stored key. */
module Tries {

  import opened Allocation
  import opened Options

  /** A key without its terminating zero; the links are indexed by a plain char. */
  type Key = s: seq<int> | forall i :: 0 <= i < |s| ==> 1 <= s[i] < 128

  /** The character at a position, zero at the end. */
  function CharAt(key: Key, i: nat): (c: int)
    requires i <= |key|
    ensures 0 <= c < 256 && (c == 0 <==> i == |key|)
  {
    if i < |key| then key[i] else 0
  }

  // ---------- counting keys by prefix ----------

  ghost function KeysAbove<V>(m: map<seq<int>, V>, p: seq<int>): set<seq<int>> {
    set k | k in m.Keys && p <= k
  }

  /** How many keys start with the prefix. */
  ghost function Count<V>(m: map<seq<int>, V>, p: seq<int>): nat {
    |KeysAbove(m, p)|
  }

  lemma CountInserted<V>(m: map<seq<int>, V>, key: seq<int>, v: V, p: seq<int>)
    ensures Count(m[key := v], p) == Count(m, p) + if p <= key && key !in m then 1 else 0
  {
    var m' := m[key := v];
    if p <= key && key !in m {
      assert KeysAbove(m', p) == KeysAbove(m, p) + {key};
    } else {
      assert KeysAbove(m', p) == KeysAbove(m, p);
    }
  }

  lemma CountRemoved<V>(m: map<seq<int>, V>, key: seq<int>, p: seq<int>)
    requires key in m
    ensures Count(m, p) == Count(m - {key}, p) + if p <= key then 1 else 0
  {
    var m' := m - {key};
    if p <= key {
      assert KeysAbove(m, p) == KeysAbove(m', p) + {key};
    } else {
      assert KeysAbove(m, p) == KeysAbove(m', p);
    }
  }

  lemma CountPositive<V>(m: map<seq<int>, V>, p: seq<int>, k: seq<int>)
    requires k in m && p <= k
    ensures Count(m, p) > 0
  {
    assert k in KeysAbove(m, p);
  }

  lemma CountMonotone<V>(m: map<seq<int>, V>, p: seq<int>, q: seq<int>)
    requires p <= q
    ensures Count(m, q) <= Count(m, p)
  {
    var a, b := KeysAbove(m, q), KeysAbove(m, p);
    assert a <= b;
    Subset(a, b);
  }

  lemma {:induction false} Subset<T>(a: set<T>, b: set<T>)
    requires a <= b
    ensures |a| <= |b|
    decreases a
  {
    if a != {} {
      var x :| x in a;
      Subset(a - {x}, b - {x});
    }
  }

  lemma CountAll<V>(m: map<seq<int>, V>)
    ensures Count(m, []) == |m|
  {
    assert KeysAbove(m, []) == m.Keys;
  }

  /** The prefixes of `key` of length from `lo` to below `hi`: those an unfinished operation has counted once more. */
  predicate Extra(key: seq<int>, lo: nat, hi: nat, p: seq<int>) {
    p <= key && lo <= |p| < hi
  }

  // ---------- nodes ----------

  class TrieNode<V> {
    var data: Option<V>
    var useCount: int
    /** The array of links inside the node, 256 long. */
    var next: seq<TrieNode?<V>>

    constructor ()
      ensures data == None && useCount == 0 && next == seq(256, _ => null)
    {
      data, useCount, next := None, 0, seq(256, _ => null);
    }
  }

  /** A pointer to a link: NULL, the root pointer, or one of the links of a node. */
  datatype Place<V> = Nowhere | AtRoot | Below(node: TrieNode<V>, c: int)

  // ---------- what the nodes of a trie hold, by prefix ----------

  /** The root pointer and, for each prefix that has a node, that node, its links, its use count and its data. */
  datatype View<V> = View(root: TrieNode?<V>, at: map<seq<int>, TrieNode<V>>, links: map<seq<int>, seq<TrieNode?<V>>>,
                          uses: map<seq<int>, int>, data: map<seq<int>, Option<V>>)

  ghost function NodeAt<V>(w: View<V>, p: seq<int>): TrieNode?<V> {
    if p in w.at then w.at[p] else null
  }

  ghost predicate Shaped<V>(w: View<V>) {
    && w.links.Keys == w.at.Keys && w.uses.Keys == w.at.Keys && w.data.Keys == w.at.Keys
    && forall p :: p in w.at ==> |w.links[p]| == 256
  }

  ghost predicate OneEach<V>(at: map<seq<int>, TrieNode<V>>) {
    forall p, q :: p in at && q in at && at[p] == at[q] ==> p == q
  }

  lemma Alone<V>(at: map<seq<int>, TrieNode<V>>, p: seq<int>)
    requires OneEach(at) && p in at
    ensures forall q :: q in at && q != p ==> at[q] != at[p]
  {
  }

  lemma OneMore<V>(at: map<seq<int>, TrieNode<V>>, p: seq<int>, node: TrieNode<V>)
    requires OneEach(at) && forall q :: q in at ==> at[q] != node
    ensures OneEach(at[p := node])
  {
  }

  /** There are nodes for the prefixes of stored keys and for the extra prefixes, and no others. */
  ghost predicate Present<V>(w: View<V>, m: map<seq<int>, V>, key: seq<int>, lo: nat, hi: nat) {
    forall p :: p in w.at <==> Count(m, p) > 0 || Extra(key, lo, hi, p)
  }

  /** The links lead to the nodes of the prefixes one longer. */
  ghost predicate LinksRight<V>(w: View<V>)
    requires Shaped(w)
  {
    && w.root == NodeAt(w, [])
    && forall p, c :: p in w.at && 0 <= c < 256 ==> w.links[p][c] == NodeAt(w, p + [c])
  }

  ghost predicate CountsRight<V>(w: View<V>, m: map<seq<int>, V>, key: seq<int>, lo: nat, hi: nat)
    requires Shaped(w)
  {
    forall p :: p in w.at ==> w.uses[p] == Count(m, p) + if Extra(key, lo, hi, p) then 1 else 0
  }

  ghost predicate DataRight<V>(w: View<V>, m: map<seq<int>, V>)
    requires Shaped(w)
  {
    forall p :: p in w.at ==> w.data[p] == if p in m then Some(m[p]) else None
  }

  /** The state inside an operation on `key` that has linked the prefixes from lo to below hi, and counted those from
      lo to below `counted` once more than the stored keys require. */
  ghost predicate Stands<V>(w: View<V>, m: map<seq<int>, V>, key: seq<int>, lo: nat, hi: nat, counted: nat) {
    && Shaped(w) && Present(w, m, key, lo, hi) && LinksRight(w) && CountsRight(w, m, key, lo, counted)
    && DataRight(w, m)
  }

  /** Sets the link to the prefix of length i. */
  ghost function WithLink<V>(w: View<V>, key: Key, i: nat, node: TrieNode?<V>): View<V>
    requires Shaped(w) && i <= |key| && (i > 0 ==> key[..i - 1] in w.at)
  {
    if i == 0 then w.(root := node)
    else w.(links := w.links[key[..i - 1] := w.links[key[..i - 1]][key[i - 1] := node]])
  }

  ghost function WithNode<V>(w: View<V>, p: seq<int>, node: TrieNode<V>): View<V> {
    View(w.root, w.at[p := node], w.links[p := seq(256, _ => null)], w.uses[p := 0], w.data[p := None])
  }

  ghost function WithoutNode<V>(w: View<V>, p: seq<int>): View<V> {
    View(w.root, w.at - {p}, w.links - {p}, w.uses - {p}, w.data - {p})
  }

  lemma NoChildren<V>(w: View<V>, m: map<seq<int>, V>, key: seq<int>, lo: nat, hi: nat, q: seq<int>)
    requires Present(w, m, key, lo, hi) && q !in w.at && lo <= |q|
    ensures forall c :: q + [c] !in w.at
    ensures Count(m, q) == 0 && q !in m && !Extra(key, lo, hi, q)
  {
    forall c ensures q + [c] !in w.at {
      CountMonotone(m, q, q + [c]);
      assert !Extra(key, lo, hi, q);
    }
    if q in m { CountPositive(m, q, q); }
  }

  /** Of all links, only one leads to the prefix of length i. */
  lemma OnlyLink(key: seq<int>, i: nat, p: seq<int>, c: int)
    requires i <= |key| && p + [c] == key[..i]
    ensures i > 0 && p == key[..i - 1] && c == key[i - 1]
  {
    assert |p + [c]| == i;
    assert p == (p + [c])[..i - 1];
    assert c == (p + [c])[i - 1];
  }

  lemma LastLink(key: seq<int>, i: nat)
    requires 0 < i <= |key|
    ensures key[..i] == key[..i - 1] + [key[i - 1]]
  {
  }

  lemma ExtraGrows(key: seq<int>, lo: nat, hi: nat, p: seq<int>)
    requires lo <= hi <= |key|
    ensures Extra(key, lo, hi + 1, p) <==> Extra(key, lo, hi, p) || p == key[..hi]
  {
  }

  lemma ExtraShrinks(key: seq<int>, lo: nat, hi: nat, p: seq<int>)
    requires lo < hi <= |key| + 1
    ensures Extra(key, lo, hi, p) <==> Extra(key, lo + 1, hi, p) || p == key[..lo]
    ensures !Extra(key, lo + 1, hi, key[..lo])
  {
  }

  lemma LinkSet<V>(w: View<V>, key: Key, i: nat, node: TrieNode?<V>)
    requires Shaped(w) && i <= |key| && (i > 0 ==> key[..i - 1] in w.at)
    ensures var w1 := WithLink(w, key, i, node);
      && Shaped(w1) && w1.at == w.at && w1.root == (if i == 0 then node else w.root) && w1.uses == w.uses
      && w1.data == w.data
      && forall p, c :: p in w.at && 0 <= c < 256 ==>
           w1.links[p][c] == if i > 0 && p == key[..i - 1] && c == key[i - 1] then node else w.links[p][c]
  {
  }

  lemma NodeShaped<V>(w: View<V>, p: seq<int>, node: TrieNode<V>)
    requires Shaped(w)
    ensures Shaped(WithNode(w, p, node))
  {
  }

  lemma GrowLinks<V>(w: View<V>, key: Key, i: nat, node: TrieNode<V>)
    requires i <= |key| && Shaped(w) && LinksRight(w) && key[..i] !in w.at && (i > 0 ==> key[..i - 1] in w.at)
    requires forall c :: key[..i] + [c] !in w.at
    ensures var w' := WithNode(WithLink(w, key, i, node), key[..i], node); Shaped(w') && LinksRight(w')
  {
    LinkSet(w, key, i, node);
    hide WithLink, Shaped;
    var q, w1 := key[..i], WithLink(w, key, i, node);
    var w' := WithNode(w1, q, node);
    NodeShaped(w1, q, node);
    assert w'.root == NodeAt(w', []) by { assert key[..0] == []; }
    forall p, c | p in w'.at && 0 <= c < 256 ensures w'.links[p][c] == NodeAt(w', p + [c]) {
      if p != q {
        if p + [c] == q { OnlyLink(key, i, p, c); }
        assert w.links[p][c] == NodeAt(w, p + [c]);
      }
    }
  }

  lemma GrowCounts<V>(w: View<V>, m: map<seq<int>, V>, key: Key, i: nat, node: TrieNode<V>)
    requires i <= |key| && Shaped(w) && key[..i] !in w.at && (i > 0 ==> key[..i - 1] in w.at)
    requires CountsRight(w, m, key, 0, i) && DataRight(w, m)
    requires Count(m, key[..i]) == 0 && key[..i] !in m && !Extra(key, 0, i, key[..i])
    requires Shaped(WithNode(WithLink(w, key, i, node), key[..i], node))
    ensures var w' := WithNode(WithLink(w, key, i, node), key[..i], node);
      CountsRight(w', m, key, 0, i) && DataRight(w', m)
  {
    hide Count, Extra;
  }

  lemma GrowPresent<V>(w: View<V>, m: map<seq<int>, V>, key: Key, i: nat, node: TrieNode<V>)
    requires i <= |key| && Shaped(w) && (i > 0 ==> key[..i - 1] in w.at) && Present(w, m, key, 0, i)
    ensures Present(WithNode(WithLink(w, key, i, node), key[..i], node), m, key, 0, i + 1)
  {
    hide Count, Extra;
    var w' := WithNode(WithLink(w, key, i, node), key[..i], node);
    assert w'.at == w.at[key[..i] := node];
    forall p ensures p in w'.at <==> Count(m, p) > 0 || Extra(key, 0, i + 1, p) {
      ExtraGrows(key, 0, i, p);
    }
  }

  /** Linking a new node for the next prefix of the key. */
  lemma GrowStep<V>(w: View<V>, m: map<seq<int>, V>, key: Key, i: nat, node: TrieNode<V>)
    requires i <= |key| && Stands(w, m, key, 0, i, i) && key[..i] !in w.at && (i > 0 ==> key[..i - 1] in w.at)
    ensures Stands(WithNode(WithLink(w, key, i, node), key[..i], node), m, key, 0, i + 1, i)
  {
    hide Count, Extra, LinksRight, Present, CountsRight, DataRight;
    NoChildren(w, m, key, 0, i, key[..i]);
    GrowLinks(w, key, i, node);
    GrowCounts(w, m, key, i, node);
    GrowPresent(w, m, key, i, node);
  }

  /** The node of the next prefix is there already. */
  lemma PassStep<V>(w: View<V>, m: map<seq<int>, V>, key: Key, i: nat)
    requires i <= |key| && Stands(w, m, key, 0, i, i) && key[..i] in w.at
    ensures Stands(w, m, key, 0, i + 1, i)
  {
    hide Count, Extra, LinksRight;
    forall p ensures p in w.at <==> Count(m, p) > 0 || Extra(key, 0, i + 1, p) {
      ExtraGrows(key, 0, i, p);
    }
  }

  lemma LinksOnly<V>(w: View<V>, w': View<V>)
    requires Shaped(w) && LinksRight(w) && w'.root == w.root && w'.at == w.at && w'.links == w.links
    requires w'.uses.Keys == w.at.Keys && w'.data.Keys == w.at.Keys
    ensures Shaped(w') && LinksRight(w')
  {
    forall p, c | p in w'.at && 0 <= c < 256 ensures w'.links[p][c] == NodeAt(w', p + [c]) {
      assert w.links[p][c] == NodeAt(w, p + [c]);
    }
  }

  /** Counting the key at its next prefix. */
  lemma CountStep<V>(w: View<V>, m: map<seq<int>, V>, key: Key, i: nat)
    requires i <= |key| && Stands(w, m, key, 0, i + 1, i) && key[..i] in w.at
    ensures Stands(w.(uses := w.uses[key[..i] := w.uses[key[..i]] + 1]), m, key, 0, i + 1, i + 1)
  {
    hide Count, Extra, LinksRight;
    var q := key[..i];
    var w' := w.(uses := w.uses[q := w.uses[q] + 1]);
    assert w'.uses.Keys == w.at.Keys;
    LinksOnly(w, w');
    NotExtra(key, i);
    forall p | p in w'.at ensures w'.uses[p] == Count(m, p) + if Extra(key, 0, i + 1, p) then 1 else 0 {
      ExtraGrows(key, 0, i, p);
    }
  }

  lemma NotExtra(key: seq<int>, i: nat)
    requires i <= |key|
    ensures !Extra(key, 0, i, key[..i])
  {
  }

  /** Storing the value once every prefix is counted. */
  lemma StoreStep<V>(w: View<V>, m: map<seq<int>, V>, key: Key, v: V)
    requires Stands(w, m, key, 0, |key| + 1, |key| + 1) && key !in m && key in w.at
    ensures Stands(w.(data := w.data[key := Some(v)]), m[key := v], [], 0, 0, 0)
  {
    hide Count, LinksRight;
    var w', m' := w.(data := w.data[key := Some(v)]), m[key := v];
    assert w'.data.Keys == w.at.Keys;
    LinksOnly(w, w');
    forall p ensures Count(m', p) == Count(m, p) + if Extra(key, 0, |key| + 1, p) then 1 else 0 {
      CountInserted(m, key, v, p);
    }
  }

  /** Overwriting the value of a stored key. */
  lemma ReplaceStep<V>(w: View<V>, m: map<seq<int>, V>, key: Key, v: V)
    requires Stands(w, m, [], 0, 0, 0) && key in m && key in w.at
    ensures Stands(w.(data := w.data[key := Some(v)]), m[key := v], [], 0, 0, 0)
  {
    hide Count, LinksRight;
    var w', m' := w.(data := w.data[key := Some(v)]), m[key := v];
    assert w'.data.Keys == w.at.Keys;
    LinksOnly(w, w');
    forall p ensures Count(m', p) == Count(m, p) {
      CountInserted(m, key, v, p);
    }
  }

  /** Erasing the value of a stored key: its prefixes are now counted once more than they should. */
  lemma EraseStep<V>(w: View<V>, m: map<seq<int>, V>, key: Key)
    requires Stands(w, m, [], 0, 0, 0) && key in m && key in w.at
    ensures Stands(w.(data := w.data[key := None]), m - {key}, key, 0, |key| + 1, |key| + 1)
  {
    hide Count, LinksRight;
    var w', m' := w.(data := w.data[key := None]), m - {key};
    assert w'.data.Keys == w.at.Keys;
    LinksOnly(w, w');
    forall p ensures Count(m, p) == Count(m', p) + if Extra(key, 0, |key| + 1, p) then 1 else 0 {
      CountRemoved(m, key, p);
    }
  }

  /** Unlinking the node of the prefix of length lo; its parent may be gone already. */
  ghost function Dropped<V>(w: View<V>, key: Key, lo: nat): View<V>
    requires Shaped(w) && lo <= |key|
  {
    WithoutNode(if lo == 0 || key[..lo - 1] in w.at then WithLink(w, key, lo, null) else w, key[..lo])
  }

  lemma Unlinked<V>(w: View<V>, key: Key, lo: nat)
    requires lo <= |key| && Shaped(w) && LinksRight(w) && (lo == 0 || key[..lo - 1] in w.at)
    ensures var w1 := WithLink(w, key, lo, null);
      && Shaped(w1) && w1.at == w.at && w1.root == (if lo == 0 then null else w.root)
      && forall p, c :: p in w.at && 0 <= c < 256 ==>
           w1.links[p][c] == if p + [c] == key[..lo] then null else NodeAt(w, p + [c])
  {
    hide WithLink;
    LinkSet(w, key, lo, null);
    forall p, c | p in w.at && 0 <= c < 256
      ensures WithLink(w, key, lo, null).links[p][c] == if p + [c] == key[..lo] then null else NodeAt(w, p + [c])
    {
      if p + [c] == key[..lo] { OnlyLink(key, lo, p, c); }
      if lo > 0 { LastLink(key, lo); }
    }
  }

  /** A node can go once no link leads to it. */
  lemma Cut<V>(w: View<V>, w1: View<V>, q: seq<int>)
    requires Shaped(w1) && w1.at == w.at && w1.root == if q == [] then null else NodeAt(w, [])
    requires forall p, c :: p in w.at && 0 <= c < 256 && p != q ==>
      w1.links[p][c] == if p + [c] == q then null else NodeAt(w, p + [c])
    ensures Shaped(WithoutNode(w1, q)) && LinksRight(WithoutNode(w1, q))
  {
    var w' := WithoutNode(w1, q);
    NodeGone(w1, q);
    hide WithoutNode;
    forall p, c | p in w'.at && 0 <= c < 256 ensures w'.links[p][c] == NodeAt(w', p + [c]) {
      assert w1.links[p][c] == if p + [c] == q then null else NodeAt(w, p + [c]);
    }
  }

  lemma UseChanged<V>(w: View<V>, p: seq<int>, n: int)
    requires Shaped(w) && p in w.at
    ensures Shaped(w.(uses := w.uses[p := n]))
  {
    assert w.uses[p := n].Keys == w.at.Keys;
  }

  lemma DataChanged<V>(w: View<V>, p: seq<int>, d: Option<V>)
    requires Shaped(w) && p in w.at
    ensures Shaped(w.(data := w.data[p := d]))
  {
    assert w.data[p := d].Keys == w.at.Keys;
  }

  lemma NodeGone<V>(w: View<V>, q: seq<int>)
    requires Shaped(w)
    ensures var w' := WithoutNode(w, q);
      && Shaped(w') && w'.root == w.root && w'.at == w.at - {q}
      && forall p :: p in w'.at ==> w'.links[p] == w.links[p] && w'.uses[p] == w.uses[p] && w'.data[p] == w.data[p]
  {
  }

  lemma NodeAdded<V>(w: View<V>, q: seq<int>, node: TrieNode<V>)
    requires Shaped(w)
    ensures var w' := WithNode(w, q, node);
      && Shaped(w') && w'.root == w.root && w'.at == w.at[q := node]
      && w'.links[q] == seq(256, _ => null) && w'.uses[q] == 0 && w'.data[q] == None
      && forall p :: p in w.at && p != q ==>
           w'.links[p] == w.links[p] && w'.uses[p] == w.uses[p]
           && w'.data[p] == w.data[p]
  {
  }

  lemma DropLinks<V>(w: View<V>, key: Key, lo: nat)
    requires lo <= |key| && Shaped(w) && LinksRight(w)
    ensures Shaped(Dropped(w, key, lo)) && LinksRight(Dropped(w, key, lo))
  {
    hide WithLink, WithoutNode;
    var q := key[..lo];
    if lo == 0 || key[..lo - 1] in w.at {
      Unlinked(w, key, lo);
      Cut(w, WithLink(w, key, lo, null), q);
    } else {
      forall p, c | p in w.at && 0 <= c < 256 ensures p + [c] != q {
        if p + [c] == q { OnlyLink(key, lo, p, c); }
      }
      Cut(w, w, q);
    }
  }

  lemma DropRest<V>(w: View<V>, m: map<seq<int>, V>, key: Key, lo: nat, hi: nat)
    requires lo < hi <= |key| + 1 && Shaped(w) && Shaped(Dropped(w, key, lo)) && Count(m, key[..lo]) == 0
    requires Present(w, m, key, lo, hi) && CountsRight(w, m, key, lo + 1, hi) && DataRight(w, m)
    ensures var w' := Dropped(w, key, lo);
      Present(w', m, key, lo + 1, hi) && CountsRight(w', m, key, lo + 1, hi) && DataRight(w', m)
  {
    hide Count, Extra;
    var w' := Dropped(w, key, lo);
    assert w'.at == w.at - {key[..lo]};
    forall p ensures p in w'.at <==> Count(m, p) > 0 || Extra(key, lo + 1, hi, p) {
      ExtraShrinks(key, lo, hi, p);
    }
  }

  /** Taking back the count of the next prefix; its node goes when no stored key needs it. */
  lemma UncountStep<V>(w: View<V>, m: map<seq<int>, V>, key: Key, lo: nat, hi: nat)
    requires lo < hi <= |key| + 1 && Stands(w, m, key, lo, hi, hi)
    ensures key[..lo] in w.at
    ensures var n := w.uses[key[..lo]] - 1;
      var w1 := w.(uses := w.uses[key[..lo] := n]);
      && n == Count(m, key[..lo]) && Shaped(w1)
      && Stands(if n == 0 then Dropped(w1, key, lo) else w1, m, key, lo + 1, hi, hi)
  {
    hide Count, Extra, LinksRight;
    var q := key[..lo];
    ExtraShrinks(key, lo, hi, q);
    assert Extra(key, lo, hi, q);
    var n := w.uses[q] - 1;
    var w1 := w.(uses := w.uses[q := n]);
    assert w1.uses.Keys == w.at.Keys;
    LinksOnly(w, w1);
    forall p | p in w1.at ensures w1.uses[p] == Count(m, p) + if Extra(key, lo + 1, hi, p) then 1 else 0 {
      ExtraShrinks(key, lo, hi, p);
    }
    if n == 0 {
      DropLinks(w1, key, lo);
      DropRest(w1, m, key, lo, hi);
    } else {
      forall p ensures p in w1.at <==> Count(m, p) > 0 || Extra(key, lo + 1, hi, p) {
        ExtraShrinks(key, lo, hi, p);
      }
    }
  }

  /** Below a prefix whose node is gone, no stored key needs a node. */
  lemma GoneBelow<V>(w: View<V>, m: map<seq<int>, V>, key: Key, lo: nat, hi: nat)
    requires 0 < lo <= |key| && Present(w, m, key, lo, hi) && key[..lo - 1] !in w.at
    ensures Count(m, key[..lo]) == 0
  {
    CountMonotone(m, key[..lo - 1], key[..lo]);
  }

  /** Between operations a prefix has a node exactly when a stored key starts with it, and the use count of the node is
      the number of those keys. */
  lemma NodesArePrefixes<V>(w: View<V>, m: map<seq<int>, V>, p: seq<int>)
    requires Stands(w, m, [], 0, 0, 0)
    ensures p in w.at <==> exists k :: k in m && p <= k
    ensures p in w.at ==> w.uses[p] == |set k | k in m && p <= k|
  {
    if k :| k in m && p <= k { CountPositive(m, p, k); }
    if p in w.at {
      assert KeysAbove(m, p) != {};
      var k :| k in KeysAbove(m, p);
      assert KeysAbove(m, p) == set k | k in m && p <= k;
    }
  }

  /** Removing a key that was just inserted restores every node. */
  lemma RemoveUndoesInsert<V>(w: View<V>, w1: View<V>, w2: View<V>, m: map<seq<int>, V>, key: Key, v: V)
    requires key !in m && Stands(w, m, [], 0, 0, 0) && Stands(w2, m[key := v] - {key}, [], 0, 0, 0)
    requires Keeps(w, w1) && Keeps(w2, w1)
    ensures w2 == w && m[key := v] - {key} == m
  {
    hide LinksRight, CountsRight, DataRight, Count;
    assert m[key := v] - {key} == m;
    KeepsAll(w, w1, w2);
    SameView(w, w2, m);
  }

  lemma RootLink<V>(w: View<V>)
    requires Shaped(w) && LinksRight(w)
    ensures w.root == NodeAt(w, [])
  {
  }

  lemma Follow<V>(w: View<V>, key: Key, i: nat)
    requires Shaped(w) && LinksRight(w) && i < |key| && key[..i] in w.at
    ensures w.links[key[..i]][key[i]] == NodeAt(w, key[..i + 1])
  {
    assert key[..i + 1] == key[..i] + [key[i]];
  }

  /** Without a node for a prefix of the key there is no node for the key, and the key is not stored. */
  lemma Absent<V>(w: View<V>, m: map<seq<int>, V>, p: seq<int>, key: seq<int>)
    requires Present(w, m, [], 0, 0) && p !in w.at && p <= key
    ensures key !in w.at && key !in m
  {
    CountMonotone(m, p, key);
    if key in m { CountPositive(m, p, key); }
  }

  lemma StandsShaped<V>(w: View<V>, m: map<seq<int>, V>, key: seq<int>, lo: nat, hi: nat, counted: nat)
    requires Stands(w, m, key, lo, hi, counted)
    ensures Shaped(w) && LinksRight(w)
  {
  }

  /** The nodes of the first are nodes of the second, for the same prefixes. */
  ghost predicate Keeps<V>(w: View<V>, w': View<V>) {
    forall p :: p in w.at ==> p in w'.at && w'.at[p] == w.at[p]
  }

  lemma KeepsAll<V>(w: View<V>, w1: View<V>, w2: View<V>)
    requires Keeps(w, w1)
    ensures Keeps(w, w) && (Keeps(w1, w2) ==> Keeps(w, w2))
    ensures Keeps(w2, w1) ==> forall p :: p in w.at && p in w2.at ==> w2.at[p] == w.at[p]
  {
  }

  lemma KeepsAt<V>(w: View<V>, w': View<V>)
    requires w.at == w'.at || exists q :: w.at == w'.at - {q}
    ensures Keeps(w, w')
  {
  }

  /** The nodes of the prefixes determine everything else. */
  lemma SameView<V>(w: View<V>, w': View<V>, m: map<seq<int>, V>)
    requires Stands(w, m, [], 0, 0, 0) && Stands(w', m, [], 0, 0, 0)
    requires forall p :: p in w.at && p in w'.at ==> w'.at[p] == w.at[p]
    ensures w' == w
  {
    hide Count, Extra;
    assert w'.at == w.at;
    forall p | p in w.at ensures w'.links[p] == w.links[p] {
      forall c | 0 <= c < 256 ensures w'.links[p][c] == w.links[p][c] {
        assert w'.links[p][c] == NodeAt(w', p + [c]) && w.links[p][c] == NodeAt(w, p + [c]);
      }
    }
    assert w'.links == w.links && w'.uses == w.uses && w'.data == w.data;
  }

  lemma AsKey<V>(w: View<V>, m: map<seq<int>, V>, key: Key)
    requires Stands(w, m, [], 0, 0, 0)
    ensures Stands(w, m, key, 0, 0, 0)
  {
    hide Count, LinksRight;
  }

  lemma StandsNode<V>(w: View<V>, m: map<seq<int>, V>, key: Key, lo: nat, hi: nat)
    requires lo < hi <= |key| + 1 && Stands(w, m, key, lo, hi, hi)
    ensures key[..lo] in w.at && NodeAt(w, key[..lo]) != null
  {
    hide Count, LinksRight, CountsRight, DataRight, Extra;
    SelfExtra(key, lo, hi);
  }

  lemma UntilEnd<V>(w: View<V>, m: map<seq<int>, V>, key: Key, lo: nat, hi: nat)
    requires lo <= hi <= |key| && Stands(w, m, key, lo, hi, hi) && key[..lo] !in w.at
    ensures Stands(w, m, [], 0, 0, 0)
  {
    hide Count, LinksRight, CountsRight, DataRight, Extra;
    SelfExtra(key, lo, hi);
    NoneExtra(w, m, key, hi);
  }

  lemma SelfExtra(key: seq<int>, lo: nat, hi: nat)
    requires lo <= |key|
    ensures Extra(key, lo, hi, key[..lo]) <==> lo < hi
  {
  }

  lemma NoneExtra<V>(w: View<V>, m: map<seq<int>, V>, key: Key, hi: nat)
    requires Stands(w, m, key, hi, hi, hi)
    ensures Stands(w, m, [], 0, 0, 0)
  {
    hide Count, LinksRight;
  }

  // ---------- the requests of an insertion ----------

  /** The number of prefixes of a key, from a length on, that no stored key has: an insertion makes a node for each. */
  ghost function NewPrefixes<V>(m: map<seq<int>, V>, key: seq<int>, lo: nat): nat {
    |NewLengths(m, key, lo)|
  }

  ghost function NewLengths<V>(m: map<seq<int>, V>, key: seq<int>, lo: nat): set<nat> {
    set j: nat | lo <= j <= |key| && forall k :: k in m ==> !(key[..j] <= k)
  }

  lemma NextLength<V>(m: map<seq<int>, V>, key: seq<int>, i: nat)
    requires i <= |key|
    ensures NewPrefixes(m, key, i)
      == NewPrefixes(m, key, i + 1) + if exists k :: k in m && key[..i] <= k then 0 else 1
  {
    assert NewLengths(m, key, i) - {i} == NewLengths(m, key, i + 1);
  }

  /** On the way down the next node is missing exactly when no stored key has its prefix. */
  lemma NodeMissing<V>(w: View<V>, m: map<seq<int>, V>, key: Key, i: nat)
    requires i <= |key| && Stands(w, m, key, 0, i, i)
    ensures NewPrefixes(m, key, i) == NewPrefixes(m, key, i + 1) + if key[..i] in w.at then 0 else 1
  {
    hide LinksRight, CountsRight, DataRight, NewPrefixes;
    var p := key[..i];
    NextLength(m, key, i);
    if k :| k in m && p <= k { CountPositive(m, p, k); }
    if p in w.at {
      assert Count(m, p) > 0;
      assert KeysAbove(m, p) != {};
      var k :| k in KeysAbove(m, p);
      assert k in m && p <= k;
    }
  }

  lemma NoneLeft<V>(m: map<seq<int>, V>, key: seq<int>)
    ensures NewPrefixes(m, key, |key| + 1) == 0
  {
    assert NewLengths(m, key, |key| + 1) == {};
  }

  lemma NextRequest<V>(memory: Memory, w: View<V>, m: map<seq<int>, V>, key: Key, i: nat, first: nat, middle: nat,
                       last: nat, ok: bool)
    requires i <= |key| && Stands(w, m, key, 0, i, i)
    requires memory.Decides(first, middle, NewPrefixes(m, key, 0) - NewPrefixes(m, key, i), true)
    requires memory.Decides(middle, last, if key[..i] in w.at then 0 else 1, ok)
    ensures memory.Decides(first, last, NewPrefixes(m, key, 0) - if ok then NewPrefixes(m, key, i + 1) else 0, ok)
  {
    hide *;
    NodeMissing(w, m, key, i);
    var so, more := NewPrefixes(m, key, 0) - NewPrefixes(m, key, i), if key[..i] in w.at then 0 else 1;
    memory.Chained(first, middle, last, so, more, ok);
    if !ok { memory.Refused(first, last, so + more, NewPrefixes(m, key, 0)); }
  }

  // ---------- the trie ----------

  class Trie<V> {
    var root: TrieNode?<V>
    /** What the nodes hold. */
    ghost var view: View<V>
    /** The map the trie stands for. */
    ghost var contents: map<seq<int>, V>
    ghost var repr: set<TrieNode<V>>

    /** The view is what the fields hold, and each prefix has its own node. */
    ghost predicate Agrees()
      reads this, repr
    {
      && root == view.root && Shaped(view) && OneEach(view.at)
      && forall p :: p in view.at ==> Holds(view, p, view.at[p])
    }

    ghost predicate Holds(w: View<V>, p: seq<int>, node: TrieNode<V>)
      requires Shaped(w) && p in w.at
      reads this, repr
    {
      && node in repr && node.next == w.links[p] && node.useCount == w.uses[p] && node.data == w.data[p]
    }

    ghost predicate Valid()
      reads this, repr
    {
      Agrees() && Stands(view, contents, [], 0, 0, 0)
    }

    constructor ()
      ensures Valid() && contents == map[] && fresh(repr)
    {
      root := null;
      view, contents, repr := View(null, map[], map[], map[], map[]), map[], {};
    }

    method SetUse(node: TrieNode<V>, n: int, ghost p: seq<int>)
      requires Agrees() && p in view.at && node == view.at[p]
      modifies node`useCount, this`view
      ensures Agrees() && view == old(view).(uses := old(view.uses)[p := n])
    {
      hide OneEach, Shaped;
      Alone(view.at, p);
      ghost var w := view;
      UseChanged(w, p, n);
      node.useCount := n;
      view := w.(uses := w.uses[p := n]);
      forall q | q in view.at ensures Holds(view, q, view.at[q]) { }
    }

    method SetData(node: TrieNode<V>, data: Option<V>, ghost p: seq<int>)
      requires Agrees() && p in view.at && node == view.at[p]
      modifies node`data, this`view
      ensures Agrees() && view == old(view).(data := old(view.data)[p := data])
    {
      hide OneEach, Shaped;
      Alone(view.at, p);
      ghost var w := view;
      DataChanged(w, p, data);
      node.data := data;
      view := w.(data := w.data[p := data]);
      forall q | q in view.at ensures Holds(view, q, view.at[q]) { }
    }

    ghost method StandFor(m: map<seq<int>, V>)
      requires Agrees()
      modifies this`contents
      ensures Agrees() && contents == m
    {
      contents := m;
    }

    /** The place is where the node of the prefix of length i is linked. */
    ghost predicate IsPlace(place: Place<V>, key: Key, i: nat)
      requires i <= |key|
      reads this
    {
      if i == 0 then place == AtRoot
      else key[..i - 1] in view.at && place == Below(view.at[key[..i - 1]], key[i - 1])
    }

    method Store(place: Place<V>, node: TrieNode?<V>, ghost key: Key, ghost i: nat)
      requires Agrees() && i <= |key| && IsPlace(place, key, i)
      modifies this`root, this`view, if place.Below? then {place.node} else {}
      ensures Agrees() && view == WithLink(old(view), key, i, node)
    {
      hide OneEach;
      if i > 0 { Alone(view.at, key[..i - 1]); }
      match place {
        case AtRoot => root := node;
        case Below(parent, c) => parent.next := parent.next[c := node];
      }
      view := WithLink(view, key, i, node);
    }

    method Load(place: Place<V>, ghost key: Key, ghost i: nat) returns (node: TrieNode?<V>)
      requires Agrees() && LinksRight(view) && i <= |key| && IsPlace(place, key, i)
      ensures node == NodeAt(view, key[..i])
    {
      match place {
        case AtRoot => node := root;
        case Below(parent, c) =>
          assert key[..i] == key[..i - 1] + [c];
          assert view.links[key[..i - 1]][c] == NodeAt(view, key[..i - 1] + [c]);
          node := parent.next[c];
      }
    }

    /** Follows the key; NULL if the trie ends before it. */
    method FindEnd(key: Key) returns (node: TrieNode?<V>)
      requires Valid()
      ensures node == NodeAt(view, key)
      ensures node != null ==> node in repr && node.data == if key in contents then Some(contents[key]) else None
      ensures node == null ==> key !in contents
    {
      hide LinksRight, CountsRight, Present, Count, Extra;
      assert key[..0] == [] && key[..|key|] == key;
      node := root;
      RootLink(view);
      var i := 0;
      while i < |key|
        invariant 0 <= i <= |key| && node == NodeAt(view, key[..i])
      {
        if node == null {
          Absent(view, contents, key[..i], key);
          return;
        }
        Follow(view, key, i);
        node := node.next[key[i]];
        i := i + 1;
      }
      if node == null { Absent(view, contents, key, key); }
    }

    /** The value stored for a key. */
    method Lookup(key: Key) returns (result: Option<V>)
      requires Valid()
      ensures result == if key in contents then Some(contents[key]) else None
    {
      var node := FindEnd(key);
      if node != null {
        result := node.data;
      } else {
        result := None;
      }
    }

    method NumEntries() returns (n: int)
      requires Valid()
      ensures n == |contents|
    {
      CountAll(contents);
      if root == null {
        n := 0;
      } else {
        n := root.useCount;
      }
    }

    ghost method Adopt(node: TrieNode<V>, p: seq<int>)
      requires Agrees() && p !in view.at && node !in repr
      requires node.next == seq(256, _ => null) && node.useCount == 0 && node.data == None
      modifies this`view, this`repr
      ensures Agrees() && view == WithNode(old(view), p, node) && repr == old(repr) + {node}
    {
      hide OneEach, WithNode;
      OneMore(view.at, p, node);
      NodeAdded(view, p, node);
      view := WithNode(view, p, node);
      repr := repr + {node};
    }

    /** Allocates and links the node of the next prefix, not counted yet. */
    method Grow(place: Place<V>, ghost key: Key, ghost i: nat) returns (node: TrieNode<V>)
      requires i <= |key| && Agrees() && Stands(view, contents, key, 0, i, i)
      requires IsPlace(place, key, i) && key[..i] !in view.at
      modifies this`root, this`view, this`repr, if place.Below? then {place.node} else {}
      ensures Agrees() && Stands(view, contents, key, 0, i + 1, i) && fresh(repr - old(repr)) && old(repr) <= repr
      ensures view.at == old(view.at)[key[..i] := node]
    {
      hide LinksRight, Stands, Shaped, Agrees;
      StandsShaped(view, contents, key, 0, i, i);
      InHeap([]);
      node := new TrieNode();
      GrowStep(view, contents, key, i, node);
      Store(place, node, key, i);
      Adopt(node, key[..i]);
    }

    /** The place is where the prefix of length i is linked, or NULL when the node with that link is gone. */
    ghost predicate IsPlaceOrGone(place: Place<V>, key: Key, i: nat)
      requires i <= |key| + 1
      reads this
    {
      if i > 0 && key[..i - 1] !in view.at then place == Nowhere
      else if i == |key| + 1 then true else IsPlace(place, key, i)
    }

    lemma InHeap(p: seq<int>)
      requires Agrees()
      ensures root == view.root
      ensures p in view.at ==> var n := view.at[p];
        n in repr && |n.next| == 256 && n.next == view.links[p] && n.useCount == view.uses[p]
    {
    }

    ghost method Forget(q: seq<int>)
      requires Agrees()
      modifies this`view
      ensures Agrees() && view == WithoutNode(old(view), q)
    {
      view := WithoutNode(view, q);
    }

    /** Unlinks a node nobody needs, unless the node that links it is gone already. */
    method Free(place: Place<V>, ghost key: Key, ghost lo: nat)
      requires lo <= |key| && Agrees() && IsPlaceOrGone(place, key, lo)
      modifies this`root, this`view, if place.Below? then {place.node} else {}
      ensures Agrees() && view == Dropped(old(view), key, lo) && view.at == old(view.at) - {key[..lo]}
    {
      hide WithLink, WithoutNode, Agrees;
      InHeap([]);
      Linkable(key, lo);
      if place != Nowhere {
        Store(place, null, key, lo);
      }
      Forget(key[..lo]);
    }

    lemma Linkable(key: Key, lo: nat)
      requires Agrees() && lo <= |key|
      ensures Shaped(view) && Dropped(view, key, lo).at == view.at - {key[..lo]}
    {
    }

    /** Takes back one count, and frees the node when that was the last. */
    method Release(node: TrieNode<V>, place: Place<V>, ghost key: Key, ghost lo: nat, ghost hi: nat)
      returns (freed: bool)
      requires lo < hi <= |key| + 1 && lo <= |key| && Agrees() && Stands(view, contents, key, lo, hi, hi)
      requires NodeAt(view, key[..lo]) == node && IsPlaceOrGone(place, key, lo)
      modifies this`root, this`view, repr
      ensures Agrees() && Stands(view, contents, key, lo + 1, hi, hi) && repr == old(repr) && contents == old(contents)
      ensures view.at == if freed then old(view.at) - {key[..lo]} else old(view.at)
      ensures Keeps(view, old(view))
      ensures key[..lo] in old(view.at) && (lo > 0 && key[..lo - 1] !in old(view.at) ==> freed)
    {
      hide LinksRight, CountsRight, DataRight, Present, Count, Extra, Agrees, WithLink, Shaped;
      ghost var q := key[..lo];
      UncountStep(view, contents, key, lo, hi);
      if lo > 0 && key[..lo - 1] !in view.at { GoneBelow(view, contents, key, lo, hi); }
      InHeap(q);
      if lo > 0 { InHeap(key[..lo - 1]); }
      Linkable(key, lo);
      SetUse(node, node.useCount - 1, q);
      InHeap(q);
      freed := node.useCount == 0;
      if freed {
        Free(place, key, lo);
      }
    }

    /** Undoes an insertion that could not get the node of the prefix of length hi. */
    method Rollback(key: Key, ghost hi: nat)
      requires Agrees() && hi <= |key| && Stands(view, contents, key, 0, hi, hi) && key[..hi] !in view.at
      modifies this`root, this`view, repr
      ensures Valid() && repr == old(repr) && contents == old(contents)
      ensures Keeps(view, old(view))
    {
      hide LinksRight, Stands, Shaped, Agrees, Keeps;
      KeepsAt(view, view);
      StandsShaped(view, contents, key, 0, hi, hi);
      var node, place := root, AtRoot;
      InHeap([]);
      RootLink(view);
      assert key[..0] == [];
      var i := 0;
      while node != null
        invariant 0 <= i <= hi && Agrees() && Stands(view, contents, key, i, hi, hi) && key[..hi] !in view.at
        invariant repr == old(repr) && contents == old(contents)
        invariant node == NodeAt(view, key[..i]) && IsPlaceOrGone(place, key, i)
        invariant Keeps(view, old(view))
        decreases hi - i
      {
        StandsShaped(view, contents, key, i, hi, hi);
        Follow(view, key, i);
        InHeap(key[..i]);
        var nextPlace := Below(node, key[i]);
        var nextNode := node.next[key[i]];
        ghost var w := view;
        var freed := Release(node, place, key, i, hi);
        KeepsAll(view, w, old(view));
        if freed {
          nextPlace := Nowhere;
        }
        node, place, i := nextNode, nextPlace, i + 1;
      }
      UntilEnd(view, contents, key, i, hi);
    }

    /** The node of the next prefix, allocated if need be; NULL, with nothing changed, when memory refuses it. */
    method Reach(place: Place<V>, memory: Memory, ghost key: Key, ghost i: nat) returns (node: TrieNode?<V>)
      requires i <= |key| && Agrees() && Stands(view, contents, key, 0, i, i) && IsPlace(place, key, i)
      modifies this`root, this`view, this`repr, repr, memory`calls
      ensures memory.Decides(old(memory.calls), memory.calls, if key[..i] in old(view).at then 0 else 1, node != null)
      ensures Agrees() && fresh(repr - old(repr)) && old(repr) <= repr && contents == old(contents)
      ensures node == null ==> view == old(view) && repr == old(repr) && key[..i] !in view.at
      ensures node != null ==> Stands(view, contents, key, 0, i + 1, i) && NodeAt(view, key[..i]) == node
      ensures Keeps(old(view), view)
    {
      hide LinksRight, Stands, Shaped, Agrees;
      InHeap([]);
      StandsShaped(view, contents, key, 0, i, i);
      node := Load(place, key, i);
      if i > 0 { InHeap(key[..i - 1]); }
      if node == null {
        var granted := memory.Request();
        if !granted {
          return null;
        }
        node := Grow(place, key, i);
      } else {
        PassStep(view, contents, key, i);
      }
    }

    /** One step of an insertion: the node of the next prefix is counted once more. */
    method Enter(place: Place<V>, memory: Memory, ghost key: Key, ghost i: nat) returns (node: TrieNode?<V>)
      requires i <= |key| && Agrees() && Stands(view, contents, key, 0, i, i) && IsPlace(place, key, i)
      modifies this`root, this`view, this`repr, repr, memory`calls
      ensures memory.Decides(old(memory.calls), memory.calls, if key[..i] in old(view).at then 0 else 1, node != null)
      ensures Agrees() && fresh(repr - old(repr)) && old(repr) <= repr && contents == old(contents)
      ensures node == null ==> view == old(view) && repr == old(repr) && key[..i] !in view.at
      ensures node != null ==> Stands(view, contents, key, 0, i + 1, i + 1) && NodeAt(view, key[..i]) == node
      ensures Keeps(old(view), view)
    {
      hide LinksRight, Stands, Shaped, Agrees, Memory.Decides;
      InHeap([]);
      node := Reach(place, memory, key, i);
      if node != null {
        StandsShaped(view, contents, key, 0, i + 1, i);
        CountStep(view, contents, key, i);
        InHeap(key[..i]);
        SetUse(node, node.useCount + 1, key[..i]);
      }
    }

    /** Counts a new key at each of its prefixes; returns the node of the whole key, or NULL when memory refused
        a node and everything was undone. */
    method Walk(key: Key, memory: Memory) returns (node: TrieNode?<V>)
      requires Valid() && key !in contents
      modifies this`root, this`view, this`repr, repr, memory`calls
      ensures memory.Decides(old(memory.calls), memory.calls, NewPrefixes(contents, key, 0), node != null)
      ensures Agrees() && fresh(repr - old(repr)) && contents == old(contents)
      ensures node == null ==> Valid() && view == old(view)
      ensures Keeps(old(view), view)
      ensures node != null ==> Stands(view, contents, key, 0, |key| + 1, |key| + 1) && NodeAt(view, key) == node
    {
      hide LinksRight, Stands, Shaped, Agrees, NewPrefixes, Memory.Decides;
      var place, i := AtRoot, 0;
      memory.NoneYet(memory.calls);
      AsKey(view, contents, key);
      InHeap([]);
      assert key[..|key|] == key;
      while true
        invariant 0 <= i <= |key| && Agrees() && Stands(view, contents, key, 0, i, i) && IsPlace(place, key, i)
        invariant fresh(repr - old(repr)) && old(repr) <= repr && contents == old(contents)
        invariant Keeps(old(view), view)
        invariant memory.Decides(old(memory.calls), memory.calls,
                                 NewPrefixes(contents, key, 0) - NewPrefixes(contents, key, i), true)
        decreases |key| - i
      {
        ghost var w, asked := view, memory.calls;
        node := Enter(place, memory, key, i);
        NextRequest(memory, w, contents, key, i, old(memory.calls), asked, memory.calls, node != null);
        if node == null {
          w := view;
          Rollback(key, i);
          KeepsAll(old(view), w, view);
          SameView(old(view), view, contents);
          return;
        }
        var c := CharAt(key, i);
        if c == 0 {
          NoneLeft(contents, key);
          return;
        }
        place, i := Below(node, c), i + 1;
      }
    }

    /** Inserts a key that is not stored yet. */
    method InsertNew(key: Key, value: V, memory: Memory) returns (ok: bool)
      requires Valid() && key !in contents
      modifies this, repr, memory`calls
      ensures memory.Decides(old(memory.calls), memory.calls, NewPrefixes(old(contents), key, 0), ok)
      ensures Valid() && fresh(repr - old(repr))
      ensures contents == if ok then old(contents)[key := value] else old(contents)
      ensures Keeps(old(view), view) && (!ok ==> view == old(view))
    {
      hide LinksRight, Stands, Shaped, Agrees, NewPrefixes, Memory.Decides;
      var node := Walk(key, memory);
      ok := node != null;
      if ok {
        StandsShaped(view, contents, key, 0, |key| + 1, |key| + 1);
        StoreStep(view, contents, key, value);
        InHeap(key);
        Put(node, key, value);
      }
    }

    /** Overwrites the value of a stored key. */
    method Overwrite(node: TrieNode<V>, ghost key: Key, value: V)
      requires Valid() && key in contents && NodeAt(view, key) == node
      modifies this, repr
      ensures Valid() && repr == old(repr) && contents == old(contents)[key := value] && Keeps(old(view), view)
    {
      hide LinksRight, Stands, Shaped, Agrees;
      StandsShaped(view, contents, [], 0, 0, 0);
      InHeap(key);
      ReplaceStep(view, contents, key, value);
      Put(node, key, value);
    }

    /** Inserts a key or overwrites its value. NULL values are refused; when memory refuses one of the nodes that a new
        key needs, everything is as it was before. */
    method Insert(key: Key, value: Option<V>, memory: Memory) returns (ok: bool)
      requires Valid()
      modifies this, repr, memory`calls
      ensures value.None? ==> !ok && memory.calls == old(memory.calls)
      ensures value.Some? ==>
        memory.Decides(old(memory.calls), memory.calls,
                       if key in old(contents) then 0 else NewPrefixes(old(contents), key, 0), ok)
      ensures Valid() && fresh(repr - old(repr))
      ensures ok ==> value.Some? && contents == old(contents)[key := value.value]
      ensures !ok ==> contents == old(contents) && view == old(view)
      ensures Keeps(old(view), view)
    {
      hide *;
      memory.NoneYet(memory.calls);
      KeepsAt(view, view);
      if value == None {
        return false;
      }
      var node := FindEnd(key);
      if node != null && node.data != None {
        Overwrite(node, key, value.value);
        return true;
      }
      ok := InsertNew(key, value.value, memory);
    }

    /** Stores the value at the node of its key. */
    method Put(node: TrieNode<V>, ghost key: Key, value: V)
      requires Agrees() && NodeAt(view, key) == node
      requires Stands(view.(data := view.data[key := Some(value)]), contents[key := value], [], 0, 0, 0)
      modifies this`view, this`contents, node`data
      ensures Valid() && repr == old(repr) && contents == old(contents)[key := value] && view.at == old(view.at)
    {
      hide LinksRight, Stands, Shaped, Agrees;
      SetData(node, Some(value), key);
      StandFor(contents[key := value]);
    }

    /** One step of the second pass of a removal: takes back the count of the prefix of length i. */
    method UnwalkStep(node: TrieNode<V>, place: Place<V>, key: Key, i: nat)
      returns (next: TrieNode?<V>, nextPlace: Place<V>)
      requires i <= |key| && Agrees() && Stands(view, contents, key, i, |key| + 1, |key| + 1)
      requires NodeAt(view, key[..i]) == node && IsPlaceOrGone(place, key, i)
      modifies this`root, this`view, repr
      ensures Agrees() && Stands(view, contents, key, i + 1, |key| + 1, |key| + 1)
      ensures repr == old(repr) && contents == old(contents) && Keeps(view, old(view))
      ensures i < |key| ==> NodeAt(view, key[..i + 1]) == next && IsPlaceOrGone(nextPlace, key, i + 1)
    {
      hide LinksRight, Stands, Shaped, Agrees, Keeps;
      StandsShaped(view, contents, key, i, |key| + 1, |key| + 1);
      InHeap(key[..i]);
      var c := CharAt(key, i);
      next := node.next[c];
      if i < |key| { Follow(view, key, i); }
      var freed := Release(node, place, key, i, |key| + 1);
      nextPlace := place;
      if freed {
        nextPlace := Nowhere;
      }
      if nextPlace != Nowhere {
        nextPlace := Below(node, c);
      }
    }

    lemma StartPlace(key: Key)
      requires Agrees() && LinksRight(view)
      ensures NodeAt(view, key[..0]) == root && IsPlaceOrGone(AtRoot, key, 0)
    {
      assert key[..0] == [];
    }

    /** Takes the counts of an erased key back, from the root on. */
    method Unwalk(key: Key)
      requires Agrees() && Stands(view, contents, key, 0, |key| + 1, |key| + 1)
      modifies this`root, this`view, repr
      ensures Valid() && repr == old(repr) && contents == old(contents) && Keeps(view, old(view))
    {
      KeepsAt(view, view);
      StartPlace(key);
      hide *;
      var node, place, i := root, AtRoot, 0;
      while i <= |key|
        invariant 0 <= i <= |key| + 1 && Agrees() && Stands(view, contents, key, i, |key| + 1, |key| + 1)
        invariant i <= |key| ==> NodeAt(view, key[..i]) == node && IsPlaceOrGone(place, key, i)
        invariant repr == old(repr) && contents == old(contents) && Keeps(view, old(view))
      {
        ghost var w := view;
        StandsNode(view, contents, key, i, |key| + 1);
        node, place := UnwalkStep(node, place, key, i);
        KeepsAll(view, w, old(view));
        i := i + 1;
      }
      NoneExtra(view, contents, key, |key| + 1);
      Whole();
    }

    lemma Whole()
      requires Agrees() && Stands(view, contents, [], 0, 0, 0)
      ensures Valid()
    {
    }

    /** Removes a key, with every node that no other key needs. */
    method Remove(key: Key) returns (ok: bool)
      requires Valid()
      modifies this, repr
      ensures Valid() && repr == old(repr)
      ensures ok <==> key in old(contents)
      ensures contents == old(contents) - {key} && Keeps(view, old(view)) && (!ok ==> view == old(view))
    {
      hide LinksRight, Stands, Shaped, Agrees;
      InHeap([]);
      var node := FindEnd(key);
      if node == null || node.data == None {
        return false;
      }
      StandsShaped(view, contents, [], 0, 0, 0);
      EraseStep(view, contents, key);
      SetData(node, None, key);
      StandFor(contents - {key});
      Unwalk(key);
      return true;
    }

    /** Inserting a key that is not stored and removing it again leaves every node, link and count as it was, whether
        or not the insertion succeeds. */
    method InsertThenRemove(key: Key, value: V, memory: Memory) returns (inserted: bool)
      requires Valid() && key !in contents
      modifies this, repr, memory`calls
      ensures memory.Decides(old(memory.calls), memory.calls, NewPrefixes(old(contents), key, 0), inserted)
      ensures Valid() && view == old(view) && contents == old(contents)
    {
      hide LinksRight, Stands, Shaped, Agrees, Keeps, NewPrefixes, Memory.Decides;
      ghost var w, m := view, contents;
      inserted := Insert(key, Some(value), memory);
      if inserted {
        ghost var w1 := view;
        var removed := Remove(key);
        RemoveUndoesInsert(w, w1, view, m, key, value);
      }
    }
  }
}
