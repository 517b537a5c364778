/** The AVL tree: nodes with child and parent pointers and stored heights, relinked in place. */
module AvlTrees {
  import opened AvlShapes
  import opened Options
  import opened Orders
  import opened Allocation
  import opened Sequences

  class AvlNode<K, V> {
    const key: K
    const value: V
    var left: AvlNode?<K, V>
    var right: AvlNode?<K, V>
    var parent: AvlNode?<K, V>
    var height: int

    constructor (key: K, value: V, parent: AvlNode?<K, V>)
      ensures this.key == key && this.value == value && this.parent == parent
      ensures left == null && right == null && height == 1
    {
      this.key, this.value, this.parent := key, value, parent;
      left, right, height := null, null, 1;
    }

    function Child(side: Side): AvlNode?<K, V>
      reads this
    {
      if side == Side.Left then left else right
    }

    method SetChild(side: Side, child: AvlNode?<K, V>)
      modifies this`left, this`right
      ensures Child(side) == child && Child(Other(side)) == old(Child(Other(side)))
    {
      if side == Side.Left { left := child; } else { right := child; }
    }
  }

  // ---------- the shape in the heap ----------

  function RootOf<K, V>(t: Shape<AvlNode<K, V>>): AvlNode?<K, V> {
    if t.Leaf? then null else t.node
  }

  /** The parent of the subtree at the end of a path. */
  function ParentOf<K, V>(p: Path<AvlNode<K, V>>): AvlNode?<K, V> {
    if p.Top? then null else p.node
  }

  /** The nodes of the shape are linked as it says, in both directions, and their stored heights are right except
      perhaps at the stale ones. */
  ghost predicate Linked<K, V>(t: Shape<AvlNode<K, V>>, root: AvlNode?<K, V>, parent: AvlNode?<K, V>,
                               stale: set<AvlNode<K, V>>)
    reads Nodes(t)
    decreases t
  {
    match t
    case Leaf => root == null
    case Branch(l, n, r) =>
      && root == n && n.parent == parent && (n in stale || n.height == Height(t))
      && Linked(l, n.left, n, stale) && Linked(r, n.right, n, stale)
  }

  /** The ancestors on the path are linked down to `hole`. */
  ghost predicate PathLinked<K, V>(p: Path<AvlNode<K, V>>, hole: AvlNode?<K, V>, root: AvlNode?<K, V>,
                                   stale: set<AvlNode<K, V>>)
    reads PathNodes(p)
    decreases p
  {
    match p
    case Top => root == hole
    case InLeft(up, n, r) =>
      n.left == hole && n.parent == ParentOf(up) && Linked(r, n.right, n, stale) && PathLinked(up, n, root, stale)
    case InRight(up, l, n) =>
      n.right == hole && n.parent == ParentOf(up) && Linked(l, n.left, n, stale) && PathLinked(up, n, root, stale)
  }

  /** A linked tree is a linked path with a linked subtree at its end. */
  lemma {:induction false} Focus<K, V>(p: Path<AvlNode<K, V>>, t: Shape<AvlNode<K, V>>, root: AvlNode?<K, V>,
                                       stale: set<AvlNode<K, V>>)
    requires Spine(p) <= stale
    ensures Linked(Plug(p, t), root, null, stale)
       <==> PathLinked(p, RootOf(t), root, stale) && Linked(t, RootOf(t), ParentOf(p), stale)
    decreases p
  {
    match p
    case Top =>
    case InLeft(up, n, r) => Focus(up, Branch(t, n, r), root, stale);
    case InRight(up, l, n) => Focus(up, Branch(l, n, t), root, stale);
  }

  lemma {:induction false} MoreStale<K, V>(t: Shape<AvlNode<K, V>>, root: AvlNode?<K, V>, parent: AvlNode?<K, V>,
                                           s: set<AvlNode<K, V>>, s': set<AvlNode<K, V>>)
    requires Linked(t, root, parent, s) && s * Nodes(t) <= s'
    ensures Linked(t, root, parent, s')
    decreases t
  {
    if t.Branch? {
      MoreStale(t.left, t.node.left, t.node, s, s');
      MoreStale(t.right, t.node.right, t.node, s, s');
    }
  }

  lemma {:induction false} PathMoreStale<K, V>(p: Path<AvlNode<K, V>>, hole: AvlNode?<K, V>, root: AvlNode?<K, V>,
                                               s: set<AvlNode<K, V>>, s': set<AvlNode<K, V>>)
    requires PathLinked(p, hole, root, s) && s * (PathNodes(p) - Spine(p)) <= s' && PathDistinct(p)
    ensures PathLinked(p, hole, root, s')
    decreases p
  {
    SpineWithin(p);
    match p
    case Top =>
    case InLeft(up, n, r) =>
      SpineWithin(up);
      MoreStale(r, n.right, n, s, s');
      PathMoreStale(up, n, root, s, s');
    case InRight(up, l, n) =>
      SpineWithin(up);
      MoreStale(l, n.left, n, s, s');
      PathMoreStale(up, n, root, s, s');
  }

  function HeightOf<K, V>(n: AvlNode?<K, V>): int
    reads n
  {
    if n == null then 0 else n.height
  }

  lemma ExactHeight<K, V>(t: Shape<AvlNode<K, V>>, root: AvlNode?<K, V>, parent: AvlNode?<K, V>,
                          stale: set<AvlNode<K, V>>)
    requires Linked(t, root, parent, stale) && stale !! Nodes(t)
    ensures HeightOf(root) == Height(t) && root == RootOf(t)
  {
  }

  ghost function UpOf<N>(p: Path<N>): Path<N> {
    if p.Top? then Top else p.up
  }

  /** The subtree beside the path at its end. */
  ghost function OtherOf<N>(p: Path<N>): Shape<N> {
    match p
    case Top => Leaf
    case InLeft(up, n, r) => r
    case InRight(up, l, n) => l
  }

  lemma PathParts<K, V>(p: Path<AvlNode<K, V>>, hole: AvlNode?<K, V>, root: AvlNode?<K, V>, stale: set<AvlNode<K, V>>)
    requires PathLinked(p, hole, root, stale) && PathDistinct(p) && p != Top
    ensures Linked(OtherOf(p), RootOf(OtherOf(p)), p.node, stale) && PathLinked(UpOf(p), p.node, root, stale)
    ensures p.node !in Nodes(OtherOf(p)) && p.node !in PathNodes(UpOf(p))
    ensures PathNodes(p) == PathNodes(UpOf(p)) + {p.node} + Nodes(OtherOf(p))
  {
  }

  lemma EmptyLinked<K, V>(parent: AvlNode?<K, V>)
    ensures Linked(Leaf, null, parent, {})
  {
  }

  lemma LinkedRoot<K, V>(t: Shape<AvlNode<K, V>>, root: AvlNode?<K, V>, parent: AvlNode?<K, V>,
                         stale: set<AvlNode<K, V>>)
    requires Linked(t, root, parent, stale)
    ensures root == RootOf(t) && (root != null ==> root in Nodes(t) && root.parent == parent)
  {
  }

  /** Linked, for a branch given by its sides. */
  lemma LinkedJoin<K, V>(side: Side, near: Shape<AvlNode<K, V>>, n: AvlNode<K, V>, far: Shape<AvlNode<K, V>>,
                         root: AvlNode?<K, V>, parent: AvlNode?<K, V>, stale: set<AvlNode<K, V>>)
    ensures Linked(Join(side, near, n, far), root, parent, stale) <==>
      && root == n && n.parent == parent && (n in stale || n.height == 1 + Max(Height(near), Height(far)))
      && Linked(near, n.Child(side), n, stale) && Linked(far, n.Child(Other(side)), n, stale)
  {
  }

  /** Reassembles the tree after the relinking of a rotation. */
  lemma RotationDone<K, V>(side: Side, p: Path<AvlNode<K, V>>, a: Shape<AvlNode<K, V>>, node: AvlNode<K, V>,
                           b: Shape<AvlNode<K, V>>,
                      top: AvlNode<K, V>, c: Shape<AvlNode<K, V>>, root: AvlNode?<K, V>)
    requires Distinct(Plug(p, Join(side, a, node, Join(side, b, top, c))))
    requires var stale := Spine(p) + {node, top};
      && Linked(a, node.Child(side), node, stale) && Linked(b, node.Child(Other(side)), node, stale)
      && Linked(c, top.Child(Other(side)), top, stale) && PathLinked(p, top, root, stale)
    requires top.Child(side) == node && node.parent == top && top.parent == ParentOf(p)
    requires node.height == 1 + Max(HeightOf(node.Child(side)), HeightOf(node.Child(Other(side))))
    ensures Linked(Plug(p, Join(side, Join(side, a, node, b), top, c)), root, null, Spine(p) + {top})
  {
    hide Linked, PathLinked, Nodes, PathNodes, Distinct, PathDistinct, Join, Height, Plug;
    var right, left := Join(side, b, top, c), Join(side, a, node, b);
    var stale, stale' := Spine(p) + {node, top}, Spine(p) + {top};
    SpineWithin(p);
    PlugDistinct(p, Join(side, a, node, right));
    JoinNodes(side, a, node, right);
    JoinNodes(side, b, top, c);
    JoinNodes(side, a, node, b);
    JoinNodes(side, left, top, c);
    MoreStale(a, node.Child(side), node, stale, stale');
    MoreStale(b, node.Child(Other(side)), node, stale, stale');
    MoreStale(c, top.Child(Other(side)), top, stale, stale');
    PathMoreStale(p, top, root, stale, stale');
    ExactHeight(a, node.Child(side), node, stale');
    ExactHeight(b, node.Child(Other(side)), node, stale');
    LinkedJoin(side, a, node, b, node, top, stale');
    LinkedJoin(side, left, top, c, top, top.parent, stale');
    Focus(p, Join(side, left, top, c), root, stale');
  }

  lemma RotatedSameNodes<N>(side: Side, p: Path<N>, light: Shape<N>, n: N, heavy: Shape<N>)
    requires heavy.Branch?
    ensures var t, u := Plug(p, Join(side, light, n, heavy)), Plug(p, Join(side, light, n, Straighten(side, heavy)));
      Nodes(u) == Nodes(t) && (Distinct(t) ==> Distinct(u))
  {
    hide Rotated, Nodes, Distinct, Join, InOrder, Height;
    RotateSame(Other(side), heavy);
    var u := Straighten(side, heavy);
    PlugNodes(p, Join(side, light, n, heavy));
    PlugDistinct(p, Join(side, light, n, heavy));
    PlugNodes(p, Join(side, light, n, u));
    PlugDistinct(p, Join(side, light, n, u));
    JoinNodes(side, light, n, heavy);
    JoinNodes(side, light, n, u);
  }

  /** Below a node with a stale height, the stored heights of the children are right. */
  lemma SubtreeHeights<K, V>(p: Path<AvlNode<K, V>>, l: Shape<AvlNode<K, V>>, n: AvlNode<K, V>,
                             r: Shape<AvlNode<K, V>>, root: AvlNode?<K, V>)
    requires Linked(Plug(p, Branch(l, n, r)), root, null, Spine(p) + {n}) && Distinct(Plug(p, Branch(l, n, r)))
    ensures n.left == RootOf(l) && HeightOf(n.left) == Height(l) && n.right == RootOf(r)
      && HeightOf(n.right) == Height(r)
    ensures Linked(l, n.left, n, {}) && Linked(r, n.right, n, {})
  {
    hide PathLinked, PathNodes, PathDistinct, Plug, Spine;
    SpineWithin(p);
    PlugDistinct(p, Branch(l, n, r));
    Focus(p, Branch(l, n, r), root, Spine(p) + {n});
    ExactHeight(l, n.left, n, Spine(p) + {n});
    ExactHeight(r, n.right, n, Spine(p) + {n});
    MoreStale(l, n.left, n, Spine(p) + {n}, {});
    MoreStale(r, n.right, n, Spine(p) + {n}, {});
  }

  ghost predicate Sorted<K, V>(compare: (K, K) -> int, s: seq<AvlNode<K, V>>) {
    forall i, j :: 0 <= i < j < |s| ==> compare(s[i].key, s[j].key) <= 0
  }

  lemma SortedMiddle<K(!new), V>(compare: (K, K) -> int, a: seq<AvlNode<K, V>>, s: seq<AvlNode<K, V>>, n: AvlNode<K, V>,
                                 t: seq<AvlNode<K, V>>, b: seq<AvlNode<K, V>>)
    requires Sorted(compare, a + (s + [n] + t) + b)
    ensures forall m :: m in s ==> compare(m.key, n.key) <= 0
    ensures forall m :: m in t ==> compare(n.key, m.key) <= 0
  {
    var all, k := a + (s + [n] + t) + b, |a| + |s|;
    assert all[k] == n;
    assert forall i :: 0 <= i < |s| ==> all[|a| + i] == s[i];
    assert forall i :: 0 <= i < |t| ==> all[k + 1 + i] == t[i];
  }

  /** In a sorted tree, the keys left of a node are not above its key and those right of it not below. */
  lemma SortedAround<K(!new), V>(compare: (K, K) -> int, q: Path<AvlNode<K, V>>, l: Shape<AvlNode<K, V>>,
                                 n: AvlNode<K, V>,
                           r: Shape<AvlNode<K, V>>)
    requires Sorted(compare, InOrder(Plug(q, Branch(l, n, r))))
    ensures forall m :: m in InOrder(l) ==> compare(m.key, n.key) <= 0
    ensures forall m :: m in InOrder(r) ==> compare(n.key, m.key) <= 0
  {
    PlugInOrder(q, Branch(l, n, r));
    assert InOrder(Branch(l, n, r)) == InOrder(l) + [n] + InOrder(r);
    SortedMiddle(compare, Before(q), InOrder(l), n, InOrder(r), After(q));
  }

  /** Every node before the hole has a key not above `key`, and every node after it a greater one. */
  ghost predicate Splits<K, V>(compare: (K, K) -> int, key: K, q: Path<AvlNode<K, V>>) {
    && (forall m :: m in Before(q) ==> compare(key, m.key) >= 0)
    && (forall m :: m in After(q) ==> compare(key, m.key) < 0)
  }

  lemma SplitsStep<K(!new), V>(compare: (K, K) -> int, key: K, q: Path<AvlNode<K, V>>, l: Shape<AvlNode<K, V>>,
                     n: AvlNode<K, V>,
                         r: Shape<AvlNode<K, V>>)
    requires TotalPreorder(compare) && Sorted(compare, InOrder(Plug(q, Branch(l, n, r)))) && Splits(compare, key, q)
    ensures compare(key, n.key) < 0 ==> Splits(compare, key, InLeft(q, n, r))
    ensures compare(key, n.key) >= 0 ==> Splits(compare, key, InRight(q, l, n))
  {
    SortedAround(compare, q, l, n, r);
    forall m | m in InOrder(r) && compare(key, n.key) < 0 ensures compare(key, m.key) < 0 {
      Laws(compare, key, n.key, m.key);
    }
    forall m | m in InOrder(l) && compare(key, n.key) >= 0 ensures compare(key, m.key) >= 0 {
      Laws(compare, m.key, n.key, key);
      Laws(compare, key, n.key, m.key);
    }
  }

  lemma InsertSorted<K(!new), V>(compare: (K, K) -> int, a: seq<AvlNode<K, V>>, n: AvlNode<K, V>, b: seq<AvlNode<K, V>>)
    requires TotalPreorder(compare) && Sorted(compare, a + b)
    requires (forall m :: m in a ==> compare(n.key, m.key) >= 0) && (forall m :: m in b ==> compare(n.key, m.key) < 0)
    ensures Sorted(compare, a + [n] + b)
  {
    var old', s := a + b, a + [n] + b;
    forall i, j | 0 <= i < j < |s| ensures compare(s[i].key, s[j].key) <= 0 {
      if i == |a| {
        assert s[j] == b[j - |a| - 1];
      } else if j == |a| {
        assert s[i] == a[i];
        Laws(compare, n.key, a[i].key, n.key);
      } else {
        var i', j' := if i < |a| then i else i - 1, if j < |a| then j else j - 1;
        assert s[i] == old'[i'] && s[j] == old'[j'];
      }
    }
  }

  lemma RemoveSorted<K, V>(compare: (K, K) -> int, a: seq<AvlNode<K, V>>, n: AvlNode<K, V>, b: seq<AvlNode<K, V>>)
    requires Sorted(compare, a + [n] + b)
    ensures Sorted(compare, a + b)
  {
    var s, s' := a + [n] + b, a + b;
    assert forall i :: 0 <= i < |s'| ==> s'[i] == s[if i < |a| then i else i + 1];
  }

  /** One node was added, after the entries whose keys are not greater than its own. */
  ghost predicate InsertedByKey<K, V>(compare: (K, K) -> int, was: seq<AvlNode<K, V>>, n: AvlNode<K, V>,
                                      now: seq<AvlNode<K, V>>) {
    exists i: nat ::
      (i <= |was| && now == was[..i] + [n] + was[i..]
       && (forall m :: m in was[..i] ==> compare(n.key, m.key) >= 0)
       && (forall m :: m in was[i..] ==> compare(n.key, m.key) < 0))
  }

  /** What hanging a new node into an empty place and rebalancing does to a valid tree. */
  lemma InsertEffect<K(!new), V>(compare: (K, K) -> int, q: Path<AvlNode<K, V>>, n: AvlNode<K, V>)
    requires var t := Plug(q, Leaf); Distinct(t) && Balanced(t) && n !in Nodes(t) && Sorted(compare, InOrder(t))
    requires TotalPreorder(compare) && Splits(compare, n.key, q)
    ensures var t, t', u := Plug(q, Leaf), Plug(q, Branch(Leaf, n, Leaf)), Rebalance(q, Branch(Leaf, n, Leaf));
      && Distinct(t') && Nodes(t') == Nodes(t) + {n} && Nodes(u) == Nodes(t) + {n} && Distinct(u) && Balanced(u)
      && InsertedByKey(compare, InOrder(t), n, InOrder(u)) && Sorted(compare, InOrder(u)) && Size(u) == Size(t) + 1
  {
    hide Nodes, PathNodes, PathDistinct, Distinct, Plug, Balanced, PathBalanced, Before, After, Rebalance, InOrder,
      Sorted;
    var x: Shape<AvlNode<K, V>>, t := Branch(Leaf, n, Leaf), Plug(q, Leaf);
    Single(n);
    PlugNodes(q, Leaf);
    PlugDistinct(q, Leaf);
    PlugInOrder(q, Leaf);
    PlugBalanced(q, Leaf);
    SizeInOrder(t);
    PlugNodes(q, x);
    PlugDistinct(q, x);
    PlugInOrder(q, x);
    RebalanceSame(q, x);
    RebalanceBalances(q, x, 0);
    SizeInOrder(Rebalance(q, x));
    NoNodes<AvlNode<K, V>>();
    var i, was := |Before(q)|, InOrder(t);
    assert was == Before(q) + After(q);
    InsertSorted(compare, Before(q), n, After(q));
    assert was[..i] == Before(q) && was[i..] == After(q);
    assert InOrder(Rebalance(q, x)) == was[..i] + [n] + was[i..];
  }

  /** Balancing after a removal keeps order and balance. */
  lemma RemoveEffect<K(!new), V>(compare: (K, K) -> int, t: Shape<AvlNode<K, V>>, n: AvlNode<K, V>,
                       path: Path<AvlNode<K, V>>,
                                 x: Shape<AvlNode<K, V>>)
    requires Without(t, n, Plug(path, x)) && Sorted(compare, InOrder(t))
    ensures var u := Rebalance(path, x);
      && Without(t, n, u) && Distinct(u) && Nodes(u) == Nodes(t) - {n} && Sorted(compare, InOrder(u))
      && Size(u) == Size(t) - 1
      && n in Nodes(t) && Distinct(Plug(path, x)) && Nodes(Plug(path, x)) == Nodes(t) - {n}
  {
    hide Nodes, Distinct, Plug, Rebalance, InOrder, Size, Sorted;
    RebalanceSame(path, x);
    var u := Rebalance(path, x);
    SizeInOrder(t);
    SizeInOrder(u);
    var o := InOrder(t);
    var i: nat :| i < |o| && o[i] == n && InOrder(u) == o[..i] + o[i + 1..];
    assert o == o[..i] + [n] + o[i + 1..];
    RemoveSorted(compare, o[..i], n, o[i + 1..]);
  }

  /** No node beside the path or on it has an equal key. */
  ghost predicate Misses<K, V>(compare: (K, K) -> int, key: K, q: Path<AvlNode<K, V>>) {
    && (forall m :: m in Before(q) ==> compare(key, m.key) != 0)
    && (forall m :: m in After(q) ==> compare(key, m.key) != 0)
  }

  /** The node with an equal key that a descent from the root meets first: no ancestor of it has an equal key. */
  ghost predicate FirstMatch<K, V>(compare: (K, K) -> int, key: K, t: Shape<AvlNode<K, V>>, n: AvlNode<K, V>) {
    && t.Branch?
    && if compare(key, t.node.key) == 0 then t.node == n
       else FirstMatch(compare, key, t.left, n) || FirstMatch(compare, key, t.right, n)
  }

  lemma {:induction false} FirstMatchUp<K, V>(compare: (K, K) -> int, key: K, q: Path<AvlNode<K, V>>,
                                               t: Shape<AvlNode<K, V>>, n: AvlNode<K, V>)
    requires FirstMatch(compare, key, t, n) && forall m :: m in Spine(q) ==> compare(key, m.key) != 0
    ensures FirstMatch(compare, key, Plug(q, t), n)
    decreases q
  {
    match q
    case Top =>
    case InLeft(up, m, r) => FirstMatchUp(compare, key, up, Branch(t, m, r), n);
    case InRight(up, l, m) => FirstMatchUp(compare, key, up, Branch(l, m, t), n);
  }

  /** The place of the first match: it has an equal key, and no ancestor has. */
  lemma {:induction false} FirstMatchPlace<K, V>(compare: (K, K) -> int, key: K, p: Path<AvlNode<K, V>>,
                                                  s: Shape<AvlNode<K, V>>, n: AvlNode<K, V>)
    returns (q: Path<AvlNode<K, V>>, t: Shape<AvlNode<K, V>>)
    requires FirstMatch(compare, key, s, n) && forall m :: m in Spine(p) ==> compare(key, m.key) != 0
    ensures Plug(q, t) == Plug(p, s) && t.Branch? && t.node == n && compare(key, n.key) == 0
    ensures forall m :: m in Spine(q) ==> compare(key, m.key) != 0
    decreases s
  {
    if compare(key, s.node.key) == 0 {
      q, t := p, s;
    } else if FirstMatch(compare, key, s.left, n) {
      q, t := FirstMatchPlace(compare, key, InLeft(p, s.node, s.right), s.left, n);
    } else {
      q, t := FirstMatchPlace(compare, key, InRight(p, s.left, s.node), s.right, n);
    }
  }

  lemma {:induction false} FirstMatchIn<K, V>(compare: (K, K) -> int, key: K, t: Shape<AvlNode<K, V>>,
                                               n: AvlNode<K, V>)
    requires FirstMatch(compare, key, t, n)
    ensures n in InOrder(t) && compare(key, n.key) == 0
  {
    if compare(key, t.node.key) != 0 {
      if FirstMatch(compare, key, t.left, n) {
        FirstMatchIn(compare, key, t.left, n);
      } else {
        FirstMatchIn(compare, key, t.right, n);
      }
    }
  }

  lemma SortedChildren<K, V>(compare: (K, K) -> int, t: Shape<AvlNode<K, V>>)
    requires t.Branch? && Sorted(compare, InOrder(t))
    ensures Sorted(compare, InOrder(t.left)) && Sorted(compare, InOrder(t.right))
  {
    var l, r := InOrder(t.left), InOrder(t.right);
    forall i | 0 <= i < |l| ensures InOrder(t)[i] == l[i] {}
    forall i, j | 0 <= i < j < |r| ensures compare(r[i].key, r[j].key) <= 0 {
      assert InOrder(t)[|l| + 1 + i] == r[i] && InOrder(t)[|l| + 1 + j] == r[j];
    }
  }

  /** In a sorted tree there is one first match at most: between two of them stands an ancestor of both. */
  lemma {:induction false} FirstMatchUnique<K(!new), V>(compare: (K, K) -> int, key: K, t: Shape<AvlNode<K, V>>,
                                                   a: AvlNode<K, V>, b: AvlNode<K, V>)
    requires TotalPreorder(compare) && Sorted(compare, InOrder(t))
    requires FirstMatch(compare, key, t, a) && FirstMatch(compare, key, t, b)
    ensures a == b
  {
    if compare(key, t.node.key) != 0 {
      SortedAround(compare, Top, t.left, t.node, t.right);
      var l, r := t.left, t.right;
      if FirstMatch(compare, key, l, a) { FirstMatchIn(compare, key, l, a); } else { FirstMatchIn(compare, key, r, a); }
      if FirstMatch(compare, key, l, b) { FirstMatchIn(compare, key, l, b); } else { FirstMatchIn(compare, key, r, b); }
      Laws(compare, key, a.key, t.node.key);
      Laws(compare, key, b.key, t.node.key);
      Laws(compare, a.key, t.node.key, key);
      Laws(compare, b.key, t.node.key, key);
      SortedChildren(compare, t);
      if FirstMatch(compare, key, l, a) && FirstMatch(compare, key, l, b) {
        FirstMatchUnique(compare, key, l, a, b);
      } else {
        FirstMatchUnique(compare, key, r, a, b);
      }
    }
  }

  lemma NoMisses<K, V>(compare: (K, K) -> int, key: K)
    ensures Misses<K, V>(compare, key, Top)
  {
  }

  lemma MissesAll<K, V>(compare: (K, K) -> int, key: K, q: Path<AvlNode<K, V>>)
    requires Misses(compare, key, q)
    ensures forall m :: m in Nodes(Plug(q, Leaf)) ==> compare(key, m.key) != 0
  {
    PlugInOrder(q, Leaf);
    NoNodes<AvlNode<K, V>>();
    var t := Plug(q, Leaf);
    assert InOrder(t) == Before(q) + After(q);
    hide InOrder, Plug, Nodes, Before, After;
    forall m | m in Nodes(Plug(q, Leaf)) ensures compare(key, m.key) != 0 {
      NodesInOrder(t, m);
    }
  }

  lemma MissesStep<K(!new), V>(compare: (K, K) -> int, key: K, q: Path<AvlNode<K, V>>, l: Shape<AvlNode<K, V>>,
                     n: AvlNode<K, V>,
                               r: Shape<AvlNode<K, V>>)
    requires TotalPreorder(compare) && Sorted(compare, InOrder(Plug(q, Branch(l, n, r)))) && Misses(compare, key, q)
    ensures compare(key, n.key) < 0 ==> Misses(compare, key, InLeft(q, n, r))
    ensures compare(key, n.key) > 0 ==> Misses(compare, key, InRight(q, l, n))
  {
    SortedAround(compare, q, l, n, r);
    forall m | m in InOrder(r) && compare(key, n.key) < 0 ensures compare(key, m.key) < 0 {
      Laws(compare, key, n.key, m.key);
    }
    forall m | m in InOrder(l) && compare(key, n.key) > 0 ensures compare(key, m.key) > 0 {
      Laws(compare, m.key, n.key, key);
      Laws(compare, key, n.key, m.key);
    }
  }

  function KeysOf<K, V>(s: seq<AvlNode<K, V>>): seq<K> {
    seq(|s|, i requires 0 <= i < |s| => s[i].key)
  }

  lemma KeysNone<K, V>()
    ensures KeysOf<K, V>([]) == []
  {
  }

  lemma NodesBelow<N>(t: Shape<N>)
    requires t.Branch?
    ensures Nodes(t.left) <= Nodes(t) && Nodes(t.right) <= Nodes(t)
  {
  }

  lemma SliceParts<T>(s: seq<T>, a: nat, b: nat, c: nat)
    requires a <= b < c <= |s|
    ensures s[a..c] == s[a..b] + [s[b]] + s[b + 1..c]
  {
  }

  lemma KeysConcat<K, V>(a: seq<AvlNode<K, V>>, n: AvlNode<K, V>, b: seq<AvlNode<K, V>>)
    ensures KeysOf(a + [n] + b) == KeysOf(a) + [n.key] + KeysOf(b)
  {
  }

  class AvlTree<K(!new), V> {
    const compare: (K, K) -> int
    var root: AvlNode?<K, V>
    var numNodes: nat
    ghost var shape: Shape<AvlNode<K, V>>
    ghost var nodes: set<AvlNode<K, V>>

    ghost predicate Valid()
      reads this, nodes
    {
      && nodes == Nodes(shape) && TotalPreorder(compare)
      && Linked(shape, root, null, {}) && Distinct(shape) && Balanced(shape)
      && Sorted(compare, Entries()) && numNodes == Size(shape)
    }

    /** The nodes of the tree, in the order of their keys. */
    ghost function Entries(): seq<AvlNode<K, V>>
      reads this
    {
      InOrder(shape)
    }

    constructor (compare: (K, K) -> int)
      ensures TotalPreorder(compare) ==> Valid() && Entries() == []
      ensures this.compare == compare
    {
      this.compare, root, numNodes := compare, null, 0;
      shape, nodes := Leaf, {};
    }

    /** Recomputes a stored height from those of the children. */
    method UpdateHeight(node: AvlNode<K, V>)
      modifies node`height
      ensures node.height == 1 + old(Max(HeightOf(node.left), HeightOf(node.right)))
    {
      var leftHeight, rightHeight := HeightOf(node.left), HeightOf(node.right);
      if leftHeight > rightHeight {
        node.height := leftHeight + 1;
      } else {
        node.height := rightHeight + 1;
      }
    }

    /** Puts node2 in the place of node1 below node1's parent, whose stored height is refreshed. */
    method NodeReplace(node1: AvlNode<K, V>, node2: AvlNode?<K, V>, ghost p: Path<AvlNode<K, V>>,
                       ghost stale: set<AvlNode<K, V>>)
      requires PathLinked(p, node1, root, stale) && PathDistinct(p) && PathNodes(p) <= nodes
        && node1.parent == ParentOf(p)
      requires node1 !in PathNodes(p) && (node2 != null ==> node2 !in PathNodes(p)) && node1 != node2
      modifies this`root, if node1.parent != null then {node1.parent} else {}, if node2 != null then {node2} else {}
      ensures PathLinked(p, node2, root, stale)
      ensures node2 != null ==> node2.parent == ParentOf(p)
      ensures node2 != null ==>
        node2.left == old(node2.left) && node2.right == old(node2.right)
        && node2.height == old(node2.height)
    {
      ghost var up, other := UpOf(p), OtherOf(p);
      if p != Top { PathParts(p, node1, root, stale); }
      if node2 != null {
        node2.parent := node1.parent;
      }
      if node1.parent == null {
        root := node2;
      } else {
        var parent := node1.parent;
        var side := if parent.left == node1 then Side.Left else Side.Right;
        parent.SetChild(side, node2);
        UpdateHeight(parent);
      }
    }

    /** Hangs a subtree below another node. */
    method Reparent(child: AvlNode?<K, V>, parent: AvlNode<K, V>, ghost t: Shape<AvlNode<K, V>>,
                    ghost was: AvlNode?<K, V>,
                    ghost stale: set<AvlNode<K, V>>)
      requires Linked(t, child, was, stale) && Distinct(t) && Nodes(t) <= nodes
      modifies if child != null then {child} else {}
      ensures Linked(t, child, parent, stale)
      ensures child != null ==> child in Nodes(t)
    {
      if child != null {
        child.parent := parent;
        assert Linked(t.left, child.left, child, stale) && Linked(t.right, child.right, child, stale);
      }
    }

    /** Puts `node` below `top` on the given side, and the subtree that was there below `node`. */
    method Swing(node: AvlNode<K, V>, top: AvlNode<K, V>, side: Side, ghost b: Shape<AvlNode<K, V>>,
                 ghost stale: set<AvlNode<K, V>>)
      requires Linked(b, top.Child(side), top, stale) && Distinct(b) && Nodes(b) <= nodes
      requires node != top && node !in Nodes(b) && top !in Nodes(b)
      modifies node, top, if b.Branch? then {b.node} else {}
      ensures Linked(b, node.Child(Other(side)), node, stale) && node.Child(side) == old(node.Child(side))
      ensures top.Child(side) == node && node.parent == top
      ensures top.Child(Other(side)) == old(top.Child(Other(side))) && top.parent == old(top.parent)
    {
      hide Linked, Nodes, Distinct;
      LinkedRoot(b, top.Child(side), top, stale);
      node.SetChild(Other(side), top.Child(side));
      top.SetChild(side, node);
      node.parent := top;
      Reparent(node.Child(Other(side)), node, b, top, stale);
    }

    /** The relinking of a rotation: `top` goes below the parent of `node`, and `node` below `top` with the subtree
        between them. */
    method Relink(node: AvlNode<K, V>, top: AvlNode<K, V>, side: Side, ghost p: Path<AvlNode<K, V>>,
                  ghost a: Shape<AvlNode<K, V>>,
                  ghost b: Shape<AvlNode<K, V>>, ghost c: Shape<AvlNode<K, V>>, ghost stale: set<AvlNode<K, V>>)
      requires Distinct(b) && PathDistinct(p) && PathNodes(p) + {node, top} !! Nodes(a) + Nodes(b) + Nodes(c)
      requires Nodes(b) !! Nodes(a) + Nodes(c)
      requires node != top && {node, top} !! PathNodes(p)
      requires PathNodes(p) + {node, top} + Nodes(a) + Nodes(b) + Nodes(c) <= nodes
      requires PathLinked(p, node, root, stale) && node.parent == ParentOf(p) && node.Child(Other(side)) == top
      requires Linked(a, node.Child(side), node, stale)
      requires Linked(b, top.Child(side), top, stale) && Linked(c, top.Child(Other(side)), top, stale)
      modifies this`root, nodes
      ensures Linked(a, node.Child(side), node, stale) && Linked(b, node.Child(Other(side)), node, stale)
      ensures Linked(c, top.Child(Other(side)), top, stale) && PathLinked(p, top, root, stale)
      ensures top.Child(side) == node && node.parent == top && top.parent == ParentOf(p)
    {
      hide Linked, PathLinked, Nodes, PathNodes, Distinct, PathDistinct;
      PathEnd(p);
      RootIn(b);
      NodeReplace(node, top, p, stale);
      Swing(node, top, side, b, stale);
    }

    /** Rotates towards `side` at `node`. The node's stored height is right afterwards; that of the node which takes its
        place need not be, and those of the ancestors are as stale as they were allowed to be. */
    method Rotate(node: AvlNode<K, V>, side: Side, ghost p: Path<AvlNode<K, V>>, ghost a: Shape<AvlNode<K, V>>,
                  ghost b: Shape<AvlNode<K, V>>, ghost top: AvlNode<K, V>, ghost c: Shape<AvlNode<K, V>>)
      returns (newRoot: AvlNode<K, V>)
      requires var t := Join(side, a, node, Join(side, b, top, c));
        && Linked(Plug(p, t), root, null, Spine(p) + {node, top})
        && Distinct(Plug(p, t)) && Nodes(Plug(p, t)) <= nodes
      modifies this`root, nodes
      ensures newRoot == top
      ensures Linked(Plug(p, Join(side, Join(side, a, node, b), top, c)), root, null, Spine(p) + {top})
    {
      hide Linked, PathLinked, Nodes, PathNodes, Distinct, PathDistinct, Join, Height, Plug;
      ghost var stale, right := Spine(p) + {node, top}, Join(side, b, top, c);
      ghost var t := Join(side, a, node, right);
      PlugNodes(p, t);
      PlugDistinct(p, t);
      JoinNodes(side, a, node, right);
      JoinNodes(side, b, top, c);
      Focus(p, t, root, stale);
      LinkedJoin(side, a, node, right, node, ParentOf(p), stale);
      LinkedJoin(side, b, top, c, node.Child(Other(side)), node, stale);
      newRoot := node.Child(Other(side));
      Relink(node, newRoot, side, p, a, b, c, stale);
      LinkedRoot(a, node.Child(side), node, stale);
      LinkedRoot(b, node.Child(Other(side)), node, stale);
      UpdateHeight(newRoot);
      UpdateHeight(node);
      RotationDone(side, p, a, node, b, top, c, root);
    }

    /** Rotates towards `side` at a node whose other child is too tall, after rotating that child the other way when its
        inner side is the taller one. */
    method RotateHeavy(node: AvlNode<K, V>, side: Side, ghost p: Path<AvlNode<K, V>>, ghost light: Shape<AvlNode<K, V>>,
                       ghost heavy: Shape<AvlNode<K, V>>) returns (top: AvlNode<K, V>)
      requires heavy.Branch?
      requires var t := Join(side, light, node, heavy);
        && Linked(Plug(p, t), root, null, Spine(p) + {node}) && Distinct(Plug(p, t)) && Nodes(Plug(p, t)) <= nodes
      modifies this`root, nodes
      ensures var t := Rotated(side, Join(side, light, node, Straighten(side, heavy)));
        && t.Branch? && top == t.node && Linked(Plug(p, t), root, null, Spine(p) + {top})
    {
      hide Linked, PathLinked, Nodes, PathNodes, Distinct, PathDistinct, Height, Plug, Spine, Join, Rotated, Part, Step;
      ghost var t, stale := Join(side, light, node, heavy), Spine(p) + {node};
      ghost var inner, outer := Part(side, heavy), Part(Other(side), heavy);
      ghost var heavy' := Straighten(side, heavy);
      SpineWithin(p);
      PlugNodes(p, t);
      PlugDistinct(p, t);
      JoinNodes(side, light, node, heavy);
      JoinParts(side, heavy);
      JoinNodes(side, inner, heavy.node, outer);
      Focus(p, t, root, stale);
      LinkedJoin(side, light, node, heavy, node, ParentOf(p), stale);
      var child := node.Child(Other(side));
      LinkedJoin(side, inner, heavy.node, outer, child, node, stale);
      ExactHeight(inner, child.Child(side), child, stale);
      ExactHeight(outer, child.Child(Other(side)), child, stale);
      if HeightOf(child.Child(Other(side))) < HeightOf(child.Child(side)) {
        ghost var q := Step(Other(side), p, node, light);
        StepJoin(side, p, light, node, heavy);
        StepJoin(side, p, light, node, heavy');
        assert inner.Branch?;
        JoinParts(Other(side), heavy);
        JoinParts(Other(side), inner);
        assert Spine(p) + {node, child, inner.node} == Spine(q) + {child, inner.node};
        MoreStale(Plug(p, t), root, null, stale, Spine(p) + {node, child, inner.node});
        var _ := Rotate(child, Other(side), q, outer, Part(Other(side), inner), inner.node, Part(side, inner));
        RotateJoin(Other(side), outer, child, Part(Other(side), inner), inner.node, Part(side, inner));
        JoinNodes(Other(side), Join(Other(side), outer, child, Part(Other(side), inner)), inner.node,
                  Part(side, inner));
        assert Spine(q) + {inner.node} == Spine(p) + {node, inner.node};
      } else {
        MoreStale(Plug(p, t), root, null, stale, Spine(p) + {node, child});
      }
      JoinParts(side, heavy');
      RotatedSameNodes(side, p, light, node, heavy);
      top := Rotate(node, side, p, light, Part(side, heavy'), heavy'.node, Part(Other(side), heavy'));
      RotateJoin(side, light, node, Part(side, heavy'), heavy'.node, Part(Other(side), heavy'));
      JoinNodes(side, Join(side, light, node, Part(side, heavy')), heavy'.node, Part(Other(side), heavy'));
    }

    /** Recomputes the stored height of the topmost node of a subtree; it is right afterwards. */
    method RefreshHeight(node: AvlNode<K, V>, ghost p: Path<AvlNode<K, V>>, ghost t: Shape<AvlNode<K, V>>)
      requires t.Branch? && t.node == node
      requires Linked(Plug(p, t), root, null, Spine(p) + {node}) && Distinct(Plug(p, t)) && Nodes(Plug(p, t)) <= nodes
      modifies node`height
      ensures Linked(Plug(p, t), root, null, Spine(p))
    {
      ghost var l, r := t.left, t.right;
      hide PathLinked, PathNodes, PathDistinct, Plug, Spine;
      ghost var stale := Spine(p) + {node};
      SpineWithin(p);
      PlugNodes(p, t);
      PlugDistinct(p, t);
      Focus(p, t, root, stale);
      ExactHeight(l, node.left, node, stale);
      ExactHeight(r, node.right, node, stale);
      UpdateHeight(node);
      MoreStale(l, node.left, node, stale, Spine(p));
      MoreStale(r, node.right, node, stale, Spine(p));
      PathMoreStale(p, node, root, stale, Spine(p));
      Focus(p, t, root, Spine(p));
    }

    /** Balances one node and makes its stored height right; returns the node now at its place. */
    method NodeBalance(node: AvlNode<K, V>, ghost p: Path<AvlNode<K, V>>, ghost l: Shape<AvlNode<K, V>>,
                       ghost r: Shape<AvlNode<K, V>>)
      returns (top: AvlNode<K, V>)
      requires var t := Plug(p, Branch(l, node, r));
        Linked(t, root, null, Spine(p) + {node}) && Distinct(t) && Nodes(t) <= nodes
      modifies this`root, nodes
      ensures Linked(Plug(p, BalanceAt(l, node, r)), root, null, Spine(p)) && top.parent == ParentOf(p)
    {
      ghost var t := Branch(l, node, r);
      SubtreeHeights(p, l, node, r, root);
      var diff := HeightOf(node.right) - HeightOf(node.left);
      top := node;
      hide Linked, PathLinked, Nodes, PathNodes, Distinct, PathDistinct, Plug, Spine, Rotated;
      if diff >= 2 {
        top := RotateHeavy(node, Side.Left, p, l, r);
      } else if diff <= -2 {
        top := RotateHeavy(node, Side.Right, p, r, l);
      }
      BalanceAtSame(l, node, r);
      PlugSame(p, t, BalanceAt(l, node, r));
      PlugNodes(p, t);
      RootIn(BalanceAt(l, node, r));
      RefreshHeight(top, p, BalanceAt(l, node, r));
      Focus(p, BalanceAt(l, node, r), root, Spine(p));
      LinkedRoot(BalanceAt(l, node, r), top, ParentOf(p), Spine(p));
    }

    /** Balances every node from `start` up to the root. */
    method BalanceToRoot(start: AvlNode?<K, V>, ghost p: Path<AvlNode<K, V>>, ghost x: Shape<AvlNode<K, V>>)
      requires start == ParentOf(p)
      requires Linked(Plug(p, x), root, null, Spine(p)) && Distinct(Plug(p, x)) && Nodes(Plug(p, x)) <= nodes
      modifies this`root, nodes
      ensures Linked(Rebalance(p, x), root, null, {})
    {
      var rover := start;
      ghost var q, y := p, x;
      while rover != null
        invariant rover == ParentOf(q) && Rebalance(q, y) == Rebalance(p, x)
        invariant Linked(Plug(q, y), root, null, Spine(q)) && Distinct(Plug(q, y)) && Nodes(Plug(q, y)) <= nodes
        decreases q
      {
        hide Linked, Nodes, Distinct, BalanceAt;
        ghost var l, r := if q.InLeft? then y else q.left, if q.InLeft? then q.right else y;
        BalanceAtSame(l, rover, r);
        PlugSame(q.up, Branch(l, rover, r), BalanceAt(l, rover, r));
        rover := NodeBalance(rover, q.up, l, r);
        rover := rover.parent;
        y := BalanceAt(l, q.node, r);
        q := q.up;
      }
    }

    /** The descent of an insertion: where a new node for the key goes. */
    method Descend(key: K) returns (previous: AvlNode?<K, V>, side: Side, ghost q: Path<AvlNode<K, V>>)
      requires Valid()
      ensures Plug(q, Leaf) == shape && previous == ParentOf(q) && Splits(compare, key, q)
      ensures q.InLeft? ==> side == Side.Left
      ensures q.InRight? ==> side == Side.Right
    {
      var rover := root;
      ghost var t := shape;
      previous, side, q := null, Side.Left, Top;
      while rover != null
        invariant Plug(q, t) == shape && Linked(t, rover, previous, {}) && previous == ParentOf(q)
        invariant Splits(compare, key, q)
        invariant q.InLeft? ==> side == Side.Left
        invariant q.InRight? ==> side == Side.Right
        decreases t
      {
        ghost var l, r := t.left, t.right;
        SplitsStep(compare, key, q, l, rover, r);
        previous := rover;
        if compare(key, rover.key) < 0 {
          side := Side.Left;
          q, t := InLeft(q, rover, r), l;
          rover := rover.left;
        } else {
          side := Side.Right;
          q, t := InRight(q, l, rover), r;
          rover := rover.right;
        }
      }
    }

    /** Links a new node into an empty place. */
    method Attach(node: AvlNode<K, V>, previous: AvlNode?<K, V>, side: Side, ghost q: Path<AvlNode<K, V>>)
      requires PathLinked(q, null, root, Spine(q)) && PathDistinct(q) && PathNodes(q) <= nodes && node !in PathNodes(q)
      requires previous == ParentOf(q) && (q.InLeft? ==> side == Side.Left) && (q.InRight? ==> side == Side.Right)
      modifies this`root, if previous != null then {previous} else {}
      ensures PathLinked(q, node, root, Spine(q))
    {
      ghost var up, other := UpOf(q), OtherOf(q);
      if previous == null {
        root := node;
      } else {
        PathParts(q, null, root, Spine(q));
        previous.SetChild(side, node);
        assert Linked(other, RootOf(other), previous, Spine(q)) && PathLinked(up, previous, root, Spine(q));
      }
    }

    /** Links the new leaf; only the heights above it may be stale afterwards. */
    method Hang(node: AvlNode<K, V>, previous: AvlNode?<K, V>, side: Side, ghost q: Path<AvlNode<K, V>>)
      requires Valid() && Plug(q, Leaf) == shape && node !in nodes
      requires previous == ParentOf(q) && (q.InLeft? ==> side == Side.Left) && (q.InRight? ==> side == Side.Right)
      requires node.left == null && node.right == null && node.parent == previous && node.height == 1
      modifies this`root, nodes
      ensures Linked(Plug(q, Branch(Leaf, node, Leaf)), root, null, Spine(q))
    {
      MoreStale(shape, root, null, {}, Spine(q));
      hide PathLinked, Nodes, PathNodes, PathDistinct, Plug, Spine, Distinct;
      Focus(q, Leaf, root, Spine(q));
      PlugNodes(q, Leaf);
      PlugDistinct(q, Leaf);
      PathEnd(q);
      Attach(node, previous, side, q);
      Single(node);
      assert Linked(Branch(Leaf, node, Leaf), node, previous, Spine(q));
      Focus(q, Branch(Leaf, node, Leaf), root, Spine(q));
    }

    /** Links the new leaf, rebalances and counts it. */
    method Grow(node: AvlNode<K, V>, previous: AvlNode?<K, V>, side: Side, ghost q: Path<AvlNode<K, V>>)
      requires Valid() && Plug(q, Leaf) == shape && node !in nodes && Splits(compare, node.key, q)
      requires previous == ParentOf(q) && (q.InLeft? ==> side == Side.Left) && (q.InRight? ==> side == Side.Right)
      requires node.left == null && node.right == null && node.parent == previous && node.height == 1
      modifies this, nodes, node
      ensures Valid() && nodes == old(nodes) + {node}
      ensures InsertedByKey(compare, old(Entries()), node, Entries())
    {
      hide Linked, Nodes, Plug, Distinct, Balanced, Rebalance, InOrder, Sorted, InsertedByKey, Spine, Splits, Size;
      ghost var x := Branch(Leaf, node, Leaf);
      InsertEffect(compare, q, node);
      Hang(node, previous, side, q);
      nodes := nodes + {node};
      BalanceToRoot(previous, q, x);
      shape := Rebalance(q, x);
      numNodes := numNodes + 1;
    }

    /** Inserts a key and a value after the entries whose keys are not greater. When memory refuses the one request,
        returns NULL and changes nothing. */
    method Insert(key: K, value: V, memory: Memory) returns (node: AvlNode?<K, V>)
      requires Valid()
      modifies this, nodes, memory`calls
      ensures Valid()
      ensures memory.Decides(old(memory.calls), memory.calls, 1, node != null)
      ensures node == null ==> shape == old(shape)
      ensures node != null ==> fresh(node) && node.key == key && node.value == value && nodes == old(nodes) + {node}
      ensures node != null ==> exists i: nat ::
        && i <= |old(Entries())| && Entries() == old(Entries())[..i] + [node] + old(Entries())[i..]
        && (forall m :: m in old(Entries())[..i] ==> compare(key, m.key) >= 0)
        && (forall m :: m in old(Entries())[i..] ==> compare(key, m.key) < 0)
    {
      var previous, side;
      ghost var q;
      previous, side, q := Descend(key);
      var granted := memory.Request();
      if !granted {
        return null;
      }
      node := new AvlNode(key, value, previous);
      assert Valid();
      Grow(node, previous, side, q);
    }

    /** Replaces a node by the subtree below it that remains; only the heights above may be stale afterwards. */
    method Unlink(node: AvlNode<K, V>, child: AvlNode?<K, V>, ghost p: Path<AvlNode<K, V>>,
                  ghost t: Shape<AvlNode<K, V>>,
                  ghost x: Shape<AvlNode<K, V>>)
      requires t.Branch? && t.node == node && Distinct(Plug(p, t)) && Nodes(Plug(p, t)) <= nodes
      requires Linked(Plug(p, t), root, null, {}) && Linked(x, child, node, {})
      requires Distinct(x) && Nodes(x) <= Nodes(t) - {node}
      modifies this`root, nodes
      ensures Linked(Plug(p, x), root, null, Spine(p)) && node.parent == ParentOf(p)
    {
      ghost var stale := Spine(p);
      MoreStale(Plug(p, t), root, null, {}, stale);
      MoreStale(x, child, node, {}, stale);
      hide PathLinked, PathNodes, PathDistinct, Plug, Spine;
      PlugNodes(p, t);
      PlugDistinct(p, t);
      Focus(p, t, root, stale);
      PathEnd(p);
      NodeReplace(node, child, p, stale);
      if x.Branch? {
        assert Linked(x.left, child.left, child, stale) && Linked(x.right, child.right, child, stale);
      }
      Focus(p, x, root, stale);
    }

    /** Copies the links and the height of `node` to `swap`. */
    method CopyLinks(swap: AvlNode<K, V>, node: AvlNode<K, V>, ghost l: Shape<AvlNode<K, V>>,
                     ghost r: Shape<AvlNode<K, V>>,
                     ghost stale: set<AvlNode<K, V>>)
      requires Linked(l, node.left, node, stale) && Linked(r, node.right, node, stale)
      requires Distinct(l) && Distinct(r) && Nodes(l) !! Nodes(r) && {swap, node} !! Nodes(l) + Nodes(r) && swap != node
      requires Nodes(l) + Nodes(r) <= nodes
      modifies swap, if l.Branch? then {l.node} else {}, if r.Branch? then {r.node} else {}
      ensures Linked(l, swap.left, swap, stale) && Linked(r, swap.right, swap, stale) && swap.height == node.height
    {
      hide Linked, Nodes, Distinct;
      LinkedRoot(l, node.left, node, stale);
      LinkedRoot(r, node.right, node, stale);
      RootIn(l);
      RootIn(r);
      swap.left := node.left;
      Reparent(swap.left, swap, l, node, stale);
      swap.right := node.right;
      Reparent(swap.right, swap, r, node, stale);
      swap.height := node.height;
    }

    /** Puts `swap`, which is not in the tree, in the place of `node`. */
    method TakeOver(swap: AvlNode<K, V>, node: AvlNode<K, V>, ghost p: Path<AvlNode<K, V>>,
                    ghost l: Shape<AvlNode<K, V>>,
                    ghost r: Shape<AvlNode<K, V>>, ghost stale: set<AvlNode<K, V>>)
      requires Linked(Plug(p, Branch(l, node, r)), root, null, stale) && Distinct(Plug(p, Branch(l, node, r)))
      requires Spine(p) <= stale && Nodes(Plug(p, Branch(l, node, r))) + {swap} <= nodes
      requires swap !in Nodes(Plug(p, Branch(l, node, r)))
      modifies this`root, nodes
      ensures Linked(Plug(p, Branch(l, swap, r)), root, null, stale + {swap})
    {
      hide Linked, PathLinked, PathNodes, PathDistinct, Plug, Spine, Nodes, Distinct, Height;
      ghost var t, stale' := Branch(l, node, r), stale + {swap};
      MoreStale(Plug(p, t), root, null, stale, stale');
      PlugNodes(p, t);
      PlugDistinct(p, t);
      JoinNodes(Side.Left, l, node, r);
      PathEnd(p);
      RootIn(l);
      RootIn(r);
      Focus(p, t, root, stale');
      LinkedJoin(Side.Left, l, node, r, node, ParentOf(p), stale');
      CopyLinks(swap, node, l, r, stale');
      NodeReplace(node, swap, p, stale');
      LinkedJoin(Side.Left, l, swap, r, swap, ParentOf(p), stale');
      Focus(p, Branch(l, swap, r), root, stale');
    }

    /** Recomputing the stored height right above the end of a path changes nothing else. */
    method RefreshAbove(parent: AvlNode<K, V>, ghost p: Path<AvlNode<K, V>>, ghost x: Shape<AvlNode<K, V>>)
      requires parent == ParentOf(p)
      requires Linked(Plug(p, x), root, null, Spine(p)) && Distinct(Plug(p, x)) && Nodes(Plug(p, x)) <= nodes
      modifies parent`height
      ensures Linked(Plug(p, x), root, null, Spine(p))
    {
      ghost var up, other := UpOf(p), OtherOf(p);
      PlugNodes(p, x);
      PlugDistinct(p, x);
      Focus(p, x, root, Spine(p));
      PathParts(p, RootOf(x), root, Spine(p));
      UpdateHeight(parent);
      hide Plug, Distinct;
      assert Linked(other, RootOf(other), parent, Spine(p)) && PathLinked(up, parent, root, Spine(p));
      assert Linked(x, RootOf(x), parent, Spine(p));
      Focus(p, x, root, Spine(p));
    }

    /** Finds the neighbour of a node in its taller subtree, without changing anything. */
    method FindNeighbour(node: AvlNode<K, V>, side: Side, ghost t: Shape<AvlNode<K, V>>)
      returns (result: AvlNode<K, V>, ghost q: Path<AvlNode<K, V>>, ghost x: Shape<AvlNode<K, V>>)
      requires t.Branch? && Linked(t, node.Child(side), node, {})
      ensures Inward(side, q) && t == Plug(q, Join(side, x, result, Leaf))
      ensures Linked(x, result.Child(side), result, {})
    {
      result := node.Child(side);
      q := Top;
      ghost var y, parent := t, node;
      while result.Child(Other(side)) != null
        invariant Inward(side, q) && t == Plug(q, y) && Linked(y, result, parent, {})
        decreases y
      {
        ghost var near, far := Part(side, y), Part(Other(side), y);
        JoinParts(side, y);
        StepJoin(side, q, near, result, far);
        q, y, parent := Step(Other(side), q, result, near), far, result;
        result := result.Child(Other(side));
      }
      JoinParts(side, y);
      x := Part(side, y);
    }

    /** Unlinks the neighbour found: its remaining child takes its place. */
    method UnlinkNeighbour(result: AvlNode<K, V>, side: Side, ghost q: Path<AvlNode<K, V>>,
                           ghost x: Shape<AvlNode<K, V>>,
                           ghost p: Path<AvlNode<K, V>>, ghost node: AvlNode<K, V>, ghost far: Shape<AvlNode<K, V>>)
      requires var t := Plug(p, Join(side, Plug(q, Join(side, x, result, Leaf)), node, far));
        Linked(t, root, null, {}) && Distinct(t) && Nodes(t) <= nodes
      requires Linked(x, result.Child(side), result, {})
      modifies this`root, nodes
      ensures var path := Through(q, side, p, node, far);
        Linked(Plug(path, x), root, null, Spine(path)) && result.parent == ParentOf(path)
    {
      hide Linked, Nodes, Distinct, Plug, Spine, Through, Height;
      ghost var path, y := Through(q, side, p, node, far), Join(side, x, result, Leaf);
      PlugThrough(q, side, p, node, far, y);
      PlugThrough(q, side, p, node, far, x);
      TakeNeighbour(p, node, far, side, q, x, result);
      Unlink(result, result.Child(side), path, y, x);
      ThroughEnd(q, side, p, node, far);
      PathEnd(path);
      PlugNodes(path, x);
      RefreshAbove(result.parent, path, x);
    }

    /** Finds the neighbour in order that is to replace a node and unlinks it; NULL when the node has no children. */
    method GetReplacement(node: AvlNode<K, V>, ghost p: Path<AvlNode<K, V>>, ghost l: Shape<AvlNode<K, V>>,
                          ghost r: Shape<AvlNode<K, V>>)
      returns (result: AvlNode?<K, V>, ghost s: Side, ghost q: Path<AvlNode<K, V>>, ghost x: Shape<AvlNode<K, V>>)
      requires var t := Plug(p, Branch(l, node, r)); Linked(t, root, null, {}) && Distinct(t) && Nodes(t) <= nodes
      modifies this`root, nodes
      ensures result == null ==> l.Leaf? && r.Leaf? && Linked(Plug(p, Branch(l, node, r)), root, null, {})
      ensures s == if Height(l) < Height(r) then Side.Right else Side.Left
      ensures result != null ==>
        var near, far := if s == Side.Left then l else r, if s == Side.Left then r else l;
        var path := Through(q, s, p, node, far);
        && Inward(s, q) && near == Plug(q, Join(s, x, result, Leaf))
        && Linked(Plug(path, x), root, null, Spine(path)) && result.parent == ParentOf(path)
    {
      hide Linked, Nodes, Distinct, Plug, Spine, Through, Inward;
      MoreStale(Plug(p, Branch(l, node, r)), root, null, {}, Spine(p) + {node});
      SubtreeHeights(p, l, node, r, root);
      s, q, x := if Height(l) < Height(r) then Side.Right else Side.Left, Top, Leaf;
      if node.left == null && node.right == null {
        return null, s, q, x;
      }
      var side := if HeightOf(node.left) < HeightOf(node.right) then Side.Right else Side.Left;
      ghost var near, far := if s == Side.Left then l else r, if s == Side.Left then r else l;
      assert near.Branch? && Branch(l, node, r) == Join(s, near, node, far);
      result, q, x := FindNeighbour(node, side, near);
      UnlinkNeighbour(result, side, q, x, p, node, far);
    }

    /** Takes a node out of the tree, its neighbour in its place; only the heights above the neighbour's old place may
        be stale afterwards. Returns where rebalancing has to start. */
    method Detach(node: AvlNode<K, V>, ghost p: Path<AvlNode<K, V>>, ghost l: Shape<AvlNode<K, V>>,
                  ghost r: Shape<AvlNode<K, V>>)
      returns (start: AvlNode?<K, V>, ghost path: Path<AvlNode<K, V>>, ghost x: Shape<AvlNode<K, V>>)
      requires var t := Plug(p, Branch(l, node, r));
        Linked(t, root, null, {}) && Distinct(t) && Nodes(t) <= nodes
        && Balanced(t)
      modifies this`root, nodes
      ensures Linked(Plug(path, x), root, null, Spine(path)) && start == ParentOf(path)
      ensures Without(Plug(p, Branch(l, node, r)), node, Plug(path, x)) && Balanced(Rebalance(path, x))
    {
      hide Linked, Nodes, Distinct, Plug, Spine, Through, Inward, Balanced, Rebalance, Without;
      var swap;
      ghost var s, q;
      swap, s, q, x := GetReplacement(node, p, l, r);
      if swap == null {
        Single(node);
        NoNodes<AvlNode<K, V>>();
        assert Linked(Leaf, null, node, {}) by { EmptyLinked(node); }
        LeafDetached(p, node);
        Unlink(node, null, p, Branch(Leaf, node, Leaf), Leaf);
        start, path, x := node.parent, p, Leaf;
      } else {
        ghost var far := if s == Side.Left then r else l;
        start := if swap.parent == node then swap else swap.parent;
        path := Through(q, s, p, swap, far);
        ghost var rest := Plug(q, x);
        PlugThrough(q, s, p, node, far, x);
        PlugThrough(q, s, p, swap, far, x);
        TakeNeighbour(p, node, far, s, q, x, swap);
        NeighbourDetached(p, node, far, s, q, x, swap);
        ThroughEnd(q, s, p, node, far);
        ThroughEnd(q, s, p, swap, far);
        TakeOver(swap, node, p, if s == Side.Left then rest else far, if s == Side.Left then far else rest,
                 Spine(Through(q, s, p, node, far)));
        MoreStale(Plug(path, x), root, null, Spine(Through(q, s, p, node, far)) + {swap}, Spine(path));
      }
    }

    /** Removes a node: exactly this entry goes. */
    method RemoveNode(node: AvlNode<K, V>)
      requires Valid() && node in nodes
      modifies this, nodes
      ensures Valid() && nodes == old(nodes) - {node} && numNodes == old(numNodes) - 1
      ensures Without(old(shape), node, shape)
    {
      hide Linked, Nodes, Distinct, Plug, Spine, Rebalance, Balanced, Sorted, Without, Size, InOrder;
      PlugTop(shape);
      ghost var p, t := FindPath(shape, Top, node);
      var start;
      ghost var path, x;
      start, path, x := Detach(node, p, t.left, t.right);
      RemoveEffect(compare, shape, node, path, x);
      numNodes := numNodes - 1;
      BalanceToRoot(start, path, x);
      shape := Rebalance(path, x);
      nodes := nodes - {node};
    }

    /** Finds the first node on the way down whose key compares equal, if there is one. */
    method LookupNode(key: K) returns (node: AvlNode?<K, V>)
      requires Valid()
      ensures node != null ==> node in nodes && compare(key, node.key) == 0
      ensures node != null ==> FirstMatch(compare, key, shape, node)
      ensures node == null ==> forall m :: m in nodes ==> compare(key, m.key) != 0
    {
      hide Nodes, Distinct, Balanced, Sorted, Plug, Size, Misses, Before, After, InOrder;
      node := root;
      ghost var q, t, parent: AvlNode?<K, V> := Top, shape, null;
      PlugTop(shape);
      NoMisses<K, V>(compare, key);
      while node != null
        invariant Plug(q, t) == shape && Linked(t, node, parent, {}) && Misses(compare, key, q)
        invariant forall m :: m in Spine(q) ==> compare(key, m.key) != 0
        decreases t
      {
        var diff := compare(key, node.key);
        MissesStep(compare, key, q, t.left, node, t.right);
        PlugStep(q, t);
        if diff == 0 {
          PlugNodes(q, t);
          RootIn(t);
          FirstMatchUp(compare, key, q, t, node);
          return;
        } else if diff < 0 {
          q, t, parent := InLeft(q, node, t.right), t.left, node;
          node := node.left;
        } else {
          q, t, parent := InRight(q, t.left, node), t.right, node;
          node := node.right;
        }
      }
      MissesAll(compare, key, q);
    }

    /** The value stored for a key, if any; the first match of the descent when there are several. */
    method Lookup(key: K) returns (result: Option<V>)
      requires Valid()
      ensures result.None? ==> forall m :: m in nodes ==> compare(key, m.key) != 0
      ensures result.Some? ==> exists m ::
        && m in nodes && compare(key, m.key) == 0
        && FirstMatch(compare, key, shape, m) && result.value == m.value
    {
      var node := LookupNode(key);
      if node == null {
        result := None;
      } else {
        result := Some(node.value);
      }
    }

    /** Removes the node that LookupNode finds, if there is one. */
    method Remove(key: K) returns (removed: bool)
      requires Valid()
      modifies this, nodes
      ensures Valid()
      ensures removed <==> exists m :: m in old(nodes) && compare(key, m.key) == 0
      ensures removed ==> exists m ::
        && m in old(nodes) && compare(key, m.key) == 0
        && FirstMatch(compare, key, old(shape), m) && Without(old(shape), m, shape)
      ensures !removed ==> shape == old(shape)
    {
      var node := LookupNode(key);
      if node == null {
        return false;
      }
      RemoveNode(node);
      return true;
    }

    /** Writes the keys of a subtree in order from `index` on. */
    method AddSubtree(subtree: AvlNode?<K, V>, keys: array<K>, start: nat, ghost t: Shape<AvlNode<K, V>>,
                      ghost parent: AvlNode?<K, V>)
      returns (index: nat)
      requires Linked(t, subtree, parent, {}) && Nodes(t) <= nodes && start + Size(t) <= keys.Length
      modifies keys
      ensures index == start + Size(t) && keys[start..index] == KeysOf(InOrder(t))
      ensures forall i :: 0 <= i < start || index <= i < keys.Length ==> keys[i] == old(keys[i])
      decreases t
    {
      hide KeysOf, Nodes, Height;
      index := start;
      KeysNone<K, V>();
      if subtree != null {
        NodesBelow(t);
        index := AddSubtree(subtree.left, keys, index, t.left, subtree);
        KeysConcat(InOrder(t.left), subtree, InOrder(t.right));
        ghost var first, middle := keys[start..index], index;
        assert Linked(t.right, subtree.right, subtree, {});
        keys[index] := subtree.key;
        index := index + 1;
        assert Linked(t.right, subtree.right, subtree, {});
        index := AddSubtree(subtree.right, keys, index, t.right, subtree);
        SliceParts(keys[..], start, middle, index);
        assert keys[start..middle] == first;
      }
    }

    /** All keys, in order; NULL when memory refuses the request. */
    method ToArray(zero: K, memory: Memory) returns (keys: array?<K>)
      requires Valid()
      modifies memory`calls
      ensures memory.Decides(old(memory.calls), memory.calls, 1, keys != null)
      ensures keys != null ==> fresh(keys) && keys.Length == numNodes && keys[..] == KeysOf(Entries())
    {
      var granted := memory.Request();
      if !granted {
        return null;
      }
      var filled := new K[numNodes](_ => zero);
      var index := AddSubtree(root, filled, 0, shape, null);
      assert filled[..] == filled[0..index];
      keys := filled;
    }

    /** The stored root height is the height of the tree, and it is logarithmic in the number of entries. */
    lemma LogarithmicHeight()
      requires Valid()
      ensures HeightOf(root) == Height(shape) && numNodes + 1 >= Fib(Height(shape) + 2)
    {
      HeightBound(shape);
    }
  }

  /** Insertion adds exactly the new entry to the multiset of entries. */
  lemma InsertedEntries<K, V>(compare: (K, K) -> int, was: seq<AvlNode<K, V>>, n: AvlNode<K, V>,
                              now: seq<AvlNode<K, V>>)
    requires InsertedByKey(compare, was, n, now)
    ensures multiset(now) == multiset(was) + multiset{n}
  {
    var i: nat :| i <= |was| && now == was[..i] + [n] + was[i..];
    assert was == was[..i] + was[i..];
  }

  /** Removal takes exactly the removed entry out of the multiset of entries. */
  lemma RemovedEntries<K, V>(t: Shape<AvlNode<K, V>>, n: AvlNode<K, V>, t': Shape<AvlNode<K, V>>)
    requires Without(t, n, t')
    ensures multiset(InOrder(t)) == multiset(InOrder(t')) + multiset{n}
  {
    hide InOrder, Nodes, Distinct;
    var o := InOrder(t);
    var i: nat :| i < |o| && o[i] == n && InOrder(t') == o[..i] + o[i + 1..];
    DropBag(o, i);
  }
}
