/** Binary tree shapes over nodes, paths into them, and the AVL rebalancing on shapes. */
module AvlShapes {

  datatype Shape<N> = Leaf | Branch(left: Shape<N>, node: N, right: Shape<N>)

  /** The way from a subtree up to the root: at each ancestor, the side the subtree is on and the other subtree. */
  datatype Path<N> = Top | InLeft(up: Path<N>, node: N, right: Shape<N>) | InRight(up: Path<N>, left: Shape<N>, node: N)

  datatype Side = Left | Right

  function Other(side: Side): Side { if side == Left then Right else Left }

  /** A branch with `near` on the given side and `far` on the other. */
  function Join<N>(side: Side, near: Shape<N>, n: N, far: Shape<N>): Shape<N> {
    if side == Left then Branch(near, n, far) else Branch(far, n, near)
  }

  /** The child on the given side. */
  function Part<N>(side: Side, t: Shape<N>): Shape<N>
    requires t.Branch?
  {
    if side == Left then t.left else t.right
  }

  /** One step up from the given side. */
  function Step<N>(side: Side, up: Path<N>, n: N, other: Shape<N>): Path<N> {
    if side == Left then InLeft(up, n, other) else InRight(up, other, n)
  }

  function Max(a: int, b: int): int { if a > b then a else b }

  function Height<N>(t: Shape<N>): nat {
    if t.Leaf? then 0 else 1 + Max(Height(t.left), Height(t.right))
  }

  function Size<N>(t: Shape<N>): nat {
    if t.Leaf? then 0 else Size(t.left) + 1 + Size(t.right)
  }

  function InOrder<N>(t: Shape<N>): seq<N> {
    if t.Leaf? then [] else InOrder(t.left) + [t.node] + InOrder(t.right)
  }

  ghost function Nodes<N>(t: Shape<N>): set<N> {
    if t.Leaf? then {} else Nodes(t.left) + {t.node} + Nodes(t.right)
  }

  /** Subtree heights differ by at most one everywhere. */
  predicate Balanced<N>(t: Shape<N>) {
    t.Branch? ==> Balanced(t.left) && Balanced(t.right) && -1 <= Height(t.right) - Height(t.left) <= 1
  }

  /** No node occurs twice. */
  ghost predicate Distinct<N>(t: Shape<N>) {
    t.Branch? ==>
      && Distinct(t.left) && Distinct(t.right) && t.node !in Nodes(t.left) && t.node !in Nodes(t.right)
      && Nodes(t.left) !! Nodes(t.right)
  }

  // ---------- paths ----------

  /** The whole tree with `t` at the end of the path. */
  function Plug<N>(p: Path<N>, t: Shape<N>): Shape<N> {
    match p
    case Top => t
    case InLeft(up, n, r) => Plug(up, Branch(t, n, r))
    case InRight(up, l, n) => Plug(up, Branch(l, n, t))
  }

  /** The ancestors on the path. */
  ghost function Spine<N>(p: Path<N>): set<N> {
    match p
    case Top => {}
    case InLeft(up, n, r) => Spine(up) + {n}
    case InRight(up, l, n) => Spine(up) + {n}
  }

  /** All nodes beside the path and on it. */
  ghost function PathNodes<N>(p: Path<N>): set<N> {
    match p
    case Top => {}
    case InLeft(up, n, r) => PathNodes(up) + {n} + Nodes(r)
    case InRight(up, l, n) => PathNodes(up) + {n} + Nodes(l)
  }

  ghost predicate PathDistinct<N>(p: Path<N>) {
    match p
    case Top => true
    case InLeft(up, n, r) =>
      PathDistinct(up) && Distinct(r) && n !in Nodes(r) && n !in PathNodes(up)
      && PathNodes(up) !! Nodes(r)
    case InRight(up, l, n) =>
      PathDistinct(up) && Distinct(l) && n !in Nodes(l) && n !in PathNodes(up)
      && PathNodes(up) !! Nodes(l)
  }

  lemma PlugTop<N>(t: Shape<N>)
    ensures Plug(Top, t) == t
  {
  }

  lemma PlugStep<N>(p: Path<N>, t: Shape<N>)
    requires t.Branch?
    ensures Plug(InLeft(p, t.node, t.right), t.left) == Plug(p, t) == Plug(InRight(p, t.left, t.node), t.right)
  {
  }

  lemma {:induction false} PlugNodes<N>(p: Path<N>, t: Shape<N>)
    ensures Nodes(Plug(p, t)) == PathNodes(p) + Nodes(t)
  {
    match p
    case Top =>
    case InLeft(up, n, r) => PlugNodes(up, Branch(t, n, r));
    case InRight(up, l, n) => PlugNodes(up, Branch(l, n, t));
  }

  lemma {:induction false} PlugDistinct<N>(p: Path<N>, t: Shape<N>)
    ensures Distinct(Plug(p, t)) <==> PathDistinct(p) && Distinct(t) && PathNodes(p) !! Nodes(t)
  {
    match p
    case Top =>
    case InLeft(up, n, r) => PlugDistinct(up, Branch(t, n, r));
    case InRight(up, l, n) => PlugDistinct(up, Branch(l, n, t));
  }

  lemma {:induction false} SpineWithin<N>(p: Path<N>)
    ensures Spine(p) <= PathNodes(p)
  {
    match p
    case Top =>
    case InLeft(up, n, r) => SpineWithin(up);
    case InRight(up, l, n) => SpineWithin(up);
  }

  /** Nodes before and after the hole, in order. */
  ghost function Before<N>(p: Path<N>): seq<N> {
    match p
    case Top => []
    case InLeft(up, n, r) => Before(up)
    case InRight(up, l, n) => Before(up) + InOrder(l) + [n]
  }

  ghost function After<N>(p: Path<N>): seq<N> {
    match p
    case Top => []
    case InLeft(up, n, r) => [n] + InOrder(r) + After(up)
    case InRight(up, l, n) => After(up)
  }

  lemma {:induction false} PlugInOrder<N>(p: Path<N>, t: Shape<N>)
    ensures InOrder(Plug(p, t)) == Before(p) + InOrder(t) + After(p)
  {
    match p
    case Top =>
    case InLeft(up, n, r) =>
      PlugInOrder(up, Branch(t, n, r));
      Regroup(Before(up), InOrder(t), [n], InOrder(r), After(up));
    case InRight(up, l, n) =>
      PlugInOrder(up, Branch(l, n, t));
      Regroup(Before(up), InOrder(l), [n], InOrder(t), After(up));
  }

  lemma Regroup<N>(a: seq<N>, b: seq<N>, c: seq<N>, d: seq<N>, e: seq<N>)
    ensures a + (b + c + d) + e == a + b + (c + d + e)
    ensures a + (b + c + d) + e == (a + b + c) + d + e
  {
  }

  /** The path q continued by the path p. */
  function Append<N>(q: Path<N>, p: Path<N>): Path<N> {
    match q
    case Top => p
    case InLeft(up, n, r) => InLeft(Append(up, p), n, r)
    case InRight(up, l, n) => InRight(Append(up, p), l, n)
  }

  lemma {:induction false} PlugAppend<N>(q: Path<N>, p: Path<N>, t: Shape<N>)
    ensures Plug(Append(q, p), t) == Plug(p, Plug(q, t))
    ensures Spine(Append(q, p)) == Spine(q) + Spine(p)
  {
    match q
    case Top =>
    case InLeft(up, n, r) => PlugAppend(up, p, Branch(t, n, r));
    case InRight(up, l, n) => PlugAppend(up, p, Branch(l, n, t));
  }

  /** Every node of a tree is at the end of some path. */
  lemma {:induction false} FindPath<N>(t: Shape<N>, p: Path<N>, n: N) returns (q: Path<N>, s: Shape<N>)
    requires n in Nodes(t)
    ensures s.Branch? && s.node == n && Plug(q, s) == Plug(p, t)
    decreases t
  {
    if t.node == n {
      q, s := p, t;
    } else if n in Nodes(t.left) {
      q, s := FindPath(t.left, InLeft(p, t.node, t.right), n);
    } else {
      q, s := FindPath(t.right, InRight(p, t.left, t.node), n);
    }
  }

  lemma {:induction false} NodesInOrder<N>(t: Shape<N>, n: N)
    ensures n in Nodes(t) <==> n in InOrder(t)
  {
    if t.Branch? {
      NodesInOrder(t.left, n);
      NodesInOrder(t.right, n);
    }
  }

  lemma {:induction false} SizeInOrder<N>(t: Shape<N>)
    ensures |InOrder(t)| == Size(t)
  {
    if t.Branch? {
      SizeInOrder(t.left);
      SizeInOrder(t.right);
    }
  }

  lemma JoinNodes<N>(side: Side, near: Shape<N>, n: N, far: Shape<N>)
    ensures Nodes(Join(side, near, n, far)) == Nodes(near) + {n} + Nodes(far)
    ensures Distinct(Join(side, near, n, far)) <==>
      && Distinct(near) && Distinct(far) && n !in Nodes(near) && n !in Nodes(far) && Nodes(near) !! Nodes(far)
    ensures Height(Join(side, near, n, far)) == 1 + Max(Height(near), Height(far))
    ensures Join(side, near, n, far).Branch? && Join(side, near, n, far).node == n
  {
  }

  lemma PathEnd<N>(p: Path<N>)
    ensures p != Top ==> p.node in PathNodes(p) && p.node in Spine(p)
  {
  }

  lemma RootIn<N>(t: Shape<N>)
    ensures t.Branch? ==> t.node in Nodes(t)
  {
  }

  lemma Single<N>(n: N)
    ensures var t := Branch(Leaf, n, Leaf);
      Nodes(t) == {n} && Distinct(t) && InOrder(t) == [n] && Balanced(t) && Height(t) == 1
  {
  }

  lemma NoNodes<N>()
    ensures Nodes<N>(Leaf) == {} && InOrder<N>(Leaf) == [] && Distinct<N>(Leaf) && Balanced<N>(Leaf)
  {
  }

  // ---------- rotation and rebalancing ----------

  /** Rotates towards `side`: the child on the other side takes the place of the root. */
  function Rotated<N>(side: Side, t: Shape<N>): Shape<N> {
    if side == Left then
      if t.Branch? && t.right.Branch?
      then Branch(Branch(t.left, t.node, t.right.left), t.right.node, t.right.right) else t
    else
      if t.Branch? && t.left.Branch?
      then Branch(t.left.left, t.left.node, Branch(t.left.right, t.node, t.right)) else t
  }

  /** The taller child of a node about to be rotated towards `side`, itself rotated away when its inner side is
      taller. */
  function Straighten<N>(side: Side, t: Shape<N>): Shape<N>
    requires t.Branch?
  {
    if Height(Part(Other(side), t)) < Height(Part(side, t)) then Rotated(Other(side), t) else t
  }

  lemma RotateJoin<N>(side: Side, a: Shape<N>, n: N, b: Shape<N>, top: N, c: Shape<N>)
    ensures Rotated(side, Join(side, a, n, Join(side, b, top, c))) == Join(side, Join(side, a, n, b), top, c)
  {
  }

  lemma JoinParts<N>(side: Side, t: Shape<N>)
    requires t.Branch?
    ensures t == Join(side, Part(side, t), t.node, Part(Other(side), t))
    ensures Height(t) == 1 + Max(Height(Part(side, t)), Height(Part(Other(side), t)))
  {
  }

  lemma StepJoin<N>(side: Side, p: Path<N>, near: Shape<N>, n: N, far: Shape<N>)
    ensures Plug(Step(Other(side), p, n, near), far) == Plug(p, Join(side, near, n, far))
    ensures Spine(Step(Other(side), p, n, near)) == Spine(p) + {n}
    ensures Join(side, near, n, far) == Join(Other(side), far, n, near)
  {
  }

  /** What balancing one node makes of its subtree: nothing, a rotation, or a double rotation. */
  function BalanceAt<N>(l: Shape<N>, n: N, r: Shape<N>): Shape<N> {
    if Height(r) - Height(l) >= 2 then
      Rotated(Left, Branch(l, n, Straighten(Left, r)))
    else if Height(r) - Height(l) <= -2 then
      Rotated(Right, Branch(Straighten(Right, l), n, r))
    else Branch(l, n, r)
  }

  /** Balancing every ancestor on the way to the root. */
  function Rebalance<N>(p: Path<N>, t: Shape<N>): Shape<N> {
    match p
    case Top => t
    case InLeft(up, n, r) => Rebalance(up, BalanceAt(t, n, r))
    case InRight(up, l, n) => Rebalance(up, BalanceAt(l, n, t))
  }

  lemma RotateSame<N>(side: Side, t: Shape<N>)
    ensures InOrder(Rotated(side, t)) == InOrder(t) && Nodes(Rotated(side, t)) == Nodes(t)
    ensures Distinct(t) ==> Distinct(Rotated(side, t))
  {
    if t.Branch? && side == Left && t.right.Branch? {
      ReassocSame(t.left, t.node, t.right.left, t.right.node, t.right.right);
    } else if t.Branch? && side == Right && t.left.Branch? {
      ReassocSame(t.left.left, t.left.node, t.left.right, t.node, t.right);
    }
  }

  lemma ReassocSame<N>(a: Shape<N>, m: N, b: Shape<N>, n: N, c: Shape<N>)
    ensures var t, u := Branch(a, m, Branch(b, n, c)), Branch(Branch(a, m, b), n, c);
      InOrder(t) == InOrder(u) && Nodes(t) == Nodes(u) && (Distinct(t) <==> Distinct(u))
  {
    var r, l := Branch(b, n, c), Branch(a, m, b);
    assert InOrder(a) + [m] + (InOrder(b) + [n] + InOrder(c)) == (InOrder(a) + [m] + InOrder(b)) + [n] + InOrder(c);
    assert Nodes(r) == Nodes(b) + {n} + Nodes(c) && Nodes(l) == Nodes(a) + {m} + Nodes(b);
    assert Distinct(r) <==> Distinct(b) && Distinct(c) && n !in Nodes(b) && n !in Nodes(c) && Nodes(b) !! Nodes(c);
    assert Distinct(l) <==> Distinct(a) && Distinct(b) && m !in Nodes(a) && m !in Nodes(b) && Nodes(a) !! Nodes(b);
  }

  lemma BalanceAtSame<N>(l: Shape<N>, n: N, r: Shape<N>)
    ensures InOrder(BalanceAt(l, n, r)) == InOrder(Branch(l, n, r))
      && Nodes(BalanceAt(l, n, r)) == Nodes(Branch(l, n, r))
    ensures Distinct(Branch(l, n, r)) ==> Distinct(BalanceAt(l, n, r))
  {
    hide Rotated;
    if Height(r) - Height(l) >= 2 {
      RotateSame(Right, r);
      RotateSame(Left, Branch(l, n, Straighten(Left, r)));
    } else if Height(r) - Height(l) <= -2 {
      RotateSame(Left, l);
      RotateSame(Right, Branch(Straighten(Right, l), n, r));
    }
  }

  lemma Opened<N>(t: Shape<N>)
    requires Balanced(t) && Height(t) > 0
    ensures t.Branch? && Balanced(t.left) && Balanced(t.right) && -1 <= Height(t.right) - Height(t.left) <= 1
    ensures Height(t) == 1 + Max(Height(t.left), Height(t.right))
  {
  }

  lemma RightHeavy<N>(l: Shape<N>, n: N, r: Shape<N>)
    requires Balanced(l) && Balanced(r) && Height(r) - Height(l) == 2
    ensures Balanced(BalanceAt(l, n, r)) && Height(r) <= Height(BalanceAt(l, n, r)) <= Height(r) + 1
  {
    hide Balanced, Height;
    Opened(r);
    var a, c := r.left, r.right;
    if Height(c) < Height(a) {
      Opened(a);
      var x, y := Branch(l, n, a.left), Branch(a.right, r.node, c);
      assert BalanceAt(l, n, r) == Branch(x, a.node, y);
      BranchBalanced(l, n, a.left);
      BranchBalanced(a.right, r.node, c);
      BranchBalanced(x, a.node, y);
    } else {
      var x := Branch(l, n, a);
      assert BalanceAt(l, n, r) == Branch(x, r.node, c);
      BranchBalanced(l, n, a);
      BranchBalanced(x, r.node, c);
    }
  }

  lemma LeftHeavy<N>(l: Shape<N>, n: N, r: Shape<N>)
    requires Balanced(l) && Balanced(r) && Height(r) - Height(l) == -2
    ensures Balanced(BalanceAt(l, n, r)) && Height(l) <= Height(BalanceAt(l, n, r)) <= Height(l) + 1
  {
    hide Balanced, Height;
    Opened(l);
    var a, c := l.right, l.left;
    if Height(c) < Height(a) {
      Opened(a);
      var x, y := Branch(c, l.node, a.left), Branch(a.right, n, r);
      assert BalanceAt(l, n, r) == Branch(x, a.node, y);
      BranchBalanced(c, l.node, a.left);
      BranchBalanced(a.right, n, r);
      BranchBalanced(x, a.node, y);
    } else {
      var y := Branch(a, n, r);
      assert BalanceAt(l, n, r) == Branch(c, l.node, y);
      BranchBalanced(a, n, r);
      BranchBalanced(c, l.node, y);
    }
  }

  lemma BranchBalanced<N>(l: Shape<N>, n: N, r: Shape<N>)
    ensures Height(Branch(l, n, r)) == 1 + Max(Height(l), Height(r))
    ensures Balanced(l) && Balanced(r) && -1 <= Height(r) - Height(l) <= 1 ==> Balanced(Branch(l, n, r))
  {
  }

  /** Balancing two balanced subtrees whose heights differ by at most two gives a balanced tree no lower than the
      taller of them and at most one higher. */
  lemma BalanceAtBalances<N>(l: Shape<N>, n: N, r: Shape<N>)
    requires Balanced(l) && Balanced(r) && -2 <= Height(r) - Height(l) <= 2
    ensures Balanced(BalanceAt(l, n, r))
    ensures var m, h := Max(Height(l), Height(r)), Height(BalanceAt(l, n, r));
      m <= h <= m + 1 && (-1 <= Height(r) - Height(l) <= 1 ==> h == m + 1)
  {
    hide Balanced, Height, Rotated;
    if Height(r) - Height(l) == 2 {
      RightHeavy(l, n, r);
    } else if Height(r) - Height(l) == -2 {
      LeftHeavy(l, n, r);
    } else {
      BranchBalanced(l, n, r);
    }
  }

  /** The ancestors are balanced with a subtree of height `h` at the end of the path. */
  predicate PathBalanced<N>(p: Path<N>, h: nat) {
    match p
    case Top => true
    case InLeft(up, n, r) => Balanced(r) && -1 <= Height(r) - h <= 1 && PathBalanced(up, 1 + Max(h, Height(r)))
    case InRight(up, l, n) => Balanced(l) && -1 <= h - Height(l) <= 1 && PathBalanced(up, 1 + Max(Height(l), h))
  }

  lemma {:induction false} PlugBalanced<N>(p: Path<N>, t: Shape<N>)
    ensures Balanced(Plug(p, t)) <==> PathBalanced(p, Height(t)) && Balanced(t)
  {
    match p
    case Top =>
    case InLeft(up, n, r) => PlugBalanced(up, Branch(t, n, r));
    case InRight(up, l, n) => PlugBalanced(up, Branch(l, n, t));
  }

  /** After a subtree of a balanced tree was replaced by a balanced one whose height is off by at most one, balancing
      on the way to the root restores balance; nodes and their order stay. */
  lemma {:induction false} RebalanceBalances<N>(p: Path<N>, t: Shape<N>, h: nat)
    requires PathBalanced(p, h) && Balanced(t) && -1 <= Height(t) - h <= 1
    ensures Balanced(Rebalance(p, t))
  {
    hide BalanceAt, Height, Balanced;
    match p
    case Top =>
    case InLeft(up, n, r) =>
      BalanceAtBalances(t, n, r);
      RebalanceBalances(up, BalanceAt(t, n, r), 1 + Max(h, Height(r)));
    case InRight(up, l, n) =>
      BalanceAtBalances(l, n, t);
      RebalanceBalances(up, BalanceAt(l, n, t), 1 + Max(Height(l), h));
  }

  lemma {:induction false} PlugSame<N>(p: Path<N>, t: Shape<N>, u: Shape<N>)
    requires InOrder(t) == InOrder(u) && Nodes(t) == Nodes(u) && (Distinct(t) ==> Distinct(u))
    ensures InOrder(Plug(p, t)) == InOrder(Plug(p, u)) && Nodes(Plug(p, t)) == Nodes(Plug(p, u))
    ensures Distinct(Plug(p, t)) ==> Distinct(Plug(p, u))
  {
    PlugInOrder(p, t);
    PlugInOrder(p, u);
    PlugNodes(p, t);
    PlugNodes(p, u);
    PlugDistinct(p, t);
    PlugDistinct(p, u);
  }

  lemma {:induction false} RebalanceSame<N>(p: Path<N>, t: Shape<N>)
    ensures InOrder(Rebalance(p, t)) == InOrder(Plug(p, t)) && Nodes(Rebalance(p, t)) == Nodes(Plug(p, t))
    ensures Distinct(Plug(p, t)) ==> Distinct(Rebalance(p, t))
  {
    hide BalanceAt, InOrder, Nodes, Distinct;
    match p
    case Top =>
    case InLeft(up, n, r) =>
      BalanceAtSame(t, n, r);
      PlugSame(up, Branch(t, n, r), BalanceAt(t, n, r));
      RebalanceSame(up, BalanceAt(t, n, r));
    case InRight(up, l, n) =>
      BalanceAtSame(l, n, t);
      PlugSame(up, Branch(l, n, t), BalanceAt(l, n, t));
      RebalanceSame(up, BalanceAt(l, n, t));
  }

  // ---------- removal ----------

  /** From the child on side `s`, the path keeps to the other side: it leads to the neighbour in order. */
  predicate Inward<N>(s: Side, q: Path<N>) {
    match q
    case Top => true
    case InLeft(up, n, r) => s == Right && Inward(s, up)
    case InRight(up, l, n) => s == Left && Inward(s, up)
  }

  lemma {:induction false} InwardEdge<N>(s: Side, q: Path<N>)
    requires Inward(s, q)
    ensures if s == Left then After(q) == [] else Before(q) == []
  {
    if q != Top { InwardEdge(s, q.up); }
  }

  /** The path to the neighbour of the node at the end of `p`, through its child on side `s`. */
  function Through<N>(q: Path<N>, s: Side, p: Path<N>, n: N, far: Shape<N>): Path<N> {
    Append(q, Step(s, p, n, far))
  }

  lemma PlugThrough<N>(q: Path<N>, s: Side, p: Path<N>, n: N, far: Shape<N>, x: Shape<N>)
    ensures Plug(Through(q, s, p, n, far), x) == Plug(p, Join(s, Plug(q, x), n, far))
    ensures Spine(Through(q, s, p, n, far)) == Spine(q) + Spine(p) + {n}
  {
    PlugAppend(q, Step(s, p, n, far), x);
    StepJoin(Other(s), p, far, n, Plug(q, x));
  }

  lemma ThroughEnd<N>(q: Path<N>, s: Side, p: Path<N>, n: N, far: Shape<N>)
    ensures var path := Through(q, s, p, n, far); path != Top && path.node == if q.Top? then n else q.node
  {
  }

  lemma {:induction false} SameBalance<N>(q: Path<N>, s: Side, p: Path<N>, n: N, m: N, far: Shape<N>, h: nat)
    requires PathBalanced(Through(q, s, p, n, far), h)
    ensures PathBalanced(Through(q, s, p, m, far), h)
  {
    match q
    case Top =>
    case InLeft(up, k, r) => SameBalance(up, s, p, n, m, far, 1 + Max(h, Height(r)));
    case InRight(up, l, k) => SameBalance(up, s, p, n, m, far, 1 + Max(Height(l), h));
  }

  /** Taking the neighbour `m` of the node `n` out of the tree. */
  lemma TakeNeighbour<N>(p: Path<N>, n: N, far: Shape<N>, s: Side, q: Path<N>, x: Shape<N>, m: N)
    requires Distinct(Plug(p, Join(s, Plug(q, Join(s, x, m, Leaf)), n, far)))
    ensures var t, t' := Plug(p, Join(s, Plug(q, Join(s, x, m, Leaf)), n, far)), Plug(p, Join(s, Plug(q, x), n, far));
      Distinct(t') && Nodes(t') == Nodes(t) - {m} && m in Nodes(t) && m != n && n in Nodes(t)
    ensures Distinct(x) && Nodes(x) <= Nodes(Join(s, x, m, Leaf)) - {m}
  {
    hide Nodes, PathNodes, PathDistinct, Distinct, Plug, Join, Height;
    var y := Join(s, x, m, Leaf);
    NoNodes<N>();
    JoinNodes(s, x, m, Leaf);
    PlugNodes(q, y);
    PlugDistinct(q, y);
    PlugNodes(q, x);
    PlugDistinct(q, x);
    JoinNodes(s, Plug(q, y), n, far);
    JoinNodes(s, Plug(q, x), n, far);
    PlugNodes(p, Join(s, Plug(q, y), n, far));
    PlugDistinct(p, Join(s, Plug(q, y), n, far));
    PlugNodes(p, Join(s, Plug(q, x), n, far));
    PlugDistinct(p, Join(s, Plug(q, x), n, far));
  }

  /** The neighbour in the place of the node. */
  lemma PutNeighbour<N>(p: Path<N>, n: N, far: Shape<N>, s: Side, y: Shape<N>, m: N)
    requires Distinct(Plug(p, Join(s, y, n, far))) && m !in Nodes(Plug(p, Join(s, y, n, far)))
    ensures var t, t' := Plug(p, Join(s, y, n, far)), Plug(p, Join(s, y, m, far));
      Distinct(t') && Nodes(t') == Nodes(t) - {n} + {m}
  {
    hide Nodes, PathNodes, PathDistinct, Distinct, Plug, Join, Height;
    JoinNodes(s, y, n, far);
    JoinNodes(s, y, m, far);
    PlugNodes(p, Join(s, y, n, far));
    PlugDistinct(p, Join(s, y, n, far));
    PlugNodes(p, Join(s, y, m, far));
    PlugDistinct(p, Join(s, y, m, far));
  }

  lemma MoveLast<N>(p: seq<N>, b: seq<N>, i: seq<N>, m: N, f: seq<N>, z: seq<N>)
    ensures p + ((b + i + []) + [m] + f) + z == p + ((b + (i + [m] + []) + []) + f) + z
  {
    assert b + (i + [m] + []) + [] == (b + i + []) + [m];
  }

  lemma MoveFirst<N>(p: seq<N>, f: seq<N>, i: seq<N>, m: N, a: seq<N>, z: seq<N>)
    ensures p + (f + [m] + ([] + i + a)) + z == p + (f + ([] + ([] + [m] + i) + a)) + z
  {
    assert [] + ([] + [m] + i) + a == [m] + ([] + i + a);
    assert f + [m] + ([] + i + a) == f + ([] + ([] + [m] + i) + a);
  }

  lemma NeighbourOrder<N>(p: Path<N>, n: N, far: Shape<N>, s: Side, q: Path<N>, x: Shape<N>, m: N)
    requires Inward(s, q)
    ensures var near := Plug(q, Join(s, x, m, Leaf));
      InOrder(Plug(p, Join(s, Plug(q, x), m, far))) == Before(p)
        + (if s == Left then InOrder(near) + InOrder(far) else InOrder(far) + InOrder(near)) + After(p)
  {
    hide Before, After, Plug, Inward, InOrder, Join;
    var y := Join(s, x, m, Leaf);
    InwardEdge(s, q);
    PlugInOrder(q, y);
    PlugInOrder(q, x);
    PlugInOrder(p, Join(s, Plug(q, x), m, far));
    JoinOrder(s, x, m, Leaf);
    JoinOrder(s, Plug(q, x), m, far);
    NoNodes<N>();
    MoveLast(Before(p), Before(q), InOrder(x), m, InOrder(far), After(p));
    MoveFirst(Before(p), InOrder(far), InOrder(x), m, After(q), After(p));
  }

  lemma JoinOrder<N>(s: Side, near: Shape<N>, n: N, far: Shape<N>)
    ensures InOrder(Join(s, near, n, far)) ==
      if s == Left then InOrder(near) + [n] + InOrder(far) else InOrder(far) + [n] + InOrder(near)
  {
  }

  lemma NeighbourBalanced<N>(p: Path<N>, n: N, far: Shape<N>, s: Side, q: Path<N>, x: Shape<N>, m: N)
    requires Balanced(Plug(p, Join(s, Plug(q, Join(s, x, m, Leaf)), n, far)))
    ensures Balanced(Rebalance(Through(q, s, p, m, far), x))
  {
    hide Plug, Rebalance, PathBalanced, Through;
    var y := Join(s, x, m, Leaf);
    PlugThrough(q, s, p, n, far, y);
    PlugBalanced(Through(q, s, p, n, far), y);
    SameBalance(q, s, p, n, m, far, Height(y));
    RebalanceBalances(Through(q, s, p, m, far), x, Height(y));
  }

  /** Exactly one node went, and the others keep their order. */
  ghost predicate Without<N>(t: Shape<N>, n: N, t': Shape<N>) {
    && Distinct(t') && n in Nodes(t) && Nodes(t') == Nodes(t) - {n}
    && exists i: nat :: i < |InOrder(t)| && InOrder(t)[i] == n && InOrder(t') == InOrder(t)[..i] + InOrder(t)[i + 1..]
  }

  /** Dropping a node without children. */
  lemma LeafDetached<N>(p: Path<N>, n: N)
    requires var t := Plug(p, Branch(Leaf, n, Leaf)); Distinct(t) && Balanced(t)
    ensures Without(Plug(p, Branch(Leaf, n, Leaf)), n, Plug(p, Leaf)) && Balanced(Rebalance(p, Leaf))
  {
    hide Nodes, PathNodes, PathDistinct, Distinct, Plug, InOrder, Before, After, Balanced, Rebalance, PathBalanced;
    var x, t, u: Shape<N> := Branch(Leaf, n, Leaf), Plug(p, Branch(Leaf, n, Leaf)), Leaf;
    Single(n);
    NoNodes<N>();
    PlugNodes(p, x);
    PlugNodes(p, u);
    PlugDistinct(p, x);
    PlugDistinct(p, u);
    PlugInOrder(p, x);
    PlugInOrder(p, u);
    PlugBalanced(p, x);
    RebalanceBalances(p, u, 1);
    MiddleGone(Before(p), n, After(p));
    assert InOrder(Plug(p, u)) == Before(p) + After(p);
    assert InOrder(t)[|Before(p)|] == n;
  }

  lemma MiddleGone<N>(a: seq<N>, n: N, b: seq<N>)
    ensures var s := a + [n] + b; |a| < |s| && s[|a|] == n && a + b == s[..|a|] + s[|a| + 1..]
  {
    var s := a + [n] + b;
    assert s[..|a|] == a && s[|a| + 1..] == b;
  }

  lemma DropMiddle<N>(a: seq<N>, f: seq<N>, n: N, g: seq<N>, b: seq<N>)
    ensures var o, o', i := a + (f + [n] + g) + b, a + (f + g) + b, |a| + |f|;
      i < |o| && o[i] == n && o' == o[..i] + o[i + 1..]
  {
    var o, i := a + (f + [n] + g) + b, |a| + |f|;
    assert o[..i] == a + f;
    assert o[i + 1..] == g + b;
  }

  lemma NeighbourDrop<N>(p: Path<N>, n: N, far: Shape<N>, s: Side, q: Path<N>, x: Shape<N>, m: N)
    requires Inward(s, q)
    ensures var o, o' := InOrder(Plug(p, Join(s, Plug(q, Join(s, x, m, Leaf)), n, far))),
      InOrder(Plug(p, Join(s, Plug(q, x), m, far)));
      exists i: nat :: i < |o| && o[i] == n && o' == o[..i] + o[i + 1..]
  {
    hide Plug, InOrder, Before, After, Inward, Join;
    var near := Plug(q, Join(s, x, m, Leaf));
    NeighbourOrder(p, n, far, s, q, x, m);
    PlugInOrder(p, Join(s, near, n, far));
    JoinOrder(s, near, n, far);
    var f, g := if s == Left then InOrder(near) else InOrder(far), if s == Left then InOrder(far) else InOrder(near);
    DropMiddle(Before(p), f, n, g, After(p));
  }

  /** Dropping a node whose neighbour took its place. */
  lemma NeighbourDetached<N>(p: Path<N>, n: N, far: Shape<N>, s: Side, q: Path<N>, x: Shape<N>, m: N)
    requires var t := Plug(p, Join(s, Plug(q, Join(s, x, m, Leaf)), n, far)); Distinct(t) && Balanced(t) && Inward(s, q)
    ensures var path := Through(q, s, p, m, far);
      && Without(Plug(p, Join(s, Plug(q, Join(s, x, m, Leaf)), n, far)), n, Plug(path, x))
      && Balanced(Rebalance(path, x))
    ensures n !in Nodes(Plug(Through(q, s, p, m, far), x)) && (q != Top ==> q.node != n)
  {
    hide Nodes, PathNodes, PathDistinct, Distinct, Plug, InOrder, Balanced, Rebalance, PathBalanced, Through, Inward,
      Join;
    var near := Plug(q, Join(s, x, m, Leaf));
    TakeNeighbour(p, n, far, s, q, x, m);
    PutNeighbour(p, n, far, s, Plug(q, x), m);
    PlugThrough(q, s, p, m, far, x);
    NeighbourDrop(p, n, far, s, q, x, m);
    NeighbourBalanced(p, n, far, s, q, x, m);
    PathEnd(q);
    PlugNodes(q, Join(s, x, m, Leaf));
    PlugDistinct(p, Join(s, near, n, far));
    JoinNodes(s, near, n, far);
  }

  // ---------- the height bound ----------

  function Fib(n: nat): nat { if n < 2 then n else Fib(n - 1) + Fib(n - 2) }

  lemma {:induction false} FibMonotone(m: nat, n: nat)
    requires m <= n
    ensures Fib(m) <= Fib(n)
    decreases n
  {
    if m < n {
      FibMonotone(m, n - 1);
      if n == 2 { assert Fib(2) == Fib(1) + Fib(0); }
    }
  }

  lemma FibBranch(a: nat, b: nat)
    requires -1 <= a - b <= 1
    ensures Fib(a + 2) + Fib(b + 2) >= Fib(Max(a, b) + 3)
  {
    var h := Max(a, b);
    assert Fib(h + 3) == Fib(h + 2) + Fib(h + 1);
    FibMonotone(h + 1, a + 2);
    FibMonotone(h + 1, b + 2);
  }

  /** A balanced tree of height h has at least Fib(h + 2) - 1 nodes, so its height is logarithmic in its size. */
  lemma {:induction false} HeightBound<N>(t: Shape<N>)
    requires Balanced(t)
    ensures Size(t) + 1 >= Fib(Height(t) + 2)
  {
    if t.Leaf? {
      assert Fib(2) == Fib(1) + Fib(0);
    } else {
      hide Fib;
      HeightBound(t.left);
      HeightBound(t.right);
      FibBranch(Height(t.left), Height(t.right));
      assert Height(t) + 2 == Max(Height(t.left), Height(t.right)) + 3;
    }
  }
}
