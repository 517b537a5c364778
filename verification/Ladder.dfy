/** The Montgomery ladder in co-Z coordinates, on word arrays: which multiple of the point it leaves, and for which
    scalars it loses the point. */
module Ladder {
  import opened Numbers
  import opened Words
  import opened Vli
  import opened Field
  import opened CoZ
  import opened Pairs
  import opened Groups
  import ModInv
  import opened Points

  // ---------- the scalars the ladder cannot follow ----------

  /** The rung for the prefix m starts from m * P and (m + 1) * P; it breaks down when one of them or their sum is
      zero, for a point of order n. */
  predicate Collides(m: nat, n: nat)
    requires n > 0
  {
    (2 * m + 1) % n == 0 || m % n == 0 || (m + 1) % n == 0
  }

  /** The rung for bit `i` of the scalar `e` breaks down. */
  ghost predicate BreaksAt(e: nat, n: nat, i: nat)
    requires n > 0
  {
    Collides(Prefix(e, i + 1), n)
  }

  /** No rung for a bit of `e` from `lo` to below `hi` breaks down. */
  ghost predicate Clean(e: nat, n: nat, lo: nat, hi: nat)
    requires n > 0
  {
    forall i: nat :: lo <= i < hi ==> !BreaksAt(e, n, i)
  }

  lemma CleanStep(e: nat, n: nat, i: nat, hi: nat)
    requires n > 0 && i < hi
    ensures Clean(e, n, i, hi) <==> Clean(e, n, i + 1, hi) && !BreaksAt(e, n, i)
  {
    hide BreaksAt;
  }

  /** The scalar the ladder is run on in place of k. */
  ghost function Regular(k: nat, n: nat, bits: nat): nat {
    if k + n >= Pow(2, bits) then k + n else k + 2 * n
  }

  /** The secrets for which the ladder loses the point: 0 and 1, or n - 2 and n - 1, by the scalar chosen for them. */
  ghost predicate Degenerate(k: nat, n: nat, bits: nat) {
    if k + n < Pow(2, bits) then k <= 1 else k + 2 >= n
  }

  lemma PrefixBounds(e: nat, i: nat)
    ensures Prefix(e, i) * Pow(2, i) <= e < Prefix(e, i) * Pow(2, i) + Pow(2, i)
  {
    hide Pow;
    var q := Pow(2, i);
    assert e == q * (e / q) + e % q;
  }

  lemma SmallMultiple(x: nat, n: nat)
    requires n > 0 && x > 0
    ensures x % n == 0 && x < 2 * n ==> x == n
    ensures x % n == 0 && x < 4 * n && x % 2 == 1 && n % 2 == 1 ==> x == n || x == 3 * n
  {
    var q := x / n;
    assert x % n == 0 ==> x == n * q;
    if x % n == 0 {
      if q <= 0 { MulMonotone(n, q, 0); }
      if q >= 4 { MulMonotone(n, 4, q); }
    }
  }

  /** Dropping three bits or more leaves too little to meet the order. */
  lemma HighRungs(e: nat, m: nat, q: nat, n: nat)
    requires n > 4 && q >= 8 && m * q <= e < 3 * n && m > 0
    ensures !Collides(m, n)
  {
    MulMonotone(m, 8, q);
    SmallMultiple(2 * m + 1, n);
    SmallMultiple(m, n);
    SmallMultiple(m + 1, n);
  }

  lemma SecondRung(e: nat, m: nat, n: nat)
    requires n > 4 && n % 2 == 1 && 4 * m <= e < 4 * m + 4 && e < 3 * n && m > 0
    ensures Collides(m, n) <==> 2 * n - 2 <= e <= 2 * n + 1
  {
    if 2 * n - 2 <= e <= 2 * n + 1 {
      assert 2 * m + 1 == n;
      DivModUnique(n, n, 1, 0);
    } else {
      SmallMultiple(2 * m + 1, n);
      SmallMultiple(m, n);
      SmallMultiple(m + 1, n);
    }
  }

  lemma LastRung(e: nat, m: nat, n: nat)
    requires n > 4 && n % 2 == 1 && 2 * m <= e < 2 * m + 2 && n < e < 3 * n - 1 && Collides(m, n)
    ensures 2 * n - 2 <= e <= 2 * n + 1
  {
    SmallMultiple(2 * m + 1, n);
    SmallMultiple(m, n);
    SmallMultiple(m + 1, n);
  }

  /** For every secret below the order, some rung breaks down exactly for the degenerate ones. */
  lemma DegenerateExactly(k: nat, n: nat, bits: nat)
    requires n > 4 && n % 2 == 1 && IsBitLength(n, bits) && k < n
    ensures Clean(Regular(k, n, bits), n, 0, bits) <==> !Degenerate(k, n, bits)
  {
    hide Pow, Collides, Prefix, IsBitLength;
    var e := Regular(k, n, bits);
    RegularRange(k, n, bits);
    assert Degenerate(k, n, bits) <==> 2 * n - 2 <= e <= 2 * n + 1;
    forall i: nat | i < bits ensures BreaksAt(e, n, i) ==> Degenerate(k, n, bits) {
      RungCases(e, n, bits, i);
    }
    if Degenerate(k, n, bits) {
      RungCases(e, n, bits, 1);
      assert BreaksAt(e, n, 1);
    }
  }

  lemma RegularRange(k: nat, n: nat, bits: nat)
    requires n > 4 && n % 2 == 1 && IsBitLength(n, bits) && k < n
    ensures bits > 2 && n < Pow(2, bits) <= Regular(k, n, bits) < 3 * n - 1
  {
    hide Pow;
    PowZero(2);
    PowStep(2, 0);
    PowStep(2, 1);
    if bits <= 2 { PowMonotone(2, bits, 2); }
    PowStep(2, bits - 1);
    PowStep(2, bits - 2);
    LeadingPower(k, n, Pow(2, bits - 2));
  }

  lemma LeadingPower(k: nat, n: nat, q: nat)
    requires k < n && n % 2 == 1 && 2 * q <= n
    ensures k + n < 4 * q ==> k + 1 < n
  {
  }

  lemma RungCases(e: nat, n: nat, bits: nat, i: nat)
    requires n > 4 && n % 2 == 1 && i < bits && n < Pow(2, bits) <= e < 3 * n - 1
    ensures BreaksAt(e, n, i) ==> 2 * n - 2 <= e <= 2 * n + 1
    ensures i == 1 && 2 * n - 2 <= e <= 2 * n + 1 ==> BreaksAt(e, n, i)
  {
    hide Pow, Collides, Prefix;
    var m, q := Prefix(e, i + 1), Pow(2, i + 1);
    PrefixBounds(e, i + 1);
    PowMonotone(2, i + 1, bits);
    assert m > 0 by { if m == 0 { MulEqual(q, m, 0); } }
    PowZero(2);
    PowStep(2, 0);
    PowStep(2, 1);
    PowStep(2, 2);
    if i == 0 {
      if Collides(m, n) { LastRung(e, m, n); }
    } else if i == 1 {
      SecondRung(e, m, n);
    } else {
      PowMonotone(2, 3, i + 1);
      HighRungs(e, m, q, n);
    }
  }

  // ---------- the state of the ladder ----------

  /** What the two pairs of coordinate arrays hold: two points in a common Z, or, once the point is lost, the pair
      (t^2, t^3) in the one with index `j` and zeros in the other. */
  datatype Progress<G> = Live(Z: int, r: seq<G>) | Lost(t: int, j: nat)

  ghost predicate Holding<G>(cv: Curve<G>, Rx: seq<array<nat>>, Ry: seq<array<nat>>, st: Progress<G>)
    requires |Rx| == |Ry| == 2
    reads Rx, Ry
  {
    match st
    case Live(Z, r) =>
      && |r| == 2 && Proper(cv, r[0], Z) && Proper(cv, r[1], Z)
      && Stands(cv, Rx[0], Ry[0], r[0], Z) && Stands(cv, Rx[1], Ry[1], r[1], Z)
    case Lost(t, j) =>
      && j <= 1
      && Residue(W(cv), Rx[j], cv.words, t * t, cv.p) && Residue(W(cv), Ry[j], cv.words, t * t * t, cv.p)
      && Residue(W(cv), Rx[1 - j], cv.words, 0, cv.p) && Residue(W(cv), Ry[1 - j], cv.words, 0, cv.p)
  }

  /** The coordinates with which the pairs with index `a` and `1 - a` enter an addition. */
  datatype Quad = Quad(x1: int, y1: int, x2: int, y2: int)

  ghost function Entering<G>(cv: Curve<G>, st: Progress<G>, a: nat): Quad
    requires a <= 1 && (st.Live? ==> |st.r| == 2)
  {
    match st
    case Live(Z, r) =>
      var x, y := JX(cv, r[a], Z), JY(cv, r[a], Z);
      if cv.x(r[a]) != cv.x(r[1 - a]) then Quad(x, y, JX(cv, r[1 - a], Z), JY(cv, r[1 - a], Z)) else Quad(x, y, x, -y)
    case Lost(t, j) =>
      if j == a then Quad(t * t, t * t * t, 0, 0) else Quad(0, 0, t * t, t * t * t)
  }

  ghost predicate Held<G>(cv: Curve<G>, Rx: seq<array<nat>>, Ry: seq<array<nat>>, a: nat, q: Quad)
    requires |Rx| == |Ry| == 2 && a <= 1
    reads Rx, Ry
  {
    && Residue(W(cv), Rx[a], cv.words, q.x1, cv.p) && Residue(W(cv), Ry[a], cv.words, q.y1, cv.p)
    && Residue(W(cv), Rx[1 - a], cv.words, q.x2, cv.p) && Residue(W(cv), Ry[1 - a], cv.words, q.y2, cv.p)
  }

  lemma EnteringHeld<G(!new)>(cv: Curve<G>, Rx: seq<array<nat>>, Ry: seq<array<nat>>, st: Progress<G>, a: nat)
    requires |Rx| == |Ry| == 2 && a <= 1 && Law(cv) && Holding(cv, Rx, Ry, st)
    requires st.Live? ==> st.r[0] != st.r[1]
    ensures Held(cv, Rx, Ry, a, Entering(cv, st, a))
  {
    hide Law, Residue, JX, JY;
    if st.Live? && cv.x(st.r[a]) == cv.x(st.r[1 - a]) {
      var s, t := st.r[a], st.r[1 - a];
      SameX(cv, t, s);
      OppositeY(cv, s, st.Z);
      SameJX(cv, s, t, st.Z);
      ResidueCong(W(cv), Ry[1 - a], cv.words, JY(cv, t, st.Z), -JY(cv, s, st.Z), cv.p);
    }
  }

  lemma SameJX<G>(cv: Curve<G>, s: G, t: G, Z: int)
    requires cv.x(s) == cv.x(t)
    ensures JX(cv, s, Z) == JX(cv, t, Z)
  {
  }

  lemma OppositeY<G(!new)>(cv: Curve<G>, t: G, Z: int)
    requires Law(cv) && t != cv.gr.zero
    ensures cv.p > 0 && Cong(JY(cv, cv.gr.neg(t), Z), -JY(cv, t, Z), cv.p)
  {
    hide Law, Cong;
    LawParts(cv);
    Negated(cv, t);
    var z3, y, u := Z * Z * Z, cv.y(t), cv.y(cv.gr.neg(t));
    CongScale(z3, u, 0 - y, cv.p);
    MulDistrib(z3, 0 - y, y);
    assert z3 * u == JY(cv, cv.gr.neg(t), Z) && z3 * y == JY(cv, t, Z);
  }

  // ---------- XYcZ_addC ----------

  ghost function AfterC<G>(cv: Curve<G>, st: Progress<G>, nb: nat): Progress<G>
    requires nb <= 1 && (st.Live? ==> |st.r| == 2)
  {
    match st
    case Live(Z, r) =>
      var s, t := r[1 - nb], r[nb];
      if cv.x(s) != cv.x(t) then
        Live(NextZ(cv, s, t, Z), r[1 - nb := cv.gr.add(s, cv.gr.neg(t))][nb := cv.gr.add(s, t)])
      else
        Lost(2 * JY(cv, s, Z), nb)
    case Lost(_, _) => Lost(0, nb)
  }

  ghost function OutC(q: Quad): Quad {
    Quad(SumX(q.x1, q.x2, -q.y2 - q.y1), SumY(q.x1, q.y1, q.x2, -q.y2 - q.y1),
         SumX(q.x1, q.x2, q.y2 - q.y1), SumY(q.x1, q.y1, q.x2, q.y2 - q.y1))
  }

  /** Equal x-coordinates and opposite y-coordinates give zeros and a pair (t^2, t^3). */
  lemma OppositeC(x: int, y: int)
    ensures OutC(Quad(x, y, x, -y)) == Quad(0, 0, (2 * y) * (2 * y), (2 * y) * (2 * y) * (2 * y))
  {
    assert x - x == 0;
    assert ScaledX(x, x) == 0 && ScaledY(x, y, x) == 0;
    assert (-y - y) * (0 - (-y - y) * (-y - y)) == (2 * y) * (2 * y) * (2 * y);
  }

  /** A pair (t^2, t^3) and zeros give zeros, in either order. */
  lemma LostC(t: int)
    ensures OutC(Quad(t * t, t * t * t, 0, 0)) == Quad(0, 0, 0, 0)
    ensures OutC(Quad(0, 0, t * t, t * t * t)) == Quad(0, 0, 0, 0)
  {
    var u, v := t * t, t * t * t;
    SixthPower(t);
    assert Times(0 - u, 0 - u) == u * u && Times(u - 0, u - 0) == u * u;
    assert ScaledX(u, 0) == v * v && ScaledX(0, u) == 0;
    assert ScaledY(u, v, 0) == v * (0 - v * v) && ScaledY(0, 0, u) == 0;
    assert Times(-v, -v) == v * v;
    assert (-v) * (v * v) == v * (0 - v * v);
  }

  lemma SixthPower(t: int)
    ensures (t * t) * ((t * t) * (t * t)) == (t * t * t) * (t * t * t)
  {
  }

  lemma DifferentPoints<G(!new)>(cv: Curve<G>, s: G, t: G)
    requires Law(cv) && s != cv.gr.zero && t != cv.gr.zero && cv.x(s) != cv.x(t)
    ensures cv.gr.add(s, t) != cv.gr.zero && cv.gr.add(s, cv.gr.neg(t)) != cv.gr.zero
  {
    hide Law, Abelian;
    Negated(cv, t);
    SumNonzero(cv, s, t);
    SumNonzero(cv, s, cv.gr.neg(t));
  }

  lemma OutCHeld<G(!new)>(cv: Curve<G>, Rx: seq<array<nat>>, Ry: seq<array<nat>>, st: Progress<G>, nb: nat)
    requires |Rx| == |Ry| == 2 && nb <= 1 && Law(cv) && (st.Live? ==> |st.r| == 2)
    requires st.Live? ==> Proper(cv, st.r[0], st.Z) && Proper(cv, st.r[1], st.Z)
    requires Held(cv, Rx, Ry, 1 - nb, OutC(Entering(cv, st, 1 - nb)))
    ensures Holding(cv, Rx, Ry, AfterC(cv, st, nb))
  {
    hide Law, Residue, JX, JY, SumX, SumY, NextZ, Cong;
    match st
    case Live(Z, r) =>
      var s, t := r[1 - nb], r[nb];
      var x, y := JX(cv, s, Z), JY(cv, s, Z);
      if cv.x(s) != cv.x(t) {
        var N := NextZ(cv, s, t, Z);
        var q := OutC(Entering(cv, st, 1 - nb));
        NextUnit(cv, s, t, Z);
        DifferentPoints(cv, s, t);
        AddCStands(cv, s, t, Z);
        StandsBy(cv, Rx[1 - nb], Ry[1 - nb], q.x1, q.y1, cv.gr.add(s, cv.gr.neg(t)), N);
        StandsBy(cv, Rx[nb], Ry[nb], q.x2, q.y2, cv.gr.add(s, t), N);
      } else {
        OppositeC(x, y);
      }
    case Lost(t, j) =>
      LostC(t);
  }

  /** The pairs of arrays and the modulus are all different. */
  predicate Separate(Rx: seq<array<nat>>, Ry: seq<array<nat>>, p: array<nat>) {
    |Rx| == |Ry| == 2 && FourArrays(Rx[0], Ry[0], Rx[1], Ry[1], p)
  }

  /** XYcZ_addC on the state of the ladder, whatever it is. */
  method AddCStep<G(!new)>(cv: Curve<G>, Rx: seq<array<nat>>, Ry: seq<array<nat>>, nb: nat, p: array<nat>,
                           ghost st: Progress<G>)
    requires Law(cv) && Modulus(W(cv), p, cv.words, cv.p) && nb <= 1 && Separate(Rx, Ry, p) && Holding(cv, Rx, Ry, st)
    requires st.Live? ==> st.r[0] != st.r[1]
    modifies Rx[0], Rx[1], Ry[0], Ry[1]
    ensures Holding(cv, Rx, Ry, AfterC(cv, st, nb))
  {
    hide Law, Residue, Modulus, SumX, SumY, AfterC, Entering;
    ghost var q := Entering(cv, st, 1 - nb);
    EnteringHeld(cv, Rx, Ry, st, 1 - nb);
    XYcZAddC(W(cv), Rx[1 - nb], Ry[1 - nb], Rx[nb], Ry[nb], p, cv.words, q.x1, q.y1, q.x2, q.y2, cv.p);
    OutCHeld(cv, Rx, Ry, st, nb);
  }

  // ---------- XYcZ_add ----------

  ghost function After<G>(cv: Curve<G>, st: Progress<G>, nb: nat): Progress<G>
    requires nb <= 1 && (st.Live? ==> |st.r| == 2)
  {
    match st
    case Live(Z, r) => Live(NextZ(cv, r[nb], r[1 - nb], Z), r[1 - nb := cv.gr.add(r[nb], r[1 - nb])])
    case Lost(t, _) => Lost(-(t * t * t), nb)
  }

  ghost function Out(q: Quad): Quad {
    Quad(ScaledX(q.x1, q.x2), ScaledY(q.x1, q.y1, q.x2),
         SumX(q.x1, q.x2, q.y2 - q.y1), SumY(q.x1, q.y1, q.x2, q.y2 - q.y1))
  }

  /** A pair (t^2, t^3) and zeros give such a pair and zeros. */
  lemma LostAdd(t: int)
    ensures var u := -(t * t * t);
      Out(Quad(t * t, t * t * t, 0, 0)) == Quad(u * u, u * u * u, 0, 0)
  {
    var u, v := t * t, t * t * t;
    SixthPower(t);
    assert Times(0 - u, 0 - u) == u * u;
    assert ScaledX(u, 0) == v * v && ScaledY(u, v, 0) == v * (0 - v * v);
    assert Times(0 - v, 0 - v) == v * v;
    assert (-v) * (-v) * (-v) == v * (0 - v * v) == (0 - v) * (v * v);
  }

  lemma OutHeld<G(!new)>(cv: Curve<G>, Rx: seq<array<nat>>, Ry: seq<array<nat>>, st: Progress<G>, nb: nat)
    requires |Rx| == |Ry| == 2 && nb <= 1 && Law(cv) && (if st.Live? then |st.r| == 2 else st.j == nb)
    requires st.Live? ==> Proper(cv, st.r[0], st.Z) && Proper(cv, st.r[1], st.Z) && cv.x(st.r[0]) != cv.x(st.r[1])
    requires Held(cv, Rx, Ry, nb, Out(Entering(cv, st, nb)))
    ensures Holding(cv, Rx, Ry, After(cv, st, nb))
  {
    hide Law, Residue, JX, JY, SumX, SumY, ScaledX, ScaledY, NextZ, Cong;
    match st
    case Live(Z, r) =>
      var s, t := r[nb], r[1 - nb];
      var N := NextZ(cv, s, t, Z);
      var q := Out(Entering(cv, st, nb));
      NextUnit(cv, s, t, Z);
      DifferentPoints(cv, s, t);
      AddStands(cv, s, t, Z);
      StandsBy(cv, Rx[nb], Ry[nb], q.x1, q.y1, s, N);
      StandsBy(cv, Rx[1 - nb], Ry[1 - nb], q.x2, q.y2, cv.gr.add(s, t), N);
    case Lost(t, j) =>
      LostAdd(t);
  }

  /** XYcZ_add on the state of the ladder. */
  method AddStep<G(!new)>(cv: Curve<G>, Rx: seq<array<nat>>, Ry: seq<array<nat>>, nb: nat, p: array<nat>,
                          ghost st: Progress<G>)
    requires Law(cv) && Modulus(W(cv), p, cv.words, cv.p) && nb <= 1 && Separate(Rx, Ry, p) && Holding(cv, Rx, Ry, st)
    requires if st.Live? then cv.x(st.r[0]) != cv.x(st.r[1]) else st.j == nb
    modifies Rx[0], Rx[1], Ry[0], Ry[1]
    ensures Holding(cv, Rx, Ry, After(cv, st, nb))
  {
    hide Law, Residue, Modulus, SumX, SumY, ScaledX, ScaledY, After, Entering;
    ghost var q := Entering(cv, st, nb);
    EnteringHeld(cv, Rx, Ry, st, nb);
    XYcZAdd(W(cv), Rx[nb], Ry[nb], Rx[1 - nb], Ry[1 - nb], p, cv.words, q.x1, q.y1, q.x2, q.y2, cv.p);
    OutHeld(cv, Rx, Ry, st, nb);
  }

  // ---------- a rung ----------

  lemma ZeroMod(k: int, n: nat)
    requires n > 0
    ensures k % n == 0 <==> Cong(k, 0, n)
  {
    CongIffMod(k, 0, n);
    DivModUnique(0, n, 0, 0);
  }

  /** Neighbouring multiples of a point that are not zero have equal x-coordinates exactly where the rung breaks
      down. */
  lemma Opposites<G(!new)>(cv: Curve<G>, r: seq<G>, m: nat, t: G)
    requires Law(cv) && t != cv.gr.zero && LadderState(cv.gr, r, m, t) && r[0] != cv.gr.zero && r[1] != cv.gr.zero
    ensures r[0] != r[1] && (cv.x(r[0]) == cv.x(r[1]) <==> Collides(m, cv.n))
    ensures !Cong(m, 0, cv.n) && !Cong(m + 1, 0, cv.n)
  {
    hide Law, Mul, Abelian, Cong, IsPrime;
    LawParts(cv);
    var n := cv.n;
    PointOrder(cv, t);
    ZeroMod(m, n);
    ZeroMod(m + 1, n);
    ZeroMod(2 * m + 1, n);
    assert m + (m + 1) == 2 * m + 1;
    MulZeroIff(cv.gr, m, n, t);
    MulZeroIff(cv.gr, m + 1, n, t);
    MulOpposite(cv.gr, m, m + 1, n, t);
    MulEqualIff(cv.gr, m + 1, m, n, t);
    if Cong(m + 1, m, n) {
      CongRefl(m, n);
      CongSub(m + 1, m, m, m, n);
      SmallNonzero(1, n);
    }
    SameX(cv, r[0], r[1]);
  }

  /** The sum and the difference of neighbouring multiples never have equal x-coordinates. */
  lemma SumAndDifference<G(!new)>(cv: Curve<G>, m: nat, t: G, sum: G, diff: G)
    requires Law(cv) && t != cv.gr.zero && sum == Mul(cv.gr, 2 * m + 1, t) && (diff == t || diff == cv.gr.neg(t))
    requires sum != cv.gr.zero && !Cong(m, 0, cv.n) && !Cong(m + 1, 0, cv.n)
    ensures cv.x(sum) != cv.x(diff)
  {
    hide Law, Mul, Abelian, Cong, IsPrime;
    LawParts(cv);
    var n := cv.n;
    PointOrder(cv, t);
    Negated(cv, t);
    MulOne(cv.gr, t);
    MulEqualIff(cv.gr, 2 * m + 1, 1, n, t);
    MulOpposite(cv.gr, 2 * m + 1, 1, n, t);
    if Cong(2 * m + 1, 1, n) {
      CongRefl(1, n);
      CongSub(2 * m + 1, 1, 1, 1, n);
      CongHalve(m, 0, n);
    }
    if Cong(2 * m + 1 + 1, 0, n) { CongHalve(m + 1, 0, n); }
    SameX(cv, sum, t);
  }

  lemma AfterCParts<G>(cv: Curve<G>, st: Progress<G>, nb: nat)
    requires nb <= 1 && st.Live? && |st.r| == 2
    ensures var c, s, t := AfterC(cv, st, nb), st.r[1 - nb], st.r[nb];
      if cv.x(s) != cv.x(t) then
        c.Live? && |c.r| == 2 && c.r[nb] == cv.gr.add(s, t) && c.r[1 - nb] == cv.gr.add(s, cv.gr.neg(t))
      else c.Lost? && c.j == nb
  {
    hide NextZ, JY;
  }

  lemma AfterParts<G>(cv: Curve<G>, st: Progress<G>, nb: nat)
    requires nb <= 1 && st.Live? && |st.r| == 2
    ensures var c := After(cv, st, nb);
      c.Live? && c.r == st.r[1 - nb := cv.gr.add(st.r[nb], st.r[1 - nb])]
  {
    hide NextZ;
  }

  /** XYcZ_addC loses the points exactly where the rung breaks down. */
  lemma AfterCLive<G(!new)>(cv: Curve<G>, st: Progress<G>, m: nat, t: G, nb: nat)
    requires Law(cv) && t != cv.gr.zero && nb <= 1
    requires st.Live? ==> LadderState(cv.gr, st.r, m, t) && Proper(cv, st.r[0], st.Z) && Proper(cv, st.r[1], st.Z)
    ensures var c := AfterC(cv, st, nb);
      && (c.Live? <==> st.Live? && !Collides(m, cv.n)) && (c.Lost? ==> c.j == nb)
      && (c.Live? ==> |c.r| == 2 && cv.x(c.r[0]) != cv.x(c.r[1]) && c.r[nb] == Mul(cv.gr, 2 * m + 1, t)
                      && c.r[1 - nb] == if nb == 0 then t else cv.gr.neg(t))
  {
    hide Law, Mul, Abelian, Collides, Unit;
    if st.Live? {
      hide AfterC;
      LawParts(cv);
      Opposites(cv, st.r, m, t);
      AfterCParts(cv, st, nb);
      if !Collides(m, cv.n) {
        var s, u := st.r[1 - nb], st.r[nb];
        assert s != cv.gr.zero && u != cv.gr.zero && cv.x(s) != cv.x(u) by {
          if nb == 0 { assert s == st.r[1] && u == st.r[0]; } else { assert s == st.r[0] && u == st.r[1]; }
        }
        LadderParts(cv.gr, st.r, m, t, nb);
        DifferentPoints(cv, s, u);
        SumAndDifference(cv, m, t, cv.gr.add(s, u), cv.gr.add(s, cv.gr.neg(u)));
      }
    }
  }

  lemma RungLive<G(!new)>(cv: Curve<G>, st: Progress<G>, m: nat, t: G, nb: nat)
    requires Law(cv) && nb <= 1 && st.Live? && LadderState(cv.gr, st.r, m, t) && AfterC(cv, st, nb).Live?
    ensures var st' := After(cv, AfterC(cv, st, nb), nb);
      st'.Live? && LadderState(cv.gr, st'.r, 2 * m + (1 - nb), t)
  {
    hide Law, Mul, Abelian, LadderState, AfterC, After;
    LawParts(cv);
    LadderLength(cv.gr, st.r, m, t);
    var c := AfterC(cv, st, nb);
    AfterCParts(cv, st, nb);
    AfterParts(cv, c, nb);
    LadderStep(cv.gr, st.r, m, t, nb);
    var sum, diff := c.r[nb], c.r[1 - nb];
    SameUpdates(c.r, st.r, nb, cv.gr.add(sum, diff));
  }

  lemma SameUpdates<G>(r: seq<G>, q: seq<G>, nb: nat, g: G)
    requires |r| == |q| == 2 && nb <= 1
    ensures r[1 - nb := g] == q[nb := r[nb]][1 - nb := g]
  {
    if nb == 0 {
      assert r[1 - nb := g] == [r[0], g];
      assert q[nb := r[nb]][1 - nb := g] == [r[0], g];
    } else {
      assert r[1 - nb := g] == [g, r[1]];
      assert q[nb := r[nb]][1 - nb := g] == [g, r[1]];
    }
  }

  lemma LadderLength<G>(gr: Group<G>, r: seq<G>, m: nat, t: G)
    requires LadderState(gr, r, m, t)
    ensures |r| == 2
  {
  }

  /** One rung: XYcZ_addC and then XYcZ_add. A live state goes on to the next prefix unless the rung breaks down; a lost
      one stays lost. */
  method Rung<G(!new)>(cv: Curve<G>, Rx: seq<array<nat>>, Ry: seq<array<nat>>, nb: nat, p: array<nat>,
                       ghost st: Progress<G>, ghost m: nat, ghost t: G) returns (ghost st': Progress<G>)
    requires Law(cv) && Modulus(W(cv), p, cv.words, cv.p) && nb <= 1 && Separate(Rx, Ry, p) && Holding(cv, Rx, Ry, st)
    requires t != cv.gr.zero && (st.Live? ==> LadderState(cv.gr, st.r, m, t))
    modifies Rx[0], Rx[1], Ry[0], Ry[1]
    ensures Holding(cv, Rx, Ry, st') && (st'.Live? <==> st.Live? && !Collides(m, cv.n))
    ensures st'.Live? ==> LadderState(cv.gr, st'.r, 2 * m + (1 - nb), t)
  {
    hide Law, Residue, Modulus, Mul, AfterC, Stands, Collides;
    if st.Live? { Opposites(cv, st.r, m, t); }
    AfterCLive(cv, st, m, t, nb);
    AddCStep(cv, Rx, Ry, nb, p, st);
    ghost var c := AfterC(cv, st, nb);
    AddStep(cv, Rx, Ry, nb, p, c);
    st' := After(cv, c, nb);
    if c.Live? { RungLive(cv, st, m, t, nb); }
  }

  // ---------- the start ----------

  /** The initial Z: NULL for one, or a random number between zero and p. */
  ghost predicate GoodZ<G>(cv: Curve<G>, initialZ: array?<nat>)
    reads if initialZ == null then {} else {initialZ}
  {
    initialZ != null ==>
      && Holds(initialZ, cv.words, Base(W(cv)))
      && 0 < Val(initialZ[..cv.words], Base(W(cv))) < cv.p
  }

  method StartZ<G(!new)>(cv: Curve<G>, initialZ: array?<nat>, p: array<nat>) returns (z: array<nat>, ghost Z: int)
    requires Law(cv) && GoodZ(cv, initialZ) && Modulus(W(cv), p, cv.words, cv.p)
    ensures fresh(z) && z.Length == cv.words && Residue(W(cv), z, cv.words, Z, cv.p) && Unit(Z, cv.p)
  {
    hide Law, Val, Cong;
    var w, n := W(cv), cv.words;
    LawParts(cv);
    if initialZ != null {
      z := ModInv.Copy(w, initialZ, n);
    } else {
      z := ModInv.Small(w, 1, n);
    }
    Z := Val(z[..n], Base(w));
    CongRefl(Z, cv.p);
    SmallNonzero(Z, cv.p);
  }

  /** XYcZ_initial_double: 2P in the first pair and P in the second, in a common Z. */
  method InitialDouble<G(!new)>(cv: Curve<G>, X1: array<nat>, Y1: array<nat>, X2: array<nat>, Y2: array<nat>,
                                initialZ: array?<nat>, p: array<nat>, ghost t: G) returns (ghost Z: int)
    requires Law(cv) && t != cv.gr.zero && GoodZ(cv, initialZ) && Modulus(W(cv), p, cv.words, cv.p)
    requires FourArrays(X1, Y1, X2, Y2, p) && Affinely(cv, X1, Y1, t) && cv.words <= X2.Length && cv.words <= Y2.Length
    modifies X1, Y1, X2, Y2
    ensures Proper(cv, t, Z) && Stands(cv, X1, Y1, cv.gr.add(t, t), Z) && Stands(cv, X2, Y2, t, Z)
  {
    hide Law, Residue, Modulus, JX, JY;
    var z, Z0 := StartZ(cv, initialZ, p);
    FieldSet(W(cv), X2, X1, cv.words, cv.x(t), cv.p);
    FieldSet(W(cv), Y2, Y1, cv.words, cv.y(t), cv.p);
    ScalePoint(cv, X1, Y1, z, p, t, Z0);
    Z := DoublePoint(cv, X1, Y1, z, p, t, Z0);
    ScalePoint(cv, X2, Y2, z, p, t, Z);
  }

  lemma StartState<G(!new)>(cv: Curve<G>, t: G)
    requires Law(cv) && t != cv.gr.zero
    ensures LadderState(cv.gr, [t, cv.gr.add(t, t)], 1, t) && cv.gr.add(t, t) != cv.gr.zero
  {
    hide Law, Abelian;
    LawParts(cv);
    YNonzero(cv, t);
    MulOne(cv.gr, t);
    assert Mul(cv.gr, 2, t) == cv.gr.add(t, Mul(cv.gr, 1, t));
  }

  // ---------- the end ----------

  /** The X that the pair with index `j` holds. */
  ghost function HeldX<G>(cv: Curve<G>, st: Progress<G>, j: nat): int
    requires j <= 1 && (st.Live? ==> |st.r| == 2)
  {
    match st
    case Live(Z, r) => JX(cv, r[j], Z)
    case Lost(t, i) => if i == j then t * t else 0
  }

  /** What the ladder has before its last addition: the sum, and beside it the point itself or its negative. */
  ghost predicate Closing<G>(cv: Curve<G>, st: Progress<G>, nb: nat, t: G) {
    && nb <= 1 && t != cv.gr.zero
    && if st.Lost? then st.j == nb
       else |st.r| == 2 && cv.x(st.r[0]) != cv.x(st.r[1]) && st.r[1 - nb] == if nb == 0 then t else cv.gr.neg(t)
  }

  /** The Y beside the sum, up to the sign that goes with `nb`; zero when the point is lost. */
  ghost function SideY<G>(cv: Curve<G>, st: Progress<G>, nb: nat, t: G): int {
    if st.Lost? then 0 else if nb == 0 then JY(cv, t, st.Z) else -JY(cv, t, st.Z)
  }

  lemma SideHeld<G(!new)>(cv: Curve<G>, Rx: seq<array<nat>>, Ry: seq<array<nat>>, st: Progress<G>, nb: nat, t: G)
    requires |Rx| == |Ry| == 2 && Law(cv) && Holding(cv, Rx, Ry, st) && Closing(cv, st, nb, t)
    ensures Residue(W(cv), Rx[0], cv.words, HeldX(cv, st, 0), cv.p)
    ensures Residue(W(cv), Rx[1], cv.words, HeldX(cv, st, 1), cv.p)
    ensures Residue(W(cv), Ry[1 - nb], cv.words, SideY(cv, st, nb, t), cv.p)
  {
    hide Law, Residue, JX, JY;
    if st.Live? && nb == 1 {
      OppositeY(cv, t, st.Z);
      ResidueCong(W(cv), Ry[0], cv.words, JY(cv, st.r[0], st.Z), -JY(cv, t, st.Z), cv.p);
    }
  }

  /** The product inverted at the end. */
  ghost function Inverted<G>(cv: Curve<G>, st: Progress<G>, nb: nat, t: G): int
    requires st.Live? ==> |st.r| == 2
  {
    Times(Times(HeldX(cv, st, 1) - HeldX(cv, st, 0), SideY(cv, st, nb, t)), cv.x(t))
  }

  lemma InvertedUnit<G(!new)>(cv: Curve<G>, st: Progress<G>, nb: nat, t: G)
    requires Law(cv) && Closing(cv, st, nb, t)
    requires st.Live? ==> Proper(cv, st.r[0], st.Z) && Proper(cv, st.r[1], st.Z)
    ensures cv.p > 0 && (Cong(Inverted(cv, st, nb, t), 0, cv.p) <==> st.Lost? || cv.x(t) == 0)
  {
    hide Law, Cong, IsPrime, JX;
    LawParts(cv);
    CongRefl(0, cv.p);
    if st.Live? && cv.x(t) != 0 {
      var Z, d := st.Z, HeldX(cv, st, 1) - HeldX(cv, st, 0);
      Coordinates(cv, t);
      YNonzero(cv, t);
      SmallNonzero(cv.x(t), cv.p);
      SmallNonzero(cv.y(t), cv.p);
      NextUnit(cv, st.r[0], st.r[1], Z);
      NonzeroFactors(Z, Z, cv.p);
      NonzeroFactors(Z * Z, Z, cv.p);
      NonzeroFactors(cv.y(t), Z * Z * Z, cv.p);
      UnitSign(JY(cv, t, Z), cv.p);
      NonzeroFactors(d, SideY(cv, st, nb, t), cv.p);
      NonzeroFactors(d * SideY(cv, st, nb, t), cv.x(t), cv.p);
    }
  }

  lemma UnitSign(a: int, p: nat)
    requires p > 0 && !Cong(a, 0, p)
    ensures !Cong(-a, 0, p)
  {
    if Cong(-a, 0, p) { CongScale(-1, -a, 0, p); }
  }

  /** With the inverse `v` of the product, v * yP * Xb is the inverse of the Z that the last addition leads to. */
  lemma RecoveredInverse<G(!new)>(cv: Curve<G>, st: Progress<G>, nb: nat, t: G, v: int)
    requires Law(cv) && Closing(cv, st, nb, t) && st.Live? && cv.p > 0 && Cong(v * Inverted(cv, st, nb, t), 1, cv.p)
    ensures Cong(Times(Times(v, cv.y(t)), HeldX(cv, st, 1 - nb)) * NextZ(cv, st.r[nb], st.r[1 - nb], st.Z), 1, cv.p)
  {
    hide Law, Cong;
    Negated(cv, t);
    var d := HeldX(cv, st, 1) - HeldX(cv, st, 0);
    RecoveredProduct(v, cv.x(t), cv.y(t), st.Z, d, if nb == 0 then 1 else -1);
    assert HeldX(cv, st, 1 - nb) == cv.x(t) * (st.Z * st.Z);
  }

  lemma RecoveredProduct(v: int, x: int, y: int, Z: int, d: int, s: int)
    ensures (v * y) * (x * (Z * Z)) * (Z * (s * d)) == v * ((d * (s * (y * (Z * Z * Z)))) * x)
  {
  }

  /** The final 1/Z: yP * Xb / ((X1 - X0) * Yb * xP), before the last addition. */
  method RecoverZ<G(!new)>(cv: Curve<G>, Rx: seq<array<nat>>, Ry: seq<array<nat>>, nb: nat, px: array<nat>,
                           py: array<nat>, p: array<nat>, ghost st: Progress<G>, ghost t: G)
    returns (z: array<nat>, ghost i: int)
    requires Law(cv) && Modulus(W(cv), p, cv.words, cv.p) && Separate(Rx, Ry, p) && Holding(cv, Rx, Ry, st)
    requires Closing(cv, st, nb, t) && Affinely(cv, px, py, t)
    ensures fresh(z) && Residue(W(cv), z, cv.words, i, cv.p)
    ensures st.Lost? || cv.x(t) == 0 ==> i == 0
    ensures st.Live? && cv.x(t) != 0 ==>
      cv.p > 0 && Cong(i * NextZ(cv, st.r[nb], st.r[1 - nb], st.Z), 1, cv.p)
  {
    hide Law, Residue, Modulus, JX, JY, Times, Cong, HeldX, SideY, NextZ, IsPrime, Proper, Unit;
    var w, n, m := W(cv), cv.words, cv.p;
    ghost var x0, x1, yb, xb := HeldX(cv, st, 0), HeldX(cv, st, 1), SideY(cv, st, nb, t), HeldX(cv, st, 1 - nb);
    LawParts(cv);
    SideHeld(cv, Rx, Ry, st, nb, t);
    InvertedUnit(cv, st, nb, t);
    z := NewTemp(w, p, n, m);
    FieldSub(w, z, Rx[1], Rx[0], p, n, x1, x0, m);
    FieldMul(w, z, z, Ry[1 - nb], p, n, x1 - x0, yb, m);
    FieldMul(w, z, z, px, p, n, Times(x1 - x0, yb), cv.x(t), m);
    ghost var v := FieldInvert(w, z, p, n, Inverted(cv, st, nb, t), m);
    FieldMul(w, z, z, py, p, n, v, cv.y(t), m);
    FieldMul(w, z, z, Rx[1 - nb], p, n, Times(v, cv.y(t)), xb, m);
    i := Times(Times(v, cv.y(t)), xb);
    if st.Lost? || cv.x(t) == 0 {
      TimesZero(cv.y(t));
      TimesZero(xb);
    } else {
      RecoveredInverse(cv, st, nb, t, v);
    }
  }

  /** What EccPoint_mult gives for the scalar `e`: its multiple of the point, or zero when a rung breaks down or the
      point has x = 0, for which 1/Z cannot be recovered. */
  ghost function LadderPoint<G>(cv: Curve<G>, e: nat, rungs: nat, t: G): G
    requires cv.n > 0
  {
    if Clean(e, cv.n, 0, rungs) && cv.x(t) != 0 then Mul(cv.gr, e, t) else cv.gr.zero
  }

  lemma FirstHeld<G>(cv: Curve<G>, Rx: seq<array<nat>>, Ry: seq<array<nat>>, st: Progress<G>)
    requires |Rx| == |Ry| == 2 && Holding(cv, Rx, Ry, st)
    ensures SomeResidue(W(cv), Rx[0], cv.words, cv.p) && SomeResidue(W(cv), Ry[0], cv.words, cv.p)
    ensures st.Live? ==> |st.r| == 2 && Stands(cv, Rx[0], Ry[0], st.r[0], st.Z)
  {
    hide Residue;
  }

  lemma AfterZ<G>(cv: Curve<G>, st: Progress<G>, nb: nat)
    requires nb <= 1 && st.Live? && |st.r| == 2
    ensures var d := After(cv, st, nb);
      d.Live? && d.Z == NextZ(cv, st.r[nb], st.r[1 - nb], st.Z)
  {
    hide NextZ;
  }

  /** The last rung, with the return to affine coordinates. */
  method FinalRung<G(!new)>(cv: Curve<G>, Rx: seq<array<nat>>, Ry: seq<array<nat>>, nb: nat, px: array<nat>,
                            py: array<nat>, p: array<nat>, ghost st: Progress<G>, ghost m: nat, ghost t: G)
    requires Law(cv) && Modulus(W(cv), p, cv.words, cv.p) && nb <= 1 && Separate(Rx, Ry, p) && Holding(cv, Rx, Ry, st)
    requires t != cv.gr.zero && (st.Live? ==> LadderState(cv.gr, st.r, m, t)) && Affinely(cv, px, py, t)
    requires px !in Rx && px !in Ry && py !in Rx && py !in Ry
    modifies Rx[0], Rx[1], Ry[0], Ry[1]
    ensures cv.n > 0
    ensures var good := st.Live? && !Collides(m, cv.n) && cv.x(t) != 0;
      Affinely(cv, Rx[0], Ry[0], if good then Mul(cv.gr, 2 * m + (1 - nb), t) else cv.gr.zero)
  {
    hide Law, Residue, Modulus, Mul, AfterC, After, HeldX, Collides, Cong, NextZ, Stands, SomeResidue, HoldsPair;
    hide Carries;
    LawParts(cv);
    if st.Live? { Opposites(cv, st.r, m, t); }
    AfterCLive(cv, st, m, t, nb);
    AddCStep(cv, Rx, Ry, nb, p, st);
    ghost var c := AfterC(cv, st, nb);
    var z, i := RecoverZ(cv, Rx, Ry, nb, px, py, p, c, t);
    AddStep(cv, Rx, Ry, nb, p, c);
    ghost var d := After(cv, c, nb);
    FirstHeld(cv, Rx, Ry, d);
    ghost var good := c.Live? && cv.x(t) != 0;
    if c.Live? {
      RungLive(cv, st, m, t, nb);
      AfterZ(cv, c, nb);
    }
    ghost var u, Z := if good then d.r[0] else t, if good then d.Z else 0;
    Points.Coordinates(cv, u);
    if good { CarriesPoint(cv, Rx[0], Ry[0], u, Z); }
    ScaleBack(W(cv), Rx[0], Ry[0], z, p, cv.words, PairOf(cv, u), Z, i, good, cv.p);
    PairIsPoint(cv, Rx[0], Ry[0], if good then u else cv.gr.zero);
  }

  /** One pass of the loop, for bit `i` of the scalar `e`. */
  method BitRound<G(!new)>(cv: Curve<G>, Rx: seq<array<nat>>, Ry: seq<array<nat>>, scalar: array<nat>, sn: nat,
                           i: nat, p: array<nat>, ghost numBits: nat, ghost st: Progress<G>, ghost t: G)
    returns (ghost st': Progress<G>)
    requires Law(cv) && Modulus(W(cv), p, cv.words, cv.p) && Separate(Rx, Ry, p) && Holding(cv, Rx, Ry, st)
    requires Holds(scalar, sn, Base(W(cv))) && i < W(cv) * sn && i + 1 < numBits && t != cv.gr.zero
    requires scalar !in Rx && scalar !in Ry
    requires st.Live? ==> LadderState(cv.gr, st.r, Prefix(Effective(Val(scalar[..sn], Base(W(cv))), numBits), i + 1), t)
    modifies Rx[0], Rx[1], Ry[0], Ry[1]
    ensures Holding(cv, Rx, Ry, st') && cv.n > 0
    ensures var e := Effective(Val(scalar[..sn], Base(W(cv))), numBits);
      && (st'.Live? <==> st.Live? && !BreaksAt(e, cv.n, i))
      && (st'.Live? ==> LadderState(cv.gr, st'.r, Prefix(e, i), t))
  {
    hide Law, Residue, Modulus, Mul, Val, Base, Pow, Bit, Prefix, Effective, Collides, Holding, LadderState;
    LawParts(cv);
    ghost var s := Val(scalar[..sn], Base(W(cv)));
    ghost var e := Effective(s, numBits);
    var bit := TestBit(W(cv), scalar, i, sn);
    EffectiveBit(s, numBits, i);
    PrefixStep(e, i);
    st' := Rung(cv, Rx, Ry, if bit then 0 else 1, p, st, Prefix(e, i + 1), t);
  }

  /** The registers of the ladder: P and 2P. */
  method StartLadder<G(!new)>(cv: Curve<G>, px: array<nat>, py: array<nat>, initialZ: array?<nat>, p: array<nat>,
                              ghost t: G) returns (Rx: seq<array<nat>>, Ry: seq<array<nat>>, ghost st: Progress<G>)
    requires Law(cv) && Modulus(W(cv), p, cv.words, cv.p) && t != cv.gr.zero && Affinely(cv, px, py, t)
    requires GoodZ(cv, initialZ)
    ensures Separate(Rx, Ry, p) && fresh(Rx[0]) && fresh(Rx[1]) && fresh(Ry[0]) && fresh(Ry[1])
    ensures Holding(cv, Rx, Ry, st) && st.Live? && LadderState(cv.gr, st.r, 1, t)
  {
    hide Law, Residue, Modulus, Mul, GoodZ, LadderState, Unit;
    var w, n := W(cv), cv.words;
    var x0 := NewTemp(w, p, n, cv.p);
    var y0 := NewTemp(w, p, n, cv.p);
    var x1 := NewTemp(w, p, n, cv.p);
    var y1 := NewTemp(w, p, n, cv.p);
    Rx, Ry := [x0, x1], [y0, y1];
    FieldSet(w, x1, px, n, cv.x(t), cv.p);
    FieldSet(w, y1, py, n, cv.y(t), cv.p);
    ghost var Z := InitialDouble(cv, x1, y1, x0, y0, initialZ, p, t);
    StartState(cv, t);
    st := Live(Z, [t, cv.gr.add(t, t)]);
  }

  /** EccPoint_mult: the ladder over the low numBits - 1 bits of the scalar, below an implicit top bit. The result may
      be stored over the point. */
  method PointMult<G(!new)>(cv: Curve<G>, resultX: array<nat>, resultY: array<nat>, px: array<nat>, py: array<nat>,
                            scalar: array<nat>, sn: nat, initialZ: array?<nat>, numBits: nat, p: array<nat>,
                            ghost t: G)
    requires Law(cv) && Modulus(W(cv), p, cv.words, cv.p) && t != cv.gr.zero && Affinely(cv, px, py, t)
    requires Holds(scalar, sn, Base(W(cv))) && 2 <= numBits <= W(cv) * sn + 1 && GoodZ(cv, initialZ)
    requires resultX != resultY && cv.words <= resultX.Length && cv.words <= resultY.Length
    modifies resultX, resultY
    ensures cv.n > 0
    ensures var e := Effective(old(Val(scalar[..sn], Base(W(cv)))), numBits);
      Affinely(cv, resultX, resultY, LadderPoint(cv, e, numBits - 1, t))
  {
    hide Law, Residue, Modulus, Mul, Val, Base, Pow, Bit, Prefix, Effective, Holding, BreaksAt, Clean, GoodZ,
      LadderState;
    LawParts(cv);
    ghost var sw := scalar[..sn];
    ghost var e := Effective(Val(sw, Base(W(cv))), numBits);
    var Rx, Ry;
    ghost var st;
    Rx, Ry, st := StartLadder(cv, px, py, initialZ, p, t);
    EffectiveTop(Val(sw, Base(W(cv))), numBits);
    NoRungsYet(e, cv.n, numBits - 1);
    var i := numBits - 2;
    while i > 0
      invariant 0 <= i <= numBits - 2 && scalar[..sn] == sw && Affinely(cv, px, py, t)
      invariant Modulus(W(cv), p, cv.words, cv.p)
      invariant Holding(cv, Rx, Ry, st) && (st.Live? <==> Clean(e, cv.n, i + 1, numBits - 1))
      invariant st.Live? ==> LadderState(cv.gr, st.r, Prefix(e, i + 1), t)
    {
      CleanStep(e, cv.n, i, numBits - 1);
      st := BitRound(cv, Rx, Ry, scalar, sn, i, p, numBits, st, t);
      i := i - 1;
    }
    CleanStep(e, cv.n, 0, numBits - 1);
    FinalRound(cv, Rx, Ry, px, py, scalar, sn, p, numBits, st, t);
    FieldSet(W(cv), resultX, Rx[0], cv.words, cv.x(LadderPoint(cv, e, numBits - 1, t)), cv.p);
    FieldSet(W(cv), resultY, Ry[0], cv.words, cv.y(LadderPoint(cv, e, numBits - 1, t)), cv.p);
  }

  lemma NoRungsYet(e: nat, n: nat, hi: nat)
    requires n > 0
    ensures Clean(e, n, hi, hi)
  {
  }

  /** The last rung, for bit 0 of the scalar `e`. */
  method FinalRound<G(!new)>(cv: Curve<G>, Rx: seq<array<nat>>, Ry: seq<array<nat>>, px: array<nat>, py: array<nat>,
                             scalar: array<nat>, sn: nat, p: array<nat>, ghost numBits: nat, ghost st: Progress<G>,
                             ghost t: G)
    requires Law(cv) && Modulus(W(cv), p, cv.words, cv.p) && Separate(Rx, Ry, p) && Holding(cv, Rx, Ry, st)
    requires Holds(scalar, sn, Base(W(cv))) && 0 < W(cv) * sn && 1 < numBits && t != cv.gr.zero
    requires px !in Rx && px !in Ry && py !in Rx && py !in Ry && Affinely(cv, px, py, t)
    requires st.Live? ==> LadderState(cv.gr, st.r, Prefix(Effective(Val(scalar[..sn], Base(W(cv))), numBits), 1), t)
    modifies Rx[0], Rx[1], Ry[0], Ry[1]
    ensures cv.n > 0
    ensures var e := Effective(old(Val(scalar[..sn], Base(W(cv)))), numBits);
      var good := st.Live? && !BreaksAt(e, cv.n, 0) && cv.x(t) != 0;
      Affinely(cv, Rx[0], Ry[0], if good then Mul(cv.gr, e, t) else cv.gr.zero)
  {
    hide Law, Residue, Modulus, Mul, Val, Base, Pow, Bit, Prefix, Effective, Collides, Holding, LadderState;
    LawParts(cv);
    ghost var s := Val(scalar[..sn], Base(W(cv)));
    ghost var e := Effective(s, numBits);
    var bit := TestBit(W(cv), scalar, 0, sn);
    EffectiveBit(s, numBits, 0);
    PrefixStep(e, 0);
    WholePrefix(e);
    FinalRung(cv, Rx, Ry, if bit then 0 else 1, px, py, p, st, Prefix(e, 1), t);
  }

  // ---------- the multiple of a secret ----------

  /** The order of the curve in its words. */
  ghost predicate OrderWords<G>(cv: Curve<G>, order: array<nat>)
    reads order
  {
    && 0 < cv.nw && W(cv) * (cv.nw - 1) < cv.bits <= W(cv) * cv.nw
    && Holds(order, cv.nw, Base(W(cv))) && Val(order[..cv.nw], Base(W(cv))) == cv.n && IsBitLength(cv.n, cv.bits)
  }

  /** The scalar the words chosen by regularize_k stand for. */
  lemma RegularChoice(k: nat, n: nat, bits: nat, carry: bool, e: nat)
    requires carry <==> k + n >= Pow(2, bits)
    requires e == k + (if carry then 1 else 2) * n
    ensures e == Regular(k, n, bits)
  {
  }

  lemma RegularMultiple<G(!new)>(cv: Curve<G>, k: nat, t: G)
    requires Law(cv) && t != cv.gr.zero && k < cv.n && IsBitLength(cv.n, cv.bits)
    ensures LadderPoint(cv, Regular(k, cv.n, cv.bits), cv.bits, t)
         == if Degenerate(k, cv.n, cv.bits) || cv.x(t) == 0 then cv.gr.zero else Mul(cv.gr, k, t)
  {
    hide Law, Mul, Abelian, Pow, Clean, Degenerate, IsBitLength;
    LawParts(cv);
    PointOrder(cv, t);
    DegenerateExactly(k, cv.n, cv.bits);
    var e := Regular(k, cv.n, cv.bits);
    CongBy(e, k, cv.n, if e == k + cv.n then 1 else 2);
    MulCong(cv.gr, e, k, cv.n, t);
  }

  /** The scalar for a secret: regularize_k, and the choice between k + n and k + 2n. */
  method ChooseScalar<G(!new)>(cv: Curve<G>, k: array<nat>, order: array<nat>) returns (scalar: array<nat>)
    requires OrderWords(cv, order) && Holds(k, cv.nw, Base(W(cv))) && Val(k[..cv.nw], Base(W(cv))) < cv.n
    ensures fresh(scalar) && Holds(scalar, cv.nw, Base(W(cv)))
    ensures Effective(Val(scalar[..cv.nw], Base(W(cv))), cv.bits + 1)
         == Regular(Val(k[..cv.nw], Base(W(cv))), cv.n, cv.bits)
  {
    hide Val, Base, Pow, IsBitLength, Effective, Regular;
    var w, nw := W(cv), cv.nw;
    ghost var kw, ow := k[..nw], order[..nw];
    var tmp := new nat[nw];
    var s := new nat[nw];
    var carry := RegularizeK(w, k, tmp, s, order, nw, cv.bits);
    assert k[..nw] == kw && order[..nw] == ow;
    ghost var kv := Val(kw, Base(w));
    RegularChoice(kv, cv.n, cv.bits, carry, kv + (if carry then 1 else 2) * cv.n);
    scalar := if carry then tmp else s;
  }

  /** k * P for a secret below the order, as signing and key generation compute it: regularize_k, then EccPoint_mult.
      For 0 and 1, or n - 2 and n - 1, whichever the length of k + n picks, the result is zero. */
  method RegularMult<G(!new)>(cv: Curve<G>, resultX: array<nat>, resultY: array<nat>, px: array<nat>, py: array<nat>,
                              k: array<nat>, order: array<nat>, initialZ: array?<nat>, p: array<nat>, ghost t: G)
    requires Law(cv) && Modulus(W(cv), p, cv.words, cv.p) && OrderWords(cv, order)
    requires t != cv.gr.zero && Affinely(cv, px, py, t) && GoodZ(cv, initialZ)
    requires Holds(k, cv.nw, Base(W(cv))) && Val(k[..cv.nw], Base(W(cv))) < cv.n
    requires resultX != resultY && cv.words <= resultX.Length && cv.words <= resultY.Length
    modifies resultX, resultY
    ensures var kv := old(Val(k[..cv.nw], Base(W(cv))));
      Affinely(cv, resultX, resultY,
               if Degenerate(kv, cv.n, cv.bits) || cv.x(t) == 0 then cv.gr.zero else Mul(cv.gr, kv, t))
  {
    hide Law, Modulus, Mul, Val, Base, Pow, IsBitLength, Effective, LadderPoint, Degenerate, Regular, Affinely,
      OrderWords, GoodZ;
    LawParts(cv);
    OrderBits(cv, order);
    RegularMultiple(cv, Val(k[..cv.nw], Base(W(cv))), t);
    var scalar := ChooseScalar(cv, k, order);
    PointMult(cv, resultX, resultY, px, py, scalar, cv.nw, initialZ, cv.bits + 1, p, t);
  }

  lemma OrderBits<G>(cv: Curve<G>, order: array<nat>)
    requires OrderWords(cv, order)
    ensures 0 < cv.nw && 0 < cv.bits <= W(cv) * cv.nw && IsBitLength(cv.n, cv.bits)
  {
    hide Val, Base, Pow, IsBitLength;
    MulMonotone(W(cv), 0, cv.nw - 1);
  }
}
