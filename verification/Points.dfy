/** Points of a curve as word arrays: what the co-Z and doubling formulas do when their inputs stand for points of a
    group whose coordinates obey the affine chord and tangent laws. */
module Points {
  import opened Numbers
  import opened Words
  import opened Bytes
  import opened Field
  import opened CoZ
  import opened Doubling
  import opened Pairs
  import opened Groups

  /** A curve: its points as an abelian group with generator `g`, the affine coordinates of a point, the prime `p` of
      the field, the coefficients (`kind` fixes the linear one) and the order `n`; the bytes in a machine word, the
      sizes of a coordinate in words and bytes, and of the order in bits and words. */
  datatype Curve<!G> = Curve(gr: Group<G>, g: G, x: G -> nat, y: G -> nat, p: nat, kind: DoublingKind, b: int, n: nat,
                             c: nat, words: nat, bytes: nat, bits: nat, nw: nat)

  function W<G>(cv: Curve<G>): WordBits {
    if cv.c > 0 then WordOf(cv.c) else 8
  }

  // ---------- the affine group law ----------

  ghost predicate Primes<G>(cv: Curve<G>) {
    IsPrime(cv.p) && cv.p % 2 == 1 && IsPrime(cv.n) && cv.n > 3 && cv.n % 2 == 1
  }

  /** Every point but zero is a pair of residues on y^2 = x^3 + a * x + b; zero is written (0, 0). */
  ghost predicate Affine<G(!new)>(cv: Curve<G>) {
    && cv.p > 0 && cv.x(cv.gr.zero) == 0 && cv.y(cv.gr.zero) == 0
    && forall t :: t != cv.gr.zero ==> IsPair(cv, t)
  }

  ghost predicate IsPair<G>(cv: Curve<G>, t: G) {
    cv.x(t) < cv.p && cv.y(t) < cv.p && OnCurve(cv, cv.x(t), cv.y(t))
  }

  ghost predicate OnCurve<G>(cv: Curve<G>, x: nat, y: nat) {
    cv.p > 0 && Cong(y * y, x * x * x + Linear(cv.kind) * x + cv.b, cv.p)
  }

  /** The coordinates determine the point. */
  ghost predicate Distinct<G(!new)>(cv: Curve<G>) {
    forall s, t :: s != cv.gr.zero && t != cv.gr.zero && cv.x(s) == cv.x(t) && cv.y(s) == cv.y(t) ==> s == t
  }

  ghost predicate Negation<G(!new)>(cv: Curve<G>) {
    forall t :: t != cv.gr.zero ==> IsMirrored(cv, t, cv.gr.neg(t))
  }

  ghost predicate IsMirrored<G>(cv: Curve<G>, t: G, u: G) {
    cv.p > 0 && cv.x(u) == cv.x(t) && cv.y(u) == (cv.p - cv.y(t)) % cv.p
  }

  ghost predicate Chords<G(!new)>(cv: Curve<G>) {
    forall s, t :: s != cv.gr.zero && t != cv.gr.zero && cv.x(s) != cv.x(t) ==> HasChord(cv, s, t)
  }

  ghost predicate HasChord<G>(cv: Curve<G>, s: G, t: G) {
    && cv.p > 0
    && var u := cv.gr.add(s, t);
    exists l: int :: ChordSum(cv.x(s), cv.y(s), cv.x(t), cv.y(t), cv.x(u), cv.y(u), l, cv.p)
  }

  ghost predicate Tangents<G(!new)>(cv: Curve<G>) {
    forall t :: t != cv.gr.zero && cv.y(t) != 0 ==> HasTangent(cv, t)
  }

  ghost predicate HasTangent<G>(cv: Curve<G>, t: G) {
    && cv.p > 0
    && var u := cv.gr.add(t, t);
    exists l: int :: TangentSum(cv.x(t), cv.y(t), cv.x(u), cv.y(u), l, Linear(cv.kind), cv.p)
  }

  ghost predicate Exponent<G(!new)>(cv: Curve<G>) {
    forall t :: Mul(cv.gr, cv.n, t) == cv.gr.zero
  }

  /** The points are an abelian group of exponent n, a prime above three, under the chord and tangent law of the
      curve. */
  ghost predicate Law<G(!new)>(cv: Curve<G>) {
    && Abelian(cv.gr) && Primes(cv) && Affine(cv) && Distinct(cv) && Negation(cv) && Chords(cv) && Tangents(cv)
    && Exponent(cv)
  }

  lemma LawParts<G(!new)>(cv: Curve<G>)
    requires Law(cv)
    ensures Abelian(cv.gr) && IsPrime(cv.p) && cv.p % 2 == 1 && IsPrime(cv.n) && cv.n % 2 == 1 && cv.p > 1 && cv.n > 3
    ensures cv.x(cv.gr.zero) == 0 && cv.y(cv.gr.zero) == 0
  {
  }

  lemma PointOrder<G(!new)>(cv: Curve<G>, t: G)
    requires Law(cv) && t != cv.gr.zero
    ensures HasOrder(cv.gr, t, cv.n)
  {
  }

  lemma Coordinates<G(!new)>(cv: Curve<G>, t: G)
    requires Law(cv)
    ensures cv.x(t) < cv.p && cv.y(t) < cv.p && (t != cv.gr.zero ==> OnCurve(cv, cv.x(t), cv.y(t)))
  {
    hide Abelian, Distinct, Negation, Chords, Tangents, Exponent, Primes, OnCurve;
    assert t != cv.gr.zero ==> IsPair(cv, t);
  }

  lemma ChordOf<G(!new)>(cv: Curve<G>, s: G, t: G) returns (l: int)
    requires Law(cv) && s != cv.gr.zero && t != cv.gr.zero && cv.x(s) != cv.x(t)
    ensures var u := cv.gr.add(s, t);
      cv.p > 0 && ChordSum(cv.x(s), cv.y(s), cv.x(t), cv.y(t), cv.x(u), cv.y(u), l, cv.p)
  {
    hide ChordSum;
    var u := cv.gr.add(s, t);
    assert HasChord(cv, s, t);
    l :| ChordSum(cv.x(s), cv.y(s), cv.x(t), cv.y(t), cv.x(u), cv.y(u), l, cv.p);
  }

  lemma TangentOf<G(!new)>(cv: Curve<G>, t: G) returns (l: int)
    requires Law(cv) && t != cv.gr.zero && cv.y(t) != 0
    ensures var u := cv.gr.add(t, t);
      cv.p > 0 && TangentSum(cv.x(t), cv.y(t), cv.x(u), cv.y(u), l, Linear(cv.kind), cv.p)
  {
    hide TangentSum;
    var u := cv.gr.add(t, t);
    assert HasTangent(cv, t);
    l :| TangentSum(cv.x(t), cv.y(t), cv.x(u), cv.y(u), l, Linear(cv.kind), cv.p);
  }

  /** The negative of a point has the same x-coordinate and the negative y-coordinate. */
  lemma Negated<G(!new)>(cv: Curve<G>, t: G)
    requires Law(cv) && t != cv.gr.zero
    ensures cv.gr.neg(t) != cv.gr.zero && cv.x(cv.gr.neg(t)) == cv.x(t)
    ensures Cong(cv.y(cv.gr.neg(t)), 0 - cv.y(t), cv.p) && (cv.y(t) == 0 ==> cv.gr.neg(t) == t)
  {
    hide Law, Abelian, Cong, IsPrime;
    LawParts(cv);
    Groups.Inverse(cv.gr, t);
    Zero(cv.gr, t);
    Mirrored(cv, t);
    if cv.y(t) == 0 { SamePoint(cv, cv.gr.neg(t), t); }
  }

  lemma Mirrored<G(!new)>(cv: Curve<G>, t: G)
    requires Law(cv) && t != cv.gr.zero
    ensures cv.x(cv.gr.neg(t)) == cv.x(t)
    ensures Cong(cv.y(cv.gr.neg(t)), 0 - cv.y(t), cv.p) && (cv.y(t) == 0 ==> cv.y(cv.gr.neg(t)) == 0)
  {
    hide Abelian, Affine, Distinct, Chords, Tangents, Exponent, Primes, Cong;
    assert IsMirrored(cv, t, cv.gr.neg(t));
    Coordinates(cv, t);
    MirrorY(cv.y(t), cv.p);
  }

  lemma MirrorY(y: nat, p: nat)
    requires y < p
    ensures Cong((p - y) % p, 0 - y, p) && (y == 0 ==> (p - y) % p == 0)
  {
    hide Cong;
    CongMod(p - y, p);
    CongBy(p - y, 0 - y, p, 1);
    CongTrans((p - y) % p, p - y, 0 - y, p);
    if y == 0 { DivModUnique(p, p, 1, 0); }
  }

  lemma SamePoint<G(!new)>(cv: Curve<G>, s: G, t: G)
    requires Law(cv) && s != cv.gr.zero && t != cv.gr.zero && cv.x(s) == cv.x(t) && cv.y(s) == cv.y(t)
    ensures s == t
  {
  }

  lemma YNonzero<G(!new)>(cv: Curve<G>, t: G)
    requires Law(cv) && t != cv.gr.zero
    ensures 0 < cv.y(t) < cv.p && cv.gr.add(t, t) != cv.gr.zero
  {
    hide Law;
    LawParts(cv);
    hide Abelian, IsPrime, Mul;
    PointOrder(cv, t);
    Groups.DoubleNonzero(cv.gr, cv.n, t);
    Negated(cv, t);
    Coordinates(cv, t);
    if cv.y(t) == 0 { Groups.Inverse(cv.gr, t); }
  }

  /** Points with equal x-coordinates are equal or opposite. */
  lemma SameX<G(!new)>(cv: Curve<G>, s: G, t: G)
    requires Law(cv) && s != cv.gr.zero && t != cv.gr.zero
    ensures cv.x(s) == cv.x(t) <==> s == t || s == cv.gr.neg(t)
  {
    hide Law;
    LawParts(cv);
    hide Abelian, IsPrime;
    Negated(cv, t);
    if cv.x(s) == cv.x(t) {
      Coordinates(cv, s);
      Coordinates(cv, t);
      var u := cv.gr.neg(t);
      Coordinates(cv, u);
      SameSquare(cv.y(s), cv.y(t), cv.y(u), SideOf(cv, cv.x(s)), cv.p);
      if cv.y(s) == cv.y(t) { SamePoint(cv, s, t); } else { SamePoint(cv, s, u); }
    }
  }

  lemma SumNonzero<G(!new)>(cv: Curve<G>, s: G, t: G)
    requires Law(cv) && s != cv.gr.zero && t != cv.gr.zero && cv.x(s) != cv.x(t)
    ensures cv.gr.add(s, t) != cv.gr.zero
  {
    hide Law, Abelian;
    LawParts(cv);
    SameX(cv, s, t);
    Comm(cv.gr, s, t);
    if cv.gr.add(s, t) == cv.gr.zero { NegUnique(cv.gr, t, s); }
  }

  ghost function SideOf<G>(cv: Curve<G>, x: nat): int {
    x * x * x + Linear(cv.kind) * x + cv.b
  }

  /** Two residues with the same square are equal or opposite. */
  lemma SameSquare(y: nat, z: nat, nz: nat, side: int, p: nat)
    requires IsPrime(p) && y < p && z < p && nz < p && Cong(y * y, side, p) && Cong(z * z, side, p)
      && Cong(nz, 0 - z, p)
    ensures y == z || y == nz
  {
    hide Cong, IsPrime;
    PrimeAboveOne(p);
    CongSub(y * y, side, z * z, side, p);
    assert y * y - z * z == (y - z) * (y + z);
    if !Cong(y - z, 0, p) && !Cong(y + z, 0, p) {
      NonzeroFactors(y - z, y + z, p);
    }
    if Cong(y - z, 0, p) {
      CongRefl(z, p);
      CongAdd(y - z, 0, z, z, p);
      SmallEqual(y, z, p);
    } else {
      CongRefl(z, p);
      CongSub(y + z, 0, z, z, p);
      CongSym(nz, 0 - z, p);
      CongTrans(y, 0 - z, nz, p);
      SmallEqual(y, nz, p);
    }
  }

  // ---------- points in a coordinate Z ----------

  /** The affine coordinates of a point. */
  ghost function PairOf<G>(cv: Curve<G>, t: G): Pair {
    Pair(cv.x(t), cv.y(t))
  }

  /** The point and the coordinate Z are not zero, so (X, Y, Z) can stand for it. */
  ghost predicate Proper<G>(cv: Curve<G>, t: G, Z: int) {
    t != cv.gr.zero && Unit(Z, cv.p)
  }

  /** Jacobian X of a point in the coordinate Z. */
  ghost function JX<G>(cv: Curve<G>, t: G, Z: int): int {
    PX(PairOf(cv, t), Z)
  }

  ghost function JY<G>(cv: Curve<G>, t: G, Z: int): int {
    PY(PairOf(cv, t), Z)
  }

  /** The common Z after the addition of two points. */
  ghost function NextZ<G>(cv: Curve<G>, s: G, t: G, Z: int): int {
    CommonZ(PairOf(cv, s), PairOf(cv, t), Z)
  }

  lemma RepresentsItself<G(!new)>(cv: Curve<G>, t: G, Z: int)
    requires cv.p > 0
    ensures Represents(JX(cv, t, Z), JY(cv, t, Z), Z, cv.x(t), cv.y(t), cv.p)
  {
    CongRefl(JX(cv, t, Z), cv.p);
    CongRefl(JY(cv, t, Z), cv.p);
  }

  /** The new Z is a unit when the x-coordinates differ, and zero when they do not. */
  lemma NextUnit<G(!new)>(cv: Curve<G>, s: G, t: G, Z: int)
    requires Law(cv) && Proper(cv, s, Z) && t != cv.gr.zero
    ensures Unit(NextZ(cv, s, t, Z), cv.p) <==> cv.x(s) != cv.x(t)
    ensures Cong(JX(cv, t, Z) - JX(cv, s, Z), 0, cv.p) <==> cv.x(s) == cv.x(t)
  {
    hide Law, Cong, IsPrime, PX, CommonZ;
    LawParts(cv);
    Coordinates(cv, s);
    Coordinates(cv, t);
    CommonUnit(PairOf(cv, s), PairOf(cv, t), Z, cv.p);
  }

  /** The chord and tangent rules on coordinates give the sums of the group. */
  lemma GroupChord<G(!new)>(cv: Curve<G>, s: G, t: G)
    requires Law(cv) && s != cv.gr.zero && t != cv.gr.zero && cv.x(s) != cv.x(t)
    ensures cv.p > 0 && PairOf(cv, cv.gr.add(s, t)) == Chord(PairOf(cv, s), PairOf(cv, t), cv.p)
  {
    hide Law, Cong, IsPrime, Chord, ChordSum;
    LawParts(cv);
    var u := cv.gr.add(s, t);
    Coordinates(cv, s);
    Coordinates(cv, t);
    Coordinates(cv, u);
    var l := ChordOf(cv, s, t);
    ChordUnique(PairOf(cv, s), PairOf(cv, t), PairOf(cv, u), l, cv.p);
  }

  lemma GroupTangent<G(!new)>(cv: Curve<G>, t: G)
    requires Law(cv) && t != cv.gr.zero
    ensures cv.p > 0 && cv.y(t) != 0
    ensures PairOf(cv, cv.gr.add(t, t)) == Tangent(PairOf(cv, t), Linear(cv.kind), cv.p)
  {
    hide Law, Cong, IsPrime, Tangent, TangentSum;
    LawParts(cv);
    var u := cv.gr.add(t, t);
    YNonzero(cv, t);
    Coordinates(cv, t);
    Coordinates(cv, u);
    var l := TangentOf(cv, t);
    TangentUnique(PairOf(cv, t), PairOf(cv, u), l, Linear(cv.kind), cv.p);
  }

  /** The sum of two points with different x-coordinates, in the new Z, which the first point comes to share. */
  lemma AddStands<G(!new)>(cv: Curve<G>, s: G, t: G, Z: int)
    requires Law(cv) && s != cv.gr.zero && t != cv.gr.zero && cv.x(s) != cv.x(t)
    ensures var X1, Y1, X2, Y2 := JX(cv, s, Z), JY(cv, s, Z), JX(cv, t, Z), JY(cv, t, Z);
      var N, u := NextZ(cv, s, t, Z), cv.gr.add(s, t);
      && cv.p > 0 && Cong(ScaledX(X1, X2), JX(cv, s, N), cv.p) && Cong(ScaledY(X1, Y1, X2), JY(cv, s, N), cv.p)
      && Cong(SumX(X1, X2, Y2 - Y1), JX(cv, u, N), cv.p) && Cong(SumY(X1, Y1, X2, Y2 - Y1), JY(cv, u, N), cv.p)
  {
    hide Law, ScaledX, ScaledY, SumX, SumY, Cong, ChordSum;
    var X1, Y1, X2, Y2 := JX(cv, s, Z), JY(cv, s, Z), JX(cv, t, Z), JY(cv, t, Z);
    var u := cv.gr.add(s, t);
    var l := ChordOf(cv, s, t);
    RepresentsItself(cv, s, Z);
    RepresentsItself(cv, t, Z);
    ScaledSound(X1, Y1, X2, Z, cv.x(s), cv.y(s), cv.p);
    AddSound(X1, Y1, X2, Y2, Z, cv.x(s), cv.y(s), cv.x(t), cv.y(t), cv.x(u), cv.y(u), l, cv.p);
  }

  /** The difference and the sum of two points with different x-coordinates, in the new Z. */
  lemma AddCStands<G(!new)>(cv: Curve<G>, s: G, t: G, Z: int)
    requires Law(cv) && s != cv.gr.zero && t != cv.gr.zero && cv.x(s) != cv.x(t)
    ensures var X1, Y1, X2, Y2 := JX(cv, s, Z), JY(cv, s, Z), JX(cv, t, Z), JY(cv, t, Z);
      var N, u, v := NextZ(cv, s, t, Z), cv.gr.add(s, t), cv.gr.add(s, cv.gr.neg(t));
      && cv.p > 0
      && Cong(SumX(X1, X2, -Y2 - Y1), JX(cv, v, N), cv.p) && Cong(SumY(X1, Y1, X2, -Y2 - Y1), JY(cv, v, N), cv.p)
      && Cong(SumX(X1, X2, Y2 - Y1), JX(cv, u, N), cv.p) && Cong(SumY(X1, Y1, X2, Y2 - Y1), JY(cv, u, N), cv.p)
  {
    hide Law, SumX, SumY, Cong, ChordSum;
    var X1, Y1, X2, Y2 := JX(cv, s, Z), JY(cv, s, Z), JX(cv, t, Z), JY(cv, t, Z);
    var u, nt := cv.gr.add(s, t), cv.gr.neg(t);
    var v := cv.gr.add(s, nt);
    Negated(cv, t);
    var l := ChordOf(cv, s, t);
    var k := ChordOf(cv, s, nt);
    RepresentsItself(cv, s, Z);
    RepresentsItself(cv, t, Z);
    AddCSound(X1, Y1, X2, Y2, Z, cv.x(s), cv.y(s), cv.x(t), cv.y(t), cv.y(nt),
              cv.x(v), cv.y(v), k, cv.x(u), cv.y(u), l, cv.p);
  }

  /** Twice a point, in the coordinate Y * Z, which is again a unit. */
  lemma DoubleStands<G(!new)>(cv: Curve<G>, t: G, Z: int, b: int)
    requires Law(cv) && Proper(cv, t, Z) && Steepness(b, JX(cv, t, Z), Z, Linear(cv.kind), cv.p)
    ensures var X, Y, u := JX(cv, t, Z), JY(cv, t, Z), cv.gr.add(t, t);
      && Proper(cv, u, Y * Z)
      && Cong(DoubleX(X, Y, b), JX(cv, u, Y * Z), cv.p) && Cong(DoubleY(X, Y, b), JY(cv, u, Y * Z), cv.p)
  {
    hide Law, DoubleX, DoubleY, Cong, TangentSum, Steepness, IsPrime;
    LawParts(cv);
    YNonzero(cv, t);
    var l := TangentOf(cv, t);
    var u := cv.gr.add(t, t);
    DoubleSound(Z, cv.x(t), cv.y(t), cv.x(u), cv.y(u), l, b, Linear(cv.kind), cv.p);
    SmallNonzero(cv.y(t), cv.p);
    NonzeroFactors(Z, Z, cv.p);
    NonzeroFactors(Z * Z, Z, cv.p);
    NonzeroFactors(cv.y(t), Z * Z * Z, cv.p);
    NonzeroFactors(JY(cv, t, Z), Z, cv.p);
  }

  // ---------- points in word arrays ----------

  /** The arrays hold the point `t` in the coordinate Z. */
  ghost predicate Stands<G>(cv: Curve<G>, ax: array<nat>, ay: array<nat>, t: G, Z: int)
    reads ax, ay
  {
    Residue(W(cv), ax, cv.words, JX(cv, t, Z), cv.p) && Residue(W(cv), ay, cv.words, JY(cv, t, Z), cv.p)
  }

  lemma StandsBy<G>(cv: Curve<G>, ax: array<nat>, ay: array<nat>, X: int, Y: int, t: G, Z: int)
    requires Residue(W(cv), ax, cv.words, X, cv.p) && Residue(W(cv), ay, cv.words, Y, cv.p)
    requires cv.p > 0 && Cong(X, JX(cv, t, Z), cv.p) && Cong(Y, JY(cv, t, Z), cv.p)
    ensures Stands(cv, ax, ay, t, Z)
  {
    hide Residue, JX, JY, Cong;
    ResidueCong(W(cv), ax, cv.words, X, JX(cv, t, Z), cv.p);
    ResidueCong(W(cv), ay, cv.words, Y, JY(cv, t, Z), cv.p);
  }

  /** The four coordinate arrays and the modulus are different arrays. */
  predicate FourArrays(X1: array<nat>, Y1: array<nat>, X2: array<nat>, Y2: array<nat>, p: array<nat>) {
    && X1 != Y1 && X1 != X2 && X1 != Y2 && Y1 != X2 && Y1 != Y2 && X2 != Y2
    && p != X1 && p != Y1 && p != X2 && p != Y2
  }

  /** The arrays hold the affine coordinates of the point. */
  ghost predicate Affinely<G>(cv: Curve<G>, ax: array<nat>, ay: array<nat>, t: G)
    reads ax, ay
  {
    Residue(W(cv), ax, cv.words, cv.x(t), cv.p) && Residue(W(cv), ay, cv.words, cv.y(t), cv.p)
  }

  /** double_jacobian on points. */
  method DoublePoint<G(!new)>(cv: Curve<G>, X1: array<nat>, Y1: array<nat>, Z1: array<nat>, p: array<nat>,
                              ghost t: G, ghost Z: int) returns (ghost N: int)
    requires Law(cv) && Modulus(W(cv), p, cv.words, cv.p) && Proper(cv, t, Z)
    requires X1 != Y1 && X1 != Z1 && Y1 != Z1 && p != X1 && p != Y1 && p != Z1
    requires Stands(cv, X1, Y1, t, Z) && Residue(W(cv), Z1, cv.words, Z, cv.p)
    modifies X1, Y1, Z1
    ensures Proper(cv, cv.gr.add(t, t), N)
    ensures Stands(cv, X1, Y1, cv.gr.add(t, t), N) && Residue(W(cv), Z1, cv.words, N, cv.p)
  {
    hide Law, Residue, Modulus, DoubleX, DoubleY, JX, JY, Cong, IsPrime, Abelian, Steepness;
    LawParts(cv);
    ghost var x, y := JX(cv, t, Z), JY(cv, t, Z);
    ghost var b := DoubleJacobian(cv.kind, W(cv), X1, Y1, Z1, p, cv.words, x, y, Z, cv.p);
    DoubleStands(cv, t, Z, b);
    N := y * Z;
    StandsBy(cv, X1, Y1, DoubleX(x, y, b), DoubleY(x, y, b), cv.gr.add(t, t), N);
  }

  /** apply_z brings an affine point to the coordinate Z. */
  method ScalePoint<G(!new)>(cv: Curve<G>, X1: array<nat>, Y1: array<nat>, z: array<nat>, p: array<nat>,
                             ghost t: G, ghost Z: int)
    requires Modulus(W(cv), p, cv.words, cv.p) && X1 != Y1 && X1 != z && Y1 != z && p != X1 && p != Y1
    requires Affinely(cv, X1, Y1, t) && Residue(W(cv), z, cv.words, Z, cv.p)
    modifies X1, Y1
    ensures Stands(cv, X1, Y1, t, Z)
  {
    hide Residue, Modulus;
    ApplyZ(W(cv), X1, Y1, z, p, cv.words, cv.x(t), cv.y(t), Z, cv.p);
  }

  /** The arrays stand for a point when they carry its coordinates. */
  lemma CarriesPoint<G>(cv: Curve<G>, ax: array<nat>, ay: array<nat>, t: G, Z: int)
    ensures Stands(cv, ax, ay, t, Z) <==> Carries(W(cv), ax, ay, cv.words, PairOf(cv, t), Z, cv.p)
  {
    hide Residue, PX, PY;
  }

  lemma PairIsPoint<G(!new)>(cv: Curve<G>, ax: array<nat>, ay: array<nat>, t: G)
    requires Law(cv)
    ensures Affinely(cv, ax, ay, t) <==> HoldsPair(W(cv), ax, ay, cv.words, PairOf(cv, t), cv.p)
    ensures PairOf(cv, cv.gr.zero) == Pair(0, 0)
  {
    hide Law, Residue;
    LawParts(cv);
    Coordinates(cv, t);
  }
}
