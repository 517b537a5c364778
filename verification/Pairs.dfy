/** Pairs of residues under the chord and tangent rules of a curve, whether on the curve or not, and word arrays that
    hold them in a coordinate Z. */
module Pairs {
  import opened Numbers
  import opened Words
  import opened Field
  import opened CoZ
  import opened Doubling

  /** Affine coordinates. */
  datatype Pair = Pair(x: nat, y: nat)

  ghost predicate InField(t: Pair, p: nat) {
    t.x < p && t.y < p
  }

  // ---------- the rules ----------

  ghost predicate IsReciprocal(i: nat, d: int, p: nat)
    requires p > 0
  {
    i < p && Cong(i * d, 1, p)
  }

  /** 1 / d modulo p; zero when there is none. */
  ghost function Reciprocal(d: int, p: nat): nat
    requires p > 0
  {
    if exists i: nat :: IsReciprocal(i, d, p) then
      var i: nat :| IsReciprocal(i, d, p);
      i
    else 0
  }

  lemma ReciprocalIs(d: int, p: nat)
    requires IsPrime(p) && !Cong(d, 0, p)
    ensures Cong(Reciprocal(d, p) * d, 1, p)
  {
    hide Cong;
    var i := PrimeInverse(d, p);
    var j := LeastResidue(i, p);
    CongMod(i, p);
    CongScale(d, j, i, p);
    CongTrans(d * j, d * i, 1, p);
    assert IsReciprocal(j, d, p);
  }

  /** The third point of the line of slope `l` through `s` and a point with x-coordinate `x2`, mirrored. */
  ghost function OnLine(s: Pair, x2: nat, l: int, p: nat): (u: Pair)
    requires p > 0
    ensures InField(u, p)
  {
    var x := LeastResidue(l * l - s.x - x2, p);
    Pair(x, LeastResidue(l * (s.x - x) - s.y, p))
  }

  ghost function ChordSlope(s: Pair, t: Pair, p: nat): int
    requires p > 0
  {
    Reciprocal(t.x - s.x, p) * (t.y - s.y)
  }

  /** The sum of two pairs by the chord through them. */
  ghost function Chord(s: Pair, t: Pair, p: nat): (u: Pair)
    requires p > 0
    ensures InField(u, p)
  {
    OnLine(s, t.x, ChordSlope(s, t, p), p)
  }

  ghost function TangentSlope(t: Pair, linear: int, p: nat): int
    requires p > 0
  {
    Reciprocal(2 * t.y, p) * (3 * (t.x * t.x) + linear)
  }

  /** Twice a pair by the tangent at it. */
  ghost function Tangent(t: Pair, linear: int, p: nat): (u: Pair)
    requires p > 0
    ensures InField(u, p)
  {
    OnLine(t, t.x, TangentSlope(t, linear, p), p)
  }

  lemma DifferentX(s: Pair, t: Pair, p: nat)
    requires InField(s, p) && InField(t, p)
    ensures Cong(t.x - s.x, 0, p) <==> s.x == t.x
  {
    hide Cong;
    CongRefl(0, p);
    if Cong(t.x - s.x, 0, p) {
      CongRefl(s.x, p);
      CongAdd(t.x - s.x, 0, s.x, s.x, p);
      SmallEqual(t.x, s.x, p);
    }
  }

  lemma LineHolds(s: Pair, x2: nat, l: int, p: nat)
    requires p > 0
    ensures var u := OnLine(s, x2, l, p);
      Cong(u.x, l * l - s.x - x2, p) && Cong(u.y, l * (s.x - u.x) - s.y, p)
  {
    var u := OnLine(s, x2, l, p);
    CongMod(l * l - s.x - x2, p);
    CongMod(l * (s.x - u.x) - s.y, p);
  }

  lemma SlopeHolds(d: int, c: int, p: nat)
    requires IsPrime(p) && !Cong(d, 0, p)
    ensures Cong(Reciprocal(d, p) * c * d, c, p)
  {
    hide Cong, Reciprocal;
    ReciprocalIs(d, p);
    var i := Reciprocal(d, p);
    CongScale(c, i * d, 1, p);
    assert c * (i * d) == i * c * d;
  }

  lemma ChordHolds(s: Pair, t: Pair, p: nat)
    requires IsPrime(p) && InField(s, p) && InField(t, p) && s.x != t.x
    ensures var u := Chord(s, t, p);
      ChordSum(s.x, s.y, t.x, t.y, u.x, u.y, ChordSlope(s, t, p), p)
  {
    hide Cong, Reciprocal, OnLine, IsPrime;
    DifferentX(s, t, p);
    SlopeHolds(t.x - s.x, t.y - s.y, p);
    LineHolds(s, t.x, ChordSlope(s, t, p), p);
  }

  lemma TangentHolds(t: Pair, linear: int, p: nat)
    requires IsPrime(p) && p % 2 == 1 && InField(t, p) && t.y != 0
    ensures var u := Tangent(t, linear, p);
      TangentSum(t.x, t.y, u.x, u.y, TangentSlope(t, linear, p), linear, p)
  {
    hide Cong, Reciprocal, OnLine, IsPrime;
    SmallNonzero(t.y, p);
    if Cong(2 * t.y, 0, p) { CongHalve(t.y, 0, p); }
    SlopeHolds(2 * t.y, 3 * (t.x * t.x) + linear, p);
    LineHolds(t, t.x, TangentSlope(t, linear, p), p);
  }

  /** Lines of congruent slope through the same points meet the curve in congruent points. */
  lemma LineUnique(s: Pair, x2: nat, l: int, k: int, u: Pair, v: Pair, p: nat)
    requires p > 0 && Cong(l, k, p) && InField(u, p) && InField(v, p)
    requires Cong(u.x, l * l - s.x - x2, p) && Cong(u.y, l * (s.x - u.x) - s.y, p)
    requires Cong(v.x, k * k - s.x - x2, p) && Cong(v.y, k * (s.x - v.x) - s.y, p)
    ensures u == v
  {
    hide Cong;
    CongMul(l, k, l, k, p);
    CongRefl(s.x + x2, p);
    CongSub(l * l, k * k, s.x + x2, s.x + x2, p);
    CongTrans(u.x, l * l - s.x - x2, k * k - s.x - x2, p);
    CongSym(v.x, k * k - s.x - x2, p);
    CongTrans(u.x, k * k - s.x - x2, v.x, p);
    SmallEqual(u.x, v.x, p);
    CongRefl(s.x - u.x, p);
    CongMul(l, k, s.x - u.x, s.x - u.x, p);
    CongRefl(s.y, p);
    CongSub(l * (s.x - u.x), k * (s.x - u.x), s.y, s.y, p);
    CongTrans(u.y, l * (s.x - u.x) - s.y, k * (s.x - u.x) - s.y, p);
    CongSym(v.y, k * (s.x - v.x) - s.y, p);
    CongTrans(u.y, k * (s.x - u.x) - s.y, v.y, p);
    SmallEqual(u.y, v.y, p);
  }

  lemma SlopeUnique(d: int, c: int, l: int, k: int, p: nat)
    requires IsPrime(p) && !Cong(d, 0, p) && Cong(l * d, c, p) && Cong(k * d, c, p)
    ensures Cong(l, k, p)
  {
    hide Cong, IsPrime;
    PrimeAboveOne(p);
    CongSym(k * d, c, p);
    CongTrans(l * d, c, k * d, p);
    CancelFactor(d, l, k, p);
  }

  /** The chord sum of two pairs is the only pair of residues that the chord law allows. */
  lemma ChordUnique(s: Pair, t: Pair, u: Pair, l: int, p: nat)
    requires IsPrime(p) && InField(s, p) && InField(t, p) && InField(u, p) && s.x != t.x
    requires ChordSum(s.x, s.y, t.x, t.y, u.x, u.y, l, p)
    ensures u == Chord(s, t, p)
  {
    hide Cong, Reciprocal, OnLine, IsPrime;
    PrimeAboveOne(p);
    ChordHolds(s, t, p);
    DifferentX(s, t, p);
    SlopeUnique(t.x - s.x, t.y - s.y, l, ChordSlope(s, t, p), p);
    LineUnique(s, t.x, l, ChordSlope(s, t, p), u, Chord(s, t, p), p);
  }

  lemma TangentUnique(t: Pair, u: Pair, l: int, linear: int, p: nat)
    requires IsPrime(p) && p % 2 == 1 && InField(t, p) && InField(u, p) && t.y != 0
    requires TangentSum(t.x, t.y, u.x, u.y, l, linear, p)
    ensures u == Tangent(t, linear, p)
  {
    hide Cong, Reciprocal, OnLine, IsPrime;
    PrimeAboveOne(p);
    TangentHolds(t, linear, p);
    SmallNonzero(t.y, p);
    if Cong(2 * t.y, 0, p) { CongHalve(t.y, 0, p); }
    SlopeUnique(2 * t.y, 3 * (t.x * t.x) + linear, l, TangentSlope(t, linear, p), p);
    LineUnique(t, t.x, l, TangentSlope(t, linear, p), u, Tangent(t, linear, p), p);
  }

  // ---------- pairs in a coordinate Z ----------

  ghost predicate Unit(z: int, p: nat) {
    p > 0 && !Cong(z, 0, p)
  }

  lemma UnitOne(p: nat)
    requires p > 1
    ensures Unit(1, p)
  {
    SmallNonzero(1, p);
  }

  /** Jacobian X of a pair in the coordinate Z. */
  ghost function PX(t: Pair, Z: int): int {
    t.x * (Z * Z)
  }

  ghost function PY(t: Pair, Z: int): int {
    t.y * (Z * Z * Z)
  }

  lemma OneScale(t: Pair)
    ensures PX(t, 1) == t.x && PY(t, 1) == t.y
  {
  }

  /** The common Z after the addition of two pairs. */
  ghost function CommonZ(s: Pair, t: Pair, Z: int): int {
    Z * (PX(t, Z) - PX(s, Z))
  }

  /** The new Z is a unit when the x-coordinates differ, and zero when they do not. */
  lemma CommonUnit(s: Pair, t: Pair, Z: int, p: nat)
    requires IsPrime(p) && Unit(Z, p) && InField(s, p) && InField(t, p)
    ensures Unit(CommonZ(s, t, Z), p) <==> s.x != t.x
    ensures Cong(PX(t, Z) - PX(s, Z), 0, p) <==> s.x == t.x
  {
    hide Cong, IsPrime;
    var d := t.x - s.x;
    DifferentX(s, t, p);
    FactorZZ(t.x, s.x, Z);
    if s.x == t.x {
      CongRefl(0, p);
      MulEqual(Z, PX(t, Z) - PX(s, Z), 0);
    } else {
      NonzeroFactors(Z, d, p);
      NonzeroFactors(Z, Z * d, p);
      NonzeroFactors(Z, Z * (Z * d), p);
    }
  }

  lemma FactorZZ(x: int, y: int, Z: int)
    ensures x * (Z * Z) - y * (Z * Z) == Z * (Z * (x - y))
  {
  }

  /** The chord sum of two pairs, in the new Z. */
  lemma AddPairs(s: Pair, t: Pair, Z: int, p: nat)
    requires IsPrime(p) && InField(s, p) && InField(t, p) && s.x != t.x
    ensures var X1, Y1, X2, Y2 := PX(s, Z), PY(s, Z), PX(t, Z), PY(t, Z);
      var N, u := CommonZ(s, t, Z), Chord(s, t, p);
      Cong(SumX(X1, X2, Y2 - Y1), PX(u, N), p) && Cong(SumY(X1, Y1, X2, Y2 - Y1), PY(u, N), p)
  {
    hide SumX, SumY, Cong, Chord, ChordSlope, IsPrime;
    var u := Chord(s, t, p);
    PrimeAboveOne(p);
    ChordHolds(s, t, p);
    CongRefl(PX(s, Z), p);
    CongRefl(PY(s, Z), p);
    CongRefl(PX(t, Z), p);
    CongRefl(PY(t, Z), p);
    AddSound(PX(s, Z), PY(s, Z), PX(t, Z), PY(t, Z), Z, s.x, s.y, t.x, t.y, u.x, u.y, ChordSlope(s, t, p), p);
  }

  /** Twice a pair that is not its own mirror image, in the coordinate Y * Z, which is again a unit. */
  lemma DoublePair(t: Pair, Z: int, b: int, linear: int, p: nat)
    requires IsPrime(p) && p % 2 == 1 && InField(t, p) && t.y != 0 && Unit(Z, p)
    requires Steepness(b, PX(t, Z), Z, linear, p)
    ensures var X, Y, u := PX(t, Z), PY(t, Z), Tangent(t, linear, p);
      Unit(Y * Z, p) && Cong(DoubleX(X, Y, b), PX(u, Y * Z), p) && Cong(DoubleY(X, Y, b), PY(u, Y * Z), p)
  {
    hide DoubleX, DoubleY, Cong, Tangent, TangentSlope, Steepness, IsPrime;
    var u := Tangent(t, linear, p);
    PrimeAboveOne(p);
    TangentHolds(t, linear, p);
    DoubleSound(Z, t.x, t.y, u.x, u.y, TangentSlope(t, linear, p), b, linear, p);
    SmallNonzero(t.y, p);
    NonzeroFactors(Z, Z, p);
    NonzeroFactors(Z * Z, Z, p);
    NonzeroFactors(t.y, Z * Z * Z, p);
    NonzeroFactors(PY(t, Z), Z, p);
  }

  // ---------- pairs in word arrays ----------

  /** The arrays hold the pair in the coordinate Z. */
  ghost predicate Carries(w: WordBits, ax: array<nat>, ay: array<nat>, n: nat, t: Pair, Z: int, m: nat)
    reads ax, ay
  {
    Residue(w, ax, n, PX(t, Z), m) && Residue(w, ay, n, PY(t, Z), m)
  }

  /** The arrays hold the pair itself. */
  ghost predicate HoldsPair(w: WordBits, ax: array<nat>, ay: array<nat>, n: nat, t: Pair, m: nat)
    reads ax, ay
  {
    InField(t, m) && Residue(w, ax, n, t.x, m) && Residue(w, ay, n, t.y, m)
  }

  /** The array holds some residue. */
  ghost predicate SomeResidue(w: WordBits, a: array<nat>, n: nat, m: nat)
    reads a
  {
    exists r: int :: Residue(w, a, n, r, m)
  }

  lemma CarriesBy(w: WordBits, ax: array<nat>, ay: array<nat>, n: nat, X: int, Y: int, t: Pair, Z: int, m: nat)
    requires Residue(w, ax, n, X, m) && Residue(w, ay, n, Y, m)
    requires m > 0 && Cong(X, PX(t, Z), m) && Cong(Y, PY(t, Z), m)
    ensures Carries(w, ax, ay, n, t, Z, m)
  {
    hide Residue, PX, PY, Cong;
    ResidueCong(w, ax, n, X, PX(t, Z), m);
    ResidueCong(w, ay, n, Y, PY(t, Z), m);
  }

  /** apply_z with the inverse of Z brings a pair back to its affine coordinates; a zero in its place gives zeros. In
      any case the arrays go on holding residues. */
  method ScaleBack(w: WordBits, ax: array<nat>, ay: array<nat>, z: array<nat>, p: array<nat>, n: nat,
                   ghost t: Pair, ghost Z: int, ghost i: int, ghost good: bool, ghost m: nat)
    requires Modulus(w, p, n, m) && ax != ay && ax != z && ay != z && p != ax && p != ay
    requires Residue(w, z, n, i, m) && SomeResidue(w, ax, n, m) && SomeResidue(w, ay, n, m)
    requires good ==> Carries(w, ax, ay, n, t, Z, m) && InField(t, m) && Cong(i * Z, 1, m)
    modifies ax, ay
    ensures SomeResidue(w, ax, n, m) && SomeResidue(w, ay, n, m)
    ensures good ==> HoldsPair(w, ax, ay, n, t, m)
    ensures i == 0 ==> HoldsPair(w, ax, ay, n, Pair(0, 0), m)
  {
    hide Residue, Modulus, PX, PY, Cong, Times;
    ModulusPositive(w, p, n, m);
    ghost var x: int :| Residue(w, ax, n, x, m);
    ghost var y: int :| Residue(w, ay, n, y, m);
    if good { x, y := PX(t, Z), PY(t, Z); }
    ApplyZ(w, ax, ay, z, p, n, x, y, i, m);
    if good {
      UnscaleX(t, Z, i, m);
      UnscaleY(t, Z, i, m);
      ResidueCong(w, ax, n, Times(x, Times(i, i)), t.x, m);
      ResidueCong(w, ay, n, Times(y, Times(Times(i, i), i)), t.y, m);
    }
    TimesZero(0);
    TimesZero(x);
    TimesZero(y);
  }

  lemma UnscaleX(t: Pair, Z: int, i: int, p: nat)
    requires p > 0 && Cong(i * Z, 1, p)
    ensures Cong(Times(PX(t, Z), Times(i, i)), t.x, p)
  {
    hide Cong;
    CongMul(i * Z, 1, i * Z, 1, p);
    CongScale(t.x, (i * Z) * (i * Z), 1 * 1, p);
    SquareMoves(t.x, i, Z);
  }

  lemma UnscaleY(t: Pair, Z: int, i: int, p: nat)
    requires p > 0 && Cong(i * Z, 1, p)
    ensures Cong(Times(PY(t, Z), Times(Times(i, i), i)), t.y, p)
  {
    hide Cong;
    CongMul(i * Z, 1, i * Z, 1, p);
    CongMul((i * Z) * (i * Z), 1 * 1, i * Z, 1, p);
    CongScale(t.y, (i * Z) * (i * Z) * (i * Z), 1 * 1 * 1, p);
    CubeMoves(t.y, i, Z);
  }

  lemma SquareMoves(x: int, i: int, Z: int)
    ensures x * ((i * Z) * (i * Z)) == Times(x * (Z * Z), Times(i, i))
  {
  }

  lemma CubeMoves(y: int, i: int, Z: int)
    ensures y * ((i * Z) * (i * Z) * (i * Z)) == Times(y * (Z * Z * Z), Times(Times(i, i), i))
  {
  }
}
