/** Point addition in co-Z coordinates over the integers modulo p, and its soundness with respect to
    the affine chord law. */
module CoZ {
  import opened Numbers
  import opened Words
  import opened Field

  // ---------- the formulas ----------

  /** X and Y of the first point moved to the new Z, which is Z * (X2 - X1). */
  ghost function ScaledX(X1: int, X2: int): int {
    Times(X1, Times(X2 - X1, X2 - X1))
  }

  ghost function ScaledY(X1: int, Y1: int, X2: int): int {
    Times(Y1, Times(X2, Times(X2 - X1, X2 - X1)) - ScaledX(X1, X2))
  }

  /** X of the chord sum in the new Z, for the difference `dy` of the y-coordinates. */
  ghost function SumX(X1: int, X2: int, dy: int): int {
    Times(dy, dy) - ScaledX(X1, X2) - Times(X2, Times(X2 - X1, X2 - X1))
  }

  ghost function SumY(X1: int, Y1: int, X2: int, dy: int): int {
    Times(dy, ScaledX(X1, X2) - SumX(X1, X2, dy)) - ScaledY(X1, Y1, X2)
  }

  /** (X1, Y1), (X2, Y2) with a common Z become P and P + Q with the common Z * (X2 - X1). */
  method XYcZAdd(w: WordBits, X1: array<nat>, Y1: array<nat>, X2: array<nat>, Y2: array<nat>, p: array<nat>, n: nat,
                 ghost x1: int, ghost y1: int, ghost x2: int, ghost y2: int, ghost m: nat)
    requires X1 != Y1 && X1 != X2 && X1 != Y2 && Y1 != X2 && Y1 != Y2 && X2 != Y2
    requires p != X1 && p != Y1 && p != X2 && p != Y2 && Modulus(w, p, n, m)
    requires Residue(w, X1, n, x1, m) && Residue(w, Y1, n, y1, m) && Residue(w, X2, n, x2, m)
      && Residue(w, Y2, n, y2, m)
    modifies X1, Y1, X2, Y2
    ensures Residue(w, X1, n, ScaledX(x1, x2), m) && Residue(w, Y1, n, ScaledY(x1, y1, x2), m)
    ensures Residue(w, X2, n, SumX(x1, x2, y2 - y1), m) && Residue(w, Y2, n, SumY(x1, y1, x2, y2 - y1), m)
  {
    hide Residue, Modulus, Times;
    var t5 := NewTemp(w, p, n, m);
    ghost var h, dy := x2 - x1, y2 - y1;
    ghost var a := Times(h, h);
    FieldSub(w, t5, X2, X1, p, n, x2, x1, m);
    FieldSquare(w, t5, t5, p, n, h, m);
    FieldMul(w, X1, X1, t5, p, n, x1, a, m);
    FieldMul(w, X2, X2, t5, p, n, x2, a, m);
    FieldSub(w, Y2, Y2, Y1, p, n, y2, y1, m);
    FinishAdd(w, X1, Y1, X2, Y2, t5, p, n, Times(x1, a), Times(x2, a), dy, y1, m);
  }

  /** The rest of XYcZ_add, from B, C and the difference of the y-coordinates on. */
  method FinishAdd(w: WordBits, X1: array<nat>, Y1: array<nat>, X2: array<nat>, Y2: array<nat>, t5: array<nat>,
                   p: array<nat>, n: nat, ghost b: int, ghost c: int, ghost dy: int, ghost y1: int, ghost m: nat)
    requires X1 != Y1 && X1 != X2 && X1 != Y2 && Y1 != X2 && Y1 != Y2 && X2 != Y2
    requires p != X1 && p != Y1 && p != X2 && p != Y2 && p != t5 && Modulus(w, p, n, m)
    requires t5 != X1 && t5 != Y1 && t5 != X2 && t5 != Y2 && n <= t5.Length
    requires Residue(w, X1, n, b, m) && Residue(w, X2, n, c, m) && Residue(w, Y1, n, y1, m) && Residue(w, Y2, n, dy, m)
    modifies Y1, X2, Y2, t5
    ensures var x3 := Times(dy, dy) - b - c;
      && Residue(w, Y1, n, Times(y1, c - b), m) && Residue(w, X2, n, x3, m)
      && Residue(w, Y2, n, Times(dy, b - x3) - Times(y1, c - b), m)
  {
    hide Residue, Modulus, Times;
    ghost var d := Times(dy, dy);
    FieldSquare(w, t5, Y2, p, n, dy, m);
    FieldSub(w, t5, t5, X1, p, n, d, b, m);
    FieldSub(w, t5, t5, X2, p, n, d - b, c, m);
    FieldSub(w, X2, X2, X1, p, n, c, b, m);
    FieldMul(w, Y1, Y1, X2, p, n, y1, c - b, m);
    FieldSub(w, X2, X1, t5, p, n, b, d - b - c, m);
    FieldMul(w, Y2, Y2, X2, p, n, dy, b - (d - b - c), m);
    FieldSub(w, Y2, Y2, Y1, p, n, Times(dy, b - (d - b - c)), Times(y1, c - b), m);
    FieldSet(w, X2, t5, n, d - b - c, m);
  }

  /** (X1, Y1), (X2, Y2) with a common Z become P - Q and P + Q with the common Z * (X2 - X1). */
  method XYcZAddC(w: WordBits, X1: array<nat>, Y1: array<nat>, X2: array<nat>, Y2: array<nat>, p: array<nat>, n: nat,
                  ghost x1: int, ghost y1: int, ghost x2: int, ghost y2: int, ghost m: nat)
    requires X1 != Y1 && X1 != X2 && X1 != Y2 && Y1 != X2 && Y1 != Y2 && X2 != Y2
    requires p != X1 && p != Y1 && p != X2 && p != Y2 && Modulus(w, p, n, m)
    requires Residue(w, X1, n, x1, m) && Residue(w, Y1, n, y1, m) && Residue(w, X2, n, x2, m)
      && Residue(w, Y2, n, y2, m)
    modifies X1, Y1, X2, Y2
    ensures Residue(w, X1, n, SumX(x1, x2, -y2 - y1), m) && Residue(w, Y1, n, SumY(x1, y1, x2, -y2 - y1), m)
    ensures Residue(w, X2, n, SumX(x1, x2, y2 - y1), m) && Residue(w, Y2, n, SumY(x1, y1, x2, y2 - y1), m)
  {
    hide Residue, Modulus, Times;
    var t5 := NewTemp(w, p, n, m);
    var t6 := NewTemp(w, p, n, m);
    var t7 := NewTemp(w, p, n, m);
    ghost var h, dy, sy := x2 - x1, y2 - y1, y2 + y1;
    ghost var b, c := Times(x1, Times(h, h)), Times(x2, Times(h, h));
    StartC(w, X1, Y1, X2, Y2, t5, t6, p, n, x1, y1, x2, y2, m);
    FinishSum(w, X1, Y1, X2, Y2, t6, t7, p, n, b, c, dy, Times(y1, c - b), m);
    FinishDifference(w, X1, Y1, t5, t6, t7, p, n, b, c, sy, Times(y1, c - b), m);
    NegatedProducts(sy, b - (Times(sy, sy) - (b + c)));
  }

  /** The part both halves share: B, C, E = y1 * (C - B), B + C, y2 - y1 and y2 + y1. */
  method StartC(w: WordBits, X1: array<nat>, Y1: array<nat>, X2: array<nat>, Y2: array<nat>, t5: array<nat>,
                t6: array<nat>, p: array<nat>, n: nat, ghost x1: int, ghost y1: int, ghost x2: int, ghost y2: int,
                ghost m: nat)
    requires X1 != Y1 && X1 != X2 && X1 != Y2 && Y1 != X2 && Y1 != Y2 && X2 != Y2
    requires p != X1 && p != Y1 && p != X2 && p != Y2 && Modulus(w, p, n, m) && t5 != p && t6 != p && t5 != t6
    requires t5 != X1 && t5 != X2 && t5 != Y1 && t5 != Y2 && t6 != X1 && t6 != X2 && t6 != Y1 && t6 != Y2
    requires n <= t5.Length && n <= t6.Length
    requires Residue(w, X1, n, x1, m) && Residue(w, Y1, n, y1, m) && Residue(w, X2, n, x2, m)
      && Residue(w, Y2, n, y2, m)
    modifies X1, Y1, X2, Y2, t5, t6
    ensures var h := x2 - x1;
      var b, c := Times(x1, Times(h, h)), Times(x2, Times(h, h));
      && Residue(w, X1, n, b, m) && Residue(w, X2, n, c, m) && Residue(w, t6, n, b + c, m)
      && Residue(w, Y1, n, Times(y1, c - b), m)
    ensures Residue(w, Y2, n, y2 - y1, m) && Residue(w, t5, n, y2 + y1, m)
  {
    hide Residue, Modulus, Times;
    ghost var h := x2 - x1;
    ghost var a := Times(h, h);
    ghost var b, c := Times(x1, a), Times(x2, a);
    FieldSub(w, t5, X2, X1, p, n, x2, x1, m);
    FieldSquare(w, t5, t5, p, n, h, m);
    FieldMul(w, X1, X1, t5, p, n, x1, a, m);
    FieldMul(w, X2, X2, t5, p, n, x2, a, m);
    FieldAdd(w, t5, Y2, Y1, p, n, y2, y1, m);
    FieldSub(w, Y2, Y2, Y1, p, n, y2, y1, m);
    FieldSub(w, t6, X2, X1, p, n, c, b, m);
    FieldMul(w, Y1, Y1, t6, p, n, y1, c - b, m);
    FieldAdd(w, t6, X1, X2, p, n, b, c, m);
  }

  /** The P + Q half: X2 = dy^2 - (B + C), Y2 = dy * (B - X2) - E. */
  method FinishSum(w: WordBits, X1: array<nat>, Y1: array<nat>, X2: array<nat>, Y2: array<nat>,
                   t6: array<nat>, t7: array<nat>, p: array<nat>, n: nat,
                   ghost b: int, ghost c: int, ghost dy: int, ghost e: int, ghost m: nat)
    requires X2 != X1 && X2 != Y1 && X2 != t6 && X2 != p && X2 != Y2 && Y2 != X1 && Y2 != Y1 && Y2 != t6 && Y2 != p
    requires t7 != X1 && t7 != Y1 && t7 != X2 && t7 != Y2 && t7 != t6 && t7 != p && n <= t7.Length && n <= X2.Length
    requires Modulus(w, p, n, m) && Residue(w, X1, n, b, m) && Residue(w, t6, n, b + c, m)
    requires Residue(w, Y2, n, dy, m) && Residue(w, Y1, n, e, m)
    modifies X2, Y2, t7
    ensures var x3 := Times(dy, dy) - (b + c);
      Residue(w, X2, n, x3, m) && Residue(w, Y2, n, Times(dy, b - x3) - e, m)
  {
    hide Residue, Modulus, Times;
    ghost var d := Times(dy, dy);
    FieldSquare(w, X2, Y2, p, n, dy, m);
    FieldSub(w, X2, X2, t6, p, n, d, b + c, m);
    FieldSub(w, t7, X1, X2, p, n, b, d - (b + c), m);
    FieldMul(w, Y2, Y2, t7, p, n, dy, b - (d - (b + c)), m);
    FieldSub(w, Y2, Y2, Y1, p, n, Times(dy, b - (d - (b + c))), e, m);
  }

  /** The P - Q half: X1 = sy^2 - (B + C), Y1 = (X1 - B) * sy - E. */
  method FinishDifference(w: WordBits, X1: array<nat>, Y1: array<nat>, t5: array<nat>, t6: array<nat>, t7: array<nat>,
                          p: array<nat>, n: nat, ghost b: int, ghost c: int, ghost sy: int, ghost e: int, ghost m: nat)
    requires X1 != Y1 && X1 != t5 && X1 != t6 && X1 != t7 && X1 != p && Y1 != t5 && Y1 != t6 && Y1 != t7 && Y1 != p
    requires t5 != t6 && t5 != t7 && t5 != p && t6 != t7 && t6 != p && t7 != p && n <= t7.Length
    requires Modulus(w, p, n, m) && Residue(w, X1, n, b, m) && Residue(w, t6, n, b + c, m)
    requires Residue(w, t5, n, sy, m) && Residue(w, Y1, n, e, m)
    modifies X1, Y1, t6, t7
    ensures var x3 := Times(sy, sy) - (b + c);
      Residue(w, X1, n, x3, m) && Residue(w, Y1, n, Times(x3 - b, sy) - e, m)
  {
    hide Residue, Modulus, Times;
    ghost var x3 := Times(sy, sy) - (b + c);
    FieldSquare(w, t7, t5, p, n, sy, m);
    FieldSub(w, t7, t7, t6, p, n, Times(sy, sy), b + c, m);
    FieldSub(w, t6, t7, X1, p, n, x3, b, m);
    FieldMul(w, t6, t6, t5, p, n, x3 - b, sy, m);
    FieldSub(w, Y1, t6, Y1, p, n, Times(x3 - b, sy), e, m);
    FieldSet(w, X1, t7, n, x3, m);
  }

  lemma NegatedProducts(x: int, y: int)
    ensures Times(-x, -x) == Times(x, x) && Times(-x, y) == Times(-y, x)
  {
  }

  /** apply_z: (x1, y1) becomes (x1 * z^2, y1 * z^3). */
  method ApplyZ(w: WordBits, X1: array<nat>, Y1: array<nat>, Z: array<nat>, p: array<nat>, n: nat,
                ghost x1: int, ghost y1: int, ghost z: int, ghost m: nat)
    requires X1 != Y1 && X1 != Z && Y1 != Z && p != X1 && p != Y1 && Modulus(w, p, n, m)
    requires Residue(w, X1, n, x1, m) && Residue(w, Y1, n, y1, m) && Residue(w, Z, n, z, m)
    modifies X1, Y1
    ensures Residue(w, X1, n, Times(x1, Times(z, z)), m)
    ensures Residue(w, Y1, n, Times(y1, Times(Times(z, z), z)), m)
  {
    hide Residue, Modulus, Times;
    var t1 := NewTemp(w, p, n, m);
    FieldSquare(w, t1, Z, p, n, z, m);
    FieldMul(w, X1, X1, t1, p, n, x1, Times(z, z), m);
    FieldMul(w, t1, t1, Z, p, n, Times(z, z), z, m);
    FieldMul(w, Y1, Y1, t1, p, n, y1, Times(Times(z, z), z), m);
  }

  // ---------- soundness ----------

  /** The Jacobian triple (X, Y, Z) stands for the affine point (x, y) modulo m. */
  ghost predicate Represents(X: int, Y: int, Z: int, x: int, y: int, m: nat)
    requires m > 0
  {
    Cong(X, x * (Z * Z), m) && Cong(Y, y * (Z * Z * Z), m)
  }

  /** (x3, y3) is the sum of (x1, y1) and (x2, y2) by the chord of slope `s` through them. */
  ghost predicate ChordSum(x1: int, y1: int, x2: int, y2: int, x3: int, y3: int, s: int, m: nat)
    requires m > 0
  {
    Cong(s * (x2 - x1), y2 - y1, m) && Cong(x3, s * s - x1 - x2, m) && Cong(y3, s * (x1 - x3) - y1, m)
  }

  lemma DifferenceY(Y1: int, Y2: int, y1: int, y2: int, z3: int, m: nat)
    requires m > 0 && Cong(Y1, y1 * z3, m) && Cong(Y2, y2 * z3, m)
    ensures Cong(Y2 - Y1, z3 * (y2 - y1), m)
  {
    CongSub(Y2, y2 * z3, Y1, y1 * z3, m);
  }

  lemma SlopeTimesZ(X1: int, X2: int, Z: int, x1: int, x2: int, s: int, m: nat)
    requires m > 0 && Cong(X1, x1 * (Z * Z), m) && Cong(X2, x2 * (Z * Z), m)
    ensures Cong((Z * Z * Z) * (s * (x2 - x1)), s * (Z * (X2 - X1)), m)
  {
    DifferenceY(X1, X2, x1, x2, Z * Z, m);
    CongSym(X2 - X1, (Z * Z) * (x2 - x1), m);
    CongScale(s * Z, (Z * Z) * (x2 - x1), X2 - X1, m);
    MulAssoc(s, Z, X2 - X1);
    CubeOut(Z, s, x2 - x1);
  }

  lemma CubeOut(Z: int, s: int, d: int)
    ensures (s * Z) * ((Z * Z) * d) == (Z * Z * Z) * (s * d)
  {
  }

  /** The slope times the new Z is the difference of the scaled y-coordinates. */
  lemma SlopeScaled(X1: int, Y1: int, X2: int, Y2: int, Z: int, x1: int, y1: int, x2: int, y2: int, s: int, m: nat)
    requires m > 0 && Represents(X1, Y1, Z, x1, y1, m) && Represents(X2, Y2, Z, x2, y2, m)
    requires Cong(s * (x2 - x1), y2 - y1, m)
    ensures Cong(Y2 - Y1, s * (Z * (X2 - X1)), m)
  {
    hide Cong;
    var z3, d := Z * Z * Z, s * (x2 - x1);
    DifferenceY(Y1, Y2, y1, y2, z3, m);
    CongSym(d, y2 - y1, m);
    CongScale(z3, y2 - y1, d, m);
    CongTrans(Y2 - Y1, z3 * (y2 - y1), z3 * d, m);
    SlopeTimesZ(X1, X2, Z, x1, x2, s, m);
    CongTrans(Y2 - Y1, z3 * d, s * (Z * (X2 - X1)), m);
  }

  /** The first output of XYcZAdd stands for the same affine point as the first input. */
  lemma ScaledSound(X1: int, Y1: int, X2: int, Z: int, x1: int, y1: int, m: nat)
    requires m > 0 && Represents(X1, Y1, Z, x1, y1, m)
    ensures Represents(ScaledX(X1, X2), ScaledY(X1, Y1, X2), Z * (X2 - X1), x1, y1, m)
  {
    var h := X2 - X1;
    var W := Z * h;
    CongScale(h * h, X1, x1 * (Z * Z), m);
    assert (h * h) * X1 == ScaledX(X1, X2);
    assert (h * h) * (x1 * (Z * Z)) == x1 * (W * W) by { SquareOfProduct(x1, Z, h); }
    CongScale(h * h * h, Y1, y1 * (Z * Z * Z), m);
    assert (h * h * h) * Y1 == ScaledY(X1, Y1, X2) by { CubeFactor(X1, Y1, X2); }
    assert (h * h * h) * (y1 * (Z * Z * Z)) == y1 * (W * W * W) by { CubeOfProduct(y1, Z, h); }
  }

  lemma SquareOfProduct(x: int, z: int, h: int)
    ensures (h * h) * (x * (z * z)) == x * ((z * h) * (z * h))
  {
  }

  lemma CubeOfProduct(y: int, z: int, h: int)
    ensures (h * h * h) * (y * (z * z * z)) == y * ((z * h) * (z * h) * (z * h))
  {
  }

  lemma CubeFactor(X1: int, Y1: int, X2: int)
    ensures (X2 - X1) * (X2 - X1) * (X2 - X1) * Y1 == ScaledY(X1, Y1, X2)
  {
    var h := X2 - X1;
    MulEqual(h * h, X2 - X1, h);
  }

  lemma SumXSound(X1: int, X2: int, dy: int, Z: int, x1: int, x2: int, x3: int, s: int, m: nat)
    requires m > 0 && Cong(X1, x1 * (Z * Z), m) && Cong(X2, x2 * (Z * Z), m)
    requires Cong(dy, s * (Z * (X2 - X1)), m) && Cong(x3, s * s - x1 - x2, m)
    ensures var W := Z * (X2 - X1); Cong(SumX(X1, X2, dy), x3 * (W * W), m)
  {
    hide Cong;
    var h := X2 - X1;
    var W, a := Z * h, h * h;
    var b, c := x1 * (W * W), x2 * (W * W);
    assert Cong(X1 * a, b, m) by { CongScale(a, X1, x1 * (Z * Z), m); SquareOfProduct(x1, Z, h); }
    assert Cong(X2 * a, c, m) by { CongScale(a, X2, x2 * (Z * Z), m); SquareOfProduct(x2, Z, h); }
    SumXCongruent(dy, X1 * a, X2 * a, b, c, W, x1, x2, x3, s, m);
  }

  lemma SumXCongruent(dy: int, B: int, C: int, b: int, c: int, W: int, x1: int, x2: int, x3: int, s: int, m: nat)
    requires m > 0 && Cong(dy, s * W, m) && Cong(B, b, m) && Cong(C, c, m) && Cong(x3, s * s - x1 - x2, m)
    requires b == x1 * (W * W) && c == x2 * (W * W)
    ensures Cong(dy * dy - B - C, x3 * (W * W), m)
  {
    hide Cong;
    CongMul(dy, s * W, dy, s * W, m);
    CongSub(dy * dy, (s * W) * (s * W), B, b, m);
    CongSub(dy * dy - B, (s * W) * (s * W) - b, C, c, m);
    CongScale(W * W, x3, s * s - x1 - x2, m);
    CongSym((W * W) * x3, (W * W) * (s * s - x1 - x2), m);
    SlopeSquare(W, s, x1, x2);
    CongTrans(dy * dy - B - C, (W * W) * (s * s - x1 - x2), (W * W) * x3, m);
  }

  lemma SlopeSquare(W: int, s: int, x1: int, x2: int)
    ensures (W * W) * (s * s - x1 - x2) == (s * W) * (s * W) - x1 * (W * W) - x2 * (W * W)
  {
  }

  lemma SumYSound(dy: int, BX: int, SX: int, BY: int, W: int, x1: int, y1: int, x3: int, y3: int, s: int, m: nat)
    requires m > 0 && Cong(dy, s * W, m) && Cong(BX, x1 * (W * W), m) && Cong(SX, x3 * (W * W), m)
    requires Cong(BY, y1 * (W * W * W), m) && Cong(y3, s * (x1 - x3) - y1, m)
    ensures Cong(dy * (BX - SX) - BY, y3 * (W * W * W), m)
  {
    CongSub(BX, x1 * (W * W), SX, x3 * (W * W), m);
    CongMul(dy, s * W, BX - SX, x1 * (W * W) - x3 * (W * W), m);
    CongSub(dy * (BX - SX), (s * W) * (x1 * (W * W) - x3 * (W * W)), BY, y1 * (W * W * W), m);
    CongScale(W * W * W, y3, s * (x1 - x3) - y1, m);
    CongSym((W * W * W) * y3, (W * W * W) * (s * (x1 - x3) - y1), m);
    SlopeCube(W, s, x1, x3, y1);
    CongTrans(dy * (BX - SX) - BY, (W * W * W) * (s * (x1 - x3) - y1), (W * W * W) * y3, m);
  }

  lemma SlopeCube(W: int, s: int, x1: int, x3: int, y1: int)
    ensures (W * W * W) * (s * (x1 - x3) - y1) == (s * W) * (x1 * (W * W) - x3 * (W * W)) - y1 * (W * W * W)
  {
  }

  /** XYcZAdd is sound: its second output stands for the chord sum P + Q, in the coordinate Z * (X2 - X1)
      that its first output now shares (ScaledSound). */
  lemma AddSound(X1: int, Y1: int, X2: int, Y2: int, Z: int,
                 x1: int, y1: int, x2: int, y2: int, x3: int, y3: int, s: int, m: nat)
    requires m > 0 && Represents(X1, Y1, Z, x1, y1, m) && Represents(X2, Y2, Z, x2, y2, m)
    requires ChordSum(x1, y1, x2, y2, x3, y3, s, m)
    ensures Represents(SumX(X1, X2, Y2 - Y1), SumY(X1, Y1, X2, Y2 - Y1), Z * (X2 - X1), x3, y3, m)
  {
    hide SumX, ScaledX, ScaledY;
    SlopeScaled(X1, Y1, X2, Y2, Z, x1, y1, x2, y2, s, m);
    ScaledSound(X1, Y1, X2, Z, x1, y1, m);
    SumXSound(X1, X2, Y2 - Y1, Z, x1, x2, x3, s, m);
    SumYSound(Y2 - Y1, ScaledX(X1, X2), SumX(X1, X2, Y2 - Y1), ScaledY(X1, Y1, X2), Z * (X2 - X1), x1, y1, x3, y3, s,
              m);
  }

  /** XYcZAddC is sound: its first output stands for P - Q, the chord sum of P and (x2, -y2), and its
      second for P + Q, both in the coordinate Z * (X2 - X1). */
  lemma AddCSound(X1: int, Y1: int, X2: int, Y2: int, Z: int, x1: int, y1: int, x2: int, y2: int, ny: int,
                  dx: int, dy: int, t: int, x3: int, y3: int, s: int, m: nat)
    requires m > 0 && Represents(X1, Y1, Z, x1, y1, m) && Represents(X2, Y2, Z, x2, y2, m) && Cong(ny, -y2, m)
    requires ChordSum(x1, y1, x2, ny, dx, dy, t, m) && ChordSum(x1, y1, x2, y2, x3, y3, s, m)
    ensures Represents(SumX(X1, X2, -Y2 - Y1), SumY(X1, Y1, X2, -Y2 - Y1), Z * (X2 - X1), dx, dy, m)
    ensures Represents(SumX(X1, X2, Y2 - Y1), SumY(X1, Y1, X2, Y2 - Y1), Z * (X2 - X1), x3, y3, m)
  {
    hide SumX, SumY, Cong;
    var z3 := Z * Z * Z;
    CongScale(-1, Y2, y2 * z3, m);
    CongScale(z3, ny, -y2, m);
    CongSym(z3 * ny, z3 * (-y2), m);
    assert -1 * (y2 * z3) == z3 * (-y2) && z3 * ny == ny * z3;
    CongTrans(-Y2, z3 * (-y2), ny * z3, m);
    AddSound(X1, Y1, X2, -Y2, Z, x1, y1, x2, ny, dx, dy, t, m);
    AddSound(X1, Y1, X2, Y2, Z, x1, y1, x2, y2, x3, y3, s, m);
  }

  /** The chord through two points with different x-coordinates exists modulo a prime, so the two
      theorems above apply to every such pair. */
  lemma ChordExists(x1: int, y1: int, x2: int, y2: int, m: nat) returns (x3: int, y3: int, s: int)
    requires IsPrime(m) && !Cong(x1, x2, m)
    ensures ChordSum(x1, y1, x2, y2, x3, y3, s, m)
  {
    var d := (x2 - x1) % m;
    CongMod(x2 - x1, m);
    assert d != 0 by {
      if d == 0 {
        CongAdd(0, x2 - x1, x1, x1, m) by { CongRefl(x1, m); }
      }
    }
    PrimeCoprime(d, m);
    var i := InverseExists(d, m);
    s := i * (y2 - y1);
    CongSym(d, x2 - x1, m);
    CongScale(s, x2 - x1, d, m);
    CongScale(y2 - y1, i * d, 1, m);
    assert s * d == (y2 - y1) * (i * d);
    CongTrans(s * (x2 - x1), s * d, y2 - y1, m);
    x3 := s * s - x1 - x2;
    y3 := s * (x1 - x3) - y1;
    CongRefl(x3, m);
    CongRefl(y3, m);
  }
}
