/** Point doubling in Jacobian coordinates over the integers modulo p, in the two forms of the supported curves, and
    its soundness with respect to the affine tangent law. */
module Doubling {
  import opened Numbers
  import opened Words
  import opened Field
  import opened CoZ

  /** Which double_jacobian a curve names: the one for the coefficient a = -3 or the one for a = 0. */
  datatype DoublingKind = MinusThree | NoLinearTerm

  function Linear(kind: DoublingKind): int {
    if kind == MinusThree then -3 else 0
  }

  // ---------- the formulas ----------

  ghost function DoubleA(x: int, y: int): int {
    Times(x, Times(y, y))
  }

  ghost function DoubleX(x: int, y: int, b: int): int {
    Times(b, b) - DoubleA(x, y) - DoubleA(x, y)
  }

  ghost function DoubleY(x: int, y: int, b: int): int {
    Times(b, DoubleA(x, y) - DoubleX(x, y, b)) - Times(Times(y, y), Times(y, y))
  }

  /** `b` is (3 * x^2 + a * z^4) / 2, the slope of the tangent times the new z. */
  ghost predicate Steepness(b: int, x: int, z: int, a: int, m: nat)
    requires m > 0
  {
    Cong(2 * b, 3 * (x * x) + a * (z * z * (z * z)), m)
  }

  /** What doubling leaves: nothing changes for z = 0, else the formulas for some `b` as above. */
  ghost predicate Doubled(w: WordBits, X1: array<nat>, Y1: array<nat>, Z1: array<nat>, n: nat, x: int, y: int, z: int,
                          b: int, a: int, m: nat)
    reads X1, Y1, Z1
  {
    && m > 0
    && if Cong(z, 0, m) then Residue(w, X1, n, x, m) && Residue(w, Y1, n, y, m) && Residue(w, Z1, n, z, m)
       else
         && Steepness(b, x, z, a, m) && Residue(w, X1, n, DoubleX(x, y, b), m)
         && Residue(w, Y1, n, DoubleY(x, y, b), m) && Residue(w, Z1, n, Times(y, z), m)
  }

  method DoubleJacobian(kind: DoublingKind, w: WordBits, X1: array<nat>, Y1: array<nat>, Z1: array<nat>,
                        p: array<nat>, n: nat, ghost x: int, ghost y: int, ghost z: int, ghost m: nat)
    returns (ghost b: int)
    requires X1 != Y1 && X1 != Z1 && Y1 != Z1 && p != X1 && p != Y1 && p != Z1 && Modulus(w, p, n, m) && m % 2 == 1
    requires Residue(w, X1, n, x, m) && Residue(w, Y1, n, y, m) && Residue(w, Z1, n, z, m)
    modifies X1, Y1, Z1
    ensures Doubled(w, X1, Y1, Z1, n, x, y, z, b, Linear(kind), m)
  {
    hide Residue, Modulus, Times;
    var zero := FieldIsZero(w, Z1, n, z, m);
    ModulusPositive(w, p, n, m);
    if zero {
      return 0;
    }
    if kind == MinusThree {
      b := DoubleDefault(w, X1, Y1, Z1, p, n, x, y, z, m);
    } else {
      b := DoubleSecp256k1(w, X1, Y1, Z1, p, n, x, y, z, m);
    }
  }

  lemma ModulusPositive(w: WordBits, p: array<nat>, n: nat, m: nat)
    requires Modulus(w, p, n, m)
    ensures m > 0
  {
  }

  /** double_jacobian_default, past its test of z. */
  method DoubleDefault(w: WordBits, X1: array<nat>, Y1: array<nat>, Z1: array<nat>, p: array<nat>, n: nat,
                       ghost x: int, ghost y: int, ghost z: int, ghost m: nat) returns (ghost b: int)
    requires X1 != Y1 && X1 != Z1 && Y1 != Z1 && p != X1 && p != Y1 && p != Z1 && Modulus(w, p, n, m) && m % 2 == 1
    requires Residue(w, X1, n, x, m) && Residue(w, Y1, n, y, m) && Residue(w, Z1, n, z, m)
    modifies X1, Y1, Z1
    ensures m > 0 && Steepness(b, x, z, -3, m)
    ensures Residue(w, X1, n, DoubleX(x, y, b), m) && Residue(w, Y1, n, DoubleY(x, y, b), m)
    ensures Residue(w, Z1, n, Times(y, z), m)
  {
    hide Residue, Modulus, Times;
    var t4 := NewTemp(w, p, n, m);
    var t5 := NewTemp(w, p, n, m);
    ghost var y2 := Times(y, y);
    FieldSquare(w, t4, Y1, p, n, y, m);
    FieldMul(w, t5, X1, t4, p, n, x, y2, m);
    FieldSquare(w, t4, t4, p, n, y2, m);
    FieldMul(w, Y1, Y1, Z1, p, n, y, z, m);
    FieldSquare(w, Z1, Z1, p, n, z, m);
    b := TangentDefault(w, X1, Z1, p, n, x, z, m);
    FinishDefault(w, X1, Y1, Z1, t4, t5, p, n, b, DoubleA(x, y), Times(y2, y2), Times(y, z), m);
  }

  /** X1 = 3 * (x + z^2) * (x - z^2) / 2, for Z1 = z^2. */
  method TangentDefault(w: WordBits, X1: array<nat>, Z1: array<nat>, p: array<nat>, n: nat,
                        ghost x: int, ghost z: int, ghost m: nat) returns (ghost b: int)
    requires X1 != Z1 && p != X1 && p != Z1 && Modulus(w, p, n, m) && m % 2 == 1
    requires Residue(w, X1, n, x, m) && Residue(w, Z1, n, Times(z, z), m)
    modifies X1, Z1
    ensures m > 0 && Steepness(b, x, z, -3, m) && Residue(w, X1, n, b, m) && n <= Z1.Length
  {
    hide Residue, Modulus, Times;
    ghost var z2 := Times(z, z);
    ghost var t := Times(x + z2, x + z2 - (z2 + z2));
    FieldAdd(w, X1, X1, Z1, p, n, x, z2, m);
    FieldAdd(w, Z1, Z1, Z1, p, n, z2, z2, m);
    FieldSub(w, Z1, X1, Z1, p, n, x + z2, z2 + z2, m);
    FieldMul(w, X1, X1, Z1, p, n, x + z2, x + z2 - (z2 + z2), m);
    FieldAdd(w, Z1, X1, X1, p, n, t, t, m);
    FieldAdd(w, X1, X1, Z1, p, n, t, t + t, m);
    b := FieldHalf(w, X1, p, n, t + (t + t), m);
    TangentProduct(x, z);
    ModulusPositive(w, p, n, m);
  }

  lemma TangentProduct(x: int, z: int)
    ensures var z2 := Times(z, z);
      var t := Times(x + z2, x + z2 - (z2 + z2));
      t + (t + t) == 3 * (x * x) + -3 * (z * z * (z * z))
  {
    var z2 := z * z;
    assert (x + z2) * (x - z2) == x * x - z2 * z2;
  }

  /** X1 = b^2 - 2 * A, Y1 = b * (A - X1) - y^4 and Z1 = z3, for X1 = b, Y1 = z3, t4 = y^4 and t5 = A. */
  method FinishDefault(w: WordBits, X1: array<nat>, Y1: array<nat>, Z1: array<nat>, t4: array<nat>, t5: array<nat>,
                       p: array<nat>, n: nat, ghost b: int, ghost a: int, ghost y4: int, ghost z3: int, ghost m: nat)
    requires X1 != Y1 && X1 != Z1 && Y1 != Z1 && p != X1 && p != Y1 && p != Z1 && Modulus(w, p, n, m)
    requires t4 != X1 && t4 != Y1 && t4 != Z1 && t4 != p && t4 != t5 && n <= Z1.Length
    requires t5 != X1 && t5 != Y1 && t5 != Z1 && t5 != p
    requires Residue(w, X1, n, b, m) && Residue(w, t5, n, a, m) && Residue(w, t4, n, y4, m) && Residue(w, Y1, n, z3, m)
    modifies X1, Y1, Z1, t4, t5
    ensures var x3 := Times(b, b) - a - a;
      Residue(w, X1, n, x3, m) && Residue(w, Y1, n, Times(b, a - x3) - y4, m) && Residue(w, Z1, n, z3, m)
  {
    hide Residue, Modulus, Times;
    ghost var b2 := Times(b, b);
    ghost var x3 := b2 - a - a;
    FieldSquare(w, Z1, X1, p, n, b, m);
    FieldSub(w, Z1, Z1, t5, p, n, b2, a, m);
    FieldSub(w, Z1, Z1, t5, p, n, b2 - a, a, m);
    FieldSub(w, t5, t5, Z1, p, n, a, x3, m);
    FieldMul(w, X1, X1, t5, p, n, b, a - x3, m);
    FieldSub(w, t4, X1, t4, p, n, Times(b, a - x3), y4, m);
    FieldSet(w, X1, Z1, n, x3, m);
    FieldSet(w, Z1, Y1, n, z3, m);
    FieldSet(w, Y1, t4, n, Times(b, a - x3) - y4, m);
  }

  /** double_jacobian_secp256k1, past its test of z. */
  method DoubleSecp256k1(w: WordBits, X1: array<nat>, Y1: array<nat>, Z1: array<nat>, p: array<nat>, n: nat,
                         ghost x: int, ghost y: int, ghost z: int, ghost m: nat) returns (ghost b: int)
    requires X1 != Y1 && X1 != Z1 && Y1 != Z1 && p != X1 && p != Y1 && p != Z1 && Modulus(w, p, n, m) && m % 2 == 1
    requires Residue(w, X1, n, x, m) && Residue(w, Y1, n, y, m) && Residue(w, Z1, n, z, m)
    modifies X1, Y1, Z1
    ensures m > 0 && Steepness(b, x, z, 0, m)
    ensures Residue(w, X1, n, DoubleX(x, y, b), m) && Residue(w, Y1, n, DoubleY(x, y, b), m)
    ensures Residue(w, Z1, n, Times(y, z), m)
  {
    hide Residue, Modulus, Times;
    var t4 := NewTemp(w, p, n, m);
    var t5 := NewTemp(w, p, n, m);
    ghost var y2, x2 := Times(y, y), Times(x, x);
    FieldSquare(w, t5, Y1, p, n, y, m);
    FieldMul(w, t4, X1, t5, p, n, x, y2, m);
    FieldSquare(w, X1, X1, p, n, x, m);
    FieldSquare(w, t5, t5, p, n, y2, m);
    FieldMul(w, Z1, Y1, Z1, p, n, y, z, m);
    FieldAdd(w, Y1, X1, X1, p, n, x2, x2, m);
    FieldAdd(w, Y1, Y1, X1, p, n, x2 + x2, x2, m);
    b := FieldHalf(w, Y1, p, n, x2 + x2 + x2, m);
    TripleSquare(x, z);
    ModulusPositive(w, p, n, m);
    FinishSecp256k1(w, X1, Y1, t4, t5, p, n, b, DoubleA(x, y), Times(y2, y2), m);
  }

  lemma TripleSquare(x: int, z: int)
    ensures Times(x, x) + Times(x, x) + Times(x, x) == 3 * (x * x) + 0 * (z * z * (z * z))
  {
  }

  /** X1 = b^2 - 2 * A and Y1 = b * (A - X1) - y^4, for Y1 = b, t4 = A and t5 = y^4. */
  method FinishSecp256k1(w: WordBits, X1: array<nat>, Y1: array<nat>, t4: array<nat>, t5: array<nat>,
                         p: array<nat>, n: nat, ghost b: int, ghost a: int, ghost y4: int, ghost m: nat)
    requires X1 != Y1 && p != X1 && p != Y1 && Modulus(w, p, n, m) && n <= X1.Length
    requires t4 != X1 && t4 != Y1 && t4 != p && t4 != t5 && t5 != X1 && t5 != Y1 && t5 != p
    requires Residue(w, Y1, n, b, m) && Residue(w, t4, n, a, m) && Residue(w, t5, n, y4, m)
    modifies X1, Y1, t4
    ensures var x3 := Times(b, b) - a - a;
      Residue(w, X1, n, x3, m) && Residue(w, Y1, n, Times(b, a - x3) - y4, m)
  {
    hide Residue, Modulus, Times;
    ghost var b2 := Times(b, b);
    ghost var x3 := b2 - a - a;
    FieldSquare(w, X1, Y1, p, n, b, m);
    FieldSub(w, X1, X1, t4, p, n, b2, a, m);
    FieldSub(w, X1, X1, t4, p, n, b2 - a, a, m);
    FieldSub(w, t4, t4, X1, p, n, a, x3, m);
    FieldMul(w, Y1, Y1, t4, p, n, b, a - x3, m);
    FieldSub(w, Y1, Y1, t5, p, n, Times(b, a - x3), y4, m);
  }

  // ---------- soundness ----------

  /** (x3, y3) is twice (x, y) by the tangent of slope `s` on a curve y^2 = x^3 + a * x + b. */
  ghost predicate TangentSum(x: int, y: int, x3: int, y3: int, s: int, a: int, m: nat)
    requires m > 0
  {
    Cong(s * (2 * y), 3 * (x * x) + a, m) && Cong(x3, s * s - x - x, m) && Cong(y3, s * (x - x3) - y, m)
  }

  /** The slope times the new Z is what the code computes in its place. */
  lemma SteepnessIsSlope(b: int, Z: int, x: int, y: int, s: int, a: int, m: nat)
    requires m > 0 && m % 2 == 1 && Cong(s * (2 * y), 3 * (x * x) + a, m) && Steepness(b, x * (Z * Z), Z, a, m)
    ensures Cong(b, s * (y * (Z * Z * Z) * Z), m)
  {
    hide Cong;
    var z4 := Z * Z * (Z * Z);
    CongScale(z4, s * (2 * y), 3 * (x * x) + a, m);
    CongSym(z4 * (s * (2 * y)), z4 * (3 * (x * x) + a), m);
    SteepnessScaled(Z, x, y, s, a);
    CongTrans(2 * b, z4 * (3 * (x * x) + a), z4 * (s * (2 * y)), m);
    CongHalve(b, s * (y * (Z * Z * Z) * Z), m);
  }

  lemma SteepnessScaled(Z: int, x: int, y: int, s: int, a: int)
    ensures var X, z4 := x * (Z * Z), Z * Z * (Z * Z);
      3 * (X * X) + a * z4 == z4 * (3 * (x * x) + a)
    ensures Z * Z * (Z * Z) * (s * (2 * y)) == 2 * (s * (y * (Z * Z * Z) * Z))
  {
  }

  /** double_jacobian is sound: the result stands for twice the point, in the coordinate Y * Z. */
  lemma DoubleSound(Z: int, x: int, y: int, x3: int, y3: int, s: int, b: int, a: int, m: nat)
    requires m > 0 && m % 2 == 1 && TangentSum(x, y, x3, y3, s, a, m) && Steepness(b, x * (Z * Z), Z, a, m)
    ensures var X, Y := x * (Z * Z), y * (Z * Z * Z);
      Represents(DoubleX(X, Y, b), DoubleY(X, Y, b), Y * Z, x3, y3, m)
  {
    hide Cong, Steepness;
    var X, Y := x * (Z * Z), y * (Z * Z * Z);
    var W := Y * Z;
    var A, Y4 := DoubleA(X, Y), Times(Times(Y, Y), Times(Y, Y));
    SteepnessIsSlope(b, Z, x, y, s, a, m);
    assert A == x * (W * W) by { SquareW(Z, x, Y); }
    assert Y4 == y * (W * W * W) by { CubeW(Z, y, Y); }
    CongRefl(A, m);
    CongRefl(Y4, m);
    SumXCongruent(b, A, A, A, A, W, x, x, x3, s, m);
    SumYSound(b, A, DoubleX(X, Y, b), Y4, W, x, y, x3, y3, s, m);
  }

  lemma SquareW(Z: int, x: int, Y: int)
    ensures Times(x * (Z * Z), Times(Y, Y)) == x * ((Y * Z) * (Y * Z))
  {
  }

  lemma CubeW(Z: int, y: int, Y: int)
    requires Y == y * (Z * Z * Z)
    ensures Times(Times(Y, Y), Times(Y, Y)) == y * ((Y * Z) * (Y * Z) * (Y * Z))
  {
    assert (Y * Z) * (Y * Z) * (Y * Z) == (Y * Y * Y) * (Z * Z * Z);
    MulEqual(Y * Y * Y, Y, y * (Z * Z * Z));
    MulAssoc(Y * Y * Y, y, Z * Z * Z);
  }
}
