/** Powers, congruences and common divisors over the unbounded integers: the arithmetic
    that the word-level routines of the ECC library are specified against. */
module Numbers {

  // ---------- powers ----------

  function Pow(b: nat, e: nat): (r: nat)
    ensures b > 0 ==> r > 0
  {
    if e == 0 then 1 else b * Pow(b, e - 1)
  }

  lemma PowStep(b: nat, e: nat)
    ensures Pow(b, e + 1) == b * Pow(b, e)
  {
  }

  lemma PowZero(b: nat)
    ensures Pow(b, 0) == 1
  {
  }

  lemma {:induction false} PowAdd(b: nat, x: nat, y: nat)
    ensures Pow(b, x + y) == Pow(b, x) * Pow(b, y)
  {
    if x != 0 {
      PowAdd(b, x - 1, y);
      MulAssoc(b, Pow(b, x - 1), Pow(b, y));
      assert x + y - 1 == x - 1 + y;
    }
  }

  lemma {:induction false} PowMul(b: nat, x: nat, y: nat)
    ensures Pow(Pow(b, x), y) == Pow(b, x * y)
  {
    if y == 0 {
      assert x * y == 0;
    } else {
      PowMul(b, x, y - 1);
      assert x * y == x + x * (y - 1);
      PowAdd(b, x, x * (y - 1));
    }
  }

  lemma {:induction false} PowMonotone(b: nat, x: nat, y: nat)
    requires b > 0 && x <= y
    ensures Pow(b, x) <= Pow(b, y)
  {
    PowAdd(b, x, y - x);
    MulMonotone(Pow(b, x), 1, Pow(b, y - x));
  }

  // ---------- multiplication facts stated one at a time ----------

  lemma MulAssoc(x: int, y: int, z: int)
    ensures x * (y * z) == (x * y) * z
  {
  }

  lemma MulDistrib(x: int, y: int, z: int)
    ensures x * (y + z) == x * y + x * z
  {
  }

  lemma MulEqual(c: int, x: int, y: int)
    requires x == y
    ensures c * x == c * y
  {
  }

  lemma MulMonotone(c: int, x: int, y: int)
    requires c >= 0 && x <= y
    ensures c * x <= c * y
  {
  }

  lemma MulStrictMonotone(c: int, x: int, y: int)
    requires c > 0 && x < y
    ensures c * x < c * y
  {
    assert c * (y - x) > 0;
  }

  lemma MulCancelLess(c: int, x: int, y: int)
    requires c > 0 && c * x < c * y
    ensures x < y
  {
    if x >= y { MulMonotone(c, y, x); }
  }

  /** Division with remainder is unique. */
  lemma DivModUnique(x: int, m: int, q: int, r: int)
    requires m > 0 && 0 <= r < m && x == m * q + r
    ensures x / m == q && x % m == r
  {
    var d := q - x / m;
    assert m * d == x % m - r by {
      assert x == m * (x / m) + x % m;
      assert m * d == m * q - m * (x / m);
    }
    if d >= 1 { MulMonotone(m, 1, d); }
    if d <= -1 { MulMonotone(m, d, -1); }
  }

  // ---------- congruence ----------

  /** `a` and `b` leave the same remainder modulo `m`. */
  ghost predicate Cong(a: int, b: int, m: int)
    requires m > 0
  {
    exists q: int :: Apart(a, b, m, q)
  }

  ghost predicate Apart(a: int, b: int, m: int, q: int) {
    a - b == m * q
  }

  lemma CongBy(a: int, b: int, m: int, q: int)
    requires m > 0 && a - b == m * q
    ensures Cong(a, b, m)
  {
    assert Apart(a, b, m, q);
  }

  lemma CongQuotient(a: int, b: int, m: int) returns (q: int)
    requires m > 0 && Cong(a, b, m)
    ensures a - b == m * q
  {
    q :| Apart(a, b, m, q);
  }

  lemma CongRefl(a: int, m: int)
    requires m > 0
    ensures Cong(a, a, m)
  {
    CongBy(a, a, m, 0);
  }

  lemma CongSym(a: int, b: int, m: int)
    requires m > 0 && Cong(a, b, m)
    ensures Cong(b, a, m)
  {
    var q := CongQuotient(a, b, m);
    CongBy(b, a, m, -q);
  }

  lemma CongTrans(a: int, b: int, c: int, m: int)
    requires m > 0 && Cong(a, b, m) && Cong(b, c, m)
    ensures Cong(a, c, m)
  {
    var q := CongQuotient(a, b, m);
    var r := CongQuotient(b, c, m);
    assert m * (q + r) == m * q + m * r;
    CongBy(a, c, m, q + r);
  }

  lemma CongAdd(a: int, b: int, c: int, d: int, m: int)
    requires m > 0 && Cong(a, b, m) && Cong(c, d, m)
    ensures Cong(a + c, b + d, m)
  {
    var q := CongQuotient(a, b, m);
    var r := CongQuotient(c, d, m);
    assert m * (q + r) == m * q + m * r;
    CongBy(a + c, b + d, m, q + r);
  }

  lemma CongSub(a: int, b: int, c: int, d: int, m: int)
    requires m > 0 && Cong(a, b, m) && Cong(c, d, m)
    ensures Cong(a - c, b - d, m)
  {
    var q := CongQuotient(a, b, m);
    var r := CongQuotient(c, d, m);
    assert m * (q - r) == m * q - m * r;
    CongBy(a - c, b - d, m, q - r);
  }

  lemma CongMul(a: int, b: int, c: int, d: int, m: int)
    requires m > 0 && Cong(a, b, m) && Cong(c, d, m)
    ensures Cong(a * c, b * d, m)
  {
    var q := CongQuotient(a, b, m);
    var r := CongQuotient(c, d, m);
    calc {
      a * c - b * d;
      (a - b) * c + b * (c - d);
      (m * q) * c + b * (m * r);
      { MulAssoc(m, q, c); MulAssoc(b, m, r); MulAssoc(m, b, r); }
      m * (q * c) + m * (b * r);
      m * (q * c + b * r);
    }
    CongBy(a * c, b * d, m, q * c + b * r);
  }

  lemma CongScale(c: int, a: int, b: int, m: int)
    requires m > 0 && Cong(a, b, m)
    ensures Cong(c * a, c * b, m)
  {
    CongRefl(c, m);
    CongMul(c, c, a, b, m);
  }

  lemma CongMod(a: int, m: int)
    requires m > 0
    ensures Cong(a % m, a, m)
  {
    CongBy(a % m, a, m, -(a / m));
  }

  /** The remainder as a natural number. */
  function LeastResidue(i: int, n: nat): (j: nat)
    requires n > 0
    ensures j == i % n && j < n
  {
    i % n
  }

  lemma CongResidue(a: int, b: int, m: int)
    requires m > 0 && Cong(a, b, m) && 0 <= a < m
    ensures a == b % m
  {
    var q := CongQuotient(b, a, m) by { CongSym(a, b, m); }
    DivModUnique(b, m, q, a);
  }

  lemma CongIffMod(a: int, b: int, m: int)
    requires m > 0
    ensures Cong(a, b, m) <==> a % m == b % m
  {
    CongMod(a, m);
    CongMod(b, m);
    if Cong(a, b, m) {
      CongTrans(a % m, a, b, m);
      CongResidue(a % m, b, m);
    }
    if a % m == b % m {
      CongSym(a % m, a, m);
      CongTrans(a, a % m, b, m);
    }
  }

  /** Modulo an odd number, a common factor of two cancels. */
  lemma CongHalve(x: int, y: int, m: int)
    requires m > 0 && m % 2 == 1 && Cong(2 * x, 2 * y, m)
    ensures Cong(x, y, m)
  {
    var q := CongQuotient(2 * x, 2 * y, m);
    var h := m / 2;
    assert m == 2 * h + 1;
    assert m * q == 2 * (h * q) + q;
    assert q % 2 == 0;
    var r := q / 2;
    assert m * q == 2 * (m * r) by { assert q == 2 * r; }
    CongBy(x, y, m, r);
  }

  // ---------- divisors ----------

  ghost predicate Divides(d: nat, a: int)
    requires d > 0
  {
    Cong(a, 0, d)
  }

  /** `g` is the greatest common divisor: it divides both and every common divisor divides it. */
  ghost predicate IsGcd(g: nat, a: nat, b: nat) {
    && g > 0
    && Divides(g, a) && Divides(g, b)
    && forall d: nat :: d > 0 && Divides(d, a) && Divides(d, b) ==> Divides(d, g)
  }

  ghost function Gcd(a: nat, b: nat): nat
    decreases b
  {
    if b == 0 then a else Gcd(b, a % b)
  }

  ghost predicate SameCommonDivisors(a: nat, b: nat, c: nat, e: nat) {
    forall d: nat :: d > 0 ==> ((Divides(d, a) && Divides(d, b)) <==> (Divides(d, c) && Divides(d, e)))
  }

  lemma DividesLinear(d: nat, x: int, y: int, c: int)
    requires d > 0 && Divides(d, x) && Divides(d, y)
    ensures Divides(d, x + c * y)
  {
    CongScale(c, y, 0, d);
    CongAdd(x, 0, c * y, c * 0, d);
  }

  lemma SameDivisorsMod(a: nat, b: nat)
    requires b > 0
    ensures SameCommonDivisors(b, a % b, a, b)
  {
    var q := a / b;
    forall d: nat | d > 0
      ensures Divides(d, b) && Divides(d, a % b) <==> Divides(d, a) && Divides(d, b)
    {
      assert a == a % b + q * b && a % b == a + (-q) * b;
      if Divides(d, b) && Divides(d, a % b) { DividesLinear(d, a % b, b, q); }
      if Divides(d, b) && Divides(d, a) { DividesLinear(d, a, b, -q); }
    }
  }

  lemma IsGcdBySame(g: nat, a: nat, b: nat, c: nat, e: nat)
    requires IsGcd(g, a, b) && SameCommonDivisors(a, b, c, e)
    ensures IsGcd(g, c, e)
  {
  }

  lemma {:induction false} GcdIsGcd(a: nat, b: nat)
    requires a > 0 || b > 0
    ensures Gcd(a, b) > 0 && IsGcd(Gcd(a, b), a, b)
    decreases b
  {
    if b == 0 {
      CongBy(a, 0, a, 1);
      CongBy(0, 0, a, 0);
    } else {
      GcdIsGcd(b, a % b);
      SameDivisorsMod(a, b);
      IsGcdBySame(Gcd(b, a % b), b, a % b, a, b);
    }
  }

  lemma DividesAntisym(g: nat, h: nat)
    requires g > 0 && h > 0 && Divides(g, h) && Divides(h, g)
    ensures g == h
  {
    var q := CongQuotient(h, 0, g);
    var r := CongQuotient(g, 0, h);
    if q <= 0 { MulMonotone(g, q, 0); }
    if r <= 0 { MulMonotone(h, r, 0); }
    MulMonotone(g, 1, q);
    MulMonotone(h, 1, r);
  }

  lemma GcdByDivisors(a: nat, b: nat, c: nat, e: nat)
    requires (a > 0 || b > 0) && (c > 0 || e > 0) && SameCommonDivisors(a, b, c, e)
    ensures Gcd(a, b) == Gcd(c, e)
  {
    GcdIsGcd(a, b);
    GcdIsGcd(c, e);
    DividesAntisym(Gcd(a, b), Gcd(c, e));
  }

  lemma GcdSym(a: nat, b: nat)
    requires a > 0 && b > 0
    ensures Gcd(a, b) == Gcd(b, a)
  {
    GcdByDivisors(a, b, b, a);
  }

  lemma GcdSelf(a: nat)
    requires a > 0
    ensures Gcd(a, a) == a
  {
    assert a % a == 0 by { DivModUnique(a, a, 1, 0); }
    assert Gcd(a, a) == Gcd(a, 0);
  }

  lemma GcdSubtract(a: nat, b: nat)
    requires a > b > 0
    ensures Gcd(a - b, b) == Gcd(a, b)
  {
    forall d: nat | d > 0
      ensures Divides(d, a - b) && Divides(d, b) <==> Divides(d, a) && Divides(d, b)
    {
      if Divides(d, b) && Divides(d, a - b) { DividesLinear(d, a - b, b, 1); }
      if Divides(d, b) && Divides(d, a) { DividesLinear(d, a, b, -1); }
    }
    GcdByDivisors(a - b, b, a, b);
  }

  lemma EvenProduct(d: int, q: int)
    requires d % 2 == 0
    ensures (d * q) % 2 == 0
  {
    var h := d / 2;
    assert d * q == 2 * (h * q) by { assert d == 2 * h; MulAssoc(2, h, q); }
  }

  lemma OddDivisor(d: nat, b: nat)
    requires d > 0 && b % 2 == 1 && Divides(d, b)
    ensures d % 2 == 1
  {
    var q := CongQuotient(b, 0, d);
    if d % 2 == 0 { EvenProduct(d, q); }
  }

  /** Halving the even member of a pair whose other member is odd keeps the greatest common divisor. */
  lemma GcdHalve(a: nat, b: nat)
    requires a > 0 && a % 2 == 0 && b % 2 == 1
    ensures Gcd(a / 2, b) == Gcd(a, b)
  {
    forall d: nat | d > 0
      ensures Divides(d, a / 2) && Divides(d, b) <==> Divides(d, a) && Divides(d, b)
    {
      if Divides(d, a / 2) { CongScale(2, a / 2, 0, d); }
      if Divides(d, b) && Divides(d, a) {
        OddDivisor(d, b);
        CongHalve(a / 2, 0, d);
      }
    }
    GcdByDivisors(a / 2, b, a, b);
  }

  /** The greatest common divisor is an integer combination of the two numbers. */
  lemma {:induction false} Bezout(a: nat, b: nat) returns (s: int, t: int)
    requires a > 0 || b > 0
    ensures s * a + t * b == Gcd(a, b)
    decreases b
  {
    if b == 0 {
      s, t := 1, 0;
    } else {
      var q, r := a / b, a % b;
      var s', t' := Bezout(b, r);
      s, t := t', s' - t' * q;
      BezoutStep(a, b, q, r, s', t');
    }
  }

  lemma BezoutStep(a: int, b: int, q: int, r: int, s: int, t: int)
    requires a == b * q + r
    ensures t * a + (s - t * q) * b == s * b + t * r
  {
    MulEqual(t, a, b * q + r);
  }

  lemma InverseExists(a: nat, m: nat) returns (i: int)
    requires m > 0 && Gcd(a, m) == 1
    ensures Cong(i * a, 1, m)
  {
    var t: int;
    i, t := Bezout(a, m);
    CongBy(i * a, 1, m, -t);
  }

  /** A prime: no divisors but one and itself. */
  ghost predicate IsPrime(n: nat) {
    n > 1 && forall d: nat :: d > 0 && Divides(d, n) ==> d == 1 || d == n
  }

  lemma PrimeAboveOne(n: nat)
    requires IsPrime(n)
    ensures n > 1
  {
  }

  lemma PrimeCoprime(a: nat, n: nat)
    requires IsPrime(n) && 0 < a < n
    ensures Gcd(a, n) == 1
  {
    GcdIsGcd(a, n);
    if Divides(n, a) {
      var q := CongQuotient(a, 0, n);
      if q >= 1 { MulMonotone(n, 1, q); }
      if q <= 0 { MulMonotone(n, q, 0); }
    }
  }

  /** Modulo a prime, a factor that is not zero cancels. */
  lemma CancelFactor(a: int, x: int, y: int, n: nat)
    requires IsPrime(n) && !Cong(a, 0, n) && Cong(a * x, a * y, n)
    ensures Cong(x, y, n)
  {
    var i := PrimeInverse(a, n);
    CongScale(i, a * x, a * y, n);
    CongScale(x, i * a, 1, n);
    CongScale(y, i * a, 1, n);
    CongSym(x * (i * a), x, n);
    assert x * (i * a) == i * (a * x) && y * (i * a) == i * (a * y);
    CongTrans(x, i * (a * x), i * (a * y), n);
    CongTrans(x, i * (a * y), y, n);
  }

  lemma PrimeInverse(a: int, n: nat) returns (i: int)
    requires IsPrime(n) && !Cong(a, 0, n)
    ensures Cong(i * a, 1, n)
  {
    CongMod(a, n);
    assert a % n != 0 by { if a % n == 0 { CongSym(0, a, n); } }
    PrimeCoprime(a % n, n);
    i := InverseExists(a % n, n);
    CongSym(a % n, a, n);
    CongScale(i, a, a % n, n);
    CongTrans(i * a, i * (a % n), 1, n);
  }

  /** Modulo a prime, a product is zero only when a factor is. */
  lemma NonzeroFactors(a: int, b: int, n: nat)
    requires IsPrime(n) && !Cong(a, 0, n) && !Cong(b, 0, n)
    ensures !Cong(a * b, 0, n)
  {
    if Cong(a * b, 0, n) { CancelFactor(a, b, 0, n); }
  }

  lemma SmallNonzero(a: nat, n: nat)
    requires 0 < a < n
    ensures !Cong(a, 0, n)
  {
    if Cong(a, 0, n) {
      CongSym(a, 0, n);
      CongResidue(0, a, n);
      DivModUnique(a, n, 0, a);
    }
  }

  lemma SmallEqual(a: nat, b: nat, n: nat)
    requires a < n && b < n && Cong(a, b, n)
    ensures a == b
  {
    CongResidue(a, b, n);
    DivModUnique(b, n, 0, b);
  }

  lemma NonzeroProduct(a: nat, b: nat, n: nat)
    requires IsPrime(n) && 0 < a < n && 0 < b < n
    ensures 0 < (a * b) % n < n
  {
    SmallNonzero(a, n);
    SmallNonzero(b, n);
    NonzeroFactors(a, b, n);
    CongMod(a * b, n);
    if (a * b) % n == 0 { CongSym(0, a * b, n); }
  }
}
