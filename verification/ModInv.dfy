/** Modular inversion by the binary greatest-common-divisor algorithm. */
module ModInv {
  import opened Numbers
  import opened Words
  import opened Vli
  import opened ModArith

  /** The invariant of the inversion loop for input `x` and modulus `m`: `u` and `v` are the
      coefficients of `x` in `a` and `b`, and no common divisor has been gained or lost. */
  ghost predicate Invariant(a: nat, b: nat, u: nat, v: nat, x: nat, m: nat) {
    && a > 0 && b > 0 && m > 0 && (a % 2 == 1 || b % 2 == 1)
    && u < m && v < m
    && Cong(u * x, a, m) && Cong(v * x, b, m)
    && Gcd(a, b) == Gcd(x, m)
  }

  lemma Start(x: nat, m: nat)
    requires x > 0 && m > 1 && m % 2 == 1
    ensures Invariant(x, m, 1, 0, x, m)
  {
    CongRefl(x, m);
    CongBy(0 * x, m, m, -1);
  }

  lemma Finish(a: nat, u: nat, v: nat, x: nat, m: nat)
    requires Invariant(a, a, u, v, x, m)
    ensures Cong(u * x, Gcd(x, m), m)
  {
    GcdSelf(a);
  }

  lemma Swap(a: nat, b: nat, u: nat, v: nat, x: nat, m: nat)
    requires Invariant(a, b, u, v, x, m)
    ensures Invariant(b, a, v, u, x, m)
  {
    GcdSym(a, b);
  }

  /** Halving a coefficient modulo an odd number halves what it represents. */
  lemma HalveCoefficient(a: nat, u: nat, u': nat, x: nat, m: nat)
    requires m > 0 && m % 2 == 1 && a % 2 == 0 && Cong(u * x, a, m)
    requires 2 * u' == u || 2 * u' == u + m
    ensures Cong(u' * x, a / 2, m)
  {
    CongBy(2 * u', u, m, if 2 * u' == u then 0 else 1);
    CongRefl(x, m);
    CongMul(2 * u', u, x, x, m);
    CongTrans((2 * u') * x, u * x, a, m);
    MulAssoc(2, u', x);
    CongHalve(u' * x, a / 2, m);
  }

  lemma HalveStep(a: nat, b: nat, u: nat, v: nat, u': nat, x: nat, m: nat)
    requires Invariant(a, b, u, v, x, m) && m % 2 == 1 && a % 2 == 0
    requires u' < m && (2 * u' == u || 2 * u' == u + m)
    ensures Invariant(a / 2, b, u', v, x, m)
  {
    HalveCoefficient(a, u, u', x, m);
    GcdHalve(a, b);
  }

  lemma DifferenceTimes(u: nat, v: nat, d: nat, x: nat, m: nat)
    requires m > 0 && (d == u - v || d == u - v + m)
    ensures Cong(d * x, u * x - v * x, m)
  {
    if d == u - v {
      MulEqual(x, d, u - v);
      CongBy(d * x, u * x - v * x, m, 0);
    } else {
      MulEqual(x, d, u - v + m);
      CongBy(d * x, u * x - v * x, m, x);
    }
  }

  lemma SubtractStep(a: nat, b: nat, u: nat, v: nat, d: nat, x: nat, m: nat)
    requires Invariant(a, b, u, v, x, m) && a > b && a % 2 == 1 && b % 2 == 1
    requires d < m && (d == u - v || d == u - v + m)
    ensures Invariant(a - b, b, d, v, x, m)
  {
    CongSub(u * x, a, v * x, b, m);
    DifferenceTimes(u, v, d, x, m);
    CongTrans(d * x, u * x - v * x, a - b, m);
    GcdSubtract(a, b);
  }

  // ---------- the loop as a function of numbers ----------

  /** Half of a coefficient, as the update computes it: the modulus is added first when it is odd. */
  function HalfMod(u: nat, m: nat): nat {
    if u % 2 == 0 then u / 2 else (u + m) / 2
  }

  /** The difference of two coefficients modulo m. */
  function DiffMod(u: nat, v: nat, m: nat): (d: nat)
    requires u < m && v < m
    ensures d < m && (d == u - v || d == u - v + m)
  {
    if u < v then u - v + m else u - v
  }

  /** What the loop makes of a, b and their coefficients. */
  function Invert(a: nat, b: nat, u: nat, v: nat, m: nat): (r: nat)
    requires a > 0 && b > 0 && u < m && v < m
    ensures r < m
    decreases a + b
  {
    if a == b then u
    else if a % 2 == 0 then Invert(a / 2, b, HalfMod(u, m), v, m)
    else if b % 2 == 0 then Invert(a, b / 2, u, HalfMod(v, m), m)
    else if a > b then Invert((a - b) / 2, b, HalfMod(DiffMod(u, v, m), m), v, m)
    else Invert(a, (b - a) / 2, u, HalfMod(DiffMod(v, u, m), m), m)
  }

  lemma HalfModExact(u: nat, m: nat)
    requires u < m && m % 2 == 1
    ensures HalfMod(u, m) < m && (2 * HalfMod(u, m) == u || 2 * HalfMod(u, m) == u + m)
  {
  }

  /** For an odd modulus the loop keeps the invariant and ends with the coefficient of the greatest common divisor. */
  lemma {:induction false} InvertOdd(a: nat, b: nat, u: nat, v: nat, x: nat, m: nat)
    requires Invariant(a, b, u, v, x, m) && m % 2 == 1
    ensures Cong(Invert(a, b, u, v, m) * x, Gcd(x, m), m)
    decreases a + b
  {
    hide Cong, Gcd, HalfMod, DiffMod;
    if a == b {
      Finish(a, u, v, x, m);
    } else if a % 2 == 0 {
      HalfModExact(u, m);
      HalveStep(a, b, u, v, HalfMod(u, m), x, m);
      InvertOdd(a / 2, b, HalfMod(u, m), v, x, m);
    } else if b % 2 == 0 {
      HalfModExact(v, m);
      Swap(a, b, u, v, x, m);
      HalveStep(b, a, v, u, HalfMod(v, m), x, m);
      Swap(b / 2, a, HalfMod(v, m), u, x, m);
      InvertOdd(a, b / 2, u, HalfMod(v, m), x, m);
    } else if a > b {
      var d := DiffMod(u, v, m);
      HalfModExact(d, m);
      SubtractStep(a, b, u, v, d, x, m);
      HalveStep(a - b, b, d, v, HalfMod(d, m), x, m);
      InvertOdd((a - b) / 2, b, HalfMod(d, m), v, x, m);
    } else {
      var d := DiffMod(v, u, m);
      HalfModExact(d, m);
      Swap(a, b, u, v, x, m);
      SubtractStep(b, a, v, u, d, x, m);
      HalveStep(b - a, a, d, u, HalfMod(d, m), x, m);
      Swap((b - a) / 2, a, HalfMod(d, m), u, x, m);
      InvertOdd(a, (b - a) / 2, u, HalfMod(d, m), x, m);
    }
  }

  /** For an odd modulus and a coprime input, the value the code computes is the inverse. */
  lemma InverseForOdd(x: nat, m: nat)
    requires x > 0 && m > 1 && m % 2 == 1
    ensures Cong(Invert(x, m, 1, 0, m) * x, Gcd(x, m), m)
    ensures Gcd(x, m) == 1 ==> (Invert(x, m, 1, 0, m) * x) % m == 1
  {
    Start(x, m);
    InvertOdd(x, m, 1, 0, x, m);
    if Gcd(x, m) == 1 { CoprimeInverse(Invert(x, m, 1, 0, m), x, m); }
  }

  /** `m` without its factors of two. */
  ghost function OddPart(m: nat): (o: nat)
    requires m > 0
    ensures 0 < o <= m && o % 2 == 1
  {
    if m % 2 == 0 then OddPart(m / 2) else m
  }

  lemma {:induction false} OddDividesOddPart(d: nat, m: nat)
    requires m > 0 && d % 2 == 1 && Divides(d, m)
    ensures Divides(d, OddPart(m))
  {
    if m % 2 == 0 {
      CongHalve(m / 2, 0, d);
      OddDividesOddPart(d, m / 2);
    }
  }

  /** Next to an odd `a`, the loop halves `b` down to its odd part and leaves the coefficient zero at zero. */
  lemma {:induction false} HalvesDown(a: nat, b: nat, u: nat, m: nat)
    requires a % 2 == 1 && b > 0 && u < m
    ensures Invert(a, b, u, 0, m) == Invert(a, OddPart(b), u, 0, m)
  {
    if b % 2 == 0 {
      HalvesDown(a, b / 2, u, m);
      assert Invert(a, b, u, 0, m) == Invert(a, b / 2, u, HalfMod(0, m), m);
    }
  }

  /** Once `a` is one, its coefficient never changes again. */
  lemma {:induction false} OneStays(b: nat, u: nat, v: nat, m: nat)
    requires b > 0 && u < m && v < m
    ensures Invert(1, b, u, v, m) == u
    decreases b
  {
    if b == 1 {
    } else if b % 2 == 0 {
      OneStays(b / 2, u, HalfMod(v, m), m);
    } else {
      OneStays((b - 1) / 2, u, HalfMod(DiffMod(v, u, m), m), m);
    }
  }

  /** Two above the odd part of an even modulus there is a coprime number. */
  lemma CoprimeAbove(m: nat)
    requires m > 2 && m % 2 == 0
    ensures OddPart(m) + 2 < m && Gcd(OddPart(m) + 2, m) == 1
  {
    hide Gcd, Divides, IsGcd;
    var o, x := OddPart(m), OddPart(m) + 2;
    assert o == OddPart(m / 2);
    GcdIsGcd(x, m);
    var g := Gcd(x, m);
    assert Divides(g, x) && Divides(g, m) by { IsGcdDivides(g, x, m); }
    OddDivisor(g, x);
    OddDividesOddPart(g, m);
    DividesLinear(g, x, o, -1);
    HalfDivides(g);
    OddUnit(g);
  }

  lemma IsGcdDivides(g: nat, a: nat, b: nat)
    requires IsGcd(g, a, b)
    ensures g > 0 && Divides(g, a) && Divides(g, b)
  {
  }

  lemma HalfDivides(g: nat)
    requires g % 2 == 1 && Divides(g, 2)
    ensures Divides(g, 1)
  {
    CongHalve(1, 0, g);
  }

  /** The one subtraction leaves a == 1 with coefficient m / 2. */
  lemma OneSubtraction(o: nat, m: nat)
    requires m > 2 && m % 2 == 0 && o % 2 == 1
    ensures Invert(o + 2, o, 1, 0, m) == m / 2
  {
    hide Invert;
    InvertSubtract(o + 2, o, 1, 0, m);
    assert (o + 2 - o) / 2 == 1 && HalfMod(DiffMod(1, 0, m), m) == m / 2;
    OneStays(o, m / 2, 0, m);
  }

  lemma InvertSubtract(a: nat, b: nat, u: nat, v: nat, m: nat)
    requires a > b && a % 2 == 1 && b % 2 == 1 && u < m && v < m
    ensures Invert(a, b, u, v, m) == Invert((a - b) / 2, b, HalfMod(DiffMod(u, v, m), m), v, m)
  {
  }

  /** For an even modulus above two, the input two above its odd part is coprime to it and gets m / 2. */
  lemma MissedInverse(m: nat)
    requires m > 2 && m % 2 == 0
    ensures var x := OddPart(m) + 2;
      x < m && Gcd(x, m) == 1 && Invert(x, m, 1, 0, m) == m / 2 && (m / 2 * x) % m != 1
  {
    hide Gcd, OddPart, Invert;
    var o, x := OddPart(m), OddPart(m) + 2;
    CoprimeAbove(m);
    OneSubtraction(o, m);
    HalvesDown(x, m, 1, m);
    HalfTimesOdd(m / 2, x / 2);
    DivModUnique(m / 2 * x, m, x / 2, m / 2);
  }

  lemma OddUnit(g: nat)
    requires g > 0 && Divides(g, 1)
    ensures g == 1
  {
    CongBy(g, 0, 1, g);
    DividesAntisym(g, 1);
  }

  lemma HalfTimesOdd(h: int, q: int)
    ensures h * (2 * q + 1) == (2 * h) * q + h
  {
  }

  /** The value computed is the inverse of every coprime input exactly when the modulus is odd or two. */
  lemma RightModuli(m: nat)
    requires m > 1
    ensures (forall x: nat :: 0 < x < m && Gcd(x, m) == 1 ==> (Invert(x, m, 1, 0, m) * x) % m == 1)
        <==> m % 2 == 1 || m == 2
  {
    hide Gcd;
    if m % 2 == 1 {
      forall x: nat | 0 < x < m && Gcd(x, m) == 1 ensures (Invert(x, m, 1, 0, m) * x) % m == 1 {
        InverseForOdd(x, m);
      }
    } else if m == 2 {
      assert Invert(1, 2, 1, 0, 2) == Invert(1, 1, 1, 0, 2) == 1;
    } else {
      MissedInverse(m);
    }
  }

  /** With a coprime input the result is the inverse. */
  lemma CoprimeInverse(r: nat, x: nat, m: nat)
    requires m > 1 && Cong(r * x, Gcd(x, m), m) && Gcd(x, m) == 1
    ensures (r * x) % m == 1
  {
    CongSym(r * x, 1, m);
    CongResidue(1, r * x, m);
  }

  // ---------- the word level ----------

  lemma HalfBase(n: nat, w: WordBits)
    requires n > 0
    ensures Pow(Base(w), n) == 2 * (HighBit(w) * Pow(Base(w), n - 1))
  {
    hide Base, HighBit;
    PowStep(Base(w), n - 1);
    MulEqual(Pow(Base(w), n - 1), Base(w), 2 * HighBit(w));
  }

  lemma Parity(s: seq<nat>, w: WordBits)
    requires s != []
    ensures Val(s, Base(w)) % 2 == s[0] % 2
  {
    hide Val, Base;
    ValCons(s, Base(w));
    EvenBaseTerm(s[0], Base(w), HighBit(w), Val(s[1..], Base(w)));
  }

  lemma EvenBaseTerm(x: int, B: int, h: int, v: int)
    requires B == 2 * h
    ensures (x + B * v) % 2 == x % 2
  {
    MulEqual(v, B, 2 * h);
    assert x + B * v == x + 2 * (h * v);
  }

  lemma HalfSum(s: nat, t: nat, carry: nat, half: int, u: nat, m: nat)
    requires carry <= 1 && s == 2 * t + s % 2
    requires if u % 2 == 0 then carry == 0 && s == u else s + carry * (2 * half) == u + m
    ensures t + carry * half == HalfMod(u, m)
  {
  }

  /** uv = uv / 2 modulo mod: adds mod first when uv is odd, and puts the carry of that addition back as the high bit
      after the shift. */
  method Update(w: WordBits, uv: array<nat>, mod: array<nat>, n: nat)
    requires n > 0 && Holds(uv, n, Base(w)) && Holds(mod, n, Base(w)) && uv != mod
    modifies uv
    ensures Holds(uv, n, Base(w))
    ensures Val(uv[..n], Base(w)) == HalfMod(old(Val(uv[..n], Base(w))), Val(mod[..n], Base(w)))
  {
    hide Val, Base, Pow, HighBit, HalfMod;
    var B := Base(w);
    ghost var u, m := Val(uv[..n], B), Val(mod[..n], B);
    ghost var mw := mod[..n];
    Parity(uv[..n], w);
    var carry := 0;
    if uv[0] % 2 != 0 {
      carry := Add(w, uv, uv, mod, n);
    }
    ghost var s := uv[..n];
    Parity(s, w);
    ghost var half := HighBit(w) * Pow(B, n - 1);
    HalfBase(n, w);
    assert if u % 2 == 0 then carry == 0 && Val(s, B) == u else Val(s, B) + carry * (2 * half) == u + m;
    RShift1(w, uv, 0, n);
    ghost var t := uv[..n];
    assert uv[0..0 + n] == t && s[0..0 + n] == s;
    TopBitFree(s, t, n, w);
    AddHighBit(t, 1, n, w);
    if carry != 0 {
      uv[n - 1] := uv[n - 1] + HighBit(w); // `|=` on a word whose high bit is clear
      assert uv[..n] == t[..n - 1] + [t[n - 1] + 1 * HighBit(w)];
    }
    HalfSum(Val(s, B), Val(t, B), carry, half, u, m);
    assert mod[..n] == mw;
  }

  /** u = u - v modulo mod. The carry of u + mod is dropped; the borrow of the subtraction pays it back. */
  method SubtractCoefficient(w: WordBits, u: array<nat>, v: array<nat>, mod: array<nat>, n: nat)
    requires u != v && u != mod
    requires Holds(u, n, Base(w)) && Holds(v, n, Base(w)) && Holds(mod, n, Base(w))
    requires Val(u[..n], Base(w)) < Val(mod[..n], Base(w)) && Val(v[..n], Base(w)) < Val(mod[..n], Base(w))
    modifies u
    ensures Holds(u, n, Base(w))
    ensures Val(u[..n], Base(w)) == DiffMod(old(Val(u[..n], Base(w))), Val(v[..n], Base(w)), Val(mod[..n], Base(w)))
  {
    hide Val, Base, Pow;
    var B := Base(w);
    ghost var vs, mw := v[..n], mod[..n];
    ValBound(mw, B);
    var less := CmpUnsafe(w, u, v, n);
    if less < 0 {
      var dropped := Add(w, u, u, mod, n);
    }
    assert v[..n] == vs && mod[..n] == mw;
    var borrow := Sub(w, u, u, v, n);
    assert v[..n] == vs && mod[..n] == mw;
    ValBound(u[..n], B);
  }

  /** a = a / 2 for an even a. */
  method Halve(w: WordBits, a: array<nat>, n: nat)
    requires n > 0 && Holds(a, n, Base(w)) && a[0] % 2 == 0
    modifies a
    ensures Holds(a, n, Base(w)) && Val(a[..n], Base(w)) == old(Val(a[..n], Base(w))) / 2
    ensures old(Val(a[..n], Base(w))) % 2 == 0
  {
    hide Val, Base, Pow;
    ghost var s := a[..n];
    Parity(s, w);
    RShift1(w, a, 0, n);
    assert a[0..0 + n] == a[..n] && s[0..0 + n] == s;
  }

  /** a = (a - b) / 2 for odd a > b. */
  method SubtractAndHalve(w: WordBits, a: array<nat>, b: array<nat>, n: nat)
    requires n > 0 && a != b && Holds(a, n, Base(w)) && Holds(b, n, Base(w)) && a[0] % 2 == 1 && b[0] % 2 == 1
    requires Val(a[..n], Base(w)) > Val(b[..n], Base(w))
    modifies a
    ensures Holds(a, n, Base(w))
    ensures Val(a[..n], Base(w)) == (old(Val(a[..n], Base(w))) - Val(b[..n], Base(w))) / 2
    ensures old(Val(a[..n], Base(w))) % 2 == 1 && Val(b[..n], Base(w)) % 2 == 1
  {
    hide Val, Base, Pow;
    var B := Base(w);
    ghost var bs := b[..n];
    ghost var a0, b0 := Val(a[..n], B), Val(bs, B);
    Parity(a[..n], w);
    Parity(bs, w);
    var borrow := Sub(w, a, a, b, n);
    ghost var s := a[..n];
    ValBound(s, B);
    Parity(s, w);
    NoBorrow(a0, b0, Val(s, B), borrow, Pow(B, n));
    RShift1(w, a, 0, n);
    assert a[0..0 + n] == a[..n] && s[0..0 + n] == s;
    assert b[..n] == bs;
  }

  /** a = (a - b) / 2 and u = (u - v) / 2 mod m: the branch for odd a > b (and, swapped, for odd b > a). */
  method SubtractBranch(w: WordBits, a: array<nat>, b: array<nat>, u: array<nat>, v: array<nat>, mod: array<nat>,
                        n: nat)
    requires n > 0 && a != b && a != u && a != v && a != mod && u != b && u != v && u != mod
    requires Working(w, a, b, u, v, mod, n) && a[0] % 2 == 1 && b[0] % 2 == 1
    requires Val(a[..n], Base(w)) > Val(b[..n], Base(w))
    modifies a, u
    ensures Working(w, a, b, u, v, mod, n)
    ensures Val(a[..n], Base(w)) == (old(Val(a[..n], Base(w))) - Val(b[..n], Base(w))) / 2
    ensures var u0, v0, m := old(Val(u[..n], Base(w))), Val(v[..n], Base(w)), Val(mod[..n], Base(w));
      u0 < m && v0 < m && Val(u[..n], Base(w)) == HalfMod(DiffMod(u0, v0, m), m)
    ensures old(Val(a[..n], Base(w))) % 2 == 1 && Val(b[..n], Base(w)) % 2 == 1
  {
    hide Val, Base, Pow, HalfMod, DiffMod;
    var B := Base(w);
    ghost var bs, us, vs, mw := b[..n], u[..n], v[..n], mod[..n];
    SubtractAndHalve(w, a, b, n);
    ghost var t := a[..n];
    assert b[..n] == bs && u[..n] == us && v[..n] == vs && mod[..n] == mw;
    SubtractCoefficient(w, u, v, mod, n);
    assert a[..n] == t && b[..n] == bs && v[..n] == vs && mod[..n] == mw;
    HalfModBelow(Val(u[..n], B), Val(mw, B));
    Update(w, u, mod, n);
    assert a[..n] == t && b[..n] == bs && v[..n] == vs && mod[..n] == mw;
  }

  lemma HalfModBelow(u: nat, m: nat)
    requires u < m
    ensures HalfMod(u, m) < m
  {
  }

  /** a = a / 2 and u = u / 2 mod m: the branch for an even a (and, called on b and v, for an even b). */
  method HalveBranch(w: WordBits, a: array<nat>, u: array<nat>, mod: array<nat>, n: nat)
    requires n > 0 && a != u && a != mod && u != mod
    requires Holds(a, n, Base(w)) && Holds(u, n, Base(w)) && Holds(mod, n, Base(w)) && a[0] % 2 == 0
    modifies a, u
    ensures Holds(a, n, Base(w)) && Holds(u, n, Base(w))
    ensures old(Val(a[..n], Base(w))) % 2 == 0 && Val(a[..n], Base(w)) == old(Val(a[..n], Base(w))) / 2
    ensures Val(u[..n], Base(w)) == HalfMod(old(Val(u[..n], Base(w))), Val(mod[..n], Base(w)))
  {
    hide Val, Base, Pow, HalfMod;
    ghost var us, mw := u[..n], mod[..n];
    Halve(w, a, n);
    ghost var t := a[..n];
    assert u[..n] == us && mod[..n] == mw;
    Update(w, u, mod, n);
    assert a[..n] == t;
  }

  lemma NoBorrow(a: nat, b: nat, d: nat, borrow: nat, p: nat)
    requires a > b && d + b == a + borrow * p && d < p && borrow <= 1
    ensures borrow == 0
  {
  }

  /** The working numbers: a and b positive, the coefficients below the modulus. */
  ghost predicate Working(w: WordBits, a: array<nat>, b: array<nat>, u: array<nat>, v: array<nat>, mod: array<nat>,
                          n: nat)
    reads a, b, u, v, mod
  {
    && Holds(a, n, Base(w)) && Holds(b, n, Base(w)) && Holds(u, n, Base(w)) && Holds(v, n, Base(w))
    && Holds(mod, n, Base(w))
    && Val(a[..n], Base(w)) > 0 && Val(b[..n], Base(w)) > 0
    && Val(u[..n], Base(w)) < Val(mod[..n], Base(w)) && Val(v[..n], Base(w)) < Val(mod[..n], Base(w))
  }

  ghost function Outcome(w: WordBits, a: array<nat>, b: array<nat>, u: array<nat>, v: array<nat>, mod: array<nat>,
                         n: nat): nat
    requires Working(w, a, b, u, v, mod, n)
    reads a, b, u, v, mod
  {
    Invert(Val(a[..n], Base(w)), Val(b[..n], Base(w)), Val(u[..n], Base(w)), Val(v[..n], Base(w)),
           Val(mod[..n], Base(w)))
  }

  /** One pass through the loop keeps the outcome and brings a + b down. */
  method Round(w: WordBits, a: array<nat>, b: array<nat>, u: array<nat>, v: array<nat>, mod: array<nat>, n: nat,
               cmp: int)
    requires n > 0 && a != b && a != u && a != v && b != u && b != v && u != v
    requires mod != a && mod != b && mod != u && mod != v && Working(w, a, b, u, v, mod, n)
    requires cmp == 1 <==> Val(a[..n], Base(w)) > Val(b[..n], Base(w))
    requires cmp == -1 <==> Val(a[..n], Base(w)) < Val(b[..n], Base(w))
    requires cmp == 1 || cmp == -1
    modifies a, b, u, v
    ensures Working(w, a, b, u, v, mod, n) && mod[..n] == old(mod[..n])
    ensures Outcome(w, a, b, u, v, mod, n) == old(Outcome(w, a, b, u, v, mod, n))
    ensures Val(a[..n], Base(w)) + Val(b[..n], Base(w)) < old(Val(a[..n], Base(w)) + Val(b[..n], Base(w)))
  {
    hide Val, Base, HalfMod, DiffMod;
    var B := Base(w);
    ghost var a0, b0, u0, v0, mw := a[..n], b[..n], u[..n], v[..n], mod[..n];
    Parity(a0, w);
    Parity(b0, w);
    HalfModBelow(Val(u0, B), Val(mw, B));
    HalfModBelow(Val(v0, B), Val(mw, B));
    if a[0] % 2 == 0 {
      HalveBranch(w, a, u, mod, n);
      assert b[..n] == b0 && v[..n] == v0 && mod[..n] == mw;
    } else if b[0] % 2 == 0 {
      HalveBranch(w, b, v, mod, n);
      assert a[..n] == a0 && u[..n] == u0 && mod[..n] == mw;
    } else if cmp > 0 {
      SubtractBranch(w, a, b, u, v, mod, n);
      assert b[..n] == b0 && v[..n] == v0 && mod[..n] == mw;
    } else {
      SubtractBranch(w, b, a, v, u, mod, n);
      assert a[..n] == a0 && u[..n] == u0 && mod[..n] == mw;
    }
  }

  /** The loop: ends with a == b, and u the outcome. */
  method GcdLoop(w: WordBits, a: array<nat>, b: array<nat>, u: array<nat>, v: array<nat>, mod: array<nat>, n: nat)
    requires n > 0 && a != b && a != u && a != v && b != u && b != v && u != v
    requires mod != a && mod != b && mod != u && mod != v && Working(w, a, b, u, v, mod, n)
    modifies a, b, u, v
    ensures Working(w, a, b, u, v, mod, n) && mod[..n] == old(mod[..n])
    ensures Val(u[..n], Base(w)) == old(Outcome(w, a, b, u, v, mod, n))
  {
    hide Val, Base, Invert;
    var cmp := CmpUnsafe(w, a, b, n);
    while cmp != 0
      invariant Working(w, a, b, u, v, mod, n) && mod[..n] == old(mod[..n])
      invariant Outcome(w, a, b, u, v, mod, n) == old(Outcome(w, a, b, u, v, mod, n))
      invariant -1 <= cmp <= 1
      invariant cmp == 1 <==> Val(a[..n], Base(w)) > Val(b[..n], Base(w))
      invariant cmp == -1 <==> Val(a[..n], Base(w)) < Val(b[..n], Base(w))
      decreases Val(a[..n], Base(w)) + Val(b[..n], Base(w))
    {
      Round(w, a, b, u, v, mod, n, cmp);
      cmp := CmpUnsafe(w, a, b, n);
    }
    InvertEqual(Val(a[..n], Base(w)), Val(u[..n], Base(w)), Val(v[..n], Base(w)), Val(mod[..n], Base(w)));
  }

  lemma InvertEqual(a: nat, u: nat, v: nat, m: nat)
    requires a > 0 && u < m && v < m
    ensures Invert(a, a, u, v, m) == u
  {
  }

  /** A fresh copy of a number. */
  method Copy(w: WordBits, src: array<nat>, n: nat) returns (a: array<nat>)
    requires Holds(src, n, Base(w))
    ensures fresh(a) && a.Length == n && Holds(a, n, Base(w)) && a[..n] == src[..n]
  {
    a := new nat[n];
    Set(a, 0, src, n);
    assert a[..n] == src[..n] by { assert a[0..0 + n] == a[..n]; }
  }

  /** A fresh number with one word below zeros. */
  method Small(w: WordBits, word: nat, n: nat) returns (a: array<nat>)
    requires n > 0 && word < Base(w)
    ensures fresh(a) && a.Length == n && Holds(a, n, Base(w)) && Val(a[..n], Base(w)) == word
  {
    hide Val;
    a := new nat[n];
    Clear(a, n);
    a[0] := word;
    ValCons(a[..n], Base(w));
    ValZeros(a[..n][1..], Base(w));
  }

  /** result = 1 / input (mod mod), for a modulus above one: the value the loop gives, below mod. For an odd modulus
      result * input is congruent to the greatest common divisor of input and mod, hence to 1 when they are coprime;
      for which moduli every coprime input gets its inverse is RightModuli. A zero input gives zero. `result` may be
      `input`. */
  method Inverse(w: WordBits, result: array<nat>, input: array<nat>, mod: array<nat>, n: nat)
    requires n > 0 && Holds(input, n, Base(w)) && Holds(mod, n, Base(w)) && n <= result.Length && result != mod
    requires Val(mod[..n], Base(w)) > 1
    modifies result
    ensures Holds(result, n, Base(w)) && result[n..] == old(result[n..])
    ensures var x, r, m := old(Val(input[..n], Base(w))), Val(result[..n], Base(w)), Val(mod[..n], Base(w));
      && (x == 0 ==> r == 0)
      && (x > 0 ==> r == Invert(x, m, 1, 0, m) && r < m && (m % 2 == 1 ==> Cong(r * x, Gcd(x, m), m)))
  {
    hide Val, Base, Pow, Invert, Cong, Gcd;
    var B := Base(w);
    ghost var x, mw, rest := Val(input[..n], B), mod[..n], result[n..];
    ghost var m := Val(mw, B);
    var zero := IsZero(w, input, n);
    if zero {
      Clear(result, n);
      ValZeros(result[..n], B);
      return;
    }
    var a := Copy(w, input, n);
    var b := Copy(w, mod, n);
    var u := Small(w, 1, n);
    var v := Small(w, 0, n);
    GcdLoop(w, a, b, u, v, mod, n);
    ghost var us := u[..n];
    if m % 2 == 1 { InverseForOdd(x, m); }
    assert mod[..n] == mw && result[n..] == rest;
    Set(result, 0, u, n);
    assert result[..n] == us by { assert result[0..0 + n] == result[..n]; }
  }
}
