/** Scalar multiplication in an arbitrary abelian group, the scalar regularisation and the
    Montgomery ladder that computes it. */
module Groups {
  import opened Numbers
  import opened Words
  import opened Vli

  datatype Group<!G> = Group(zero: G, add: (G, G) -> G, neg: G -> G)

  ghost predicate Abelian<G(!new)>(gr: Group<G>) {
    && (forall a, b, c :: gr.add(gr.add(a, b), c) == gr.add(a, gr.add(b, c)))
    && (forall a, b :: gr.add(a, b) == gr.add(b, a))
    && (forall a :: gr.add(gr.zero, a) == a)
    && (forall a :: gr.add(a, gr.neg(a)) == gr.zero)
  }

  /** k * p. */
  ghost function Mul<G>(gr: Group<G>, k: nat, p: G): G {
    if k == 0 then gr.zero else gr.add(p, Mul(gr, k - 1, p))
  }

  // ---------- the laws, one at a time ----------

  lemma Assoc<G(!new)>(gr: Group<G>, a: G, b: G, c: G)
    requires Abelian(gr)
    ensures gr.add(gr.add(a, b), c) == gr.add(a, gr.add(b, c))
  {
  }

  lemma Comm<G(!new)>(gr: Group<G>, a: G, b: G)
    requires Abelian(gr)
    ensures gr.add(a, b) == gr.add(b, a)
  {
  }

  lemma Zero<G(!new)>(gr: Group<G>, a: G)
    requires Abelian(gr)
    ensures gr.add(gr.zero, a) == a && gr.add(a, gr.zero) == a
  {
  }

  lemma Cancel<G(!new)>(gr: Group<G>, a: G, b: G)
    requires Abelian(gr)
    ensures gr.add(gr.add(a, b), gr.add(a, gr.neg(b))) == gr.add(a, a)
  {
    hide Abelian;
    Assoc(gr, a, b, gr.add(a, gr.neg(b)));
    Comm(gr, a, gr.neg(b));
    Assoc(gr, b, gr.neg(b), a);
    Inverse(gr, b);
    Zero(gr, a);
  }

  lemma Inverse<G(!new)>(gr: Group<G>, a: G)
    requires Abelian(gr)
    ensures gr.add(a, gr.neg(a)) == gr.zero
  {
  }

  lemma Rearrange<G(!new)>(gr: Group<G>, a: G, b: G, c: G, d: G)
    requires Abelian(gr)
    ensures gr.add(gr.add(a, b), gr.add(c, d)) == gr.add(gr.add(a, c), gr.add(b, d))
  {
    hide Abelian;
    Assoc(gr, a, b, gr.add(c, d));
    Assoc(gr, b, c, d);
    Comm(gr, b, c);
    Assoc(gr, c, b, d);
    Assoc(gr, a, c, gr.add(b, d));
  }

  lemma {:induction false} MulAdd<G(!new)>(gr: Group<G>, j: nat, k: nat, p: G)
    requires Abelian(gr)
    ensures Mul(gr, j + k, p) == gr.add(Mul(gr, j, p), Mul(gr, k, p))
  {
    hide Abelian;
    if j == 0 {
      Zero(gr, Mul(gr, k, p));
    } else {
      MulAdd(gr, j - 1, k, p);
      assert j + k - 1 == j - 1 + k;
      Assoc(gr, p, Mul(gr, j - 1, p), Mul(gr, k, p));
    }
  }

  lemma MulOne<G(!new)>(gr: Group<G>, p: G)
    requires Abelian(gr)
    ensures Mul(gr, 1, p) == p
  {
    hide Abelian;
    Zero(gr, p);
    assert Mul(gr, 1, p) == gr.add(p, Mul(gr, 0, p));
  }

  lemma {:induction false} MulMul<G(!new)>(gr: Group<G>, j: nat, k: nat, p: G)
    requires Abelian(gr)
    ensures Mul(gr, j, Mul(gr, k, p)) == Mul(gr, j * k, p)
  {
    hide Abelian;
    if j != 0 {
      MulMul(gr, j - 1, k, p);
      MulDistrib(k, j - 1, 1);
      MulAdd(gr, k, (j - 1) * k, p);
    }
  }

  lemma {:induction false} MulZero<G(!new)>(gr: Group<G>, k: nat)
    requires Abelian(gr)
    ensures Mul(gr, k, gr.zero) == gr.zero
  {
    hide Abelian;
    if k != 0 {
      MulZero(gr, k - 1);
      Zero(gr, gr.zero);
    }
  }

  /** Scalars congruent modulo the order of the point give the same multiple. */
  lemma MulCong<G(!new)>(gr: Group<G>, j: nat, k: nat, n: nat, p: G)
    requires Abelian(gr) && n > 0 && Mul(gr, n, p) == gr.zero && Cong(j, k, n)
    ensures Mul(gr, j, p) == Mul(gr, k, p)
  {
    hide Abelian, Mul;
    CongIffMod(j, k, n);
    MulMod(gr, j, n, p);
    MulMod(gr, k, n, p);
  }

  lemma MulMod<G(!new)>(gr: Group<G>, k: nat, n: nat, p: G)
    requires Abelian(gr) && n > 0 && Mul(gr, n, p) == gr.zero
    ensures k % n >= 0 && Mul(gr, k, p) == Mul(gr, k % n, p)
  {
    hide Abelian, Mul;
    var q, r := k / n, k % n;
    assert k == q * n + r && q >= 0;
    MulAdd(gr, q * n, r, p);
    MulMul(gr, q, n, p);
    MulZero(gr, q);
    Zero(gr, Mul(gr, r, p));
  }

  lemma NegUnique<G(!new)>(gr: Group<G>, a: G, b: G)
    requires Abelian(gr) && gr.add(a, b) == gr.zero
    ensures b == gr.neg(a)
  {
    hide Abelian;
    Comm(gr, gr.neg(a), a);
    Inverse(gr, a);
    Assoc(gr, gr.neg(a), a, b);
    Zero(gr, b);
    Zero(gr, gr.neg(a));
  }

  // ---------- multiples of a point of prime order ----------

  /** The point has the prime order n. */
  ghost predicate HasOrder<G>(gr: Group<G>, p: G, n: nat) {
    IsPrime(n) && p != gr.zero && Mul(gr, n, p) == gr.zero
  }

  lemma MulZeroIff<G(!new)>(gr: Group<G>, k: nat, n: nat, p: G)
    requires Abelian(gr) && HasOrder(gr, p, n)
    ensures Mul(gr, k, p) == gr.zero <==> Cong(k, 0, n)
  {
    hide Abelian, Mul, IsPrime, Cong;
    PrimeAboveOne(n);
    assert Mul(gr, 0, p) == gr.zero by { MulNone(gr, p); }
    if Cong(k, 0, n) {
      MulCong(gr, k, 0, n, p);
    } else if Mul(gr, k, p) == gr.zero {
      var i := PrimeInverse(k, n);
      var j := LeastResidue(i, n);
      CongMod(i, n);
      CongScale(k, j, i, n);
      CongTrans(k * j, k * i, 1, n);
      assert k * j == j * k;
      MulMul(gr, j, k, p);
      MulZero(gr, j);
      MulCong(gr, j * k, 1, n, p);
      MulOne(gr, p);
    }
  }

  lemma MulNone<G>(gr: Group<G>, p: G)
    ensures Mul(gr, 0, p) == gr.zero
  {
  }

  lemma MulEqualIff<G(!new)>(gr: Group<G>, j: nat, k: nat, n: nat, p: G)
    requires Abelian(gr) && HasOrder(gr, p, n)
    ensures Mul(gr, j, p) == Mul(gr, k, p) <==> Cong(j, k, n)
  {
    hide Abelian, Mul, IsPrime, Cong;
    PrimeAboveOne(n);
    if Cong(j, k, n) { MulCong(gr, j, k, n, p); }
    if Mul(gr, j, p) == Mul(gr, k, p) {
      var back := LeastResidue(0 - k, n);
      CongMod(0 - k, n);
      assert Cong(k + back, 0, n) by { CongRefl(k, n); CongAdd(k, k, back, 0 - k, n); }
      MulAdd(gr, j, back, p);
      MulAdd(gr, k, back, p);
      MulZeroIff(gr, k + back, n, p);
      MulZeroIff(gr, j + back, n, p);
      CongSym(k + back, 0, n);
      CongTrans(j + back, 0, k + back, n);
      CongRefl(back, n);
      CongSub(j + back, k + back, back, back, n);
    }
  }

  lemma MulOpposite<G(!new)>(gr: Group<G>, j: nat, k: nat, n: nat, p: G)
    requires Abelian(gr) && HasOrder(gr, p, n)
    ensures Mul(gr, j, p) == gr.neg(Mul(gr, k, p)) <==> Cong(j + k, 0, n)
  {
    hide Abelian, Mul, IsPrime, Cong;
    PrimeAboveOne(n);
    MulAdd(gr, k, j, p);
    MulZeroIff(gr, j + k, n, p);
    assert k + j == j + k;
    Inverse(gr, Mul(gr, k, p));
    if Cong(j + k, 0, n) { NegUnique(gr, Mul(gr, k, p), Mul(gr, j, p)); }
  }

  /** Nothing but zero is its own negative. */
  lemma DoubleNonzero<G(!new)>(gr: Group<G>, n: nat, p: G)
    requires Abelian(gr) && HasOrder(gr, p, n) && n % 2 == 1
    ensures gr.add(p, p) != gr.zero
  {
    hide Abelian, Mul, IsPrime, Cong;
    PrimeAboveOne(n);
    MulAdd(gr, 1, 1, p);
    MulOne(gr, p);
    MulZeroIff(gr, 2, n, p);
    SmallNonzero(2, n);
  }

  // ---------- the ladder ----------

  /** The scalar the ladder multiplies by: bit numBits - 1 is taken as set, whatever is stored there. */
  ghost function Effective(s: nat, numBits: nat): (e: nat)
    requires numBits > 0
  {
    Pow(2, numBits - 1) + s % Pow(2, numBits - 1)
  }

  lemma {:induction false} EffectiveBit(s: nat, numBits: nat, i: nat)
    requires i + 1 < numBits
    ensures Bit(Effective(s, numBits), i) <==> Bit(s, i)
  {
    hide Pow, DigitAt;
    var top := numBits - 1;
    var p := Pow(2, top);
    var r, q := s % p, s / p;
    assert s == r + p * q;
    HighDigits(r, 2, top, i, q);
    HighDigits(r, 2, top, i, 1);
  }

  /** `x` without its low `i` bits. */
  ghost function Prefix(x: nat, i: nat): nat {
    QuotientNat(x, i);
    x / Pow(2, i)
  }

  lemma QuotientNat(x: nat, i: nat)
    ensures x / Pow(2, i) >= 0
  {
    hide Pow;
    var p := Pow(2, i);
    assert x == p * (x / p) + x % p;
    if x / p < 0 { MulMonotone(p, x / p, -1); }
  }

  lemma WholePrefix(x: nat)
    ensures Prefix(x, 0) == x
  {
    PowZero(2);
    DivModUnique(x, 1, x, 0);
  }

  /** Dropping one bit less doubles a prefix and adds the bit. */
  lemma PrefixStep(x: nat, i: nat)
    ensures Prefix(x, i) == 2 * Prefix(x, i + 1) + (if Bit(x, i) then 1 else 0)
  {
    hide Pow;
    PowStep(2, i);
    HalveQuotient(x, Pow(2, i));
  }

  lemma EffectiveTop(s: nat, numBits: nat)
    requires numBits > 0
    ensures Prefix(Effective(s, numBits), numBits - 1) == 1
  {
    hide Pow;
    var p := Pow(2, numBits - 1);
    assert 0 <= s % p < p;
    DivModUnique(Effective(s, numBits), p, 1, s % p);
  }

  /** R0 = m * P and R1 = (m + 1) * P, for the prefix m of the scalar read so far. */
  ghost predicate LadderState<G>(gr: Group<G>, r: seq<G>, m: nat, p: G) {
    |r| == 2 && r[0] == Mul(gr, m, p) && r[1] == Mul(gr, m + 1, p)
  }

  /** Taking the difference and the sum of two neighbouring multiples, and then the sum of those two. */
  lemma LadderStep<G(!new)>(gr: Group<G>, r: seq<G>, m: nat, p: G, nb: nat)
    requires Abelian(gr) && LadderState(gr, r, m, p) && nb <= 1
    ensures var sum, diff := gr.add(r[1 - nb], r[nb]), gr.add(r[1 - nb], gr.neg(r[nb]));
      LadderState(gr, r[nb := sum][1 - nb := gr.add(sum, diff)], 2 * m + (1 - nb), p)
  {
    hide Abelian, Mul;
    Cancel(gr, r[1 - nb], r[nb]);
    MulAdd(gr, m, m, p);
    MulAdd(gr, m + 1, m, p);
    MulAdd(gr, m, m + 1, p);
    MulAdd(gr, m + 1, m + 1, p);
    assert m + 1 + (m + 1) == 2 * m + 2 && m + m == 2 * m && m + 1 + m == 2 * m + 1;
  }

  /** The sum is the odd multiple between, and the difference is the point or its negative. */
  lemma LadderParts<G(!new)>(gr: Group<G>, r: seq<G>, m: nat, p: G, nb: nat)
    requires Abelian(gr) && LadderState(gr, r, m, p) && nb <= 1
    ensures gr.add(r[1 - nb], r[nb]) == Mul(gr, 2 * m + 1, p)
    ensures gr.add(r[1 - nb], gr.neg(r[nb])) == if nb == 0 then p else gr.neg(p)
  {
    hide Abelian, Mul;
    MulAdd(gr, m, m + 1, p);
    assert m + (m + 1) == 2 * m + 1;
    Comm(gr, r[0], r[1]);
    MulAdd(gr, m, 1, p);
    MulOne(gr, p);
    Neighbours(gr, r[0], r[1], p);
  }

  lemma Neighbours<G(!new)>(gr: Group<G>, a: G, b: G, p: G)
    requires Abelian(gr) && b == gr.add(a, p)
    ensures gr.add(b, gr.neg(a)) == p && gr.add(a, gr.neg(b)) == gr.neg(p)
  {
    hide Abelian;
    Comm(gr, a, p);
    Assoc(gr, p, a, gr.neg(a));
    Inverse(gr, a);
    Zero(gr, p);
    NegUnique(gr, p, gr.add(a, gr.neg(b))) by {
      Assoc(gr, p, a, gr.neg(b));
      Inverse(gr, b);
    }
  }

  // ---------- regularisation ----------

  /** regularize_k: k0 = k + n and k1 = k + 2n, cut to the words; the carry tells whether k + n already
      has bit `bits`. */
  method RegularizeK(w: WordBits, k: array<nat>, k0: array<nat>, k1: array<nat>, order: array<nat>, nw: nat, bits: nat)
    returns (carry: bool)
    requires Holds(k, nw, Base(w)) && Holds(order, nw, Base(w)) && nw <= k0.Length && nw <= k1.Length
    requires k0 != k1 && k0 != order && k1 != order
    requires nw > 0 && w * (nw - 1) < bits <= w * nw && IsBitLength(Val(order[..nw], Base(w)), bits)
    requires Val(k[..nw], Base(w)) < Val(order[..nw], Base(w))
    modifies k0, k1
    ensures Holds(k0, nw, Base(w)) && Holds(k1, nw, Base(w))
    ensures carry <==> old(Val(k[..nw], Base(w))) + Val(order[..nw], Base(w)) >= Pow(2, bits)
    ensures var s := Val((if carry then k0 else k1)[..nw], Base(w));
      Effective(s, bits + 1) == old(Val(k[..nw], Base(w))) + (if carry then 1 else 2) * Val(order[..nw], Base(w))
  {
    hide Val, Base, Pow, Bit, Effective;
    var B := Base(w);
    ghost var ow := order[..nw];
    ghost var kv, n := Val(k[..nw], B), Val(ow, B);
    PowMul(2, w, nw);
    ghost var full := Pow(B, nw);
    ghost var lead := Pow(2, bits);
    PowMonotone(2, bits, w * nw);
    OrderRange(n, bits);
    var c := Add(w, k0, k, order, nw);
    ghost var s0 := k0[..nw];
    ValBound(s0, B);
    carry := c != 0;
    if !carry && bits < w * nw {
      carry := TestBit(w, k0, bits, nw);
    }
    assert carry <==> kv + n >= lead by {
      if bits < w * nw {
        PowMonotone(2, bits + 1, w * nw);
        PowStep(2, bits);
        assert c == 0 by { if c != 0 { MulMonotone(full, 1, c); } }
        BitAtTop(Val(s0, B), bits);
      }
    }
    assert order[..nw] == ow;
    var c1 := Add(w, k1, k0, order, nw);
    assert order[..nw] == ow && k0[..nw] == s0;
    ValBound(k1[..nw], B);
    if carry {
      EffectiveOf(Val(s0, B), kv + n, bits, c, full, w * nw);
    } else {
      assert c == 0;
      EffectiveOf(Val(k1[..nw], B), kv + 2 * n, bits, c1, full, w * nw);
    }
  }

  lemma OrderRange(n: nat, bits: nat)
    requires IsBitLength(n, bits) && bits > 0
    ensures n < Pow(2, bits) <= 2 * n
  {
    PowStep(2, bits - 1);
  }

  lemma BitAtTop(x: nat, b: nat)
    requires x < 2 * Pow(2, b)
    ensures Bit(x, b) <==> x >= Pow(2, b)
  {
    hide Pow;
    var p := Pow(2, b);
    if x >= p { DivModUnique(x, p, 1, x - p); } else { DivModUnique(x, p, 0, x); }
  }

  /** A number in [2^bits, 2^(bits+1)) cut to the words is what the ladder takes it for. */
  lemma EffectiveOf(s: nat, x: nat, bits: nat, c: nat, full: nat, width: nat)
    requires s + c * full == x && s < full && full == Pow(2, width) && bits <= width
    requires Pow(2, bits) <= x < 2 * Pow(2, bits)
    ensures Effective(s, bits + 1) == x
  {
    hide Pow;
    var p := Pow(2, bits);
    PowAdd(2, bits, width - bits);
    EffectiveCases(s, x, p, c, full, Pow(2, width - bits));
    DivModUnique(s, p, if c == 0 then 1 else 0, x - p);
  }

  lemma EffectiveCases(s: nat, x: nat, p: nat, c: nat, full: nat, f: nat)
    requires s + c * full == x && s < full && full == p * f && p > 0 && f > 0 && p <= x < 2 * p
    ensures s == if c == 0 then x else x - p
  {
    if c > 0 {
      MulMonotone(full, 1, c);
      if f >= 2 { MulMonotone(p, 2, f); }
      assert full == p;
      if c >= 2 { MulMonotone(full, 2, c); }
    }
  }
}
