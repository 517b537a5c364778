/** A curve small enough to follow by hand, y^2 = x^3 - 3 * x + 10 modulo 11 with seven points: it meets every
    assumption made of curves, and on it signing and verifying disagree in each of the three ways there are. */
module SmallCurve {
  import opened Numbers
  import opened Words
  import opened Vli
  import opened Bytes
  import opened Field
  import opened CoZ
  import opened Doubling
  import opened Groups
  import opened Points
  import opened Ladder
  import opened Shamir
  import opened Ecdsa

  /** The multiples 0 to 6 of the generator. */
  type Seven = i: nat | i < 7 witness 0

  function Plus7(a: Seven, b: Seven): Seven {
    if a + b < 7 then a + b else a + b - 7
  }

  function Minus7(a: Seven): Seven {
    if a == 0 then 0 else 7 - a
  }

  function XOf(t: Seven): nat {
    if t == 0 then 0 else if t == 1 || t == 6 then 2 else if t == 2 || t == 5 then 8 else 10
  }

  function YOf(t: Seven): nat {
    if t == 0 then 0 else if t == 1 || t == 3 then 1 else if t == 2 then 5 else if t == 5 then 6 else 10
  }

  function Curve11(): Curve<Seven> {
    Curve(Group(0, Plus7, Minus7), 1, XOf, YOf, 11, MinusThree, 10, 7, 1, 1, 1, 3, 1)
  }

  // ---------- it is a curve ----------

  lemma Cyclic()
    ensures Abelian(Curve11().gr)
  {
  }

  lemma SevenIsPrime()
    ensures IsPrime(7)
  {
    forall d: nat | d > 0 && Divides(d, 7) ensures d == 1 || d == 7 {
      var q := CongQuotient(7, 0, d);
      SmallDivisor(d, q, 7);
    }
  }

  lemma ElevenIsPrime()
    ensures IsPrime(11)
  {
    forall d: nat | d > 0 && Divides(d, 11) ensures d == 1 || d == 11 {
      var q := CongQuotient(11, 0, d);
      SmallDivisor(d, q, 11);
    }
  }

  lemma SmallDivisor(d: nat, q: int, n: nat)
    requires d > 0 && n == d * q && (n == 7 || n == 11)
    ensures d == 1 || d == n
  {
    assert 0 < q <= n by { if q <= 0 { MulMonotone(d, q, 0); } else { MulMonotone(q, 1, d); } }
    assert d <= n by { MulMonotone(d, 1, q); }
    assert d != 2;
    assert d != 3;
    assert d != 4;
    assert d != 5;
    assert d != 6;
    assert d != 7 || n == 7;
    assert d != 8;
    assert d != 9;
    assert d != 10;
  }

  lemma CongByRemainder(a: int, b: int)
    requires (a - b) % 11 == 0
    ensures Cong(a, b, 11)
  {
    CongBy(a, b, 11, (a - b) / 11);
  }

  lemma ByPair(t: Seven)
    requires (YOf(t) * YOf(t) - (XOf(t) * XOf(t) * XOf(t) + -3 * XOf(t) + 10)) % 11 == 0
    ensures IsPair(Curve11(), t)
  {
    CongByRemainder(YOf(t) * YOf(t), XOf(t) * XOf(t) * XOf(t) + -3 * XOf(t) + 10);
    assert Linear(Curve11().kind) == -3;
  }

  lemma AllPairs()
    ensures Affine(Curve11())
  {
    hide IsPair;
    ByPair(1); ByPair(2); ByPair(3); ByPair(4); ByPair(5); ByPair(6);
  }

  lemma PairsDiffer()
    ensures Distinct(Curve11())
  {
  }

  lemma AllMirrored()
    ensures Negation(Curve11())
  {
    forall t: Seven | t != 0 ensures IsMirrored(Curve11(), t, Minus7(t)) {
      assert YOf(t) + YOf(Minus7(t)) == 11;
    }
  }

  lemma ByChord(s: Seven, t: Seven, l: int)
    requires var u := Plus7(s, t);
      && (l * (XOf(t) - XOf(s)) - (YOf(t) - YOf(s))) % 11 == 0 && (XOf(u) - (l * l - XOf(s) - XOf(t))) % 11 == 0
      && (YOf(u) - (l * (XOf(s) - XOf(u)) - YOf(s))) % 11 == 0
    ensures HasChord(Curve11(), s, t)
  {
    var u := Plus7(s, t);
    CongByRemainder(l * (XOf(t) - XOf(s)), YOf(t) - YOf(s));
    CongByRemainder(XOf(u), l * l - XOf(s) - XOf(t));
    CongByRemainder(YOf(u), l * (XOf(s) - XOf(u)) - YOf(s));
    assert ChordSum(XOf(s), YOf(s), XOf(t), YOf(t), XOf(u), YOf(u), l, 11);
  }

  lemma AllChords()
    ensures Chords(Curve11())
  {
    hide HasChord;
    ByChord(1, 2, 8); ByChord(1, 3, 0); ByChord(1, 4, 8); ByChord(1, 5, 10);
    ByChord(2, 1, 8); ByChord(2, 3, 9); ByChord(2, 4, 8); ByChord(2, 6, 1);
    ByChord(3, 1, 0); ByChord(3, 2, 9); ByChord(3, 5, 3); ByChord(3, 6, 3);
    ByChord(4, 1, 8); ByChord(4, 2, 8); ByChord(4, 5, 2); ByChord(4, 6, 0);
    ByChord(5, 1, 10); ByChord(5, 3, 3); ByChord(5, 4, 2); ByChord(5, 6, 3);
    ByChord(6, 2, 1); ByChord(6, 3, 3); ByChord(6, 4, 0); ByChord(6, 5, 3);
    forall s: Seven, t: Seven | s != 0 && t != 0 && XOf(s) != XOf(t) ensures HasChord(Curve11(), s, t) {
    }
  }

  lemma ByTangent(t: Seven, l: int)
    requires var u := Plus7(t, t);
      && (l * (2 * YOf(t)) - (3 * (XOf(t) * XOf(t)) + -3)) % 11 == 0 && (XOf(u) - (l * l - XOf(t) - XOf(t))) % 11 == 0
      && (YOf(u) - (l * (XOf(t) - XOf(u)) - YOf(t))) % 11 == 0
    ensures HasTangent(Curve11(), t)
  {
    var u := Plus7(t, t);
    CongByRemainder(l * (2 * YOf(t)), 3 * (XOf(t) * XOf(t)) + -3);
    CongByRemainder(XOf(u), l * l - XOf(t) - XOf(t));
    CongByRemainder(YOf(u), l * (XOf(t) - XOf(u)) - YOf(t));
    assert Linear(Curve11().kind) == -3;
    assert TangentSum(XOf(t), YOf(t), XOf(u), YOf(u), l, Linear(Curve11().kind), 11);
  }

  lemma AllTangents()
    ensures Tangents(Curve11())
  {
    hide HasTangent;
    ByTangent(1, 10); ByTangent(2, 9); ByTangent(3, 0);
    ByTangent(4, 0); ByTangent(5, 2); ByTangent(6, 1);
  }

  lemma {:induction false} Multiple(k: nat, t: Seven)
    ensures Mul(Curve11().gr, k, t) == (k * t) % 7
  {
    hide Mul;
    if k == 0 {
      MulNone(Curve11().gr, t);
      assert k * t == 0;
    } else {
      Multiple(k - 1, t);
      NextMultiple(k, t);
      MulStep(k, t);
    }
  }

  lemma MulStep(k: nat, t: Seven)
    requires k > 0
    ensures Mul(Curve11().gr, k, t) == Plus7(t, Mul(Curve11().gr, k - 1, t))
  {
  }

  lemma NextMultiple(k: nat, t: Seven)
    requires k > 0
    ensures Plus7(t, ((k - 1) * t) % 7) == (k * t) % 7
  {
    var r, q := ((k - 1) * t) % 7, ((k - 1) * t) / 7;
    assert k * t == 7 * q + r + t by { MulDistrib(t, k - 1, 1); }
    if r + t < 7 { DivModUnique(k * t, 7, q, r + t); } else { DivModUnique(k * t, 7, q + 1, r + t - 7); }
  }

  lemma OrderSeven()
    ensures Exponent(Curve11())
  {
    hide Mul;
    forall t: Seven ensures Mul(Curve11().gr, 7, t) == 0 { Multiple(7, t); }
  }

  lemma IsCurve()
    ensures Law(Curve11())
  {
    hide Affine, Distinct, Negation, Chords, Tangents, Abelian, IsPrime, Exponent;
    Cyclic();
    SevenIsPrime();
    ElevenIsPrime();
    AllPairs();
    PairsDiffer();
    AllMirrored();
    AllChords();
    AllTangents();
    OrderSeven();
  }

  // ---------- signing and verifying on it ----------

  method Number(v: nat) returns (a: array<nat>)
    requires v < 256
    ensures fresh(a) && a.Length == 1 && Holds(a, 1, Base(W(Curve11()))) && Val(a[..1], Base(W(Curve11()))) == v
  {
    hide Val;
    a := new nat[][v];
    assert a[..1] == [v];
    ValOne(v, Base(W(Curve11())));
    ByteWords();
  }

  lemma ByteWords()
    ensures Base(W(Curve11())) == 256 && Pow(256, 1) == 256 && W(Curve11()) == 8
  {
    PowStep(256, 0);
    PowZero(256);
    WordBase(1);
  }

  lemma Powers()
    ensures Pow(2, 0) == 1 && Pow(2, 1) == 2 && Pow(2, 2) == 4 && Pow(2, 3) == 8 && Pow(2, 5) == 32
  {
    PowZero(2);
    PowStep(2, 0);
    PowStep(2, 1);
    PowStep(2, 2);
    PowStep(2, 3);
    PowStep(2, 4);
  }

  method Setup() returns (cs: Constants)
    ensures ValidCurve(Curve11(), cs) && fresh(cs.p) && fresh(cs.order) && fresh(cs.gx) && fresh(cs.gy)
  {
    hide Law, Val, IsPrime, Cong, Base;
    IsCurve();
    SevenIsPrime();
    ByteWords();
    Powers();
    var p := Number(11);
    var order := Number(7);
    var gx := Number(2);
    var gy := Number(1);
    cs := Constants(p, order, gx, gy);
    CongRefl(2, 11);
    CongRefl(1, 11);
    assert IsBitLength(7, 3);
    assert p[..1] == [p[0]] && p[0] != 0 by { ValOne(p[0], 256); }
  }

  /** The number made of a one-byte hash. */
  function Three(hash: nat): nat {
    if hash / 32 >= 7 then hash / 32 - 7 else hash / 32
  }

  lemma OneByte(v: nat)
    requires v < 256
    ensures IsBytes([v]) && BigEndian([v]) == v
  {
    assert Reversed([v]) == [v];
    ValOne(v, 256);
  }

  lemma KeyOf(dv: nat)
    requires 1 < dv < 6
    ensures IsBytes([dv]) && BigEndian([dv]) == dv && |[dv]| == BytesOfBits(3)
    ensures Mul(Curve11().gr, dv, 1) == dv && KeyBytes(Curve11(), [XOf(dv), YOf(dv)], dv)
  {
    hide BigEndian, Mul;
    OneByte(dv);
    OneByte(XOf(dv));
    OneByte(YOf(dv));
    Multiple(dv, 1);
    DivModUnique(dv, 7, 0, dv);
    var key := [XOf(dv), YOf(dv)];
    assert key[..1] == [XOf(dv)] && key[1..] == [YOf(dv)];
  }

  lemma SecretOf(kv: nat, k: array<nat>)
    requires 0 < kv < 5 && k.Length == 1 && Val(k[..1], Base(W(Curve11()))) == kv
    ensures !Degenerate(kv, 7, Curve11().bits) && Mul(Curve11().gr, kv, 1) == kv && XOf(kv) != 0
  {
    hide Val, Mul, Base;
    Powers();
    Multiple(kv, 1);
    DivModUnique(kv, 7, 0, kv);
  }

  lemma HashOf(hash: nat)
    requires hash < 256
    ensures IsBytes([hash]) && MessageValue(Curve11(), [hash]) == Three(hash)
  {
    hide BigEndian;
    OneByte(hash);
    Powers();
  }

  lemma TableOf(dv: nat, e: nat, r: nat, s: nat)
    requires 1 < dv < 6
    ensures ScalarServed(7, dv, e, r, s)
  {
    hide Cong;
    if Cong(dv, 1, 7) { SmallEqual(dv, 1, 7); }
    SmallNonzero(dv + 1, 7);
  }

  lemma SmallS(kv: nat, dv: nat, e: nat, r: nat, s: nat)
    requires SignedWith(Curve11(), kv, dv, e, r, s)
    ensures s < 256
  {
  }

  /** Signing the one-byte `hash` with the key `dv` and the secret `kv`, and verifying. */
  method Run(kv: nat, dv: nat, hash: nat) returns (signed: bool, accepted: bool, ghost s: nat)
    requires 0 < kv < 5 && 1 < dv < 6 && hash < 256
    ensures signed && SignedWith(Curve11(), kv, dv, Three(hash), XOf(kv), s)
    ensures accepted <==> Verifiable(7, dv, Three(hash), XOf(kv), s)
  {
    hide Law, Val, IsPrime, Cong, Base, Mul, BigEndian, ValidCurve, HashValue, SignedWith, Verifiable, ScalarServed;
    var cv := Curve11();
    ByteWords();
    Powers();
    var k := Number(kv);
    var signature := new nat[2];
    var cs := Setup();
    KeyOf(dv);
    SecretOf(kv, k);
    HashOf(hash);
    signed, accepted, s := SignThenVerify(cv, cs, [dv], [XOf(dv), YOf(dv)], [hash], k, signature, NoRng);
    SmallS(kv, dv, Three(hash), XOf(kv), s);
    TableOf(dv, Three(hash), XOf(kv), s);
  }

  // ---------- the three ways to disagree ----------

  /** x(2G) = 8 is not below the order 7: signing writes it all the same, and verification rejects it. */
  method LargeX() returns (signed: bool, accepted: bool)
    ensures signed && !accepted
  {
    ghost var s;
    signed, accepted, s := Run(2, 2, 0);
  }

  /** With r = x(G) = 2, d = 2 and e = 3 the sum e + r * d is the order: s comes out as zero, and verification rejects
      it. */
  method ZeroSum() returns (signed: bool, accepted: bool)
    ensures signed && !accepted
  {
    ghost var s;
    signed, accepted, s := Run(1, 2, 96);
  }

  /** With d = 4 and e = 1 the signature is r = s = 2, for which the standard's equation holds, but the loop for
      e/s = 4 and r/s = 1 doubles 2G to 4G and then adds Q = 4G to it: the sum is lost, and verification rejects it. */
  method LostSum() returns (signed: bool, accepted: bool, ghost s: nat)
    ensures signed && !accepted && Accepts(Curve11(), 4, 1, 2, s)
  {
    hide Accepts, SignedWith, Verifiable;
    signed, accepted, s := Run(1, 4, 32);
    LostVerdict(s);
  }

  lemma LostVerdict(s: nat)
    requires SignedWith(Curve11(), 1, 4, 1, 2, s)
    ensures Accepts(Curve11(), 4, 1, 2, s) && !Verifiable(7, 4, 1, 2, s)
  {
    hide Law, Mul, Accepts, Cong, SignedWith, ScalarsClear, IsInverse;
    IsCurve();
    Completeness(Curve11(), 1, 4, 1, 2, s);
    Multiple(4, 1);
    LostSumS(s);
    LostSumRound();
  }

  lemma LostSumS(s: nat)
    requires SignedWith(Curve11(), 1, 4, 1, 2, s)
    ensures s == 2 && IsInverse(4, 2, 7)
  {
    hide Cong;
    CongBy(9, 2, 7, 1);
    CongTrans(s * 1, 1 + 2 * 4, 2, 7);
    SmallEqual(s, 2, 7);
    CongBy(4 * 2, 1, 7, 1);
  }

  lemma LostSumRound()
    ensures !ScalarsClear(7, 4, 4, 1)
  {
    Powers();
    assert !Bit(4, 0) && Bit(1, 0) && Prefix(4, 0 + 1) == 2 && Prefix(1, 0 + 1) == 0;
    CongRefl(4, 7);
    assert !ScalarClear(7, 4, 4, 1, 0);
  }
}
