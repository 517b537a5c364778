/** ECDSA signing and verification (sections 4.1.3 and 4.1.4 of SEC 1) on word arrays, over a curve whose points obey
    the affine group law. */
module Ecdsa {
  import opened Numbers
  import opened Words
  import opened Vli
  import opened ModArith
  import ModInv
  import opened Bytes
  import opened Field
  import opened Groups
  import opened Pairs
  import opened Points
  import opened Ladder
  import opened Shamir

  /** The constants of a curve as arrays: the prime, the order, and the coordinates of the generator. */
  datatype Constants = Constants(p: array<nat>, order: array<nat>, gx: array<nat>, gy: array<nat>)

  function Arrays(cs: Constants): set<array<nat>> {
    {cs.p, cs.order, cs.gx, cs.gy}
  }

  /** Sizes that fit together (the order may need one word more than a coordinate). */
  ghost predicate Sized<G>(cv: Curve<G>) {
    && cv.c > 0 && 0 < cv.words <= cv.nw <= cv.words + 1 && cv.nw <= Base(W(cv))
    && 0 < cv.bytes <= cv.c * cv.words && W(cv) * (cv.nw - 1) < cv.bits <= W(cv) * cv.nw
  }

  ghost predicate Order<G>(cv: Curve<G>, order: array<nat>, n: nat)
    reads order
  {
    && Holds(order, cv.nw, Base(W(cv))) && Val(order[..cv.nw], Base(W(cv))) == n
    && IsPrime(n) && n % 2 == 1 && IsBitLength(n, cv.bits)
  }

  /** The curve obeys the group law, its sizes fit, and the arrays hold its constants; the generator is a point with
      x != 0. */
  ghost predicate ValidCurve<G(!new)>(cv: Curve<G>, cs: Constants)
    reads Arrays(cs)
  {
    && Law(cv) && Sized(cv) && cv.p <= Pow(256, cv.bytes)
    && Modulus(W(cv), cs.p, cv.words, cv.p) && Order(cv, cs.order, cv.n)
    && cv.g != cv.gr.zero && cv.x(cv.g) != 0 && Affinely(cv, cs.gx, cs.gy, cv.g)
  }

  lemma OrderHeld<G(!new)>(cv: Curve<G>, cs: Constants)
    requires ValidCurve(cv, cs)
    ensures OrderWords(cv, cs.order) && cv.n > 3
  {
    hide Law, Val, Base, Pow, IsBitLength, IsPrime, Affinely, Modulus;
    LawParts(cv);
  }

  /** The number signing and verification make of a message hash. */
  ghost function MessageValue<G>(cv: Curve<G>, hash: seq<nat>): (e: nat)
    ensures IsBytes(hash) && cv.n > 0 ==> e == HashValue(hash, cv.bits, cv.n)
  {
    if IsBytes(hash) && cv.n > 0 then
      HashValueProperties(hash, cv.bits, cv.n);
      HashValue(hash, cv.bits, cv.n)
    else 0
  }

  // ---------- arithmetic modulo a prime ----------

  ghost predicate IsInverse(z: nat, s: nat, n: nat)
    requires n > 0
  {
    Cong(z * s, 1, n)
  }

  lemma InverseUnique(z: nat, z': nat, s: nat, n: nat)
    requires IsPrime(n) && 0 < s < n && z < n && z' < n && IsInverse(z, s, n) && IsInverse(z', s, n)
    ensures z == z'
  {
    hide Cong, IsPrime;
    PrimeAboveOne(n);
    CongSym(z' * s, 1, n);
    CongTrans(z * s, 1, z' * s, n);
    SmallNonzero(s, n);
    CancelFactor(s, z, z', n);
    SmallEqual(z, z', n);
  }

  /** The inverse of a blinded k, multiplied by the blind again, is the inverse of k. */
  lemma Unblind(k: nat, b: nat, k': nat, i: nat, r: nat, n: nat)
    requires n > 0 && Cong(k', k * b, n) && Cong(i * k', 1, n) && Cong(r, i * b, n)
    ensures Cong(r * k, 1, n)
  {
    hide Cong;
    CongScale(k, r, i * b, n);
    CongSym(k', k * b, n);
    CongScale(i, k * b, k', n);
    MulAssoc(k, i, b);
    MulAssoc(i, k, b);
    CongTrans(k * r, i * (k * b), i * k', n);
    CongTrans(k * r, i * k', 1, n);
    assert k * r == r * k;
  }

  lemma LowerBound(n: nat, bits: nat)
    requires IsBitLength(n, bits) && bits > 0
    ensures Pow(2, bits - 1) <= n
  {
  }

  /** A number of `bits` bits does not fit fewer words. */
  lemma TooLongFor(w: WordBits, k: nat, n: nat, bits: nat)
    requires w * k < bits && IsBitLength(n, bits)
    ensures Pow(Base(w), k) <= n
  {
    hide Pow;
    PowMul(2, w, k);
    PowMonotone(2, w * k, bits - 1);
    LowerBound(n, bits);
  }

  lemma TopWordNonzero<G>(cv: Curve<G>, order: array<nat>, n: nat)
    requires Sized(cv) && Order(cv, order, n)
    ensures order[cv.nw - 1] != 0
  {
    hide Val, Base, Pow, IsPrime, IsBitLength;
    var B, k := Base(W(cv)), cv.nw - 1;
    if order[k] == 0 {
      var s := order[..cv.nw];
      ValPrefix(s, k, B);
      assert s[..k + 1] == s;
      ValBound(s[..k], B);
      TooLongFor(W(cv), k, n, cv.bits);
    }
  }

  // ---------- signing ----------

  /** What the random number source may do for the blinding: not be there, fail, or give words. */
  datatype Rng = NoRng | RngFails | RngGives(words: seq<nat>)

  ghost predicate GoodRng<G>(cv: Curve<G>, rng: Rng, n: nat) {
    rng.RngGives? ==> |rng.words| == cv.nw && IsWords(rng.words, Base(W(cv))) && 0 < Val(rng.words, Base(W(cv))) < n
  }

  /** k = 1 / k (mod n), through a blinded inversion. */
  method BlindedInverse<G>(cv: Curve<G>, k: array<nat>, blind: array<nat>, order: array<nat>, ghost n: nat)
    requires Sized(cv) && Order(cv, order, n) && k != order && k != blind
    requires Holds(k, cv.nw, Base(W(cv))) && Holds(blind, cv.nw, Base(W(cv)))
    requires 0 < Val(k[..cv.nw], Base(W(cv))) < n && 0 < Val(blind[..cv.nw], Base(W(cv))) < n
    modifies k
    ensures Holds(k, cv.nw, Base(W(cv)))
    ensures Cong(Val(k[..cv.nw], Base(W(cv))) * old(Val(k[..cv.nw], Base(W(cv)))), 1, n)
  {
    hide Val, Base, Pow, IsPrime, IsBitLength, Cong, Gcd, ModInv.Invert;
    var w, nw := W(cv), cv.nw;
    ghost var k0, b := Val(k[..nw], Base(w)), Val(blind[..nw], Base(w));
    ghost var bw, ow := blind[..nw], order[..nw];
    TopWordNonzero(cv, order, n);
    NonzeroProduct(k0, b, n);
    ModMult(w, k, k, blind, order, nw);
    ghost var k1 := Val(k[..nw], Base(w));
    assert blind[..nw] == bw && order[..nw] == ow;
    PrimeCoprime(k1, n);
    PrimeAboveOne(n);
    ModInv.Inverse(w, k, k, order, nw);
    ghost var i := Val(k[..nw], Base(w));
    assert blind[..nw] == bw && order[..nw] == ow;
    ModMult(w, k, k, blind, order, nw);
    ProductMod(k0, b, n);
    ProductMod(i, b, n);
    Unblind(k0, b, k1, i, Val(k[..nw], Base(w)), n);
  }

  lemma ProductMod(x: nat, y: nat, n: nat)
    requires n > 0
    ensures Cong((x * y) % n, x * y, n)
  {
    CongMod(x * y, n);
  }

  /** s = r * d (mod n), for the key bytes `d`; `tmp` is scratch. */
  method TimesKey<G>(cv: Curve<G>, s: array<nat>, tmp: array<nat>, d: seq<nat>, order: array<nat>, ghost n: nat)
    requires Sized(cv) && Order(cv, order, n) && IsBytes(d) && |d| == BytesOfBits(cv.bits)
    requires s != tmp && s != order && tmp != order && Holds(s, cv.nw, Base(W(cv))) && cv.nw <= tmp.Length
    modifies s, tmp
    ensures Holds(s, cv.nw, Base(W(cv))) && n > 0 && Val(s[..cv.nw], Base(W(cv))) < n
    ensures Val(s[..cv.nw], Base(W(cv))) == (BigEndian(d) * old(Val(s[..cv.nw], Base(W(cv))))) % n
  {
    hide Val, Base, Pow, IsPrime, BigEndian, IsBitLength;
    var w, nw := W(cv), cv.nw;
    ghost var sw, ow := s[..nw], order[..nw];
    TopWordNonzero(cv, order, n);
    FitsWords(cv.bits, |d|, cv.c, nw);
    LoadBytes(cv.c, tmp, d, nw);
    assert s[..nw] == sw && order[..nw] == ow;
    ModMult(w, s, tmp, s, order, nw);
    DivModEquation(BigEndian(d) * Val(sw, Base(w)), n);
  }

  /** s = (e + r * d) / k (mod n): `s` holds r, `tmp` is scratch, `k` already holds 1 / k. */
  method SolveS<G>(cv: Curve<G>, s: array<nat>, tmp: array<nat>, k: array<nat>, d: seq<nat>, hash: seq<nat>,
                   order: array<nat>, ghost n: nat, ghost k0: nat)
    requires Sized(cv) && Order(cv, order, n) && IsBytes(d) && |d| == BytesOfBits(cv.bits) && IsBytes(hash)
    requires s != tmp && s != k && s != order && tmp != k && tmp != order
    requires Holds(s, cv.nw, Base(W(cv))) && Holds(k, cv.nw, Base(W(cv))) && cv.nw <= tmp.Length
    requires Cong(Val(k[..cv.nw], Base(W(cv))) * k0, 1, n)
    modifies s, tmp
    ensures Holds(s, cv.nw, Base(W(cv))) && Val(s[..cv.nw], Base(W(cv))) < n
    ensures Cong(Val(s[..cv.nw], Base(W(cv))) * k0,
                 HashValue(hash, cv.bits, n) + old(Val(s[..cv.nw], Base(W(cv)))) * BigEndian(d), n)
  {
    hide Val, Base, Pow, IsPrime, BigEndian, HashValue, Cong, ReduceOnce, IsBitLength;
    var w, nw := W(cv), cv.nw;
    ghost var r, e, dv := Val(s[..nw], Base(w)), HashValue(hash, cv.bits, n), BigEndian(d);
    ghost var kw, ow := k[..nw], order[..nw];
    ghost var ki := Val(kw, Base(w));
    TimesKey(cv, s, tmp, d, order, n);
    ghost var sw := s[..nw];
    ghost var rd := Val(sw, Base(w));
    assert k[..nw] == kw && order[..nw] == ow;
    TopWordNonzero(cv, order, n);
    Bits2Int(cv.c, tmp, hash, cv.bits, order, nw);
    assert s[..nw] == sw && k[..nw] == kw && order[..nw] == ow;
    ModAdd(w, s, tmp, s, order, nw);
    ghost var sum := Val(s[..nw], Base(w));
    assert k[..nw] == kw && order[..nw] == ow;
    ModMult(w, s, s, k, order, nw);
    SolvedEquation(Val(s[..nw], Base(w)), sum, ki, k0, e, rd, dv, r, n);
  }

  lemma SolvedEquation(s: nat, sum: nat, ki: nat, k0: nat, e: nat, rd: nat, d: nat, r: nat, n: nat)
    requires n > 0 && s == (sum * ki) % n && sum == ReduceOnce(e + rd, n) && rd == (d * r) % n && Cong(ki * k0, 1, n)
    ensures s < n && Cong(s * k0, e + r * d, n)
  {
    hide Cong, ReduceOnce;
    DividedSum(s, sum, ki, k0, n);
    ReduceOnceCong(e + rd, n);
    CongTrans(s * k0, sum, e + rd, n);
    ProductSum(e, rd, d, r, n);
    CongTrans(s * k0, e + rd, e + r * d, n);
  }

  lemma DividedSum(s: nat, sum: nat, ki: nat, k0: nat, n: nat)
    requires n > 0 && s == (sum * ki) % n && Cong(ki * k0, 1, n)
    ensures s < n && Cong(s * k0, sum, n)
  {
    hide Cong;
    DivModEquation(sum * ki, n);
    CongMod(sum * ki, n);
    CongScale(k0, s, sum * ki, n);
    CongScale(sum, ki * k0, 1, n);
    MulAssoc(sum, ki, k0);
    CongTrans(k0 * s, sum * (ki * k0), sum, n);
  }

  lemma ProductSum(e: nat, rd: nat, d: nat, r: nat, n: nat)
    requires n > 0 && rd == (d * r) % n
    ensures Cong(e + rd, e + r * d, n)
  {
    hide Cong;
    CongMod(d * r, n);
    CongRefl(e, n);
    CongAdd(e, e, rd, d * r, n);
  }

  /** The numbers of an ECDSA signature made with the per-message secret `k` and the key `d` on the hash value `e`. */
  ghost predicate SignedWith<G>(cv: Curve<G>, k: nat, d: nat, e: nat, r: nat, s: nat) {
    0 < k < cv.n && r == cv.x(Mul(cv.gr, k, cv.g)) && r > 0 && s < cv.n && Cong(s * k, e + r * d, cv.n)
  }

  /** The factor that blinds the inversion: one without a generator, else what it draws, if it does. */
  method DrawBlind<G>(cv: Curve<G>, rng: Rng, tmp: array<nat>, ghost n: nat) returns (ok: bool)
    requires Sized(cv) && GoodRng(cv, rng, n) && tmp.Length == cv.nw && n > 1
    modifies tmp
    ensures ok <==> !rng.RngFails?
    ensures ok ==> Holds(tmp, cv.nw, Base(W(cv))) && 0 < Val(tmp[..cv.nw], Base(W(cv))) < n
  {
    hide Val, Base, Pow;
    var nw := cv.nw;
    ok := true;
    match rng {
      case NoRng =>
        Clear(tmp, nw);
        tmp[0] := 1;
        OneValue(tmp[..nw], Base(W(cv)));
      case RngFails =>
        ok := false;
      case RngGives(words) =>
        forall i | 0 <= i < nw { tmp[i] := words[i]; }
        assert tmp[..nw] == words;
    }
  }

  /** The number in the first words of an array. */
  ghost function NumberIn<G>(cv: Curve<G>, a: array<nat>, count: nat): nat
    requires count <= a.Length
    reads a
  {
    Val(a[..count], Base(W(cv)))
  }

  /** k * G for signing; `px` is to hold its x-coordinate. Fails when that is zero. */
  method SecretPoint<G(!new)>(cv: Curve<G>, cs: Constants, k: array<nat>) returns (ok: bool, px: array<nat>)
    requires ValidCurve(cv, cs) && Holds(k, cv.nw, Base(W(cv)))
    ensures fresh(px) && px.Length == cv.words && Holds(px, cv.words, Base(W(cv)))
    ensures var low, kv := Val(k[..cv.words], Base(W(cv))), Val(k[..cv.nw], Base(W(cv)));
      && (ok <==> low > 0 && kv < cv.n && !Degenerate(kv, cv.n, cv.bits) && cv.x(Mul(cv.gr, kv, cv.g)) != 0)
      && (ok ==> 0 < kv < cv.n && Val(px[..cv.words], Base(W(cv))) == cv.x(Mul(cv.gr, kv, cv.g)))
  {
    hide Law, Val, Base, Pow, Mul, Degenerate, IsPrime, IsBitLength;
    var w, nw, words := W(cv), cv.nw, cv.words;
    OrderHeld(cv, cs);
    px := new nat[words](_ => 0);
    ghost var kw := k[..nw];
    ghost var kv := Val(kw, Base(w));
    var zero := IsZero(w, k, words);
    var cmp := Cmp(w, cs.order, k, nw);
    if zero || cmp != 1 {
      return false, px;
    }
    assert kv > 0 by {
      assert kw[..words] == k[..words];
      LowPartPositive(kw, words, Base(w));
    }
    var py := new nat[words];
    RegularMult(cv, px, py, cs.gx, cs.gy, k, cs.order, null, cs.p, cv.g);
    ghost var t := if Degenerate(kv, cv.n, cv.bits) then cv.gr.zero else Mul(cv.gr, kv, cv.g);
    LawParts(cv);
    Points.Coordinates(cv, t);
    ResidueValue(w, px, words, cv.x(t), cv.p);
    var pzero := IsZero(w, px, words);
    assert k[..nw] == kw && k[..words] == kw[..words];
    ok := !pzero;
  }

  /** uECC_sign_with_k: on success the signature holds r and s, big-endian, with s * k = e + r * d (mod n).
      It fails on a bad k, when the ladder loses k * G or x(kG) is zero, when the blinding source fails, and when s is
      too long. */
  method SignWithK<G(!new)>(cv: Curve<G>, cs: Constants, d: seq<nat>, hash: seq<nat>, k: array<nat>,
                            signature: array<nat>, rng: Rng) returns (ok: bool, ghost s: nat)
    requires ValidCurve(cv, cs) && IsBytes(d) && |d| == BytesOfBits(cv.bits) && IsBytes(hash)
    requires Holds(k, cv.nw, Base(W(cv))) && signature.Length == 2 * cv.bytes
    requires k !in Arrays(cs) && signature !in Arrays(cs) && signature != k && GoodRng(cv, rng, cv.n)
    modifies k, signature
    ensures var low, kv := old(NumberIn(cv, k, cv.words)), old(NumberIn(cv, k, cv.nw));
      var r := cv.x(Mul(cv.gr, kv, cv.g));
      var good := low > 0 && kv < cv.n && !Degenerate(kv, cv.n, cv.bits) && r != 0 && !rng.RngFails?;
      && (!good ==> signature[..] == old(signature[..]))
      && (good ==> SignedWith(cv, kv, BigEndian(d), MessageValue(cv, hash), r, s))
      && (ok <==> good && s < Pow(256, cv.bytes))
      && (ok ==> IsBytes(signature[..]) && BigEndian(signature[..cv.bytes]) == r
                 && BigEndian(signature[cv.bytes..]) == s)
  {
    hide Law, Val, Base, Pow, IsPrime, BigEndian, HashValue, Mul, Degenerate, Affinely, Modulus, IsBitLength;
    OrderHeld(cv, cs);
    s := 0;
    ghost var kv := Val(k[..cv.nw], Base(W(cv)));
    ghost var t := Mul(cv.gr, kv, cv.g);
    var got, px := SecretPoint(cv, cs, k);
    if !got {
      return false, s;
    }
    LawParts(cv);
    Points.Coordinates(cv, t);
    var tmp := new nat[cv.nw];
    var drawn := DrawBlind(cv, rng, tmp, cv.n);
    if !drawn {
      return false, s;
    }
    ok, s := MakeSignature(cv, cs.order, d, hash, k, px, tmp, signature, cv.n, kv);
  }

  /** The arithmetic of signing, once kG is known: `p` holds its x-coordinate r and `tmp` the blind. */
  method MakeSignature<G(!new)>(cv: Curve<G>, order: array<nat>, d: seq<nat>, hash: seq<nat>, k: array<nat>,
                                p: array<nat>, tmp: array<nat>, signature: array<nat>, ghost n: nat, ghost kv: nat)
    returns (ok: bool, ghost s: nat)
    requires Sized(cv) && Order(cv, order, n) && IsBytes(d) && |d| == BytesOfBits(cv.bits) && IsBytes(hash)
    requires k != order && k != tmp && k != p && tmp != p && tmp != order && p != order && p.Length == cv.words
    requires signature.Length == 2 * cv.bytes
    requires signature != order && signature != k && signature != p && signature != tmp
    requires Holds(k, cv.nw, Base(W(cv))) && Holds(tmp, cv.nw, Base(W(cv))) && Holds(p, cv.words, Base(W(cv)))
    requires kv == Val(k[..cv.nw], Base(W(cv))) && 0 < kv < n && 0 < Val(tmp[..cv.nw], Base(W(cv))) < n
    requires Val(p[..cv.words], Base(W(cv))) < Pow(256, cv.bytes)
    modifies k, tmp, signature
    ensures n > 0 && s < n
    ensures Cong(s * kv, HashValue(hash, cv.bits, n) + Val(p[..cv.words], Base(W(cv))) * BigEndian(d), n)
    ensures ok <==> s < Pow(256, cv.bytes)
    ensures ok ==> IsBytes(signature[..]) && BigEndian(signature[cv.bytes..]) == s
    ensures ok ==> BigEndian(signature[..cv.bytes]) == Val(p[..cv.words], Base(W(cv)))
  {
    hide Val, Base, Pow, IsPrime, BigEndian, HashValue;
    var w, nw, words, bytes := W(cv), cv.nw, cv.words, cv.bytes;
    ghost var pw, ow := p[..words], order[..nw];
    ghost var r := Val(pw, Base(w));
    PrimeAboveOne(n);
    BlindedInverse(cv, k, tmp, order, n);
    ghost var kw := k[..nw];
    assert p[..words] == pw && order[..nw] == ow;
    NativeToBytes(cv.c, signature, 0, bytes, p, words);
    ghost var first := signature[..bytes];
    assert signature[0..0 + bytes] == first;
    assert BigEndian(first) == r by { DivModUnique(r, Pow(256, bytes), 0, r); }
    var sw := new nat[nw];
    sw[nw - 1] := 0;
    Set(sw, 0, p, words);
    assert p[..words] == pw && order[..nw] == ow && k[..nw] == kw && signature[..bytes] == first;
    assert Val(sw[..nw], Base(w)) == r && IsWords(sw[..nw], Base(w)) by {
      assert sw[..nw][..words] == sw[0..0 + words] == pw;
      ExtendedValue(sw[..nw], pw, Base(w));
    }
    SolveS(cv, sw, tmp, k, d, hash, order, n, kv);
    ghost var sws := sw[..nw];
    s := Val(sws, Base(w));
    assert p[..words] == pw && signature[..bytes] == first;
    ok := StoreS(cv, signature, sw, s);
    assert p[..words] == pw && signature[..bytes] == first;
    assert ok ==> signature[..] == first + signature[bytes..];
  }

  /** Stores s behind r, unless it is too long. */
  method StoreS<G>(cv: Curve<G>, signature: array<nat>, sw: array<nat>, ghost s: nat) returns (ok: bool)
    requires Sized(cv) && signature.Length == 2 * cv.bytes && signature != sw
    requires Holds(sw, cv.nw, Base(W(cv))) && Val(sw[..cv.nw], Base(W(cv))) == s
    modifies signature
    ensures signature[..cv.bytes] == old(signature[..cv.bytes])
    ensures ok <==> s < Pow(256, cv.bytes)
    ensures ok ==> IsBytes(signature[cv.bytes..]) && BigEndian(signature[cv.bytes..]) == s
  {
    hide Val, Base, Pow, BigEndian, IsBitLength;
    var w, nw, bytes := W(cv), cv.nw, cv.bytes;
    var len := NumBits(w, sw, nw);
    FitsBytes(s, len, bytes);
    if len > bytes * 8 {
      return false;
    }
    assert bytes <= cv.c * nw by { MulMonotone(cv.c, cv.words, nw); }
    NativeToBytes(cv.c, signature, bytes, bytes, sw, nw);
    DivModUnique(s, Pow(256, bytes), 0, s);
    assert signature[bytes..bytes + bytes] == signature[bytes..];
    ok := true;
  }

  lemma LowPartPositive(s: seq<nat>, i: nat, B: nat)
    requires i <= |s| && Val(s[..i], B) > 0
    ensures Val(s, B) > 0
  {
    ValSplit(s, i, B);
  }

  lemma OneValue(s: seq<nat>, B: nat)
    requires s != [] && s[0] == 1 && (forall i :: 0 < i < |s| ==> s[i] == 0) && B >= 2
    ensures Val(s, B) == 1 && IsWords(s, B)
  {
    ValCons(s, B);
    ValZeros(s[1..], B);
  }

  /** At most one zero word on top does not change the value. */
  lemma ExtendedValue(s: seq<nat>, t: seq<nat>, B: nat)
    requires |t| <= |s| <= |t| + 1 && s[..|t|] == t && (|s| > |t| ==> s[|t|] == 0) && IsWords(t, B) && B > 0
    ensures Val(s, B) == Val(t, B) && IsWords(s, B)
  {
    hide Val, Pow;
    ValSplit(s, |t|, B);
    ValZeros(s[|t|..], B);
    forall i | 0 <= i < |s| ensures s[i] < B {
      if i < |t| { assert s[..|t|][i] == t[i]; }
    }
  }

  lemma FitsBytes(s: nat, len: nat, bytes: nat)
    requires IsBitLength(s, len)
    ensures len > bytes * 8 <==> s >= Pow(256, bytes)
  {
    hide Pow;
    PowBytes(bytes);
    if len > bytes * 8 {
      PowMonotone(2, 8 * bytes, len - 1);
    } else {
      PowMonotone(2, len, 8 * bytes);
      if len == 0 { PowZero(2); }
    }
  }

  // ---------- public keys ----------

  /** The key bytes are the coordinates of the point, big-endian. */
  ghost predicate KeyBytes<G>(cv: Curve<G>, key: seq<nat>, q: G) {
    && |key| == 2 * cv.bytes && IsBytes(key) && q != cv.gr.zero
    && BigEndian(key[..cv.bytes]) == cv.x(q) && BigEndian(key[cv.bytes..]) == cv.y(q)
  }

  /** The words of the two coordinates as bytes. */
  method StoreKey<G(!new)>(cv: Curve<G>, key: array<nat>, px: array<nat>, py: array<nat>, ghost q: G)
    requires Law(cv) && Sized(cv) && cv.p <= Pow(256, cv.bytes) && key.Length == 2 * cv.bytes && key != px && key != py
    requires Affinely(cv, px, py, q) && q != cv.gr.zero
    modifies key
    ensures KeyBytes(cv, key[..], q)
  {
    hide Law, Val, Base, Pow, BigEndian, Cong;
    var bytes := cv.bytes;
    Points.Coordinates(cv, q);
    ResidueValue(W(cv), px, cv.words, cv.x(q), cv.p);
    ResidueValue(W(cv), py, cv.words, cv.y(q), cv.p);
    NativeToBytes(cv.c, key, 0, bytes, px, cv.words);
    ghost var first := key[..bytes];
    assert key[0..0 + bytes] == first;
    DivModUnique(cv.x(q), Pow(256, bytes), 0, cv.x(q));
    NativeToBytes(cv.c, key, bytes, bytes, py, cv.words);
    DivModUnique(cv.y(q), Pow(256, bytes), 0, cv.y(q));
    assert key[bytes..bytes + bytes] == key[bytes..] && key[..bytes] == first;
    assert key[..][..bytes] == first && key[..][bytes..] == key[bytes..] && key[..] == first + key[bytes..];
  }

  /** uECC_compute_public_key: the bytes of d * G for every private key from 1 to n - 1 but the two the ladder loses. */
  method ComputePublicKey<G(!new)>(cv: Curve<G>, cs: Constants, d: seq<nat>, key: array<nat>) returns (ok: bool)
    requires ValidCurve(cv, cs) && IsBytes(d) && |d| == BytesOfBits(cv.bits)
    requires key.Length == 2 * cv.bytes && key !in Arrays(cs)
    modifies key
    ensures ok <==> 0 < BigEndian(d) < cv.n && !Degenerate(BigEndian(d), cv.n, cv.bits)
    ensures ok ==> KeyBytes(cv, key[..], Mul(cv.gr, BigEndian(d), cv.g))
    ensures ok ==> BigEndian(key[..cv.bytes]) == cv.x(Mul(cv.gr, BigEndian(d), cv.g))
    ensures ok ==> BigEndian(key[cv.bytes..]) == cv.y(Mul(cv.gr, BigEndian(d), cv.g))
    ensures !ok ==> key[..] == old(key[..])
  {
    hide Law, Val, Base, Pow, Mul, BigEndian, Degenerate, IsPrime, IsBitLength, Affinely, Modulus;
    var w, nw := W(cv), cv.nw;
    OrderHeld(cv, cs);
    FitsWords(cv.bits, |d|, cv.c, nw);
    var secret := new nat[nw];
    LoadBytes(cv.c, secret, d, nw);
    var zero := IsZero(w, secret, nw);
    var cmp := Cmp(w, cs.order, secret, nw);
    if zero || cmp != 1 {
      return false;
    }
    var px := new nat[cv.words];
    var py := new nat[cv.words];
    RegularMult(cv, px, py, cs.gx, cs.gy, secret, cs.order, null, cs.p, cv.g);
    var isZero := PointIsZero(cv, px, py, if Degenerate(BigEndian(d), cv.n, cv.bits) then cv.gr.zero
                                          else Mul(cv.gr, BigEndian(d), cv.g));
    SecretNonzero(cv, BigEndian(d));
    if isZero {
      return false;
    }
    StoreKey(cv, key, px, py, Mul(cv.gr, BigEndian(d), cv.g));
    ok := true;
  }

  /** EccPoint_isZero. */
  method PointIsZero<G(!new)>(cv: Curve<G>, px: array<nat>, py: array<nat>, ghost q: G) returns (zero: bool)
    requires Law(cv) && Affinely(cv, px, py, q)
    ensures zero <==> q == cv.gr.zero
  {
    hide Law, Val, Base, Cong;
    LawParts(cv);
    Points.Coordinates(cv, q);
    ResidueValue(W(cv), px, cv.words, cv.x(q), cv.p);
    ResidueValue(W(cv), py, cv.words, cv.y(q), cv.p);
    if q != cv.gr.zero { YNonzero(cv, q); }
    var xzero := IsZero(W(cv), px, cv.words);
    var yzero := IsZero(W(cv), py, cv.words);
    zero := xzero && yzero;
  }

  lemma SecretNonzero<G(!new)>(cv: Curve<G>, d: nat)
    requires Law(cv) && cv.g != cv.gr.zero && 0 < d < cv.n
    ensures Mul(cv.gr, d, cv.g) != cv.gr.zero
  {
    hide Law, Mul, Cong, Abelian, IsPrime;
    LawParts(cv);
    PointOrder(cv, cv.g);
    MulZeroIff(cv.gr, d, cv.n, cv.g);
    SmallNonzero(d, cv.n);
  }

  // ---------- the shared secret ----------

  ghost predicate GoodZWords<G>(cv: Curve<G>, rng: Rng) {
    rng.RngGives? ==>
      |rng.words| == cv.words && IsWords(rng.words, Base(W(cv))) && 0 < Val(rng.words, Base(W(cv))) < cv.p
  }

  /** The random initial Z, when there is a generator and it does not fail. */
  method DrawZ<G>(cv: Curve<G>, rng: Rng) returns (ok: bool, z: array?<nat>)
    requires GoodZWords(cv, rng)
    ensures ok <==> !rng.RngFails?
    ensures GoodZ(cv, z) && (z != null ==> fresh(z))
  {
    hide Val, Base;
    ok, z := !rng.RngFails?, null;
    if rng.RngGives? {
      var a := new nat[cv.words];
      forall i | 0 <= i < cv.words { a[i] := rng.words[i]; }
      assert a[..cv.words] == rng.words;
      z := a;
    }
  }

  /** uECC_shared_secret, for a private key below the order and the public key of a point: the x-coordinate of d * Q. It
      fails, with zeros for the secret, when d is degenerate or x(Q) is zero, and without a secret when the generator
      fails. */
  method SharedSecret<G(!new)>(cv: Curve<G>, cs: Constants, key: seq<nat>, d: seq<nat>, rng: Rng, secret: array<nat>,
                               ghost q: G) returns (ok: bool)
    requires ValidCurve(cv, cs) && KeyBytes(cv, key, q) && GoodZWords(cv, rng)
    requires IsBytes(d) && |d| == BytesOfBits(cv.bits) && BigEndian(d) < cv.n
    requires secret.Length == cv.bytes && secret !in Arrays(cs)
    modifies secret
    ensures ok <==> !rng.RngFails? && !Degenerate(BigEndian(d), cv.n, cv.bits) && cv.x(q) != 0
    ensures if rng.RngFails? then secret[..] == old(secret[..]) else IsBytes(secret[..])
    ensures !rng.RngFails? ==> BigEndian(secret[..]) == if ok then cv.x(Mul(cv.gr, BigEndian(d), q)) else 0
  {
    hide Law, Val, Base, Pow, Mul, BigEndian, Degenerate, IsPrime, IsBitLength, Affinely, Modulus, GoodZ;
    OrderHeld(cv, cs);
    var private := new nat[cv.nw];
    FitsWords(cv.bits, |d|, cv.c, cv.nw);
    LoadBytes(cv.c, private, d, cv.nw);
    Points.Coordinates(cv, q);
    var qx := LoadCoordinate(cv, key[..cv.bytes], cv.x(q));
    var qy := LoadCoordinate(cv, key[cv.bytes..], cv.y(q));
    AffineBy(cv, qx, qy, q);
    var drawn, initialZ := DrawZ(cv, rng);
    if !drawn {
      return false;
    }
    ghost var dv := BigEndian(d);
    ghost var t := if Degenerate(dv, cv.n, cv.bits) || cv.x(q) == 0 then cv.gr.zero else Mul(cv.gr, dv, q);
    RegularMult(cv, qx, qy, qx, qy, private, cs.order, initialZ, cs.p, q);
    StoreX(cv, secret, qx, qy, t);
    var zero := PointIsZero(cv, qx, qy, t);
    ok := !zero;
    SharedNonzero(cv, dv, q);
  }

  lemma AffineBy<G>(cv: Curve<G>, qx: array<nat>, qy: array<nat>, q: G)
    requires Residue(W(cv), qx, cv.words, cv.x(q), cv.p) && Residue(W(cv), qy, cv.words, cv.y(q), cv.p)
    ensures Affinely(cv, qx, qy, q)
  {
  }

  /** nativeToBytes on the x-coordinate. */
  method StoreX<G(!new)>(cv: Curve<G>, secret: array<nat>, px: array<nat>, py: array<nat>, ghost t: G)
    requires Law(cv) && Sized(cv) && cv.p <= Pow(256, cv.bytes) && secret.Length == cv.bytes
    requires Affinely(cv, px, py, t) && secret != px && secret != py
    modifies secret
    ensures IsBytes(secret[..]) && BigEndian(secret[..]) == cv.x(t)
  {
    hide Law, Val, Base, Pow, BigEndian, Cong;
    Points.Coordinates(cv, t);
    ResidueValue(W(cv), px, cv.words, cv.x(t), cv.p);
    NativeToBytes(cv.c, secret, 0, cv.bytes, px, cv.words);
    DivModUnique(cv.x(t), Pow(256, cv.bytes), 0, cv.x(t));
    assert secret[0..0 + cv.bytes] == secret[..];
  }

  /** A multiple that the ladder does not lose is not zero. */
  lemma SharedNonzero<G(!new)>(cv: Curve<G>, d: nat, q: G)
    requires Law(cv) && q != cv.gr.zero && d < cv.n && IsBitLength(cv.n, cv.bits)
    ensures cv.x(cv.gr.zero) == 0
    ensures !Degenerate(d, cv.n, cv.bits) ==> Mul(cv.gr, d, q) != cv.gr.zero
  {
    hide Law, Mul, Cong, Abelian, IsPrime;
    LawParts(cv);
    PointOrder(cv, q);
    MulZeroIff(cv.gr, d, cv.n, q);
    if d > 0 { SmallNonzero(d, cv.n); }
  }

  /** Each party computes the secret from its own private key and the other's public key. */
  method Exchange<G(!new)>(cv: Curve<G>, cs: Constants, key1: seq<nat>, key2: seq<nat>, d1: seq<nat>, d2: seq<nat>,
                           rng1: Rng, rng2: Rng)
    returns (agreed: bool, secret1: seq<nat>, secret2: seq<nat>)
    requires ValidCurve(cv, cs) && GoodZWords(cv, rng1) && GoodZWords(cv, rng2)
    requires IsBytes(d1) && |d1| == BytesOfBits(cv.bits) && IsBytes(d2) && |d2| == BytesOfBits(cv.bits)
    requires BigEndian(d1) < cv.n && BigEndian(d2) < cv.n
    requires KeyBytes(cv, key1, Mul(cv.gr, BigEndian(d1), cv.g))
    requires KeyBytes(cv, key2, Mul(cv.gr, BigEndian(d2), cv.g))
    ensures var a, b := BigEndian(d1), BigEndian(d2);
      && (agreed <==> !rng1.RngFails? && !rng2.RngFails? && !Degenerate(a, cv.n, cv.bits)
                      && !Degenerate(b, cv.n, cv.bits)
                      && cv.x(Mul(cv.gr, a, cv.g)) != 0 && cv.x(Mul(cv.gr, b, cv.g)) != 0)
      && (agreed ==> secret1 == secret2 && BigEndian(secret1) == cv.x(Mul(cv.gr, a, Mul(cv.gr, b, cv.g))))
  {
    hide Law, Val, Base, Pow, Mul, BigEndian, Degenerate, IsPrime, IsBitLength, Affinely, Modulus, KeyBytes,
         GoodZWords, IsBytes;
    GeneratorOf(cv, cs);
    var s1 := new nat[cv.bytes];
    var ok1 := SharedSecret(cv, cs, key2, d1, rng1, s1, Mul(cv.gr, BigEndian(d2), cv.g));
    secret1 := s1[..];
    var s2 := new nat[cv.bytes];
    var ok2 := SharedSecret(cv, cs, key1, d2, rng2, s2, Mul(cv.gr, BigEndian(d1), cv.g));
    secret2 := s2[..];
    agreed := ok1 && ok2;
    if agreed {
      SameSecret(cv, BigEndian(d1), BigEndian(d2));
      BigEndianInjective(secret1, secret2);
    }
  }

  /** Key generation by two parties and the exchange. Both get a secret exactly when both public keys were made, neither
      has x = 0 and no generator fails; then the secrets are equal. */
  method Agree<G(!new)>(cv: Curve<G>, cs: Constants, d1: seq<nat>, d2: seq<nat>, rng1: Rng, rng2: Rng)
    returns (made: bool, agreed: bool, secret1: seq<nat>, secret2: seq<nat>)
    requires ValidCurve(cv, cs) && GoodZWords(cv, rng1) && GoodZWords(cv, rng2)
    requires IsBytes(d1) && |d1| == BytesOfBits(cv.bits) && IsBytes(d2) && |d2| == BytesOfBits(cv.bits)
    ensures var a, b := BigEndian(d1), BigEndian(d2);
      && (made <==> 0 < a < cv.n && 0 < b < cv.n && !Degenerate(a, cv.n, cv.bits) && !Degenerate(b, cv.n, cv.bits))
      && (agreed <==> made && !rng1.RngFails? && !rng2.RngFails?
                      && cv.x(Mul(cv.gr, a, cv.g)) != 0 && cv.x(Mul(cv.gr, b, cv.g)) != 0)
      && (agreed ==> secret1 == secret2 && BigEndian(secret1) == cv.x(Mul(cv.gr, a, Mul(cv.gr, b, cv.g))))
  {
    hide Law, Val, Base, Pow, Mul, BigEndian, Degenerate, IsPrime, IsBitLength, Affinely, Modulus, KeyBytes,
         GoodZWords, IsBytes;
    made, agreed, secret1, secret2 := false, false, [], [];
    var key1 := new nat[2 * cv.bytes];
    var key2 := new nat[2 * cv.bytes];
    var made1 := ComputePublicKey(cv, cs, d1, key1);
    var made2 := ComputePublicKey(cv, cs, d2, key2);
    made := made1 && made2;
    if made {
      agreed, secret1, secret2 := Exchange(cv, cs, key1[..], key2[..], d1, d2, rng1, rng2);
    }
  }

  /** d1 * (d2 * G) and d2 * (d1 * G) are the same point. */
  lemma SameSecret<G(!new)>(cv: Curve<G>, a: nat, b: nat)
    requires Law(cv)
    ensures Mul(cv.gr, a, Mul(cv.gr, b, cv.g)) == Mul(cv.gr, a * b, cv.g) == Mul(cv.gr, b, Mul(cv.gr, a, cv.g))
  {
    hide Law, Mul, Abelian;
    LawParts(cv);
    MulMul(cv.gr, a, b, cv.g);
    MulMul(cv.gr, b, a, cv.g);
    assert a * b == b * a;
  }

  // ---------- verification ----------

  /** The point u1 * G + u2 * Q for u1 = e * z and u2 = r * z (mod n). */
  ghost function Combined<G>(cv: Curve<G>, q: G, e: nat, r: nat, z: nat): G
    requires cv.n > 0
  {
    cv.gr.add(Mul(cv.gr, (e * z) % cv.n, cv.g), Mul(cv.gr, (r * z) % cv.n, q))
  }

  /** What the standard accepts: r and s in range, and the x-coordinate of (e/s) * G + (r/s) * Q, less n when it is not
      below n, equal to r. The zero point has x-coordinate 0, so it is never accepted. */
  ghost predicate Accepts<G>(cv: Curve<G>, q: G, e: nat, r: nat, s: nat) {
    && 0 < r < cv.n && 0 < s < cv.n
    && forall z: nat :: z < cv.n && IsInverse(z, s, cv.n) ==> ReduceOnce(cv.x(Combined(cv, q, e, r, z)), cv.n) == r
  }

  /** Section 4.1.4 of SEC 1 as it is written: the x-coordinate modulo n equal to r. */
  ghost predicate AcceptsModulo<G>(cv: Curve<G>, q: G, e: nat, r: nat, s: nat) {
    && 0 < r < cv.n && 0 < s < cv.n
    && forall z: nat :: z < cv.n && IsInverse(z, s, cv.n) ==> cv.x(Combined(cv, q, e, r, z)) % cv.n == r
  }

  /** One conditional subtraction is that remainder as long as p < 2 * n. */
  lemma AcceptsIsModulo<G(!new)>(cv: Curve<G>, q: G, e: nat, r: nat, s: nat)
    requires Law(cv) && cv.p < 2 * cv.n
    ensures Accepts(cv, q, e, r, s) <==> AcceptsModulo(cv, q, e, r, s)
  {
    hide Law, Combined, IsInverse, ReduceOnce;
    LawParts(cv);
    forall z: nat ensures ReduceOnce(cv.x(Combined(cv, q, e, r, z)), cv.n) == cv.x(Combined(cv, q, e, r, z)) % cv.n {
      Points.Coordinates(cv, Combined(cv, q, e, r, z));
      ReduceOnceRemainder(cv.x(Combined(cv, q, e, r, z)), cv.n);
    }
  }

  lemma ReduceOnceRemainder(x: nat, n: nat)
    requires 0 < n && x < 2 * n
    ensures ReduceOnce(x, n) == x % n
  {
    if x < n { DivModUnique(x, n, 0, x); } else { DivModUnique(x, n, 1, x - n); }
  }

  /** No addition of the joint loop for (e/s, r/s) meets equal or opposite points. */
  ghost predicate Unbroken<G>(cv: Curve<G>, q: G, e: nat, r: nat, s: nat)
  {
    cv.n > 0 && forall z: nat :: z < cv.n && IsInverse(z, s, cv.n) ==> AllClear(cv, q, (e * z) % cv.n, (r * z) % cv.n)
  }

  /** The table of verification has every entry the loop for (e/s, r/s) takes. */
  ghost predicate Served<G>(cv: Curve<G>, q: G, e: nat, r: nat, s: nat)
  {
    cv.n > 0
    && forall z: nat :: z < cv.n && IsInverse(z, s, cv.n) ==>
         TableServes(cv, q, (e * z) % cv.n, (r * z) % cv.n)
  }

  /** The pairs and the prime that the joint loop works with, for the key with coordinates `k`. */
  ghost function Loop<G>(cv: Curve<G>, k: Pair): Setting {
    Setting(PairOf(cv, cv.g), k, cv.kind, cv.p)
  }

  /** What the code accepts: r and s in range, and the x-coordinate that double-and-add on pairs leaves for (e/s, r/s),
      less n when it is not below n, equal to r. The key may be any pair of residues. */
  ghost predicate Passes<G>(cv: Curve<G>, k: Pair, e: nat, r: nat, s: nat) {
    && 0 < r < cv.n && 0 < s < cv.n && cv.p > 0
    && forall z: nat :: z < cv.n && IsInverse(z, s, cv.n) ==>
         ReduceOnce(JointX(Loop(cv, k), (e * z) % cv.n, (r * z) % cv.n), cv.n) == r
  }

  lemma OneInverse(s: nat, n: nat, z: nat)
    requires IsPrime(n) && 0 < s < n && z < n && IsInverse(z, s, n)
    ensures forall z': nat :: z' < n && IsInverse(z', s, n) ==> z' == z
  {
    hide IsInverse, IsPrime;
    forall z': nat | z' < n && IsInverse(z', s, n) ensures z' == z {
      InverseUnique(z', z, s, n);
    }
  }

  /** The quantified conditions, at the one inverse of s. */
  lemma AtInverse<G(!new)>(cv: Curve<G>, q: G, e: nat, r: nat, s: nat, z: nat)
    requires Law(cv) && cv.n > 0 && 0 < r < cv.n && 0 < s < cv.n && z < cv.n && IsInverse(z, s, cv.n)
    ensures Accepts(cv, q, e, r, s) <==> ReduceOnce(cv.x(Combined(cv, q, e, r, z)), cv.n) == r
    ensures Unbroken(cv, q, e, r, s) <==> AllClear(cv, q, (e * z) % cv.n, (r * z) % cv.n)
    ensures Served(cv, q, e, r, s) <==> TableServes(cv, q, (e * z) % cv.n, (r * z) % cv.n)
  {
    hide Law, IsPrime, Combined, AllClear, TableServes, IsInverse, ReduceOnce;
    LawParts(cv);
    OneInverse(s, cv.n, z);
  }

  lemma PassesAtInverse<G>(cv: Curve<G>, k: Pair, e: nat, r: nat, s: nat, z: nat)
    requires IsPrime(cv.n) && cv.p > 0 && 0 < r < cv.n && 0 < s < cv.n && z < cv.n && IsInverse(z, s, cv.n)
    ensures Passes(cv, k, e, r, s)
       <==> ReduceOnce(JointX(Loop(cv, k), (e * z) % cv.n, (r * z) % cv.n), cv.n) == r
  {
    hide IsPrime, IsInverse, ReduceOnce, JointX;
    OneInverse(s, cv.n, z);
  }

  /** For the coordinates of a point and scalars the table serves, the code accepts exactly what the standard accepts
      and whose additions never meet equal or opposite points. */
  lemma PassesMeaning<G(!new)>(cv: Curve<G>, q: G, e: nat, r: nat, s: nat)
    requires Law(cv) && cv.g != cv.gr.zero && q != cv.gr.zero && Served(cv, q, e, r, s)
    ensures Passes(cv, PairOf(cv, q), e, r, s) <==> Accepts(cv, q, e, r, s) && Unbroken(cv, q, e, r, s)
  {
    hide Law, IsPrime, AllClear, TableServes, IsInverse, JointX, Mul, Passes, Accepts, Unbroken, Served;
    LawParts(cv);
    if 0 < r < cv.n && 0 < s < cv.n {
      var z := SomeInverse(s, cv.n);
      InverseNonzero(z, s, cv.n) by { IsInverseCong(z, s, cv.n); }
      NonzeroProduct(r, z, cv.n);
      AtInverse(cv, q, e, r, s, z);
      PassesAtInverse(cv, PairOf(cv, q), e, r, s, z);
      JointXMeaning(cv, q, LeastResidue(e * z, cv.n), LeastResidue(r * z, cv.n));
    } else {
      NotInRange(cv, q, e, r, s);
    }
  }

  lemma IsInverseCong(z: nat, s: nat, n: nat)
    requires n > 0 && IsInverse(z, s, n)
    ensures Cong(z * s, 1, n)
  {
  }

  lemma NotInRange<G>(cv: Curve<G>, q: G, e: nat, r: nat, s: nat)
    requires !(0 < r < cv.n && 0 < s < cv.n)
    ensures !Accepts(cv, q, e, r, s) && !Passes(cv, PairOf(cv, q), e, r, s)
  {
  }

  /** The key bytes hold two residues, big-endian; whether they are a point of the curve is not looked at. */
  ghost predicate KeyInField<G>(cv: Curve<G>, key: seq<nat>) {
    |key| == 2 * cv.bytes && IsBytes(key) && InField(KeyPair(cv, key), cv.p)
  }

  ghost function KeyPair<G>(cv: Curve<G>, key: seq<nat>): Pair
    requires |key| == 2 * cv.bytes
  {
    Pair(BigEndian(key[..cv.bytes]), BigEndian(key[cv.bytes..]))
  }

  /** bytesToNative on one coordinate of the public key. */
  method LoadCoordinate<G(!new)>(cv: Curve<G>, bytes: seq<nat>, ghost v: nat) returns (a: array<nat>)
    requires Sized(cv) && IsBytes(bytes) && |bytes| == cv.bytes && BigEndian(bytes) == v < cv.p
    ensures fresh(a) && Residue(W(cv), a, cv.words, v, cv.p)
  {
    hide Val, Base, Pow, BigEndian, Cong;
    a := new nat[cv.words];
    LoadBytes(cv.c, a, bytes, cv.words);
    CongRefl(v, cv.p);
  }

  /** bytesToNative on one half of the signature, below a cleared top word. */
  method LoadScalar<G>(cv: Curve<G>, bytes: seq<nat>) returns (a: array<nat>)
    requires Sized(cv) && IsBytes(bytes) && |bytes| == cv.bytes
    ensures fresh(a) && Holds(a, cv.nw, Base(W(cv))) && Val(a[..cv.nw], Base(W(cv))) == BigEndian(bytes)
    ensures Val(a[..cv.words], Base(W(cv))) == BigEndian(bytes)
  {
    hide Val, Base, Pow, BigEndian;
    a := new nat[cv.nw];
    assert cv.bytes <= cv.c * cv.nw by { MulMonotone(cv.c, cv.words, cv.nw); }
    LoadBytes(cv.c, a, bytes, cv.nw);
    BytesFitCoordinate(cv, bytes, a[..cv.nw]);
    assert a[..cv.nw][..cv.words] == a[..cv.words];
  }

  /** A byte string as long as a coordinate fits the words of a coordinate. */
  lemma BytesFitCoordinate<G>(cv: Curve<G>, bytes: seq<nat>, s: seq<nat>)
    requires Sized(cv) && IsBytes(bytes) && |bytes| == cv.bytes && |s| == cv.nw && IsWords(s, Base(W(cv)))
    requires Val(s, Base(W(cv))) == BigEndian(bytes)
    ensures Val(s[..cv.words], Base(W(cv))) == Val(s, Base(W(cv)))
  {
    hide Val, Base, Pow, BigEndian;
    BigEndianBound(bytes);
    CoordinateRange(cv);
    LowWords(s, cv.words, Base(W(cv)));
  }

  lemma CoordinateRange<G>(cv: Curve<G>)
    requires Sized(cv)
    ensures Pow(256, cv.bytes) <= Pow(Base(W(cv)), cv.words)
  {
    hide Base, Pow;
    WordBase(cv.c);
    PowMul(256, cv.c, cv.words);
    PowMonotone(256, cv.bytes, cv.c * cv.words);
  }

  lemma SomeInverse(s: nat, n: nat) returns (z: nat)
    requires IsPrime(n) && 0 < s < n
    ensures z < n && IsInverse(z, s, n)
  {
    PrimeCoprime(s, n);
    var i := InverseExists(s, n);
    DivModEquation(i, n);
    z := i % n;
    CongMod(i, n);
    CongScale(s, i % n, i, n);
    CongTrans(s * (i % n), s * i, 1, n);
  }

  /** r and s nonzero and below the order. */
  method InRange<G>(cv: Curve<G>, order: array<nat>, r: array<nat>, s: array<nat>, ghost n: nat) returns (ok: bool)
    requires Sized(cv) && Order(cv, order, n)
    requires Holds(r, cv.nw, Base(W(cv))) && Holds(s, cv.nw, Base(W(cv)))
    requires Val(r[..cv.words], Base(W(cv))) == Val(r[..cv.nw], Base(W(cv)))
    requires Val(s[..cv.words], Base(W(cv))) == Val(s[..cv.nw], Base(W(cv)))
    ensures ok <==> 0 < Val(r[..cv.nw], Base(W(cv))) < n && 0 < Val(s[..cv.nw], Base(W(cv))) < n
  {
    hide Val, Base, Pow, IsPrime, IsBitLength;
    var w, nw, words := W(cv), cv.nw, cv.words;
    assert r[..nw][..words] == r[..words] && s[..nw][..words] == s[..words];
    var rzero := IsZero(w, r, words);
    var szero := IsZero(w, s, words);
    if rzero || szero { return false; }
    var rcmp := CmpUnsafe(w, order, r, nw);
    var scmp := CmpUnsafe(w, order, s, nw);
    ok := rcmp == 1 && scmp == 1;
  }

  /** z = 1/s, u1 = e * z and u2 = r * z. */
  method Scalars<G(!new)>(cv: Curve<G>, order: array<nat>, hash: seq<nat>, r: array<nat>, s: array<nat>, ghost n: nat)
    returns (u1: array<nat>, u2: array<nat>, ghost z: nat)
    requires Sized(cv) && Order(cv, order, n) && IsBytes(hash)
    requires Holds(r, cv.nw, Base(W(cv))) && Holds(s, cv.nw, Base(W(cv)))
    requires 0 < Val(r[..cv.nw], Base(W(cv))) < n && 0 < Val(s[..cv.nw], Base(W(cv))) < n
    ensures fresh(u1) && fresh(u2) && Holds(u1, cv.nw, Base(W(cv))) && Holds(u2, cv.nw, Base(W(cv)))
    ensures z < n && IsInverse(z, Val(s[..cv.nw], Base(W(cv))), n) && HashValue(hash, cv.bits, n) >= 0
    ensures Val(u1[..cv.nw], Base(W(cv))) == (HashValue(hash, cv.bits, n) * z) % n
    ensures Val(u2[..cv.nw], Base(W(cv))) == (Val(r[..cv.nw], Base(W(cv))) * z) % n > 0
  {
    hide Val, Base, Pow, IsPrime, HashValue, IsBitLength, BigEndian, ModInv.Invert, Gcd, Cong;
    var w, nw := W(cv), cv.nw;
    ghost var rw, sw, ow := r[..nw], s[..nw], order[..nw];
    ghost var rv, sv := Val(rw, Base(w)), Val(sw, Base(w));
    PrimeAboveOne(n);
    TopWordNonzero(cv, order, n);
    HashValueProperties(hash, cv.bits, n);
    PrimeCoprime(sv, n);
    var zs := new nat[nw];
    ModInv.Inverse(w, zs, s, order, nw);
    ghost var zw := zs[..nw];
    z := Val(zw, Base(w));
    assert s[..nw] == sw && r[..nw] == rw && order[..nw] == ow;
    u1 := new nat[nw];
    Bits2Int(cv.c, u1, hash, cv.bits, order, nw);
    assert zs[..nw] == zw && r[..nw] == rw && order[..nw] == ow;
    ModMult(w, u1, u1, zs, order, nw);
    ghost var u1w := u1[..nw];
    assert zs[..nw] == zw && r[..nw] == rw && order[..nw] == ow;
    u2 := new nat[nw];
    ModMult(w, u2, r, zs, order, nw);
    assert u1[..nw] == u1w && s[..nw] == sw && r[..nw] == rw;
    InverseNonzero(z, sv, n);
    NonzeroProduct(rv, z, n);
  }

  lemma InverseNonzero(z: nat, s: nat, n: nat)
    requires n > 1 && Cong(z * s, 1, n)
    ensures z > 0
  {
    if z == 0 {
      CongSym(z * s, 1, n);
      CongResidue(1, z * s, n);
      DivModUnique(0, n, 0, 0);
    }
  }

  /** Compares the x-coordinate, less n when it is not below n, with r. */
  method MatchX<G(!new)>(cv: Curve<G>, order: array<nat>, x: array<nat>, r: array<nat>, ghost n: nat) returns (ok: bool)
    requires Sized(cv) && Order(cv, order, n) && Holds(x, cv.words, Base(W(cv))) && Holds(r, cv.nw, Base(W(cv)))
    requires Val(r[..cv.words], Base(W(cv))) == Val(r[..cv.nw], Base(W(cv)))
    ensures ok <==> ReduceOnce(Val(x[..cv.words], Base(W(cv))), n) == Val(r[..cv.nw], Base(W(cv)))
  {
    hide Val, Base, Pow, IsPrime, IsBitLength;
    var w, nw, words := W(cv), cv.nw, cv.words;
    ghost var rw, ow, xw := r[..nw], order[..nw], x[..words];
    ghost var xv := Val(xw, Base(w));
    var rx := new nat[nw];
    rx[nw - 1] := 0;
    Set(rx, 0, x, words);
    assert rx[..nw][..words] == rx[0..0 + words] == xw;
    ExtendedValue(rx[..nw], xw, Base(w));
    ValBound(xw, Base(w));
    assert r[..nw] == rw && order[..nw] == ow && x[..words] == xw;
    var cmp := CmpUnsafe(w, order, rx, nw);
    if cmp != 1 {
      var borrow := Sub(w, rx, rx, order, nw);
      ValBound(rx[..nw], Base(w));
      NoBorrowNeeded(xv, n, Val(rx[..nw], Base(w)), borrow, Pow(Base(w), nw));
    }
    assert r[..nw] == rw && x[..words] == xw;
    assert r[..words] == rw[..words] && rx[..words] == rx[..nw][..words];
    LowWords(rx[..nw], words, Base(w));
    ok := Equal(w, rx, r, words);
  }

  lemma NoBorrowNeeded(a: nat, b: nat, d: nat, borrow: nat, p: nat)
    requires a >= b && d + b == a + borrow * p && d < p && borrow <= 1
    ensures d == a - b
  {
  }

  /** bytesToNative on the public key. */
  method LoadKey<G(!new)>(cv: Curve<G>, key: seq<nat>) returns (qx: array<nat>, qy: array<nat>)
    requires Sized(cv) && KeyInField(cv, key)
    ensures fresh(qx) && fresh(qy) && HoldsPair(W(cv), qx, qy, cv.words, KeyPair(cv, key), cv.p)
  {
    hide BigEndian, Residue, Base;
    qx := LoadCoordinate(cv, key[..cv.bytes], KeyPair(cv, key).x);
    qy := LoadCoordinate(cv, key[cv.bytes..], KeyPair(cv, key).y);
  }

  /** The x-coordinate of (e/s) * G + (r/s) * Q, as the joint loop leaves it. */
  method RecoverX<G(!new)>(cv: Curve<G>, cs: Constants, qx: array<nat>, qy: array<nat>, hash: seq<nat>,
                           r: array<nat>, s: array<nat>, ghost k: Pair) returns (rx: array<nat>, ghost z: nat)
    requires ValidCurve(cv, cs) && HoldsPair(W(cv), qx, qy, cv.words, k, cv.p) && IsBytes(hash)
    requires Holds(r, cv.nw, Base(W(cv))) && Holds(s, cv.nw, Base(W(cv)))
    requires 0 < Val(r[..cv.nw], Base(W(cv))) < cv.n && 0 < Val(s[..cv.nw], Base(W(cv))) < cv.n
    ensures z < cv.n && IsInverse(z, Val(s[..cv.nw], Base(W(cv))), cv.n) && cv.p > 0
    ensures fresh(rx) && Holds(rx, cv.words, Base(W(cv)))
    ensures Val(rx[..cv.words], Base(W(cv)))
         == JointX(Loop(cv, k), (MessageValue(cv, hash) * z) % cv.n, (Val(r[..cv.nw], Base(W(cv))) * z) % cv.n)
  {
    hide Law, Val, Base, Pow, IsPrime, HashValue, IsBitLength, Modulus, Residue, IsInverse, JointX, HoldsPair, Affinely;
    LawParts(cv);
    var u1, u2;
    u1, u2, z := Scalars(cv, cs.order, hash, r, s, cv.n);
    GeneratorPair(cv, cs);
    LoopIsGood(cv, qx, qy, k);
    rx := Combine(cv.kind, W(cv), cs.gx, cs.gy, qx, qy, cs.p, cv.words, u1, u2, cv.nw, Loop(cv, k));
    ResidueHeld(W(cv), rx, cv.words,
                JointX(Loop(cv, k), Val(u1[..cv.nw], Base(W(cv))), Val(u2[..cv.nw], Base(W(cv)))), cv.p);
  }

  lemma LoopIsGood<G(!new)>(cv: Curve<G>, qx: array<nat>, qy: array<nat>, k: Pair)
    requires Law(cv) && HoldsPair(W(cv), qx, qy, cv.words, k, cv.p)
    ensures GoodSetting(Loop(cv, k))
  {
    hide Law, Residue;
    LawParts(cv);
    Points.Coordinates(cv, cv.g);
  }

  lemma ResidueHeld(w: WordBits, a: array<nat>, n: nat, r: nat, m: nat)
    requires Residue(w, a, n, r, m) && r < m
    ensures Holds(a, n, Base(w)) && Val(a[..n], Base(w)) == r
  {
    hide Val, Base, Cong;
    ResidueValue(w, a, n, r, m);
  }

  /** uECC_verify accepts exactly the signatures that pass, for every key with coordinates below p. */
  method Verify<G(!new)>(cv: Curve<G>, cs: Constants, key: seq<nat>, hash: seq<nat>, signature: seq<nat>)
    returns (ok: bool)
    requires ValidCurve(cv, cs) && KeyInField(cv, key)
    requires IsBytes(hash) && IsBytes(signature) && |signature| == 2 * cv.bytes
    ensures ok <==> Passes(cv, Pair(BigEndian(key[..cv.bytes]), BigEndian(key[cv.bytes..])), MessageValue(cv, hash),
                           BigEndian(signature[..cv.bytes]), BigEndian(signature[cv.bytes..]))
  {
    hide Law, Val, Base, Pow, IsPrime, BigEndian, MessageValue, IsBitLength, Modulus, IsInverse, JointX, HoldsPair,
         ReduceOnce, Affinely;
    LawParts(cv);
    ghost var k := KeyPair(cv, key);
    var qx, qy := LoadKey(cv, key);
    var r := LoadScalar(cv, signature[..cv.bytes]);
    var s := LoadScalar(cv, signature[cv.bytes..]);
    var inRange := InRange(cv, cs.order, r, s, cv.n);
    if !inRange { return false; }
    var rx;
    ghost var z;
    rx, z := RecoverX(cv, cs, qx, qy, hash, r, s, k);
    ok := MatchX(cv, cs.order, rx, r, cv.n);
    PassesAtInverse(cv, k, MessageValue(cv, hash), Val(r[..cv.nw], Base(W(cv))), Val(s[..cv.nw], Base(W(cv))), z);
  }

  lemma GeneratorPair<G(!new)>(cv: Curve<G>, cs: Constants)
    requires ValidCurve(cv, cs)
    ensures HoldsPair(W(cv), cs.gx, cs.gy, cv.words, PairOf(cv, cv.g), cv.p)
  {
    hide Law, Val, Base, Pow, HoldsPair, Affinely, Modulus, Order;
    PairIsPoint(cv, cs.gx, cs.gy, cv.g);
  }

  // ---------- completeness ----------

  /** Every signature made by signing satisfies the equation of the standard under the matching public key exactly when
      its r, which signing does not reduce, is below n and e + r * d is not zero modulo n. */
  lemma Completeness<G(!new)>(cv: Curve<G>, k: nat, d: nat, e: nat, r: nat, s: nat)
    requires Law(cv) && cv.g != cv.gr.zero && SignedWith(cv, k, d, e, r, s)
    ensures Accepts(cv, Mul(cv.gr, d, cv.g), e, r, s) <==> r < cv.n && (e + r * d) % cv.n != 0
  {
    hide Law, Mul, IsPrime, Combined, Cong, Accepts, AllClear, TableServes;
    LawParts(cv);
    ZeroS(cv, k, d, e, r, s);
    var q := Mul(cv.gr, d, cv.g);
    if r < cv.n && s > 0 {
      var z := SomeInverse(s, cv.n);
      AtInverse(cv, q, e, r, s, z);
      CombinedIsK(cv, k, d, e, r, s, z);
    } else {
      NotInRange(cv, q, e, r, s);
    }
  }

  /** The s of a signature is zero exactly when e + r * d is, modulo n. */
  lemma ZeroS<G(!new)>(cv: Curve<G>, k: nat, d: nat, e: nat, r: nat, s: nat)
    requires Law(cv) && SignedWith(cv, k, d, e, r, s)
    ensures cv.n > 0 && (s == 0 <==> (e + r * d) % cv.n == 0)
  {
    hide Law, Mul, IsPrime, Cong;
    LawParts(cv);
    var t, n := e + r * d, cv.n;
    ZeroMod(t, n);
    SmallNonzero(k, n);
    if s == 0 {
      CongSym(s * k, t, n);
      assert s * k == 0;
    } else {
      SmallNonzero(s, n);
      NonzeroFactors(s, k, n);
      if Cong(t, 0, n) { CongTrans(s * k, t, 0, n); }
    }
  }

  /** For every key and every secret some hash value makes the signature s = 0, which is not to be accepted. */
  lemma ZeroSignature<G(!new)>(cv: Curve<G>, k: nat, d: nat) returns (e: nat)
    requires Law(cv) && 0 < k < cv.n && cv.x(Mul(cv.gr, k, cv.g)) > 0
    ensures var r := cv.x(Mul(cv.gr, k, cv.g));
      e < cv.n && SignedWith(cv, k, d, e, r, 0) && !Accepts(cv, Mul(cv.gr, d, cv.g), e, r, 0)
  {
    hide Law, Mul, IsPrime, Cong;
    LawParts(cv);
    var t := cv.x(Mul(cv.gr, k, cv.g)) * d;
    DivModEquation(0 - t, cv.n);
    e := (0 - t) % cv.n;
    CongMod(0 - t, cv.n);
    CongRefl(t, cv.n);
    CongAdd(e, 0 - t, t, t, cv.n);
    CongSym(e + t, 0, cv.n);
    assert 0 * k == 0;
  }

  /** The point verification computes from a signature is the point signing started from. */
  lemma CombinedIsK<G(!new)>(cv: Curve<G>, k: nat, d: nat, e: nat, r: nat, s: nat, z: nat)
    requires Law(cv) && cv.g != cv.gr.zero && cv.n > 0 && Cong(s * k, e + r * d, cv.n) && IsInverse(z, s, cv.n)
    ensures Combined(cv, Mul(cv.gr, d, cv.g), e, r, z) == Mul(cv.gr, k, cv.g)
  {
    hide Law, Abelian, Mul, Cong, IsPrime;
    LawParts(cv);
    PointOrder(cv, cv.g);
    var n := cv.n;
    DivModEquation(e * z, n);
    DivModEquation(r * z, n);
    var u1, u2: nat := (e * z) % n, (r * z) % n;
    CombinedIsMultiple(cv, d, u1, u2);
    RecoversK(k, d, e, r, s, z, u1, u2, n);
    MulCong(cv.gr, u1 + u2 * d, k, n, cv.g);
  }

  lemma RecoversK(k: nat, d: nat, e: nat, r: nat, s: nat, z: nat, u1: nat, u2: nat, n: nat)
    requires n > 0 && Cong(s * k, e + r * d, n) && Cong(z * s, 1, n) && u1 == (e * z) % n && u2 == (r * z) % n
    ensures Cong(u1 + u2 * d, k, n)
  {
    hide Cong;
    CongMod(e * z, n);
    CongMod(r * z, n);
    CongScale(d, u2, r * z, n);
    CongAdd(u1, e * z, d * u2, d * (r * z), n);
    assert e * z + d * (r * z) == z * (e + r * d) by { FactorZ(z, e, r, d); }
    CongSym(s * k, e + r * d, n);
    CongScale(z, e + r * d, s * k, n);
    CongScale(k, z * s, 1, n);
    assert k * (z * s) == z * (s * k) && d * u2 == u2 * d;
    CongTrans(u1 + d * u2, z * (e + r * d), z * (s * k), n);
    CongTrans(u1 + d * u2, z * (s * k), k, n);
  }

  lemma FactorZ(z: int, e: int, r: int, d: int)
    ensures e * z + d * (r * z) == z * (e + r * d)
  {
  }

  // ---------- signing and then verifying ----------

  /** The condition of Unbroken on numbers, for the key d. */
  ghost predicate ScalarUnbroken(n: nat, d: nat, e: nat, r: nat, s: nat)
  {
    n > 0 && forall z: nat :: z < n && IsInverse(z, s, n) ==> ScalarsClear(n, d, (e * z) % n, (r * z) % n)
  }

  /** Verification has every table entry it takes: d is neither 1 nor n - 1 modulo n, or e/s and r/s have no set bit in
      common, so that the entry G + Q is not taken. */
  ghost predicate ScalarServed(n: nat, d: nat, e: nat, r: nat, s: nat)
  {
    n > 0
    && ((!Cong(d, 1, n) && !Cong(d + 1, 0, n))
        || forall z: nat :: z < n && IsInverse(z, s, n) ==> NoCommonBit((e * z) % n, (r * z) % n))
  }

  ghost predicate NoCommonBit(a: nat, b: nat) {
    forall i: nat :: !(Bit(a, i) && Bit(b, i))
  }

  /** The conditions on the points of a key pair are the conditions on numbers. */
  lemma KeyConditions<G(!new)>(cv: Curve<G>, d: nat, e: nat, r: nat, s: nat)
    requires Law(cv) && cv.g != cv.gr.zero && Mul(cv.gr, d, cv.g) != cv.gr.zero && cv.n > 0
    ensures Unbroken(cv, Mul(cv.gr, d, cv.g), e, r, s) <==> ScalarUnbroken(cv.n, d, e, r, s)
    ensures ScalarServed(cv.n, d, e, r, s) ==> Served(cv, Mul(cv.gr, d, cv.g), e, r, s)
  {
    hide Law, Mul, AllClear, ScalarsClear, Cong, IsInverse, Bit;
    TableOfKey(cv, d);
    forall z: nat | z < cv.n && IsInverse(z, s, cv.n)
      ensures AllClear(cv, Mul(cv.gr, d, cv.g), (e * z) % cv.n, (r * z) % cv.n)
         <==> ScalarsClear(cv.n, d, (e * z) % cv.n, (r * z) % cv.n)
    {
      ClearIsScalars(cv, d, (e * z) % cv.n, (r * z) % cv.n);
    }
  }

  /** The signatures verification accepts: x(kG) is below the order, e + x(kG) * d is not zero modulo the order, and
      the joint loop for (e/s, r/s) never meets equal or opposite points. */
  ghost predicate Verifiable(n: nat, d: nat, e: nat, r: nat, s: nat)
  {
    r < n && (e + r * d) % n != 0 && ScalarUnbroken(n, d, e, r, s)
  }

  /** For a signature that was made, the verdict of verification under d * G is a condition on numbers. */
  lemma SignatureVerdict<G(!new)>(cv: Curve<G>, k: nat, d: nat, e: nat, r: nat, s: nat)
    requires Law(cv) && cv.g != cv.gr.zero && Mul(cv.gr, d, cv.g) != cv.gr.zero && SignedWith(cv, k, d, e, r, s)
    ensures ScalarServed(cv.n, d, e, r, s) ==>
      (Passes(cv, PairOf(cv, Mul(cv.gr, d, cv.g)), e, r, s) <==> Verifiable(cv.n, d, e, r, s))
  {
    hide Law, Mul, SignedWith, Accepts, IsPrime, Unbroken, Served, ScalarUnbroken, ScalarServed, Passes;
    LawParts(cv);
    Completeness(cv, k, d, e, r, s);
    KeyConditions(cv, d, e, r, s);
    if ScalarServed(cv.n, d, e, r, s) { PassesMeaning(cv, Mul(cv.gr, d, cv.g), e, r, s); }
  }

  lemma KeyIsPair<G(!new)>(cv: Curve<G>, key: seq<nat>, q: G)
    requires Law(cv) && KeyBytes(cv, key, q)
    ensures KeyInField(cv, key) && KeyPair(cv, key) == PairOf(cv, q) && q != cv.gr.zero
  {
    hide Law, BigEndian;
    Points.Coordinates(cv, q);
  }

  /** Signing and then verifying with the public key d * G: a signature that was made is accepted exactly when it is
      verifiable. */
  method SignThenVerify<G(!new)>(cv: Curve<G>, cs: Constants, d: seq<nat>, key: seq<nat>, hash: seq<nat>,
                                 k: array<nat>, signature: array<nat>, rng: Rng)
    returns (signed: bool, accepted: bool, ghost s: nat)
    requires ValidCurve(cv, cs) && IsBytes(d) && |d| == BytesOfBits(cv.bits) && IsBytes(hash)
    requires Holds(k, cv.nw, Base(W(cv))) && signature.Length == 2 * cv.bytes
    requires k !in Arrays(cs) && signature !in Arrays(cs) && signature != k && GoodRng(cv, rng, cv.n)
    requires KeyBytes(cv, key, Mul(cv.gr, BigEndian(d), cv.g))
    modifies k, signature
    ensures var low, kv := old(NumberIn(cv, k, cv.words)), old(NumberIn(cv, k, cv.nw));
      var dv, e, r := BigEndian(d), MessageValue(cv, hash), cv.x(Mul(cv.gr, kv, cv.g));
      var good := low > 0 && kv < cv.n && !Degenerate(kv, cv.n, cv.bits) && r != 0 && !rng.RngFails?;
      && (good ==> SignedWith(cv, kv, dv, e, r, s))
      && (signed <==> good && s < Pow(256, cv.bytes))
      && (signed ==> s == BigEndian(signature[cv.bytes..]))
      && (signed ==> (accepted <==> Passes(cv, KeyPair(cv, key), e, r, s)))
      && (signed && ScalarServed(cv.n, dv, e, r, s) ==> (accepted <==> Verifiable(cv.n, dv, e, r, s)))
  {
    hide Law, Val, Base, Pow, Mul, BigEndian, HashValue, SignedWith, Accepts, IsPrime, Unbroken, Served,
         MessageValue, ScalarServed, Degenerate, Verifiable, Modulus, Affinely, IsBitLength, Passes, KeyBytes;
    GeneratorOf(cv, cs);
    LawParts(cv);
    ghost var kv, dv, e := Val(k[..cv.nw], Base(W(cv))), BigEndian(d), MessageValue(cv, hash);
    ghost var q, r := Mul(cv.gr, dv, cv.g), cv.x(Mul(cv.gr, kv, cv.g));
    signed, s := SignWithK(cv, cs, d, hash, k, signature, rng);
    accepted := false;
    if signed {
      ghost var sig := signature[..];
      assert sig[..cv.bytes] == signature[..cv.bytes] && sig[cv.bytes..] == signature[cv.bytes..];
      KeyIsPair(cv, key, q);
      accepted := Verify(cv, cs, key, hash, signature[..]);
      SignatureVerdict(cv, kv, dv, e, r, s);
    }
  }

  lemma GeneratorOf<G(!new)>(cv: Curve<G>, cs: Constants)
    requires ValidCurve(cv, cs)
    ensures Law(cv) && cv.g != cv.gr.zero
  {
  }

  /** Keys that key generation makes are neither 1 nor n - 1, but for the key 1 of an order 2^bits - 1. */
  lemma GeneratedServed(n: nat, bits: nat, d: nat, e: nat, r: nat, s: nat)
    requires n > 4 && n % 2 == 1 && IsBitLength(n, bits) && 0 < d < n && !Degenerate(d, n, bits)
    requires d != 1 || n + 1 < Pow(2, bits)
    ensures ScalarServed(n, d, e, r, s)
  {
    hide Cong, Pow;
    RegularRange(d, n, bits);
    PowStep(2, bits - 1);
    PowStep(2, bits - 2);
    LeadingPower(n - 1, n, Pow(2, bits - 2));
    if Cong(d, 1, n) { SmallEqual(d, 1, n); }
    if Cong(d + 1, 0, n) {
      CongSym(d + 1, 0, n);
      CongQuotientOne(d, n);
    }
  }

  lemma CongQuotientOne(d: nat, n: nat)
    requires 0 < d < n && Cong(0, d + 1, n)
    ensures d == n - 1
  {
    var q := CongQuotient(0, d + 1, n);
    if q >= 0 { MulMonotone(n, 0, q); }
    if q <= -2 { MulMonotone(n, q, -2); }
  }

  /** Key generation, signing and verifying: for every key that is generated, a signature that was made is accepted
      exactly when it is verifiable. */
  method GenerateSignVerify<G(!new)>(cv: Curve<G>, cs: Constants, d: seq<nat>, hash: seq<nat>, k: array<nat>,
                                     signature: array<nat>, rng: Rng)
    returns (made: bool, signed: bool, accepted: bool, ghost s: nat)
    requires ValidCurve(cv, cs) && IsBytes(d) && |d| == BytesOfBits(cv.bits) && IsBytes(hash)
    requires Holds(k, cv.nw, Base(W(cv))) && signature.Length == 2 * cv.bytes
    requires k !in Arrays(cs) && signature !in Arrays(cs) && signature != k && GoodRng(cv, rng, cv.n)
    modifies k, signature
    ensures made <==> 0 < BigEndian(d) < cv.n && !Degenerate(BigEndian(d), cv.n, cv.bits)
    ensures var low, kv := old(NumberIn(cv, k, cv.words)), old(NumberIn(cv, k, cv.nw));
      var dv, e, r := BigEndian(d), MessageValue(cv, hash), cv.x(Mul(cv.gr, kv, cv.g));
      && (signed <==> made && low > 0 && kv < cv.n && !Degenerate(kv, cv.n, cv.bits) && r != 0 && !rng.RngFails?
                      && s < Pow(256, cv.bytes))
      && (signed ==> SignedWith(cv, kv, dv, e, r, s))
      && (signed && (dv != 1 || cv.n + 1 < Pow(2, cv.bits)) ==> (accepted <==> Verifiable(cv.n, dv, e, r, s)))
  {
    hide Law, Val, Base, Pow, Mul, BigEndian, MessageValue, SignedWith, IsPrime, ScalarServed, Verifiable, Modulus,
         Affinely, IsBitLength, Passes, KeyBytes, Degenerate;
    signed, accepted, s := false, false, 0;
    var key := new nat[2 * cv.bytes];
    made := ComputePublicKey(cv, cs, d, key);
    if made {
      ghost var kv, dv, e := Val(k[..cv.nw], Base(W(cv))), BigEndian(d), MessageValue(cv, hash);
      signed, accepted, s := SignThenVerify(cv, cs, d, key[..], hash, k, signature, rng);
      OrderOf(cv, cs);
      if dv != 1 || cv.n + 1 < Pow(2, cv.bits) {
        GeneratedServed(cv.n, cv.bits, dv, e, cv.x(Mul(cv.gr, kv, cv.g)), s);
      }
    }
  }

  lemma OrderOf<G(!new)>(cv: Curve<G>, cs: Constants)
    requires ValidCurve(cv, cs)
    ensures cv.n > 4 && cv.n % 2 == 1 && IsBitLength(cv.n, cv.bits)
  {
    hide Law, Val, Base, Pow, IsBitLength, IsPrime, Affinely, Modulus;
    LawParts(cv);
  }

  /** On every curve there are a key, a secret and a hash value whose signature satisfies the equation of the standard
      while verification loses the sum: d = (n - 1) / 2 and k = 2, with e/s = 3 and r/s = 2. The first doubling then
      leads from G + Q to G, to which G is to be added. */
  lemma LostSignature<G(!new)>(cv: Curve<G>) returns (d: nat, e: nat, s: nat)
    requires Law(cv) && cv.g != cv.gr.zero && 0 < cv.x(Mul(cv.gr, 2, cv.g)) < cv.n
    ensures d == (cv.n - 1) / 2 && 0 < d < cv.n
    ensures var r := cv.x(Mul(cv.gr, 2, cv.g));
      && SignedWith(cv, 2, d, e, r, s) && Accepts(cv, Mul(cv.gr, d, cv.g), e, r, s)
      && !ScalarUnbroken(cv.n, d, e, r, s)
  {
    hide Law, Mul, IsPrime, Cong, Accepts;
    LawParts(cv);
    var n, r := cv.n, cv.x(Mul(cv.gr, 2, cv.g));
    d := (n - 1) / 2;
    var h := (n + 1) / 2;
    DivModEquation(r * h, n);
    s := (r * h) % n;
    DivModEquation(3 * s, n);
    e := (3 * s) % n;
    LostEquation(r, h, s, e, d, n);
    Completeness(cv, 2, d, e, r, s);
    ZeroS(cv, 2, d, e, r, s);
    assert s != 0 by {
      if s == 0 {
        CongSym(s * 2, r, n);
        SmallNonzero(r, n);
      }
    }
    var z := SomeInverse(s, n);
    LostScalars(r, s, e, z, n);
    LostRound(n, d);
  }

  lemma LostEquation(r: nat, h: nat, s: nat, e: nat, d: nat, n: nat)
    requires n > 3 && n == 2 * d + 1 && h == d + 1 && s == (r * h) % n && e == (3 * s) % n
    ensures Cong(s * 2, r, n) && Cong(s * 2, e + r * d, n)
  {
    hide Cong;
    CongMod(r * h, n);
    CongScale(2, s, r * h, n);
    CongBy(2 * (r * h), r, n, r) by { HalfOf(r, d); }
    CongTrans(s * 2, 2 * (r * h), r, n);
    CongMod(3 * s, n);
    CongScale(d, s * 2, r, n);
    CongSym(d * (s * 2), d * r, n);
    CongAdd(e, 3 * s, d * r, d * (s * 2), n);
    CongBy(3 * s + d * (s * 2), s * 2, n, s) by { SplitTriple(s, d); }
    CongTrans(e + d * r, 3 * s + d * (s * 2), s * 2, n);
    assert d * r == r * d;
    CongSym(e + r * d, s * 2, n);
  }

  lemma HalfOf(r: int, d: int)
    ensures 2 * (r * (d + 1)) - r == (2 * d + 1) * r
  {
  }

  lemma SplitTriple(s: int, d: int)
    ensures 3 * s + d * (s * 2) - s * 2 == (2 * d + 1) * s
  {
  }

  lemma LostScalars(r: nat, s: nat, e: nat, z: nat, n: nat)
    requires n > 3 && Cong(s * 2, r, n) && e == (3 * s) % n && IsInverse(z, s, n)
    ensures (e * z) % n == 3 && (r * z) % n == 2
  {
    hide Cong;
    CongMod(3 * s, n);
    CongScale(z, e, 3 * s, n);
    CongScale(3, z * s, 1, n);
    MulAssoc(z, 3, s);
    CongTrans(e * z, 3 * (z * s), 3, n);
    CongSym(e * z, 3, n);
    CongResidue(3, e * z, n);
    CongSym(s * 2, r, n);
    CongScale(z, r, s * 2, n);
    CongScale(2, z * s, 1, n);
    CongTrans(r * z, 2 * (z * s), 2, n);
    CongSym(r * z, 2, n);
    CongResidue(2, r * z, n);
  }

  lemma LostRound(n: nat, d: nat)
    requires n > 3 && n == 2 * d + 1
    ensures !ScalarsClear(n, d, 3, 2)
  {
    PowZero(2);
    PowStep(2, 0);
    assert Bit(3, 0) && !Bit(2, 0) && Prefix(3, 0 + 1) == 1 && Prefix(2, 0 + 1) == 1;
    CongBy(2 * (1 + d), 1, n, 1);
    assert !ScalarClear(n, d, 3, 2, 0);
  }
}
