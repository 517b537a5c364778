/** Column (Comba) multiplication and squaring over a three-word accumulator. */
module Mult {
  import opened Numbers
  import opened Words
  import opened Vli

  // ---------- the three-word accumulator ----------

  datatype Acc = Acc(r0: nat, r1: nat, r2: nat)

  predicate AccWords(a: Acc, B: nat) {
    a.r0 < B && a.r1 < B && a.r2 < B
  }

  function AccVal(a: Acc, B: nat): nat {
    a.r0 + B * (a.r1 + B * a.r2)
  }

  /** `x` reduced to three words, for `x` below twice that range. */
  function Wrap3(x: int, B: nat): int {
    if x >= B * (B * B) then x - B * (B * B) else x
  }

  lemma AccUnique(a: Acc, b: Acc, B: nat)
    requires AccWords(a, B) && AccWords(b, B) && AccVal(a, B) == AccVal(b, B)
    ensures a == b
  {
    DivModUnique(AccVal(a, B), B, a.r1 + B * a.r2, a.r0);
    DivModUnique(AccVal(b, B), B, b.r1 + B * b.r2, b.r0);
    DivModUnique(a.r1 + B * a.r2, B, a.r2, a.r1);
    DivModUnique(b.r1 + B * b.r2, B, b.r2, b.r1);
  }

  /** Low and high word of a double word. */
  function Lo(x: nat, B: nat): (r: nat)
    requires B > 0
    ensures r < B
  {
    x % B
  }

  function Hi(x: nat, B: nat): (r: nat)
    requires B > 0
    ensures x == B * r + Lo(x, B)
  {
    x / B
  }

  lemma HiBound(x: nat, y: nat, B: nat)
    requires B > 0 && x < B * y
    ensures Hi(x, B) < y
  {
    hide Hi, Lo;
    MulCancelLess(B, Hi(x, B), y);
  }

  lemma ProductBound(a: nat, b: nat, B: nat)
    requires a < B && b < B
    ensures a * b + a + b + 1 <= B * B
  {
    MulMonotone(a + 1, b + 1, B);
    MulMonotone(B, a + 1, B);
    assert (a + 1) * (b + 1) == a * b + a + b + 1;
  }

  /** Wraps a sum of two words, or a word plus a small carry. */
  function Wrap(x: nat, B: nat): (r: nat)
    requires x < 2 * B
    ensures r < B && (x < B ==> r == x) && (x >= B ==> r == x - B)
  {
    if x >= B then x - B else x
  }

  /** The double-word form of muladd: adds a * b to the accumulator. */
  function MulAddWide(a: nat, b: nat, acc: Acc, B: nat): (r: Acc)
    requires B >= 2 && a < B && b < B && AccWords(acc, B)
  {
    ProductBound(a, b, B);
    AddWide(a * b, acc, B)
  }

  /** `r01 += p` on double words, the carry going to r2. */
  function AddWide(p: nat, acc: Acc, B: nat): (r: Acc)
    requires B >= 2 && p < B * B && AccWords(acc, B)
  {
    ProductBound(acc.r1, B - 1, B);
    var r01 := Wrap(B * acc.r1 + acc.r0 + p, B * B);
    Acc(Lo(r01, B), Hi(r01, B), Wrap(acc.r2 + One(r01 < p), B))
  }

  /** The double-word form of mul2add: adds 2 * a * b to the accumulator. */
  function Mul2AddWide(a: nat, b: nat, acc: Acc, B: nat): (r: Acc)
    requires B >= 2 && a < B && b < B && AccWords(acc, B)
  {
    ProductBound(a, b, B);
    var p := a * b;
    var top := 2 * p >= B * B; // p >> (2 * w - 1)
    AddWide(Wrap(2 * p, B * B), BumpTop(acc, top, B), B)
  }

  function One(c: bool): nat { if c then 1 else 0 }

  /** Carrying out of the low two words into the third. */
  lemma CarryOut(x: int, p: int, low: int, carry: bool, r2: nat, r2': nat, B: nat, q: int)
    requires 0 <= low < q && r2 < B && (if carry then low + q == x + p else low == x + p)
    requires r2' == Wrap(r2 + One(carry), B) && q == B * B
    ensures low + q * r2' == Wrap3(x + q * r2 + p, B)
  {
    MulDistrib(q, r2, 1);
    assert q * B == B * q;
    MulMonotone(q, r2 + 1, B);
    if carry && r2 + 1 < B {
      MulMonotone(q, r2 + 2, B);
      MulDistrib(q, r2, 2);
    }
  }

  lemma AddWideVal(p: nat, acc: Acc, B: nat)
    requires B >= 2 && p < B * B && AccWords(acc, B)
    ensures AccWords(AddWide(p, acc, B), B)
    ensures AccVal(AddWide(p, acc, B), B) == Wrap3(AccVal(acc, B) + p, B)
  {
    hide Lo, Hi, AccVal, Wrap3;
    HighHalf(acc.r0, acc.r1, B);
    var x := B * acc.r1 + acc.r0;
    var r01 := Wrap(x + p, B * B);
    HiBound(r01, B, B);
    ThreeWords(acc, B);
    var r := AddWide(p, acc, B);
    assert r.r0 == Lo(r01, B) && r.r1 == Hi(r01, B);
    ThreeWords(r, B);
    CarryOut(x, p, r01, r01 < p, acc.r2, r.r2, B, B * B);
  }

  lemma ThreeWords(a: Acc, B: nat)
    ensures AccVal(a, B) == B * a.r1 + a.r0 + (B * B) * a.r2
  {
    MulAssoc(B, B, a.r2);
    assert B * (a.r1 + B * a.r2) == B * a.r1 + B * (B * a.r2);
  }

  lemma MulAddWideVal(a: nat, b: nat, acc: Acc, B: nat)
    requires B >= 2 && a < B && b < B && AccWords(acc, B)
    ensures AccWords(MulAddWide(a, b, acc, B), B)
    ensures AccVal(MulAddWide(a, b, acc, B), B) == Wrap3(AccVal(acc, B) + a * b, B)
  {
    ProductBound(a, b, B);
    AddWideVal(a * b, acc, B);
  }

  lemma AccBound(acc: Acc, B: nat)
    requires AccWords(acc, B)
    ensures AccVal(acc, B) < B * (B * B)
  {
    var hi := acc.r1 + B * acc.r2;
    assert hi + 1 <= B * B by { MulMonotone(B, acc.r2 + 1, B); MulDistrib(B, acc.r2, 1); }
    MulMonotone(B, hi + 1, B * B);
    MulDistrib(B, hi, 1);
  }

  function BumpTop(acc: Acc, top: bool, B: nat): (r: Acc)
    requires B >= 2 && AccWords(acc, B)
    ensures AccWords(r, B)
  {
    acc.(r2 := Wrap(acc.r2 + One(top), B))
  }

  lemma BumpTopVal(acc: Acc, top: bool, B: nat)
    requires B >= 2 && AccWords(acc, B)
    ensures AccVal(BumpTop(acc, top, B), B) == Wrap3(AccVal(acc, B) + (if top then B * B else 0), B)
  {
    hide AccVal;
    var acc', q := BumpTop(acc, top, B), B * B;
    ThreeWords(acc, B);
    ThreeWords(acc', B);
    AccBound(acc, B);
    AccBound(acc', B);
    MulDistrib(q, acc.r2, 1);
    assert q * B == B * q;
  }

  lemma WrapTwice(v: nat, q: nat, top: bool, p: nat, B: nat)
    requires v < B * (B * B) && B >= 2 && q == B * B && p < q
    ensures var t := if top then q else 0;
      0 <= Wrap3(v + t, B) && Wrap3(Wrap3(v + t, B) + p, B) == Wrap3(v + (t + p), B)
  {
    MulMonotone(q, 2, B);
    assert q * B == B * q;
  }

  lemma Mul2AddWideVal(a: nat, b: nat, acc: Acc, B: nat)
    requires B >= 2 && a < B && b < B && AccWords(acc, B)
    ensures AccWords(Mul2AddWide(a, b, acc, B), B)
    ensures AccVal(Mul2AddWide(a, b, acc, B), B) == Wrap3(AccVal(acc, B) + 2 * (a * b), B)
  {
    hide AccVal, AddWide, Wrap3, BumpTop;
    ProductBound(a, b, B);
    var p, q := a * b, B * B;
    var top := 2 * p >= q;
    BumpTopVal(acc, top, B);
    AddWideVal(Wrap(2 * p, q), BumpTop(acc, top, B), B);
    AccBound(acc, B);
    WrapTwice(AccVal(acc, B), q, top, Wrap(2 * p, q), B);
  }

  // ---------- the split-halves form for platforms without double words ----------

  /** The four half-word products of a * b; H is the half-word base and B = H * H. */
  function CrossProducts(a: nat, b: nat, H: nat): (i: (nat, nat, nat, nat))
    requires H > 0
  {
    (Lo(a, H) * Lo(b, H), Lo(a, H) * Hi(b, H), Hi(a, H) * Lo(b, H), Hi(a, H) * Hi(b, H))
  }

  lemma CrossProductsVal(a: nat, b: nat, H: nat, B: nat)
    requires H >= 2 && B == H * H && a < B && b < B
    ensures var (i0, i1, i2, i3) := CrossProducts(a, b, H);
      && i0 < B && i1 < B && i2 + H <= B && i3 + H <= B && Hi(i0, H) < H
      && i0 + H * (i1 + i2) + B * i3 == a * b
  {
    hide Lo, Hi;
    HiBound(a, H, H);
    HiBound(b, H, H);
    var a0, a1, b0, b1 := Lo(a, H), Hi(a, H), Lo(b, H), Hi(b, H);
    HalfProductBound(a0, b0, H);
    HalfProductBound(a0, b1, H);
    HalfProductBound(a1, b0, H);
    HalfProductBound(a1, b1, H);
    HiBound(a0 * b0, H, H);
    assert a0 * b0 + H * (a0 * b1 + a1 * b0) + B * (a1 * b1) == a * b by {
      HalvesProduct(a, b, a0, a1, b0, b1, H, B);
    }
  }

  lemma HalfProductBound(a: nat, b: nat, H: nat)
    requires a < H && b < H
    ensures a * b + H <= H * H
  {
    MulMonotone(a, b, H);
    MulMonotone(H, a + 1, H);
    MulDistrib(H, a, 1);
  }

  /** a * b as two words, from the half-word products. */
  function SplitProduct(a: nat, b: nat, H: nat, B: nat): (p: (nat, nat))
    requires H >= 2 && B == H * H && a < B && b < B
  {
    hide CrossProducts, Lo, Hi;
    CrossProductsVal(a, b, H, B);
    var (i0, i1, i2, i3) := CrossProducts(a, b, H);
    var j2 := i2 + Hi(i0, H);
    var k2 := Wrap(j2 + i1, B);
    var k3 := if k2 < i1 then i3 + H else i3;
    HighHalf(Lo(i0, H), Lo(k2, H), H);
    (Lo(i0, H) + H * Lo(k2, H), k3 + Hi(k2, H))
  }

  lemma HalvesProduct(a: int, b: int, a0: int, a1: int, b0: int, b1: int, H: int, B: int)
    requires a == H * a1 + a0 && b == H * b1 + b0 && B == H * H
    ensures a0 * b0 + H * (a0 * b1 + a1 * b0) + B * (a1 * b1) == a * b
  {
    MulEqual(a, b, H * b1 + b0);
    MulEqual(H * b1 + b0, a, H * a1 + a0);
    MulEqual(a1 * b1, B, H * H);
  }

  lemma SplitProductVal(a: nat, b: nat, H: nat, B: nat)
    requires H >= 2 && B == H * H && a < B && b < B
    ensures var p := SplitProduct(a, b, H, B);
      p.0 < B && p.1 < B && p.0 + B * p.1 == a * b
  {
    hide Lo, Hi, CrossProducts;
    CrossProductsVal(a, b, H, B);
    var (i0, i1, i2, i3) := CrossProducts(a, b, H);
    var k2 := Wrap(i2 + Hi(i0, H) + i1, B);
    var c := if k2 < i1 then 1 else 0;
    var p := SplitProduct(a, b, H, B);
    SplitSum(i0, i1, i2, i3, Lo(i0, H), Hi(i0, H), Lo(k2, H), Hi(k2, H), c, H, B);
    HighHalf(Lo(i0, H), Lo(k2, H), H);
    ProductHigh(a, b, p.0, p.1, B);
  }

  lemma HighHalf(x: nat, y: nat, H: nat)
    requires x < H && y < H
    ensures 0 <= x + H * y < H * H
  {
    MulMonotone(H, y + 1, H);
    MulDistrib(H, y, 1);
  }

  lemma ProductHigh(a: nat, b: nat, p0: nat, p1: nat, B: nat)
    requires a < B && b < B && p0 + B * p1 == a * b
    ensures p1 < B
  {
    ProductBound(a, b, B);
    if p1 >= B { MulMonotone(B, B, p1); }
  }

  lemma SplitSum(i0: nat, i1: nat, i2: nat, i3: nat, l0: nat, h0: nat, l2: nat, h2: nat, c: nat, H: nat, B: nat)
    requires B == H * H && i0 == H * h0 + l0 && (H * h2 + l2) + c * B == i2 + h0 + i1
    ensures (l0 + H * l2) + B * (i3 + c * H + h2) == i0 + H * (i1 + i2) + B * i3
  {
    var k2 := H * h2 + l2;
    assert H * k2 == B * h2 + H * l2 by { MulDistrib(H, H * h2, l2); MulAssoc(H, H, h2); }
    assert H * (c * B) == B * (c * H) by { MulAssoc(H, c, B); }
    MulDistrib(H, k2, c * B);
    MulDistrib(H, i1 + i2, h0);
    MulDistrib(B, i3 + c * H, h2);
    MulDistrib(B, i3, c * H);
  }

  /** Adds the two-word number (p0, p1) to the accumulator, word by word. */
  function AddPair(p0: nat, p1: nat, acc: Acc, B: nat): (r: Acc)
    requires B >= 2 && p0 < B && p1 < B && AccWords(acc, B)
  {
    var r0 := Wrap(acc.r0 + p0, B);
    var r1 := Wrap(acc.r1 + Wrap(p1 + One(r0 < p0), B), B);
    Acc(r0, r1, Wrap(acc.r2 + One(r1 < p1 || (r1 == p1 && r0 < p0)), B))
  }

  function MulAddSplit(a: nat, b: nat, acc: Acc, H: nat, B: nat): (r: Acc)
    requires H >= 2 && B == H * H && a < B && b < B && AccWords(acc, B)
  {
    SplitProductVal(a, b, H, B);
    var (p0, p1) := SplitProduct(a, b, H, B);
    assert B >= 2 by { MulMonotone(H, 1, H); }
    AddPair(p0, p1, acc, B)
  }

  lemma EvenBase(H: nat, B: nat)
    requires H % 2 == 0 && H >= 2 && B == H * H
    ensures B >= 2 && B % 2 == 0
  {
    EvenProduct(H, H);
    MulMonotone(H, 1, H);
  }

  /** 2 * (p0 + B * p1) as a carry bit and two words, by shifting each word. */
  function DoublePair(p0: nat, p1: nat, B: nat): (r: (bool, nat, nat))
    requires p0 < B && p1 < B && B % 2 == 0
    ensures r.1 < B && r.2 < B
  {
    (2 * p1 >= B, Wrap(2 * p0, B), Wrap(2 * p1, B) + One(2 * p0 >= B))
  }

  function Mul2AddSplit(a: nat, b: nat, acc: Acc, H: nat, B: nat): (r: Acc)
    requires H >= 2 && H % 2 == 0 && B == H * H && a < B && b < B && AccWords(acc, B)
  {
    SplitProductVal(a, b, H, B);
    EvenBase(H, B);
    var (p0, p1) := SplitProduct(a, b, H, B);
    var (top, q0, q1) := DoublePair(p0, p1, B);
    AddPair(q0, q1, BumpTop(acc, top, B), B)
  }

  lemma AddPairVal(p0: nat, p1: nat, acc: Acc, B: nat)
    requires B >= 2 && p0 < B && p1 < B && AccWords(acc, B)
    ensures AccWords(AddPair(p0, p1, acc, B), B)
    ensures AccVal(AddPair(p0, p1, acc, B), B) == Wrap3(AccVal(acc, B) + (p0 + B * p1), B)
  {
    hide AccVal, Wrap3, AddPair;
    var r := AddPair(p0, p1, acc, B);
    var carry := r.r1 < p1 || (r.r1 == p1 && r.r0 < p0);
    PairCarries(p0, p1, acc, B);
    TwoWords(acc.r0, acc.r1, p0, p1, r.r0, r.r1, r.r0 < p0, carry, B);
    HighHalf(r.r0, r.r1, B);
    ThreeWords(acc, B);
    ThreeWords(r, B);
    CarryOut(B * acc.r1 + acc.r0, p0 + B * p1, B * r.r1 + r.r0, carry, acc.r2, r.r2, B, B * B);
  }

  lemma PairCarries(p0: nat, p1: nat, acc: Acc, B: nat)
    requires B >= 2 && p0 < B && p1 < B && AccWords(acc, B)
    ensures var r := AddPair(p0, p1, acc, B);
      var carry := r.r1 < p1 || (r.r1 == p1 && r.r0 < p0);
      && AccWords(r, B)
      && r.r0 + (if r.r0 < p0 then B else 0) == acc.r0 + p0
      && r.r1 + (if carry then B else 0) == acc.r1 + p1 + One(r.r0 < p0)
      && r.r2 == Wrap(acc.r2 + One(carry), B)
  {
  }

  lemma TwoWords(x0: nat, x1: nat, p0: nat, p1: nat, r0: nat, r1: nat, c0: bool, c1: bool, B: nat)
    requires r0 + (if c0 then B else 0) == x0 + p0
    requires r1 + (if c1 then B else 0) == x1 + p1 + One(c0)
    ensures (B * r1 + r0) + (if c1 then B * B else 0) == (B * x1 + x0) + (p0 + B * p1)
  {
    MulDistrib(B, r1, if c1 then B else 0);
    MulDistrib(B, x1 + p1, One(c0));
    MulDistrib(B, x1, p1);
  }

  /** The half-word form of muladd computes the same three words as the double-word form. */
  lemma MulAddSplitIsWide(a: nat, b: nat, acc: Acc, H: nat, B: nat)
    requires H >= 2 && B == H * H && a < B && b < B && AccWords(acc, B)
    ensures B >= 2 && MulAddSplit(a, b, acc, H, B) == MulAddWide(a, b, acc, B)
  {
    hide SplitProduct, AddPair, AddWide, AccVal, Wrap3;
    assert B >= 2 by { MulMonotone(H, 1, H); }
    SplitProductVal(a, b, H, B);
    var (p0, p1) := SplitProduct(a, b, H, B);
    AddPairVal(p0, p1, acc, B);
    MulAddWideVal(a, b, acc, B);
    AccUnique(MulAddSplit(a, b, acc, H, B), MulAddWide(a, b, acc, B), B);
  }

  /** The half-word form of mul2add computes the same three words as the double-word form. */
  lemma Mul2AddSplitIsWide(a: nat, b: nat, acc: Acc, H: nat, B: nat)
    requires H >= 2 && H % 2 == 0 && B == H * H && a < B && b < B && AccWords(acc, B)
    ensures B >= 2 && Mul2AddSplit(a, b, acc, H, B) == Mul2AddWide(a, b, acc, B)
  {
    hide SplitProduct, AddPair, AccVal, Wrap3, Mul2AddWide, BumpTop, DoublePair;
    EvenBase(H, B);
    SplitProductVal(a, b, H, B);
    var (p0, p1) := SplitProduct(a, b, H, B);
    var (top, q0, q1) := DoublePair(p0, p1, B);
    BumpTopVal(acc, top, B);
    AddPairVal(q0, q1, BumpTop(acc, top, B), B);
    Mul2AddWideVal(a, b, acc, B);
    DoublePairVal(p0, p1, B);
    AccBound(acc, B);
    HighHalf(q0, q1, B);
    WrapTwice(AccVal(acc, B), B * B, top, q0 + B * q1, B);
    AccUnique(Mul2AddSplit(a, b, acc, H, B), Mul2AddWide(a, b, acc, B), B);
  }

  lemma DoublePairVal(p0: nat, p1: nat, B: nat)
    requires p0 < B && p1 < B && B % 2 == 0
    ensures var (top, q0, q1) := DoublePair(p0, p1, B);
      (if top then B * B else 0) + (q0 + B * q1) == 2 * (p0 + B * p1)
  {
    var (top, q0, q1) := DoublePair(p0, p1, B);
    TwoWords(p0, p1, p0, p1, q0, q1, 2 * p0 >= B, top, B);
  }

  // ---------- columns ----------

  /** The part of column `k` of the schoolbook product contributed by words i .. hi of `l`. */
  ghost function Part(l: seq<nat>, r: seq<nat>, k: int, i: nat, hi: nat): nat
    decreases hi - i
  {
    if i >= hi then 0 else Digit(l, i) * Digit(r, k - i) + Part(l, r, k, i + 1, hi)
  }

  ghost function Column(l: seq<nat>, r: seq<nat>, k: int): nat {
    Part(l, r, k, 0, |l|)
  }

  /** The schoolbook product restricted to its first `k` columns. */
  ghost function Columns(l: seq<nat>, r: seq<nat>, k: nat, B: nat): nat {
    if k == 0 then 0 else Columns(l, r, k - 1, B) + Column(l, r, k - 1) * Pow(B, k - 1)
  }

  lemma {:induction false} PartZero(l: seq<nat>, r: seq<nat>, k: int, i: nat, hi: nat)
    requires k < i || hi <= k + 1 - |r|
    ensures Part(l, r, k, i, hi) == 0
    decreases hi - i
  {
    if i < hi {
      PartZero(l, r, k, i + 1, hi);
    }
  }

  lemma {:induction false} PartSplit(l: seq<nat>, r: seq<nat>, k: int, i: nat, m: nat, hi: nat)
    requires i <= m <= hi
    ensures Part(l, r, k, i, hi) == Part(l, r, k, i, m) + Part(l, r, k, m, hi)
    decreases m - i
  {
    if i < m { PartSplit(l, r, k, i + 1, m, hi); }
  }

  /** Only the words lo .. hi of `l` meet words of `r` in column `k`. */
  lemma ColumnRange(l: seq<nat>, r: seq<nat>, k: int, lo: nat, hi: nat)
    requires lo <= hi <= |l|
    requires lo == 0 || lo <= k + 1 - |r|
    requires hi == |l| || k < hi
    ensures Column(l, r, k) == Part(l, r, k, lo, hi)
  {
    PartSplit(l, r, k, 0, lo, |l|);
    PartSplit(l, r, k, lo, hi, |l|);
    if lo > 0 { PartZero(l, r, k, 0, lo); }
    if hi < |l| { PartZero(l, r, k, hi, |l|); }
  }

  lemma {:induction false} PartShift(l: seq<nat>, r: seq<nat>, k: int, i: nat, hi: nat)
    requires l != []
    ensures Part(l, r, k, i + 1, hi + 1) == Part(l[1..], r, k - 1, i, hi)
    decreases hi - i
  {
    if i < hi {
      PartShift(l, r, k, i + 1, hi);
      assert Digit(l, i + 1) == Digit(l[1..], i);
      assert k - (i + 1) == k - 1 - i;
    }
  }

  lemma ColumnCons(l: seq<nat>, r: seq<nat>, k: int)
    requires l != []
    ensures Column(l, r, k) == l[0] * Digit(r, k) + Column(l[1..], r, k - 1)
  {
    PartShift(l, r, k, 0, |l| - 1);
  }

  /** The number formed by the first `k` words of `s`, padded with zeros. */
  ghost function Padded(s: seq<nat>, k: nat, B: nat): nat {
    if k == 0 then 0 else Padded(s, k - 1, B) + Digit(s, k - 1) * Pow(B, k - 1)
  }

  lemma {:induction false} PaddedVal(s: seq<nat>, k: nat, B: nat)
    ensures k >= |s| ==> Padded(s, k, B) == Val(s, B)
    ensures k <= |s| ==> Padded(s, k, B) == Val(s[..k], B)
  {
    if k > 0 {
      PaddedVal(s, k - 1, B);
      if k <= |s| { ValPrefix(s, k - 1, B); }
    }
    assert s[..|s|] == s;
  }

  lemma {:induction false} ColumnsCons(l: seq<nat>, r: seq<nat>, k: nat, B: nat)
    requires l != []
    ensures Columns(l, r, k + 1, B) == l[0] * Padded(r, k + 1, B) + B * Columns(l[1..], r, k, B)
  {
    hide Column;
    ColumnCons(l, r, k);
    if k == 0 {
      assert Column(l[1..], r, -1) == 0 by { NegativeColumn(l[1..], r); }
      assert Columns(l, r, 1, B) == Column(l, r, 0) * Pow(B, 0);
      assert Padded(r, 1, B) == Digit(r, 0) * Pow(B, 0);
    } else {
      ColumnsCons(l, r, k - 1, B);
      ColumnsStep(l[0], Padded(r, k, B), Digit(r, k), Columns(l[1..], r, k - 1, B),
                  Column(l[1..], r, k - 1), B, Pow(B, k - 1));
    }
  }

  lemma NegativeColumn(l: seq<nat>, r: seq<nat>)
    ensures Column(l, r, -1) == 0
  {
    PartZero(l, r, -1, 0, |l|);
  }

  lemma ColumnsStep(x: nat, pad: nat, d: nat, rest: nat, col: nat, B: nat, p: nat)
    ensures x * pad + B * rest + (x * d + col) * (B * p) == x * (pad + d * (B * p)) + B * (rest + col * p)
  {
    var q := B * p;
    assert (x * d + col) * q == x * (d * q) + col * q by { MulAssoc(x, d, q); }
    assert col * q == B * (col * p) by { MulAssoc(col, B, p); MulAssoc(B, col, p); }
    MulDistrib(x, pad, d * q);
    MulDistrib(B, rest, col * p);
  }

  /** Summing every column gives the product. */
  lemma {:induction false} ColumnsProduct(l: seq<nat>, r: seq<nat>, k: nat, B: nat)
    requires k + 1 >= |l| + |r|
    ensures Columns(l, r, k, B) == Val(l, B) * Val(r, B)
    decreases |l|
  {
    hide Column;
    if l == [] {
      ColumnsEmpty(r, k, B);
    } else if k == 0 {
      assert r == [];
    } else {
      ColumnsCons(l, r, k - 1, B);
      ColumnsProduct(l[1..], r, k - 1, B);
      PaddedVal(r, k, B);
      ValCons(l, B);
      ProductCons(l[0], Val(l[1..], B), Val(r, B), B);
    }
  }

  lemma ProductCons(x: nat, rest: nat, v: nat, B: nat)
    ensures (x + B * rest) * v == x * v + B * (rest * v)
  {
    MulDistrib(v, x, B * rest);
    MulAssoc(B, rest, v);
  }

  lemma {:induction false} ColumnsEmpty(r: seq<nat>, k: nat, B: nat)
    ensures Columns([], r, k, B) == 0
  {
    if k > 0 { ColumnsEmpty(r, k - 1, B); }
  }

  /** The largest product of two words. */
  ghost function TopProduct(B: nat): int {
    (B - 1) * (B - 1)
  }

  lemma WordProduct(x: nat, y: nat, B: nat)
    requires x < B && y < B
    ensures x * y <= TopProduct(B)
  {
    MulMonotone(x, y, B - 1);
    MulMonotone(B - 1, x, B - 1);
  }

  lemma {:induction false} PartBound(l: seq<nat>, r: seq<nat>, k: int, i: nat, hi: nat, B: nat)
    requires IsWords(l, B) && IsWords(r, B) && B > 0 && i <= hi
    ensures Part(l, r, k, i, hi) <= (hi - i) * TopProduct(B)
    decreases hi - i
  {
    hide TopProduct;
    if i < hi {
      PartBound(l, r, k, i + 1, hi, B);
      WordProduct(Digit(l, i), Digit(r, k - i), B);
      MulDistrib(TopProduct(B), hi - i - 1, 1);
    }
  }

  /** The largest value the accumulator reaches while a column is summed. */
  ghost function Peak(n: nat, B: nat): nat
    requires B > 0
  {
    n * ((B - 1) * B)
  }

  /** With at most `B` words per operand a column and the carry into it fit three words. */
  lemma ColumnFits(l: seq<nat>, r: seq<nat>, k: int, carry: nat, n: nat, B: nat)
    requires |l| == n <= B && IsWords(l, B) && IsWords(r, B) && B > 0
    requires carry <= n * (B - 1)
    ensures carry + Column(l, r, k) <= Peak(n, B) < B * (B * B)
  {
    PartBound(l, r, k, 0, n, B);
    var q := (B - 1) * (B - 1);
    assert n * (B - 1) + n * q == n * ((B - 1) * B) by {
      MulDistrib(n, B - 1, q);
      assert (B - 1) + q == (B - 1) * B;
    }
    MulMonotone((B - 1) * B, n, B);
    assert B * ((B - 1) * B) + B * B == B * (B * B) by {
      MulDistrib(B, (B - 1) * B, B);
      assert (B - 1) * B + B == B * B;
    }
  }

  // ---------- the methods ----------

  /** Between columns: the words written and the carry add up to the columns done. */
  ghost predicate ColumnsDone(l: seq<nat>, r: seq<nat>, k: nat, written: seq<nat>, acc: Acc, B: nat) {
    && |written| == k && IsWords(written, B) && AccWords(acc, B) && acc.r2 == 0
    && B > 0 && AccVal(acc, B) <= |l| * (B - 1)
    && Val(written, B) + AccVal(acc, B) * Pow(B, k) == Columns(l, r, k, B)
  }

  lemma NextColumn(l: seq<nat>, r: seq<nat>, k: nat, written: seq<nat>, before: Acc, acc: Acc, B: nat)
    requires B >= 2 && |l| <= B && IsWords(l, B) && IsWords(r, B)
    requires ColumnsDone(l, r, k, written, before, B)
    requires AccWords(acc, B) && AccVal(acc, B) == AccVal(before, B) + Column(l, r, k)
    ensures ColumnsDone(l, r, k + 1, written + [acc.r0], Acc(acc.r1, acc.r2, 0), B)
  {
    hide Column, Val;
    var n, out, next := |l|, acc.r0, Acc(acc.r1, acc.r2, 0);
    ColumnFits(l, r, k, AccVal(before, B), n, B);
    assert AccVal(acc, B) == out + B * AccVal(next, B);
    CarryBound(out, AccVal(next, B), n, B);
    ValSnoc(written, out, B);
    CarryOver(out, AccVal(next, B), AccVal(before, B), Column(l, r, k), B, Pow(B, k));
    assert Columns(l, r, k + 1, B) == Columns(l, r, k, B) + Column(l, r, k) * Pow(B, k);
  }

  lemma CarryBoundOf(out: nat, next: int, m: int, B: nat)
    requires B > 0 && out + B * next <= m * B
    ensures next <= m
  {
    MulDistrib(B, m, 1);
    MulCancelLess(B, next, m + 1);
  }

  lemma CarryBound(out: nat, next: nat, n: nat, B: nat)
    requires B > 0 && out + B * next <= Peak(n, B)
    ensures next <= n * (B - 1)
  {
    MulAssoc(n, B - 1, B);
    CarryBoundOf(out, next, n * (B - 1), B);
  }

  lemma CarryOver(out: nat, next: nat, before: nat, col: nat, B: nat, p: nat)
    requires out + B * next == before + col
    ensures out * p + next * (B * p) == before * p + col * p
  {
    assert next * (B * p) == (B * next) * p by { MulAssoc(next, B, p); }
    MulDistrib(p, out, B * next);
    MulDistrib(p, before, col);
  }

  /** After the last column the carry is a single word. */
  lemma LastWord(l: seq<nat>, r: seq<nat>, k: nat, written: seq<nat>, acc: Acc, B: nat)
    requires B >= 2 && |l| == |r| && IsWords(l, B) && IsWords(r, B) && k + 1 == |l| + |r|
    requires ColumnsDone(l, r, k, written, acc, B)
    ensures acc == Acc(acc.r0, 0, 0)
    ensures IsWords(written + [acc.r0], B)
    ensures Val(written + [acc.r0], B) == Val(l, B) * Val(r, B)
  {
    hide Column, Columns, Val;
    ColumnsProduct(l, r, k, B);
    ValBound(l, B);
    ValBound(r, B);
    ValSnoc(written, acc.r0, B);
    var p := Pow(B, k);
    var product := Val(l, B) * Val(r, B);
    assert product < Pow(B, |l|) * Pow(B, |r|) by {
      MulMonotone(Val(l, B), Val(r, B), Pow(B, |r|));
      MulStrictMonotone(Pow(B, |r|), Val(l, B), Pow(B, |l|));
    }
    PowAdd(B, |l|, |r|);
    assert AccVal(acc, B) * p < B * p;
    if AccVal(acc, B) >= B { MulMonotone(p, B, AccVal(acc, B)); }
    if acc.r1 >= 1 { MulMonotone(B, 1, acc.r1); }
  }

  /** The first word of the left operand that takes part in column `k` of an n-word product. */
  function FirstIn(k: nat, n: nat): nat {
    if k < n then 0 else k + 1 - n
  }

  lemma PartStep(l: seq<nat>, r: seq<nat>, k: nat, i: nat, hi: nat)
    requires i < hi && i < |l| && 0 <= k - i < |r|
    ensures Part(l, r, k, i, hi) == l[i] * r[k - i] + Part(l, r, k, i + 1, hi)
  {
  }

  /** Sums column `k`, words lo .. hi of `left`, into the accumulator. */
  method SumColumn(w: WordBits, left: array<nat>, right: array<nat>, n: nat, k: nat, lo: nat, hi: nat, before: Acc)
    returns (acc: Acc)
    requires Holds(left, n, Base(w)) && Holds(right, n, Base(w)) && n <= Base(w)
    requires k < 2 * n - 1 && lo == FirstIn(k, n) && hi == k + 1 - lo
    requires AccWords(before, Base(w)) && AccVal(before, Base(w)) <= n * (Base(w) - 1)
    ensures AccWords(acc, Base(w))
    ensures AccVal(acc, Base(w)) == AccVal(before, Base(w)) + Column(left[..n], right[..n], k)
  {
    hide MulAddWide, AccVal, Base, Digit, Column, Part, Peak;
    ghost var l, r := left[..n], right[..n];
    var B := Base(w);
    acc := before;
    ghost var total := AccVal(before, B) + Column(l, r, k);
    ColumnRange(l, r, k, lo, hi);
    ColumnFits(l, r, k, AccVal(before, B), n, B);
    for i := lo to hi
      invariant AccWords(acc, B)
      invariant AccVal(acc, B) + Part(l, r, k, i, hi) == total
    {
      PartStep(l, r, k, i, hi);
      MulAddWideVal(left[i], right[k - i], acc, B);
      acc := MulAddWide(left[i], right[k - i], acc, B);
    }
    PartSplit(l, r, k, hi, hi, hi);
  }

  /** result = left * right, 2n words. */
  method Multiply(w: WordBits, result: array<nat>, left: array<nat>, right: array<nat>, n: nat)
    requires Holds(left, n, Base(w)) && Holds(right, n, Base(w)) && 0 < n <= Base(w)
    requires 2 * n <= result.Length && result != left && result != right
    modifies result
    ensures Holds(result, 2 * n, Base(w))
    ensures Val(result[..2 * n], Base(w)) == Val(left[..n], Base(w)) * Val(right[..n], Base(w))
    ensures result[2 * n..] == old(result[2 * n..])
  {
    hide Val, AccVal, Columns, Column, Base;
    ghost var l, r := left[..n], right[..n];
    var B := Base(w);
    var acc := Acc(0, 0, 0);
    StartColumns(l, r, B);
    for k := 0 to n
      invariant ColumnsDone(l, r, k, result[..k], acc, B)
      invariant left[..n] == l && right[..n] == r
      invariant result[2 * n..] == old(result[2 * n..])
    {
      var sum := SumColumn(w, left, right, n, k, 0, k + 1, acc);
      ghost var written := result[..k];
      NextColumn(l, r, k, written, acc, sum, B);
      result[k] := sum.r0;
      assert result[..k + 1] == written + [sum.r0];
      acc := Acc(sum.r1, sum.r2, 0);
    }
    for k := n to 2 * n - 1
      invariant ColumnsDone(l, r, k, result[..k], acc, B)
      invariant left[..n] == l && right[..n] == r
      invariant result[2 * n..] == old(result[2 * n..])
    {
      var sum := SumColumn(w, left, right, n, k, k + 1 - n, n, acc);
      ghost var written := result[..k];
      NextColumn(l, r, k, written, acc, sum, B);
      result[k] := sum.r0;
      assert result[..k + 1] == written + [sum.r0];
      acc := Acc(sum.r1, sum.r2, 0);
    }
    ghost var written := result[..2 * n - 1];
    LastWord(l, r, 2 * n - 1, written, acc, B);
    result[2 * n - 1] := acc.r0;
    assert result[..2 * n] == written + [acc.r0];
  }

  lemma StartColumns(l: seq<nat>, r: seq<nat>, B: nat)
    requires B > 0
    ensures ColumnsDone(l, r, 0, [], Acc(0, 0, 0), B)
  {
  }

  // ---------- squaring ----------

  /** What the squaring loop still has to add to column `k` from word `i` on: each pair once, doubled. */
  ghost function Pairs(l: seq<nat>, k: nat, i: nat): nat
    decreases k + 1 - 2 * i
  {
    if 2 * i > k then 0
    else (if i < k - i then 2 else 1) * (Digit(l, i) * Digit(l, k - i)) + Pairs(l, k, i + 1)
  }

  /** A symmetric range of a column of l * l is its pairs, doubled, and its middle. */
  lemma {:induction false} PairsAreColumn(l: seq<nat>, k: nat, lo: nat)
    requires lo <= k + 1
    ensures 2 * lo <= k + 1 ==> Part(l, l, k, lo, k + 1 - lo) == Pairs(l, k, lo)
    decreases k + 1 - lo
  {
    hide Digit;
    if 2 * lo < k {
      var hi := k + 1 - lo;
      PairsAreColumn(l, k, lo + 1);
      PartSplit(l, l, k, lo + 1, hi - 1, hi);
      PartSingle(l, l, k, hi - 1);
    } else if 2 * lo == k {
      PartSingle(l, l, k, lo);
      PairsEnd(l, k, lo + 1);
    }
  }

  lemma PartSingle(l: seq<nat>, r: seq<nat>, k: int, i: nat)
    ensures Part(l, r, k, i, i + 1) == Digit(l, i) * Digit(r, k - i)
  {
  }

  lemma PairsStep(l: seq<nat>, k: nat, i: nat)
    requires i <= k - i < |l|
    ensures Pairs(l, k, i) == (if i < k - i then 2 * (l[i] * l[k - i]) else l[i] * l[k - i]) + Pairs(l, k, i + 1)
  {
  }

  /** Sums column `k` of left * left, adding each mixed product once, doubled. */
  method SumSquareColumn(w: WordBits, left: array<nat>, n: nat, k: nat, before: Acc) returns (acc: Acc)
    requires Holds(left, n, Base(w)) && n <= Base(w) && k < 2 * n - 1
    requires AccWords(before, Base(w)) && AccVal(before, Base(w)) <= n * (Base(w) - 1)
    ensures AccWords(acc, Base(w))
    ensures AccVal(acc, Base(w)) == AccVal(before, Base(w)) + Column(left[..n], left[..n], k)
  {
    hide MulAddWide, Mul2AddWide, AccVal, Base, Digit, Column, Part, Peak, Pairs;
    ghost var l := left[..n];
    var B := Base(w);
    var min := FirstIn(k, n);
    acc := before;
    ghost var total := AccVal(before, B) + Column(l, l, k);
    ColumnRange(l, l, k, min, k + 1 - min);
    PairsAreColumn(l, k, min);
    ColumnFits(l, l, k, AccVal(before, B), n, B);
    var i := min;
    while i <= k && i <= k - i
      invariant min <= i <= k + 1 && 2 * i <= k + 2
      invariant AccWords(acc, B)
      invariant AccVal(acc, B) + Pairs(l, k, i) == total
    {
      PairsStep(l, k, i);
      if i < k - i {
        Mul2AddWideVal(left[i], left[k - i], acc, B);
        acc := Mul2AddWide(left[i], left[k - i], acc, B);
      } else {
        MulAddWideVal(left[i], left[k - i], acc, B);
        acc := MulAddWide(left[i], left[k - i], acc, B);
      }
      i := i + 1;
    }
    PairsEnd(l, k, i);
  }

  lemma PairsEnd(l: seq<nat>, k: nat, i: nat)
    requires 2 * i > k
    ensures Pairs(l, k, i) == 0
  {
  }

  /** result = left * left, 2n words; the same words as Multiply(left, left) gives. */
  method Square(w: WordBits, result: array<nat>, left: array<nat>, n: nat)
    requires Holds(left, n, Base(w)) && 0 < n <= Base(w)
    requires 2 * n <= result.Length && result != left
    modifies result
    ensures Holds(result, 2 * n, Base(w))
    ensures Val(result[..2 * n], Base(w)) == Val(left[..n], Base(w)) * Val(left[..n], Base(w))
    ensures result[2 * n..] == old(result[2 * n..])
  {
    hide Val, AccVal, Columns, Column, Base;
    ghost var l := left[..n];
    var B := Base(w);
    var acc := Acc(0, 0, 0);
    StartColumns(l, l, B);
    for k := 0 to 2 * n - 1
      invariant ColumnsDone(l, l, k, result[..k], acc, B)
      invariant left[..n] == l
      invariant result[2 * n..] == old(result[2 * n..])
    {
      var sum := SumSquareColumn(w, left, n, k, acc);
      ghost var written := result[..k];
      NextColumn(l, l, k, written, acc, sum, B);
      result[k] := sum.r0;
      assert result[..k + 1] == written + [sum.r0];
      acc := Acc(sum.r1, sum.r2, 0);
    }
    ghost var written := result[..2 * n - 1];
    LastWord(l, l, 2 * n - 1, written, acc, B);
    result[2 * n - 1] := acc.r0;
    assert result[..2 * n] == written + [acc.r0];
  }
}
