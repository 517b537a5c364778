/** Shamir's trick on word arrays: u1 * G + u2 * Q by doublings and additions of table entries. The arrays follow a
    double-and-add on affine pairs, for every pair of residues; for points of a curve that is the sum in the group
    unless an addition meets equal or opposite points. */
module Shamir {
  import opened Numbers
  import opened Words
  import opened Vli
  import opened Field
  import opened CoZ
  import opened Doubling
  import ModInv
  import opened Groups
  import opened Pairs
  import opened Points

  // ---------- double-and-add on pairs ----------

  /** The pairs for G and Q, the coefficient of the curve and the prime. */
  datatype Setting = Setting(g: Pair, q: Pair, kind: DoublingKind, p: nat)

  ghost predicate GoodSetting(sg: Setting) {
    IsPrime(sg.p) && sg.p % 2 == 1 && InField(sg.g, sg.p) && InField(sg.q, sg.p)
  }

  /** The entry of the table { -, G, Q, G + Q } for one bit of each scalar. The code gets G + Q right only when the
      x-coordinates of G and Q differ; otherwise its entry is (0, 0). */
  ghost function Entry(sg: Setting, b1: bool, b2: bool): Pair
    requires sg.p > 0
  {
    if b1 && b2 then (if sg.g.x != sg.q.x then Chord(sg.g, sg.q, sg.p) else Pair(0, 0))
    else if b1 then sg.g else sg.q
  }

  /** The sum so far: a pair, or gone once a doubling or an addition had no result. */
  datatype Tally = Sum(point: Pair) | Gone

  ghost function Twice(sg: Setting, st: Tally): Tally
    requires sg.p > 0
  {
    if st.Sum? && st.point.y != 0 then Sum(Tangent(st.point, Linear(sg.kind), sg.p)) else Gone
  }

  ghost function Plus(sg: Setting, st: Tally, entry: Pair): Tally
    requires sg.p > 0
  {
    if st.Sum? && st.point.x != entry.x then Sum(Chord(entry, st.point, sg.p)) else Gone
  }

  ghost function Round(sg: Setting, st: Tally, b1: bool, b2: bool): Tally
    requires sg.p > 0
  {
    if b1 || b2 then Plus(sg, Twice(sg, st), Entry(sg, b1, b2)) else Twice(sg, st)
  }

  /** Double-and-add over the binary digits of two scalars, from the highest down. */
  ghost function Joint(sg: Setting, a: nat, b: nat): Tally
    requires sg.p > 0
    decreases a + b
  {
    if a == 0 && b == 0 then Gone
    else if a / 2 == 0 && b / 2 == 0 then Sum(Entry(sg, a % 2 == 1, b % 2 == 1))
    else Round(sg, Joint(sg, a / 2, b / 2), a % 2 == 1, b % 2 == 1)
  }

  /** The x-coordinate that is left in the end. */
  ghost function JointX(sg: Setting, a: nat, b: nat): nat
    requires sg.p > 0
  {
    var st := Joint(sg, a, b);
    if st.Sum? then st.point.x else 0
  }

  // ---------- the table ----------

  /** A fresh copy of a residue. */
  method CopyResidue(w: WordBits, src: array<nat>, p: array<nat>, n: nat, ghost r: int, ghost m: nat)
    returns (a: array<nat>)
    requires Modulus(w, p, n, m) && Residue(w, src, n, r, m)
    ensures fresh(a) && Residue(w, a, n, r, m)
  {
    hide Residue, Modulus;
    a := NewTemp(w, p, n, m);
    FieldSet(w, a, src, n, r, m);
  }

  /** The entry G + Q; zeros when the x-coordinates of G and Q are equal. */
  method SumEntry(w: WordBits, gx: array<nat>, gy: array<nat>, qx: array<nat>, qy: array<nat>, p: array<nat>, n: nat,
                  ghost sg: Setting) returns (sx: array<nat>, sy: array<nat>)
    requires Modulus(w, p, n, sg.p) && GoodSetting(sg)
    requires HoldsPair(w, gx, gy, n, sg.g, sg.p) && HoldsPair(w, qx, qy, n, sg.q, sg.p)
    ensures fresh(sx) && fresh(sy) && sx != sy && sg.p > 0 && HoldsPair(w, sx, sy, n, Entry(sg, true, true), sg.p)
    ensures sg.g.x != sg.q.x ==> HoldsPair(w, sx, sy, n, Chord(sg.g, sg.q, sg.p), sg.p)
    ensures sg.g.x == sg.q.x ==> HoldsPair(w, sx, sy, n, Pair(0, 0), sg.p)
  {
    hide Residue, Modulus, IsPrime, SumX, SumY, ScaledX, ScaledY, Entry;
    ghost var g, q, m := sg.g, sg.q, sg.p;
    sx := CopyResidue(w, qx, p, n, q.x, m);
    sy := CopyResidue(w, qy, p, n, q.y, m);
    var tx := CopyResidue(w, gx, p, n, g.x, m);
    var ty := CopyResidue(w, gy, p, n, g.y, m);
    var z := NewTemp(w, p, n, m);
    FieldSub(w, z, sx, tx, p, n, q.x, g.x, m);
    XYcZAdd(w, tx, ty, sx, sy, p, n, g.x, g.y, q.x, q.y, m);
    FinishEntry(w, sx, sy, z, p, n, sg);
  }

  /** The inversion of z = x2 - x1 and apply_z on the sum. */
  method FinishEntry(w: WordBits, sx: array<nat>, sy: array<nat>, z: array<nat>, p: array<nat>, n: nat,
                     ghost sg: Setting)
    requires Modulus(w, p, n, sg.p) && GoodSetting(sg)
    requires sx != sy && sx != z && sy != z && p != sx && p != sy && p != z
    requires Residue(w, z, n, sg.q.x - sg.g.x, sg.p)
    requires Residue(w, sx, n, SumX(sg.g.x, sg.q.x, sg.q.y - sg.g.y), sg.p)
    requires Residue(w, sy, n, SumY(sg.g.x, sg.g.y, sg.q.x, sg.q.y - sg.g.y), sg.p)
    modifies sx, sy, z
    ensures sg.p > 0 && HoldsPair(w, sx, sy, n, Entry(sg, true, true), sg.p)
    ensures sg.g.x != sg.q.x ==> HoldsPair(w, sx, sy, n, Chord(sg.g, sg.q, sg.p), sg.p)
    ensures sg.g.x == sg.q.x ==> HoldsPair(w, sx, sy, n, Pair(0, 0), sg.p)
  {
    hide Residue, Modulus, IsPrime, SumX, SumY, Cong, PX, PY, Chord, CommonZ;
    ghost var g, q, m := sg.g, sg.q, sg.p;
    PrimeAboveOne(m);
    UnitOne(m);
    OneScale(g);
    OneScale(q);
    CommonUnit(g, q, 1, m);
    OneCommon(g, q);
    if g.x != q.x {
      AddPairs(g, q, 1, m);
      CarriesBy(w, sx, sy, n, SumX(g.x, q.x, q.y - g.y), SumY(g.x, g.y, q.x, q.y - g.y), Chord(g, q, m),
                CommonZ(g, q, 1), m);
    }
    ghost var i := FieldInvert(w, z, p, n, q.x - g.x, m);
    ScaleBack(w, sx, sy, z, p, n, Chord(g, q, m), CommonZ(g, q, 1), i, g.x != q.x, m);
  }

  lemma OneCommon(s: Pair, t: Pair)
    ensures CommonZ(s, t, 1) == t.x - s.x && PX(t, 1) - PX(s, 1) == t.x - s.x
  {
  }

  // ---------- the registers ----------

  /** The registers hold the sum in the coordinate Z; z is zero when it is gone. */
  ghost predicate Registers(w: WordBits, rx: array<nat>, ry: array<nat>, z: array<nat>, n: nat, st: Tally, Z: int,
                            m: nat)
    reads rx, ry, z
  {
    && SomeResidue(w, rx, n, m) && SomeResidue(w, ry, n, m) && Residue(w, z, n, Z, m)
    && match st
       case Sum(r) => InField(r, m) && Unit(Z, m) && Carries(w, rx, ry, n, r, Z, m)
       case Gone => m > 0 && Cong(Z, 0, m)
  }

  /** double_jacobian on the registers. */
  method DoubleRegisters(kind: DoublingKind, w: WordBits, rx: array<nat>, ry: array<nat>, z: array<nat>,
                         p: array<nat>, n: nat, ghost sg: Setting, ghost st: Tally, ghost Z: int)
    returns (ghost Z': int)
    requires Modulus(w, p, n, sg.p) && GoodSetting(sg) && kind == sg.kind && rx != ry && rx != z && ry != z
    requires p != rx && p != ry && p != z && Registers(w, rx, ry, z, n, st, Z, sg.p)
    modifies rx, ry, z
    ensures sg.p > 0 && Registers(w, rx, ry, z, n, Twice(sg, st), Z', sg.p)
  {
    hide Residue, Modulus, DoubleX, DoubleY, PX, PY, Cong, IsPrime, Steepness, Times, Tangent;
    ghost var m := sg.p;
    PrimeAboveOne(m);
    ghost var x: int :| Residue(w, rx, n, x, m);
    ghost var y: int :| Residue(w, ry, n, y, m);
    if st.Sum? { x, y := PX(st.point, Z), PY(st.point, Z); }
    ghost var b := DoubleJacobian(kind, w, rx, ry, z, p, n, x, y, Z, m);
    Z' := if Cong(Z, 0, m) then Z else Times(y, Z);
    if st.Sum? {
      ghost var t := st.point;
      TimesIs(y, Z);
      if t.y == 0 {
        FlatPair(t, Z);
        CongRefl(0, m);
      } else {
        DoublePair(t, Z, b, Linear(kind), m);
        CarriesBy(w, rx, ry, n, DoubleX(x, y, b), DoubleY(x, y, b), Tangent(t, Linear(kind), m), Z', m);
      }
    }
  }

  lemma FlatPair(t: Pair, Z: int)
    requires t.y == 0
    ensures PY(t, Z) * Z == 0
  {
  }

  /** The addition of a table entry: apply_z to a copy of it, z2 = x2 - x1, XYcZ_add, z = z * z2. */
  method AddEntry(w: WordBits, rx: array<nat>, ry: array<nat>, z: array<nat>, ex: array<nat>, ey: array<nat>,
                  p: array<nat>, n: nat, ghost sg: Setting, ghost st: Tally, ghost Z: int, ghost e: Pair)
    returns (ghost Z': int)
    requires Modulus(w, p, n, sg.p) && GoodSetting(sg) && rx != ry && rx != z && ry != z
    requires p != rx && p != ry && p != z && Registers(w, rx, ry, z, n, st, Z, sg.p)
    requires HoldsPair(w, ex, ey, n, e, sg.p)
    modifies rx, ry, z
    ensures sg.p > 0 && Registers(w, rx, ry, z, n, Plus(sg, st, e), Z', sg.p)
  {
    hide Residue, Modulus, PX, PY, Cong, IsPrime, Times, SumX, SumY, ScaledX, ScaledY;
    ghost var m := sg.p;
    PrimeAboveOne(m);
    ghost var x: int :| Residue(w, rx, n, x, m);
    ghost var y: int :| Residue(w, ry, n, y, m);
    if st.Sum? { x, y := PX(st.point, Z), PY(st.point, Z); }
    var tx := CopyResidue(w, ex, p, n, e.x, m);
    var ty := CopyResidue(w, ey, p, n, e.y, m);
    ApplyZ(w, tx, ty, z, p, n, e.x, e.y, Z, m);
    ScaledIs(e, Z);
    var tz := NewTemp(w, p, n, m);
    FieldSub(w, tz, rx, tx, p, n, x, PX(e, Z), m);
    XYcZAdd(w, tx, ty, rx, ry, p, n, PX(e, Z), PY(e, Z), x, y, m);
    FieldMul(w, z, z, tz, p, n, Z, x - PX(e, Z), m);
    Z' := Times(Z, x - PX(e, Z));
    PlusHeld(w, rx, ry, z, n, sg, st, Z, e, x, y, Z');
  }

  lemma ScaledIs(t: Pair, Z: int)
    ensures Times(t.x, Times(Z, Z)) == PX(t, Z) && Times(t.y, Times(Times(Z, Z), Z)) == PY(t, Z)
  {
  }

  lemma PlusHeld(w: WordBits, rx: array<nat>, ry: array<nat>, z: array<nat>, n: nat, sg: Setting, st: Tally, Z: int,
                 e: Pair, x: int, y: int, Z': int)
    requires GoodSetting(sg) && InField(e, sg.p)
    requires Z' == Times(Z, x - PX(e, Z)) && Residue(w, z, n, Z', sg.p)
    requires Residue(w, rx, n, SumX(PX(e, Z), x, y - PY(e, Z)), sg.p)
    requires Residue(w, ry, n, SumY(PX(e, Z), PY(e, Z), x, y - PY(e, Z)), sg.p)
    requires st.Sum? ==> InField(st.point, sg.p) && Unit(Z, sg.p) && x == PX(st.point, Z) && y == PY(st.point, Z)
    requires st.Gone? ==> sg.p > 0 && Cong(Z, 0, sg.p)
    ensures sg.p > 0 && Registers(w, rx, ry, z, n, Plus(sg, st, e), Z', sg.p)
  {
    hide Residue, Cong, IsPrime, SumX, SumY, PX, PY, Times, Chord;
    var m := sg.p;
    PrimeAboveOne(m);
    var d := x - PX(e, Z);
    TimesIs(Z, d);
    if st.Gone? {
      CongScale(d, Z, 0, m);
      assert d * Z == Z * d;
    } else {
      var r := st.point;
      CommonUnit(e, r, Z, m);
      if r.x == e.x {
        CongScale(Z, d, 0, m);
      } else {
        AddPairs(e, r, Z, m);
        CarriesBy(w, rx, ry, n, SumX(PX(e, Z), x, y - PY(e, Z)), SumY(PX(e, Z), PY(e, Z), x, y - PY(e, Z)),
                  Chord(e, r, m), Z', m);
      }
    }
  }

  // ---------- the rounds on the registers ----------

  /** The arrays of the table: G, Q and what stands for G + Q. */
  datatype Table = Table(gx: array<nat>, gy: array<nat>, qx: array<nat>, qy: array<nat>, sx: array<nat>, sy: array<nat>)

  ghost predicate GoodTable(w: WordBits, tb: Table, n: nat, sg: Setting)
    reads tb.gx, tb.gy, tb.qx, tb.qy, tb.sx, tb.sy
  {
    && sg.p > 0 && HoldsPair(w, tb.gx, tb.gy, n, sg.g, sg.p) && HoldsPair(w, tb.qx, tb.qy, n, sg.q, sg.p)
    && HoldsPair(w, tb.sx, tb.sy, n, Entry(sg, true, true), sg.p)
  }

  function ChosenX(tb: Table, b1: bool, b2: bool): array<nat> {
    if b1 then (if b2 then tb.sx else tb.gx) else tb.qx
  }

  function ChosenY(tb: Table, b1: bool, b2: bool): array<nat> {
    if b1 then (if b2 then tb.sy else tb.gy) else tb.qy
  }

  lemma ChosenHeld(w: WordBits, tb: Table, n: nat, sg: Setting, b1: bool, b2: bool)
    requires GoodTable(w, tb, n, sg) && (b1 || b2)
    ensures HoldsPair(w, ChosenX(tb, b1, b2), ChosenY(tb, b1, b2), n, Entry(sg, b1, b2), sg.p)
  {
    hide HoldsPair;
  }

  /** The opening: the registers are a copy of the entry for the highest bits, with z = 1. */
  method Begin(w: WordBits, tb: Table, b1: bool, b2: bool, p: array<nat>, n: nat, ghost sg: Setting)
    returns (rx: array<nat>, ry: array<nat>, z: array<nat>)
    requires Modulus(w, p, n, sg.p) && GoodSetting(sg) && GoodTable(w, tb, n, sg) && (b1 || b2)
    ensures fresh(rx) && fresh(ry) && fresh(z) && rx != ry && rx != z && ry != z
    ensures Registers(w, rx, ry, z, n, Sum(Entry(sg, b1, b2)), 1, sg.p)
  {
    hide Residue, Modulus, Cong, Val, Entry, PX, PY, GoodTable, IsPrime;
    PrimeAboveOne(sg.p);
    ChosenHeld(w, tb, n, sg, b1, b2);
    ghost var e := Entry(sg, b1, b2);
    rx := CopyResidue(w, ChosenX(tb, b1, b2), p, n, e.x, sg.p);
    ry := CopyResidue(w, ChosenY(tb, b1, b2), p, n, e.y, sg.p);
    z := OneResidue(w, p, n, sg.p);
    OneScale(e);
    UnitOne(sg.p);
  }

  method OneResidue(w: WordBits, p: array<nat>, n: nat, ghost m: nat) returns (z: array<nat>)
    requires Modulus(w, p, n, m) && m > 1
    ensures fresh(z) && Residue(w, z, n, 1, m)
  {
    hide Val, Cong;
    z := ModInv.Small(w, 1, n);
    CongRefl(1, m);
  }

  /** One round: double, then add the table entry for bit `i` of the scalars, if any. */
  method ShamirRound(kind: DoublingKind, w: WordBits, tb: Table, u1: array<nat>, u2: array<nat>, nw: nat,
                     rx: array<nat>, ry: array<nat>, z: array<nat>, p: array<nat>, n: nat, i: nat,
                     ghost sg: Setting, ghost st: Tally, ghost Z: int)
    returns (ghost Z': int)
    requires Modulus(w, p, n, sg.p) && GoodSetting(sg) && kind == sg.kind && GoodTable(w, tb, n, sg)
    requires rx != ry && rx != z && ry != z && p !in {rx, ry, z} && u1 !in {rx, ry, z} && u2 !in {rx, ry, z}
    requires {tb.gx, tb.gy, tb.qx, tb.qy, tb.sx, tb.sy} !! {rx, ry, z}
    requires Holds(u1, nw, Base(w)) && Holds(u2, nw, Base(w)) && i < w * nw
    requires Registers(w, rx, ry, z, n, st, Z, sg.p)
    modifies rx, ry, z
    ensures var a, b := Val(u1[..nw], Base(w)), Val(u2[..nw], Base(w));
      sg.p > 0 && Registers(w, rx, ry, z, n, Round(sg, st, Bit(a, i), Bit(b, i)), Z', sg.p)
  {
    hide GoodSetting, Modulus, Val, Base, Bit, Registers, GoodTable, Entry, Twice, Plus, HoldsPair;
    ghost var u, v := u1[..nw], u2[..nw];
    Z' := DoubleRegisters(kind, w, rx, ry, z, p, n, sg, st, Z);
    assert u1[..nw] == u && u2[..nw] == v;
    var b1 := TestBit(w, u1, i, nw);
    var b2 := TestBit(w, u2, i, nw);
    if b1 || b2 {
      ChosenHeld(w, tb, n, sg, b1, b2);
      Z' := AddEntry(w, rx, ry, z, ChosenX(tb, b1, b2), ChosenY(tb, b1, b2), p, n, sg, Twice(sg, st), Z',
                     Entry(sg, b1, b2));
    }
    assert u1[..nw] == u && u2[..nw] == v;
  }

  // ---------- the loop ----------

  lemma TopBits(x: nat, len: nat, num: nat)
    requires IsBitLength(x, len) && len <= num && num > 0
    ensures x < Pow(2, num) && (x > 0 && len == num ==> Bit(x, num - 1))
  {
    hide Pow;
    PowMonotone(2, len, num);
    PowStep(2, num - 1);
    if x > 0 && len == num { BitAtTop(x, num - 1); }
  }

  /** The greater of the two bit lengths; the scalar that has it has its highest bit there. */
  method CountBits(w: WordBits, u1: array<nat>, u2: array<nat>, nw: nat) returns (num: nat)
    requires Holds(u1, nw, Base(w)) && Holds(u2, nw, Base(w))
    requires Val(u1[..nw], Base(w)) > 0 || Val(u2[..nw], Base(w)) > 0
    ensures var a, b := Val(u1[..nw], Base(w)), Val(u2[..nw], Base(w));
      0 < num <= w * nw && a < Pow(2, num) && b < Pow(2, num) && (Bit(a, num - 1) || Bit(b, num - 1))
  {
    hide Val, Base, Pow, Bit;
    ghost var a, b := Val(u1[..nw], Base(w)), Val(u2[..nw], Base(w));
    var n1 := NumBits(w, u1, nw);
    var n2 := NumBits(w, u2, nw);
    num := if n1 > n2 then n1 else n2;
    PowZero(2);
    assert num > 0;
    TopBits(a, n1, num);
    TopBits(b, n2, num);
  }

  /** The final 1/z and apply_z: the affine x-coordinate, or zero when the sum is gone. */
  method Finish(w: WordBits, rx: array<nat>, ry: array<nat>, z: array<nat>, p: array<nat>, n: nat,
                ghost sg: Setting, ghost st: Tally, ghost Z: int)
    requires Modulus(w, p, n, sg.p) && GoodSetting(sg) && rx != ry && rx != z && ry != z
    requires p != rx && p != ry && p != z && Registers(w, rx, ry, z, n, st, Z, sg.p)
    modifies rx, ry, z
    ensures Residue(w, rx, n, if st.Sum? then st.point.x else 0, sg.p)
    ensures st.Sum? ==> st.point.x < sg.p
  {
    hide Residue, Modulus, Cong, PX, PY, IsPrime;
    ghost var i := FieldInvert(w, z, p, n, Z, sg.p);
    ghost var t := if st.Sum? then st.point else Pair(0, 0);
    ScaleBack(w, rx, ry, z, p, n, t, Z, i, st.Sum?, sg.p);
  }

  /** Dropping the lowest bit: the prefixes of the loop are the halves of the recursion. */
  lemma PrefixParts(a: nat, i: nat)
    ensures Prefix(a, i) / 2 == Prefix(a, i + 1) && (Prefix(a, i) % 2 == 1 <==> Bit(a, i))
  {
    hide Prefix, Bit;
    PrefixStep(a, i);
  }

  lemma NextJoint(sg: Setting, a: nat, b: nat, i: nat)
    requires sg.p > 0 && (Prefix(a, i + 1) > 0 || Prefix(b, i + 1) > 0)
    ensures Prefix(a, i) > 0 || Prefix(b, i) > 0
    ensures Joint(sg, Prefix(a, i), Prefix(b, i))
         == Round(sg, Joint(sg, Prefix(a, i + 1), Prefix(b, i + 1)), Bit(a, i), Bit(b, i))
  {
    hide Prefix, Bit, Round;
    PrefixParts(a, i);
    PrefixParts(b, i);
  }

  lemma TopPrefix(x: nat, num: nat)
    requires num > 0 && x < Pow(2, num)
    ensures Prefix(x, num - 1) == if Bit(x, num - 1) then 1 else 0
  {
    hide Pow;
    PowStep(2, num - 1);
    BitAtTop(x, num - 1);
    var p := Pow(2, num - 1);
    if x >= p { DivModUnique(x, p, 1, x - p); } else { DivModUnique(x, p, 0, x); }
  }

  lemma FirstJoint(sg: Setting, a: nat, b: nat, num: nat)
    requires sg.p > 0 && num > 0 && a < Pow(2, num) && b < Pow(2, num) && (Bit(a, num - 1) || Bit(b, num - 1))
    ensures Prefix(a, num - 1) > 0 || Prefix(b, num - 1) > 0
    ensures Joint(sg, Prefix(a, num - 1), Prefix(b, num - 1)) == Sum(Entry(sg, Bit(a, num - 1), Bit(b, num - 1)))
  {
    hide Prefix, Bit, Pow, Entry;
    TopPrefix(a, num);
    TopPrefix(b, num);
  }

  /** The rounds from the highest bit of the scalars down. */
  method Rounds(kind: DoublingKind, w: WordBits, tb: Table, p: array<nat>, n: nat, u1: array<nat>, u2: array<nat>,
                nw: nat, num: nat, ghost sg: Setting)
    returns (rx: array<nat>, ry: array<nat>, z: array<nat>, ghost Z: int)
    requires Modulus(w, p, n, sg.p) && GoodSetting(sg) && kind == sg.kind && GoodTable(w, tb, n, sg)
    requires Holds(u1, nw, Base(w)) && Holds(u2, nw, Base(w)) && 0 < num <= w * nw
    requires var a, b := Val(u1[..nw], Base(w)), Val(u2[..nw], Base(w));
      a < Pow(2, num) && b < Pow(2, num) && (Bit(a, num - 1) || Bit(b, num - 1))
    ensures fresh(rx) && fresh(ry) && fresh(z) && rx != ry && rx != z && ry != z
    ensures var a, b := Val(u1[..nw], Base(w)), Val(u2[..nw], Base(w));
      sg.p > 0 && Registers(w, rx, ry, z, n, Joint(sg, a, b), Z, sg.p)
  {
    hide Modulus, Val, Base, Pow, Bit, Registers, GoodTable, Joint, Round, GoodSetting, Prefix, Entry;
    ghost var a, b := Val(u1[..nw], Base(w)), Val(u2[..nw], Base(w));
    ghost var u, v := u1[..nw], u2[..nw];
    var b1 := TestBit(w, u1, num - 1, nw);
    var b2 := TestBit(w, u2, num - 1, nw);
    TablePrime(w, tb, n, sg);
    rx, ry, z := Begin(w, tb, b1, b2, p, n, sg);
    Z := 1;
    FirstJoint(sg, a, b, num);
    var i := num - 1;
    while i > 0
      invariant 0 <= i < num && u1[..nw] == u && u2[..nw] == v && (Prefix(a, i) > 0 || Prefix(b, i) > 0)
      invariant Modulus(w, p, n, sg.p) && GoodTable(w, tb, n, sg)
      invariant Registers(w, rx, ry, z, n, Joint(sg, Prefix(a, i), Prefix(b, i)), Z, sg.p)
    {
      NextJoint(sg, a, b, i - 1);
      Z := ShamirRound(kind, w, tb, u1, u2, nw, rx, ry, z, p, n, i - 1, sg, Joint(sg, Prefix(a, i), Prefix(b, i)), Z);
      i := i - 1;
    }
    WholePrefix(a);
    WholePrefix(b);
  }

  lemma TablePrime(w: WordBits, tb: Table, n: nat, sg: Setting)
    requires GoodTable(w, tb, n, sg)
    ensures sg.p > 0
  {
  }

  /** The joint computation for scalars that are not both zero leaves the x-coordinate that double-and-add on pairs
      gives, for any two pairs of residues. */
  method Combine(kind: DoublingKind, w: WordBits, gx: array<nat>, gy: array<nat>, qx: array<nat>, qy: array<nat>,
                 p: array<nat>, n: nat, u1: array<nat>, u2: array<nat>, nw: nat, ghost sg: Setting)
    returns (rx: array<nat>)
    requires Modulus(w, p, n, sg.p) && GoodSetting(sg) && kind == sg.kind
    requires HoldsPair(w, gx, gy, n, sg.g, sg.p) && HoldsPair(w, qx, qy, n, sg.q, sg.p)
    requires Holds(u1, nw, Base(w)) && Holds(u2, nw, Base(w))
    requires Val(u1[..nw], Base(w)) > 0 || Val(u2[..nw], Base(w)) > 0
    ensures fresh(rx) && sg.p > 0
    ensures var x := JointX(sg, Val(u1[..nw], Base(w)), Val(u2[..nw], Base(w)));
      x < sg.p && Residue(w, rx, n, x, sg.p)
  {
    hide Residue, Modulus, Val, Base, Pow, Bit, Registers, Joint, HoldsPair, Entry, GoodSetting;
    ghost var a, b := Val(u1[..nw], Base(w)), Val(u2[..nw], Base(w));
    var sx, sy := SumEntry(w, gx, gy, qx, qy, p, n, sg);
    var tb := Table(gx, gy, qx, qy, sx, sy);
    var num := CountBits(w, u1, u2, nw);
    var ry, z;
    ghost var Z;
    rx, ry, z, Z := Rounds(kind, w, tb, p, n, u1, u2, nw, num, sg);
    Finish(w, rx, ry, z, p, n, sg, Joint(sg, a, b), Z);
  }

  // ---------- what the rounds compute in the group ----------

  /** R = (u1 >> i) * G + (u2 >> i) * Q. */
  ghost predicate ShamirState<G>(gr: Group<G>, r: G, a: nat, b: nat, g: G, q: G) {
    r == gr.add(Mul(gr, a, g), Mul(gr, b, q))
  }

  /** The multiple of G and Q selected by one bit of each scalar. */
  ghost function Chosen<G>(gr: Group<G>, b1: bool, b2: bool, g: G, q: G): G {
    if b1 then (if b2 then gr.add(g, q) else g) else if b2 then q else gr.zero
  }

  lemma ChosenIsMultiple<G(!new)>(gr: Group<G>, b1: bool, b2: bool, g: G, q: G)
    requires Abelian(gr)
    ensures ShamirState(gr, Chosen(gr, b1, b2, g, q), if b1 then 1 else 0, if b2 then 1 else 0, g, q)
  {
    hide Abelian;
    MulOne(gr, g);
    MulOne(gr, q);
    Zero(gr, g);
    Zero(gr, q);
    Zero(gr, gr.zero);
  }

  lemma ShamirStep<G(!new)>(gr: Group<G>, r: G, a: nat, b: nat, b1: bool, b2: bool, g: G, q: G)
    requires Abelian(gr) && ShamirState(gr, r, a, b, g, q)
    ensures ShamirState(gr, gr.add(gr.add(r, r), Chosen(gr, b1, b2, g, q)),
                        2 * a + (if b1 then 1 else 0), 2 * b + (if b2 then 1 else 0), g, q)
  {
    hide Abelian, Mul, Chosen;
    var c1, c2 := if b1 then 1 else 0, if b2 then 1 else 0;
    ChosenIsMultiple(gr, b1, b2, g, q);
    Rearrange(gr, Mul(gr, a, g), Mul(gr, b, q), Mul(gr, a, g), Mul(gr, b, q));
    MulAdd(gr, a, a, g);
    MulAdd(gr, b, b, q);
    assert a + a == 2 * a && b + b == 2 * b;
    Rearrange(gr, Mul(gr, 2 * a, g), Mul(gr, 2 * b, q), Mul(gr, c1, g), Mul(gr, c2, q));
    MulAdd(gr, 2 * a, c1, g);
    MulAdd(gr, 2 * b, c2, q);
  }

  /** (a >> i) * G + (b >> i) * Q. */
  ghost function CombinedAt<G>(cv: Curve<G>, q: G, a: nat, b: nat, i: nat): G {
    cv.gr.add(Mul(cv.gr, Prefix(a, i), cv.g), Mul(cv.gr, Prefix(b, i), q))
  }

  /** The addition for bit `i`, if any, does not meet equal or opposite points. */
  ghost predicate RoundClear<G>(cv: Curve<G>, q: G, a: nat, b: nat, i: nat) {
    Bit(a, i) || Bit(b, i) ==>
      var r, t := CombinedAt(cv, q, a, b, i + 1), Chosen(cv.gr, Bit(a, i), Bit(b, i), cv.g, q);
      cv.gr.add(r, r) != t && cv.gr.add(r, r) != cv.gr.neg(t)
  }

  /** No addition meets equal or opposite points. */
  ghost predicate AllClear<G>(cv: Curve<G>, q: G, a: nat, b: nat) {
    forall i: nat :: RoundClear(cv, q, a, b, i)
  }

  /** The table has every entry the scalars select: G + Q is one only when the x-coordinates differ. */
  ghost predicate TableServes<G>(cv: Curve<G>, q: G, a: nat, b: nat) {
    cv.x(cv.g) != cv.x(q) || forall i: nat :: !(Bit(a, i) && Bit(b, i))
  }

  ghost function SettingOf<G>(cv: Curve<G>, q: G): Setting {
    Setting(PairOf(cv, cv.g), PairOf(cv, q), cv.kind, cv.p)
  }

  lemma EntryIsChosen<G(!new)>(cv: Curve<G>, q: G, a: nat, b: nat, i: nat)
    requires Law(cv) && cv.g != cv.gr.zero && q != cv.gr.zero && TableServes(cv, q, a, b) && (Bit(a, i) || Bit(b, i))
    ensures var t := Chosen(cv.gr, Bit(a, i), Bit(b, i), cv.g, q);
      t != cv.gr.zero && cv.p > 0 && Entry(SettingOf(cv, q), Bit(a, i), Bit(b, i)) == PairOf(cv, t)
  {
    hide Law, Bit, Chord;
    LawParts(cv);
    if Bit(a, i) && Bit(b, i) {
      SumNonzero(cv, cv.g, q);
      GroupChord(cv, cv.g, q);
    }
  }

  lemma CombinedStep<G(!new)>(cv: Curve<G>, q: G, a: nat, b: nat, i: nat)
    requires Abelian(cv.gr)
    ensures var r := CombinedAt(cv, q, a, b, i + 1);
      CombinedAt(cv, q, a, b, i) == cv.gr.add(cv.gr.add(r, r), Chosen(cv.gr, Bit(a, i), Bit(b, i), cv.g, q))
  {
    hide Abelian, Mul, Prefix, Bit, Chosen;
    PrefixStep(a, i);
    PrefixStep(b, i);
    ShamirStep(cv.gr, CombinedAt(cv, q, a, b, i + 1), Prefix(a, i + 1), Prefix(b, i + 1), Bit(a, i), Bit(b, i), cv.g,
               q);
  }

  /** One round on coordinates reaches the next combination of the prefixes exactly when it is clear. */
  lemma RoundMeaning<G(!new)>(cv: Curve<G>, q: G, a: nat, b: nat, i: nat)
    requires Law(cv) && cv.g != cv.gr.zero && q != cv.gr.zero && TableServes(cv, q, a, b)
    requires CombinedAt(cv, q, a, b, i + 1) != cv.gr.zero
    ensures cv.p > 0
    ensures var st := Round(SettingOf(cv, q), Sum(PairOf(cv, CombinedAt(cv, q, a, b, i + 1))), Bit(a, i), Bit(b, i));
      if RoundClear(cv, q, a, b, i) then
        st == Sum(PairOf(cv, CombinedAt(cv, q, a, b, i))) && CombinedAt(cv, q, a, b, i) != cv.gr.zero
      else st == Gone
  {
    hide Law, Abelian, Bit, CombinedAt, TableServes, Entry, Chord, Tangent;
    LawParts(cv);
    var r := CombinedAt(cv, q, a, b, i + 1);
    var d := cv.gr.add(r, r);
    YNonzero(cv, r);
    GroupTangent(cv, r);
    CombinedStep(cv, q, a, b, i);
    if Bit(a, i) || Bit(b, i) {
      hide Chosen;
      var t := Chosen(cv.gr, Bit(a, i), Bit(b, i), cv.g, q);
      EntryIsChosen(cv, q, a, b, i);
      SameX(cv, d, t);
      if cv.x(d) != cv.x(t) {
        SumNonzero(cv, d, t);
        GroupChord(cv, t, d);
        Comm(cv.gr, t, d);
      }
    } else {
      Zero(cv.gr, d);
    }
  }

  /** The rounds of two scalars are those of their halves and one more. */
  lemma {:induction false} HalfPrefix(a: nat, i: nat)
    ensures Prefix(a / 2, i) == Prefix(a, i + 1) && (Bit(a / 2, i) <==> Bit(a, i + 1))
  {
    hide Prefix, Bit;
    WholePrefix(a);
    WholePrefix(a / 2);
    if i == 0 {
      PrefixParts(a, 0);
    } else {
      HalfPrefix(a, i - 1);
      PrefixParts(a / 2, i - 1);
      PrefixParts(a, i);
    }
    PrefixParts(a / 2, i);
    PrefixParts(a, i + 1);
  }

  lemma HalfRound<G>(cv: Curve<G>, q: G, a: nat, b: nat, i: nat)
    ensures RoundClear(cv, q, a / 2, b / 2, i) <==> RoundClear(cv, q, a, b, i + 1)
    ensures CombinedAt(cv, q, a / 2, b / 2, i) == CombinedAt(cv, q, a, b, i + 1)
  {
    hide Mul, Prefix, Bit, Chosen;
    HalfPrefix(a, i);
    HalfPrefix(b, i);
    HalfPrefix(a, i + 1);
    HalfPrefix(b, i + 1);
  }

  lemma HalfClear<G>(cv: Curve<G>, q: G, a: nat, b: nat)
    ensures AllClear(cv, q, a, b) <==> AllClear(cv, q, a / 2, b / 2) && RoundClear(cv, q, a, b, 0)
  {
    hide RoundClear;
    forall i: nat ensures RoundClear(cv, q, a / 2, b / 2, i) <==> RoundClear(cv, q, a, b, i + 1) {
      HalfRound(cv, q, a, b, i);
    }
    if AllClear(cv, q, a / 2, b / 2) && RoundClear(cv, q, a, b, 0) {
      forall i: nat ensures RoundClear(cv, q, a, b, i) {
        if i > 0 { assert RoundClear(cv, q, a / 2, b / 2, i - 1); }
      }
    }
  }

  lemma HalfServes<G>(cv: Curve<G>, q: G, a: nat, b: nat)
    requires TableServes(cv, q, a, b)
    ensures TableServes(cv, q, a / 2, b / 2)
  {
    hide Bit;
    forall i: nat ensures Bit(a / 2, i) && Bit(b / 2, i) ==> Bit(a, i + 1) && Bit(b, i + 1) {
      HalfPrefix(a, i);
      HalfPrefix(b, i);
    }
  }

  lemma EmptyCombination<G(!new)>(cv: Curve<G>, q: G, a: nat, b: nat, i: nat)
    requires Abelian(cv.gr) && Prefix(a, i) == 0 && Prefix(b, i) == 0
    ensures CombinedAt(cv, q, a, b, i) == cv.gr.zero
  {
    hide Abelian, Mul, Prefix;
    MulNone(cv.gr, cv.g);
    MulNone(cv.gr, q);
    Zero(cv.gr, cv.gr.zero);
  }

  /** Scalars of one bit: the combination is the table entry, and their only round adds nothing to zero. */
  lemma FirstRound<G(!new)>(cv: Curve<G>, q: G, a: nat, b: nat)
    requires Law(cv) && cv.g != cv.gr.zero && q != cv.gr.zero && TableServes(cv, q, a, b)
    requires Prefix(a, 1) == 0 && Prefix(b, 1) == 0 && (Bit(a, 0) || Bit(b, 0))
    ensures cv.p > 0 && RoundClear(cv, q, a, b, 0) && CombinedAt(cv, q, a, b, 0) != cv.gr.zero
    ensures Entry(SettingOf(cv, q), Bit(a, 0), Bit(b, 0)) == PairOf(cv, CombinedAt(cv, q, a, b, 0))
  {
    hide Law, Abelian, Bit, TableServes, Entry, Chosen, CombinedAt, Prefix;
    LawParts(cv);
    EntryIsChosen(cv, q, a, b, 0);
    CombinedStep(cv, q, a, b, 0);
    EmptyCombination(cv, q, a, b, 1);
    var t := Chosen(cv.gr, Bit(a, 0), Bit(b, 0), cv.g, q);
    Zero(cv.gr, cv.gr.zero);
    Zero(cv.gr, t);
    Negated(cv, t);
  }

  lemma FirstMeaning<G(!new)>(cv: Curve<G>, q: G, a: nat, b: nat)
    requires Law(cv) && cv.g != cv.gr.zero && q != cv.gr.zero && TableServes(cv, q, a, b)
    requires a / 2 == 0 && b / 2 == 0 && (a > 0 || b > 0)
    ensures cv.p > 0 && AllClear(cv, q, a, b) && CombinedAt(cv, q, a, b, 0) != cv.gr.zero
    ensures Joint(SettingOf(cv, q), a, b) == Sum(PairOf(cv, CombinedAt(cv, q, a, b, 0)))
  {
    hide Law, Bit, TableServes, Entry, CombinedAt, Prefix, RoundClear, AllClear;
    WholePrefix(a);
    WholePrefix(b);
    PrefixParts(a, 0);
    PrefixParts(b, 0);
    FirstRound(cv, q, a, b);
    HalfClear(cv, q, a, b);
    NothingClear(cv, q);
  }

  lemma NothingClear<G>(cv: Curve<G>, q: G)
    ensures AllClear(cv, q, 0, 0)
  {
    hide CombinedAt;
    forall i: nat ensures !Bit(0, i) { NoBits(i); }
  }

  lemma NoBits(i: nat)
    ensures !Bit(0, i) && Prefix(0, i) == 0
  {
    DivModUnique(0, Pow(2, i), 0, 0);
  }

  /** For points of the curve, double-and-add on coordinates gives the combination of the group as long as every round
      is clear; after that it is gone. */
  lemma {:induction false} JointMeaning<G(!new)>(cv: Curve<G>, q: G, a: nat, b: nat)
    requires Law(cv) && cv.g != cv.gr.zero && q != cv.gr.zero && TableServes(cv, q, a, b) && (a > 0 || b > 0)
    ensures cv.p > 0
    ensures if AllClear(cv, q, a, b) then
        CombinedAt(cv, q, a, b, 0) != cv.gr.zero
        && Joint(SettingOf(cv, q), a, b) == Sum(PairOf(cv, CombinedAt(cv, q, a, b, 0)))
      else Joint(SettingOf(cv, q), a, b) == Gone
    decreases a + b
  {
    hide Law, Bit, TableServes, CombinedAt, RoundClear, AllClear, Entry, Chord, Tangent, Prefix, Round;
    if a / 2 == 0 && b / 2 == 0 {
      FirstMeaning(cv, q, a, b);
    } else {
      HalfServes(cv, q, a, b);
      JointMeaning(cv, q, a / 2, b / 2);
      HalfClear(cv, q, a, b);
      HalfRound(cv, q, a, b, 0);
      WholePrefix(a);
      WholePrefix(b);
      PrefixParts(a, 0);
      PrefixParts(b, 0);
      if AllClear(cv, q, a / 2, b / 2) {
        RoundMeaning(cv, q, a, b, 0);
      } else {
        GoneStays(SettingOf(cv, q), a % 2 == 1, b % 2 == 1);
      }
    }
  }

  lemma GoneStays(sg: Setting, b1: bool, b2: bool)
    requires sg.p > 0
    ensures Round(sg, Gone, b1, b2) == Gone
  {
  }

  /** So the x-coordinate left is that of u1 * G + u2 * Q when every round is clear, and zero when one is not. */
  lemma JointXMeaning<G(!new)>(cv: Curve<G>, q: G, a: nat, b: nat)
    requires Law(cv) && cv.g != cv.gr.zero && q != cv.gr.zero && TableServes(cv, q, a, b) && (a > 0 || b > 0)
    ensures cv.p > 0
    ensures JointX(SettingOf(cv, q), a, b)
         == if AllClear(cv, q, a, b) then cv.x(cv.gr.add(Mul(cv.gr, a, cv.g), Mul(cv.gr, b, q))) else 0
  {
    hide Law, TableServes, AllClear, Joint, Mul, Prefix;
    JointMeaning(cv, q, a, b);
    WholePrefix(a);
    WholePrefix(b);
  }

  // ---------- the clear rounds, on scalars ----------

  function BitValue(x: nat, i: nat): nat {
    if Bit(x, i) then 1 else 0
  }

  /** The multiple of G that a * G + b * Q is, for Q = d * G. */
  function Joined(a: nat, b: nat, d: nat): nat {
    a + b * d
  }

  /** For Q = d * G: twice the prefix combination a + b * d is not the digit combination nor its negative, modulo n. */
  ghost predicate ScalarClear(n: nat, d: nat, a: nat, b: nat, i: nat)
    requires n > 0
  {
    Bit(a, i) || Bit(b, i) ==>
      var r, t := Joined(Prefix(a, i + 1), Prefix(b, i + 1), d), Joined(BitValue(a, i), BitValue(b, i), d);
      !Cong(2 * r, t, n) && !Cong(2 * r + t, 0, n)
  }

  /** No addition of the joint loop meets equal or opposite points. */
  ghost predicate ScalarsClear(n: nat, d: nat, a: nat, b: nat)
    requires n > 0
  {
    forall i: nat :: ScalarClear(n, d, a, b, i)
  }

  lemma CombinedIsMultiple<G(!new)>(cv: Curve<G>, d: nat, a: nat, b: nat)
    requires Abelian(cv.gr)
    ensures cv.gr.add(Mul(cv.gr, a, cv.g), Mul(cv.gr, b, Mul(cv.gr, d, cv.g))) == Mul(cv.gr, Joined(a, b, d), cv.g)
  {
    hide Abelian, Mul;
    MulMul(cv.gr, b, d, cv.g);
    MulAdd(cv.gr, a, b * d, cv.g);
  }

  lemma ChosenDigits<G(!new)>(cv: Curve<G>, d: nat, a: nat, b: nat, i: nat)
    requires Abelian(cv.gr)
    ensures Chosen(cv.gr, Bit(a, i), Bit(b, i), cv.g, Mul(cv.gr, d, cv.g))
         == Mul(cv.gr, Joined(BitValue(a, i), BitValue(b, i), d), cv.g)
  {
    hide Abelian, Mul, Bit, Chosen, Joined;
    ChosenIsMultiple(cv.gr, Bit(a, i), Bit(b, i), cv.g, Mul(cv.gr, d, cv.g));
    CombinedIsMultiple(cv, d, BitValue(a, i), BitValue(b, i));
  }

  /** When twice one multiple of a point is another one or its negative. */
  lemma TwiceMeets<G(!new)>(gr: Group<G>, r: nat, t: nat, n: nat, p: G)
    requires Abelian(gr) && HasOrder(gr, p, n) && n > 0
    ensures var R, T := Mul(gr, r, p), Mul(gr, t, p);
      gr.add(R, R) != T && gr.add(R, R) != gr.neg(T) <==> !Cong(2 * r, t, n) && !Cong(2 * r + t, 0, n)
  {
    hide Abelian, Mul, Cong, IsPrime, HasOrder;
    MulAdd(gr, r, r, p);
    assert r + r == 2 * r;
    MulEqualIff(gr, 2 * r, t, n, p);
    MulOpposite(gr, 2 * r, t, n, p);
  }

  lemma MultiplesMeet<G(!new)>(cv: Curve<G>, r: nat, t: nat)
    requires Law(cv) && cv.g != cv.gr.zero
    ensures var R, T := Mul(cv.gr, r, cv.g), Mul(cv.gr, t, cv.g);
      cv.n > 0 && (cv.gr.add(R, R) != T && cv.gr.add(R, R) != cv.gr.neg(T)
                   <==> !Cong(2 * r, t, cv.n) && !Cong(2 * r + t, 0, cv.n))
  {
    hide Law, Abelian, Mul, Cong, IsPrime, HasOrder;
    LawParts(cv);
    PointOrder(cv, cv.g);
    TwiceMeets(cv.gr, r, t, cv.n, cv.g);
  }

  lemma ClearIsScalar<G(!new)>(cv: Curve<G>, d: nat, a: nat, b: nat, i: nat)
    requires Law(cv) && cv.g != cv.gr.zero
    ensures cv.n > 0 && (RoundClear(cv, Mul(cv.gr, d, cv.g), a, b, i) <==> ScalarClear(cv.n, d, a, b, i))
  {
    hide Law, Abelian, Mul, Bit, Chosen, Prefix, Cong, IsPrime, BitValue, Joined;
    LawParts(cv);
    CombinedIsMultiple(cv, d, Prefix(a, i + 1), Prefix(b, i + 1));
    ChosenDigits(cv, d, a, b, i);
    MultiplesMeet(cv, Joined(Prefix(a, i + 1), Prefix(b, i + 1), d), Joined(BitValue(a, i), BitValue(b, i), d));
  }

  /** The additions are clear exactly when a condition on the scalars holds. */
  lemma ClearIsScalars<G(!new)>(cv: Curve<G>, d: nat, a: nat, b: nat)
    requires Law(cv) && cv.g != cv.gr.zero
    ensures cv.n > 0 && (AllClear(cv, Mul(cv.gr, d, cv.g), a, b) <==> ScalarsClear(cv.n, d, a, b))
  {
    hide Law, Mul, RoundClear, ScalarClear;
    LawParts(cv);
    forall i: nat ensures RoundClear(cv, Mul(cv.gr, d, cv.g), a, b, i) <==> ScalarClear(cv.n, d, a, b, i) {
      ClearIsScalar(cv, d, a, b, i);
    }
  }

  /** The table has its entry G + Q exactly for keys other than 1 and n - 1. */
  lemma TableOfKey<G(!new)>(cv: Curve<G>, d: nat)
    requires Law(cv) && cv.g != cv.gr.zero && Mul(cv.gr, d, cv.g) != cv.gr.zero
    ensures cv.n > 0
    ensures cv.x(cv.g) != cv.x(Mul(cv.gr, d, cv.g)) <==> !Cong(d, 1, cv.n) && !Cong(d + 1, 0, cv.n)
  {
    hide Law, Abelian, Mul, Cong, IsPrime;
    LawParts(cv);
    PointOrder(cv, cv.g);
    MulOne(cv.gr, cv.g);
    MulEqualIff(cv.gr, d, 1, cv.n, cv.g);
    MulOpposite(cv.gr, d, 1, cv.n, cv.g);
    SameX(cv, Mul(cv.gr, d, cv.g), cv.g);
  }
}
