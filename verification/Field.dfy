/** Arithmetic of the field of integers modulo p on word arrays: what each operation does to the residues held. */
module Field {
  import opened Numbers
  import opened Words
  import opened Vli
  import opened ModArith
  import ModInv

  /** The modulus `p` of the field, as `n` words with a nonzero top word and value `m`. */
  ghost predicate Modulus(w: WordBits, p: array<nat>, n: nat, m: nat)
    reads p
  {
    0 < n <= Base(w) && Holds(p, n, Base(w)) && p[n - 1] != 0 && Val(p[..n], Base(w)) == m && m > 0
  }

  /** The array `a` holds the residue of the integer `r`. */
  ghost predicate Residue(w: WordBits, a: array<nat>, n: nat, r: int, m: nat)
    reads a
    ensures Residue(w, a, n, r, m) ==> n <= a.Length
  {
    Holds(a, n, Base(w)) && m > 0 && Val(a[..n], Base(w)) < m && Cong(Val(a[..n], Base(w)), r, m)
  }

  /** Multiplication by name, so that the formulas below can be followed without expanding products. */
  ghost function Times(x: int, y: int): int {
    x * y
  }

  lemma TimesZero(x: int)
    ensures Times(0, x) == 0 && Times(x, 0) == 0
  {
  }

  lemma TimesIs(x: int, y: int)
    ensures Times(x, y) == x * y
  {
  }

  method FieldSub(w: WordBits, result: array<nat>, left: array<nat>, right: array<nat>, p: array<nat>, n: nat,
                  ghost l: int, ghost r: int, ghost m: nat)
    requires Modulus(w, p, n, m) && Residue(w, left, n, l, m) && Residue(w, right, n, r, m)
    requires n <= result.Length && result != p
    modifies result
    ensures Residue(w, result, n, l - r, m)
  {
    hide Val, Base;
    ghost var d := Val(left[..n], Base(w)) - Val(right[..n], Base(w));
    CongSub(Val(left[..n], Base(w)), l, Val(right[..n], Base(w)), r, m);
    ModSub(w, result, left, right, p, n);
    CongMod(d, m);
    CongTrans(d % m, d, l - r, m);
  }

  method FieldAdd(w: WordBits, result: array<nat>, left: array<nat>, right: array<nat>, p: array<nat>, n: nat,
                  ghost l: int, ghost r: int, ghost m: nat)
    requires Modulus(w, p, n, m) && Residue(w, left, n, l, m) && Residue(w, right, n, r, m)
    requires n <= result.Length && result != p
    modifies result
    ensures Residue(w, result, n, l + r, m)
  {
    hide Val, Base;
    ghost var s := Val(left[..n], Base(w)) + Val(right[..n], Base(w));
    CongAdd(Val(left[..n], Base(w)), l, Val(right[..n], Base(w)), r, m);
    ModAdd(w, result, left, right, p, n);
    ReduceOnceCong(s, m);
    CongTrans(ReduceOnce(s, m), s, l + r, m);
  }

  method FieldMul(w: WordBits, result: array<nat>, left: array<nat>, right: array<nat>, p: array<nat>, n: nat,
                  ghost l: int, ghost r: int, ghost m: nat)
    requires Modulus(w, p, n, m) && Residue(w, left, n, l, m) && Residue(w, right, n, r, m)
    requires n <= result.Length && result != p
    modifies result
    ensures Residue(w, result, n, Times(l, r), m)
  {
    hide Val, Base;
    ghost var s := Val(left[..n], Base(w)) * Val(right[..n], Base(w));
    CongMul(Val(left[..n], Base(w)), l, Val(right[..n], Base(w)), r, m);
    ModMult(w, result, left, right, p, n);
    CongMod(s, m);
    CongTrans(s % m, s, l * r, m);
    DivModEquation(s, m);
  }

  method FieldSquare(w: WordBits, result: array<nat>, left: array<nat>, p: array<nat>, n: nat, ghost l: int,
                     ghost m: nat)
    requires Modulus(w, p, n, m) && Residue(w, left, n, l, m)
    requires n <= result.Length && result != p
    modifies result
    ensures Residue(w, result, n, Times(l, l), m)
  {
    hide Val, Base;
    ghost var s := Val(left[..n], Base(w)) * Val(left[..n], Base(w));
    CongMul(Val(left[..n], Base(w)), l, Val(left[..n], Base(w)), l, m);
    ModSquare(w, result, left, p, n);
    CongMod(s, m);
    CongTrans(s % m, s, l * l, m);
    DivModEquation(s, m);
  }

  method FieldSet(w: WordBits, dest: array<nat>, src: array<nat>, n: nat, ghost r: int, ghost m: nat)
    requires Residue(w, src, n, r, m) && n <= dest.Length && dest != src
    modifies dest
    ensures Residue(w, dest, n, r, m)
  {
    hide Val, Base;
    ghost var s := src[..n];
    Set(dest, 0, src, n);
    assert dest[..n] == s by { assert dest[0..0 + n] == dest[..n]; }
  }

  /** A scratch number as long as the modulus. */
  method NewTemp(w: WordBits, p: array<nat>, n: nat, ghost m: nat) returns (t: array<nat>)
    requires Modulus(w, p, n, m)
    ensures fresh(t) && t.Length == n
  {
    t := new nat[n];
  }

  lemma ResidueCong(w: WordBits, a: array<nat>, n: nat, r: int, r': int, m: nat)
    requires Residue(w, a, n, r, m) && Cong(r, r', m)
    ensures Residue(w, a, n, r', m)
  {
    hide Val, Cong;
    CongTrans(Val(a[..n], Base(w)), r, r', m);
  }

  /** The value held is the least residue. */
  lemma ResidueValue(w: WordBits, a: array<nat>, n: nat, r: nat, m: nat)
    requires Residue(w, a, n, r, m) && r < m
    ensures Val(a[..n], Base(w)) == r
  {
    hide Val, Cong;
    SmallEqual(Val(a[..n], Base(w)), r, m);
  }

  /** uECC_vli_isZero on a residue. */
  method FieldIsZero(w: WordBits, a: array<nat>, n: nat, ghost r: int, ghost m: nat) returns (zero: bool)
    requires Residue(w, a, n, r, m)
    ensures zero <==> Cong(r, 0, m)
  {
    hide Val, Base, Cong;
    ghost var v := Val(a[..n], Base(w));
    zero := IsZero(w, a, n);
    if v == 0 {
      CongSym(0, r, m);
    } else {
      SmallNonzero(v, m);
      if Cong(r, 0, m) { CongTrans(v, r, 0, m); }
    }
  }

  /** a = a / 2: p is added first when a is odd, and the carry of that comes back as the top bit. */
  method FieldHalf(w: WordBits, a: array<nat>, p: array<nat>, n: nat, ghost r: int, ghost m: nat) returns (ghost h: int)
    requires Modulus(w, p, n, m) && Residue(w, a, n, r, m) && a != p && m % 2 == 1
    modifies a
    ensures Residue(w, a, n, h, m) && Cong(2 * h, r, m)
  {
    hide Val, Base, Cong, ModInv.HalfMod;
    ghost var v := Val(a[..n], Base(w));
    ModInv.Update(w, a, p, n);
    h := ModInv.HalfMod(v, m);
    ModInv.HalfModExact(v, m);
    CongBy(2 * h, v, m, if 2 * h == v then 0 else 1);
    CongTrans(2 * h, v, r, m);
    CongRefl(h, m);
  }

  /** z = 1 / z; zero stays zero. */
  method FieldInvert(w: WordBits, z: array<nat>, p: array<nat>, n: nat, ghost r: int, ghost m: nat)
    returns (ghost i: int)
    requires Modulus(w, p, n, m) && Residue(w, z, n, r, m) && z != p && m % 2 == 1 && IsPrime(m)
    modifies z
    ensures Residue(w, z, n, i, m)
    ensures Cong(r, 0, m) ==> i == 0
    ensures !Cong(r, 0, m) ==> Cong(i * r, 1, m)
  {
    hide Val, Base, Cong, IsPrime, Gcd, ModInv.Invert;
    ghost var v := Val(z[..n], Base(w));
    PrimeAboveOne(m);
    ModInv.Inverse(w, z, z, p, n);
    i := Val(z[..n], Base(w));
    CongRefl(i, m);
    if v == 0 {
      CongSym(0, r, m);
    } else {
      PrimeCoprime(v, m);
      SmallNonzero(v, m);
      if Cong(r, 0, m) { CongTrans(v, r, 0, m); }
      CongSym(v, r, m);
      CongScale(i, r, v, m);
      CongTrans(i * r, i * v, 1, m);
    }
  }
}
