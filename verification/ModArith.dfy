/** Modular addition, subtraction, shift-and-subtract reduction and multiplication. */
module ModArith {
  import opened Numbers
  import opened Words
  import opened Vli
  import opened Mult

  /** What one conditional subtraction of `m` leaves of `x`. */
  function ReduceOnce(x: int, m: nat): int {
    if x >= m then x - m else x
  }

  lemma ReduceOnceIsMod(x: nat, m: nat)
    requires 0 < m && x < 2 * m
    ensures ReduceOnce(x, m) == x % m
  {
    if x >= m { DivModUnique(x, m, 1, x - m); } else { DivModUnique(x, m, 0, x); }
  }

  lemma ReduceOnceCong(x: int, m: nat)
    requires 0 < m
    ensures Cong(ReduceOnce(x, m), x, m)
  {
    CongBy(ReduceOnce(x, m), x, m, if x >= m then -1 else 0);
  }

  /** result = (left + right) % mod for operands below mod; when only one of them is below mod
      the sum is reduced by one conditional subtraction. */
  method ModAdd(w: WordBits, result: array<nat>, left: array<nat>, right: array<nat>, mod: array<nat>, n: nat)
    requires Holds(left, n, Base(w)) && Holds(right, n, Base(w)) && Holds(mod, n, Base(w)) && n <= result.Length
    requires result != mod
    requires Val(left[..n], Base(w)) < Val(mod[..n], Base(w)) || Val(right[..n], Base(w)) < Val(mod[..n], Base(w))
    modifies result
    ensures Holds(result, n, Base(w)) && result[n..] == old(result[n..])
    ensures Val(result[..n], Base(w))
         == ReduceOnce(old(Val(left[..n], Base(w)) + Val(right[..n], Base(w))), Val(mod[..n], Base(w)))
  {
    hide Val, Base, Pow;
    var B := Base(w);
    ValBound(left[..n], B);
    ValBound(right[..n], B);
    ghost var m := mod[..n];
    var carry := Add(w, result, left, right, n);
    assert mod[..n] == m;
    var cmp := CmpUnsafe(w, mod, result, n);
    ValBound(result[..n], B);
    ValBound(m, B);
    if carry != 0 || cmp != 1 {
      var borrow := Sub(w, result, result, mod, n);
      ValBound(result[..n], B);
    }
  }

  /** result = (left - right) % mod for operands below mod. */
  method ModSub(w: WordBits, result: array<nat>, left: array<nat>, right: array<nat>, mod: array<nat>, n: nat)
    requires Holds(left, n, Base(w)) && Holds(right, n, Base(w)) && Holds(mod, n, Base(w)) && n <= result.Length
    requires result != mod
    requires Val(left[..n], Base(w)) < Val(mod[..n], Base(w)) && Val(right[..n], Base(w)) < Val(mod[..n], Base(w))
    modifies result
    ensures Holds(result, n, Base(w)) && result[n..] == old(result[n..])
    ensures Val(mod[..n], Base(w)) > 0
    ensures Val(result[..n], Base(w)) < Val(mod[..n], Base(w))
    ensures Val(result[..n], Base(w))
         == old(Val(left[..n], Base(w)) - Val(right[..n], Base(w))) % Val(mod[..n], Base(w))
  {
    hide Val, Base, Pow;
    var B := Base(w);
    ghost var m := mod[..n];
    ghost var d := Val(left[..n], B) - Val(right[..n], B);
    var borrow := Sub(w, result, left, right, n);
    assert mod[..n] == m;
    ValBound(result[..n], B);
    ValBound(m, B);
    if borrow != 0 {
      var carry := Add(w, result, result, mod, n);
      ValBound(result[..n], B);
      DivModUnique(d, Val(m, B), -1, Val(result[..n], B));
    } else {
      DivModUnique(d, Val(m, B), 0, d);
    }
  }

  // ---------- reduction ----------

  /** One word of a left shift by `bits`, and the bits carried into the next word. */
  function ShlWord(x: nat, carry: nat, w: WordBits, bits: nat): (r: (nat, nat))
    requires bits < w && x < Base(w)
  {
    ((x * Pow(2, bits)) % Base(w) + carry, x / Pow(2, w - bits))
  }

  lemma ShlWordVal(x: nat, carry: nat, w: WordBits, bits: nat)
    requires bits < w && x < Base(w) && carry < Pow(2, bits)
    ensures var (word, next) := ShlWord(x, carry, w, bits);
      next < Pow(2, bits) && word < Base(w) && word + Base(w) * next == x * Pow(2, bits) + carry
  {
    hide Base, Pow;
    var p, q := Pow(2, bits), Pow(2, w - bits);
    PowAdd(2, bits, w - bits);
    DivModEquation(x, q);
    ShlSplit(x, p, q, x / q, x % q, carry);
  }

  lemma DivModEquation(x: int, q: int)
    requires q > 0
    ensures x == q * (x / q) + x % q && 0 <= x % q < q
  {
  }

  lemma ShlSplit(x: nat, p: nat, q: nat, hi: int, lo: int, carry: nat)
    requires p > 0 && q > 0 && x < p * q && x == q * hi + lo && 0 <= lo < q && carry < p
    ensures (x * p) % (p * q) == p * lo && hi < p
    ensures p * lo + carry < p * q && (p * lo + carry) + (p * q) * hi == x * p + carry
  {
    MulDistrib(p, q * hi, lo);
    MulAssoc(p, q, hi);
    MulMonotone(p, 0, lo);
    MulMonotone(p, lo + 1, q);
    MulDistrib(p, lo, 1);
    DivModUnique(x * p, p * q, hi, p * lo);
    MulCancelLess(q, hi, p);
  }

  /** Fills words n .. 2n of `mm` with mod << bits, whose carry out is zero. */
  method ShiftInto(w: WordBits, mm: array<nat>, mod: array<nat>, n: nat, bits: nat)
    requires Holds(mod, n, Base(w)) && 2 * n <= mm.Length && mm != mod && bits < w
    requires Val(mod[..n], Base(w)) * Pow(2, bits) < Pow(Base(w), n)
    modifies mm
    ensures mm[..n] == old(mm[..n]) && IsWords(mm[n..2 * n], Base(w))
    ensures Val(mm[n..2 * n], Base(w)) == Val(mod[..n], Base(w)) * Pow(2, bits)
  {
    hide Val, Base, Pow, ShlWord;
    var B := Base(w);
    if bits == 0 {
      Set(mm, n, mod, n);
      assert mm[n..2 * n] == mod[..n] by { assert n + n == 2 * n; }
      PowZero(2);
    } else {
      var carry := 0;
      ghost var done: seq<nat> := [];
      ghost var p := Pow(2, bits);
      ValZeros(done, B);
      ValZeros(mod[..0], B);
      for i := 0 to n
        invariant |done| == i && IsWords(done, B) && carry < p
        invariant forall j :: 0 <= j < n ==> mm[j] == old(mm[j])
        invariant forall j :: n <= j < n + i ==> mm[j] == done[j - n]
        invariant Val(done, B) + carry * Pow(B, i) == Val(mod[..i], B) * p
      {
        ghost var c := carry;
        ShlWordVal(mod[i], carry, w, bits);
        var (word, next) := ShlWord(mod[i], carry, w, bits);
        mm[n + i] := word;
        carry := next;
        ValSnoc(done, word, B);
        ValPrefix(mod[..n], i, B);
        assert mod[..n][..i + 1] == mod[..i + 1] && mod[..n][..i] == mod[..i];
        ShlStep(Val(done, B), Val(mod[..i], B), mod[i], c, word, next, p, B, Pow(B, i));
        PowStep(B, i);
        done := done + [word];
      }
      assert mm[n..2 * n] == done;
      assert carry == 0 by {
        if carry >= 1 { MulMonotone(Pow(B, n), 1, carry); }
      }
    }
  }

  lemma ShlStep(done: nat, pre: nat, x: nat, c: nat, word: nat, next: nat, p: nat, B: nat, q: nat)
    requires done + c * q == pre * p && word + B * next == x * p + c
    ensures (done + word * q) + next * (B * q) == (pre + x * q) * p
  {
    MulDistrib(q, word, B * next);
    MulDistrib(q, x * p, c);
    MulDistrib(p, pre, x * q);
    MulAssoc(next, B, q);
    MulAssoc(x, p, q);
    MulAssoc(x, q, p);
  }

  /** Halves the lower half and moves the bit of the upper half into its top. */
  method HalveLower(w: WordBits, mm: array<nat>, n: nat) returns (ghost lost: nat, ghost half: nat)
    requires n > 0 && Holds(mm, 2 * n, Base(w))
    modifies mm
    ensures Holds(mm, n, Base(w)) && mm[n..] == old(mm[n..]) && lost <= 1
    ensures old(Val(mm[..n], Base(w))) == 2 * half + lost
    ensures Val(mm[..n], Base(w)) == half + mm[n] % 2 * HighBit(w) * Pow(Base(w), n - 1)
  {
    hide Val, Base, Pow;
    ghost var lo, hi := mm[..n], mm[n..];
    lost := lo[0] % 2;
    assert mm[0..0 + n] == lo;
    RShift1(w, mm, 0, n);
    ghost var t := mm[..n];
    assert mm[0..0 + n] == t && mm[n..] == hi;
    half := Val(t, Base(w));
    TopBitFree(lo, t, n, w);
    var moved := mm[n] % 2;
    mm[n - 1] := mm[n - 1] + moved * HighBit(w); // a word below the high bit `|=` the high bit
    assert mm[..n] == t[..n - 1] + [t[n - 1] + moved * HighBit(w)] && mm[n..] == hi;
    AddHighBit(t, moved, n, w);
  }

  /** Halves a 2n-word number by shifting its two halves and moving the bit between them. */
  method HalveDouble(w: WordBits, mm: array<nat>, n: nat) returns (ghost lost: nat)
    requires n > 0 && Holds(mm, 2 * n, Base(w))
    modifies mm
    ensures Holds(mm, 2 * n, Base(w)) && lost <= 1
    ensures old(Val(mm[..2 * n], Base(w))) == 2 * Val(mm[..2 * n], Base(w)) + lost
  {
    hide Val, Base, Pow, HighBit;
    var B := Base(w);
    ghost var s := mm[..2 * n];
    ghost var lo, hi := s[..n], s[n..];
    assert mm[..n] == lo && mm[n..][..n] == hi;
    ValSplit(s, n, B);
    ghost var half;
    lost, half := HalveLower(w, mm, n);
    ghost var lo2 := mm[..n];
    assert mm[n..n + n] == hi;
    RShift1(w, mm, n, n);
    ghost var t := mm[..2 * n];
    assert t[..n] == lo2 && t[n..] == mm[n..n + n];
    ValSplit(t, n, B);
    PowStep(B, n - 1);
    HalveParts(Val(lo, B), half, Val(hi, B), Val(t[n..], B), hi[0] % 2, lost, Pow(B, n - 1), HighBit(w), B, Pow(B, n));
  }

  lemma HalveParts(lo: nat, lo': nat, hi: nat, hi': nat, moved: nat, lost: nat, p: nat, h: nat, B: nat, q: nat)
    requires q == B * p && B == 2 * h && lo == 2 * lo' + lost && hi == 2 * hi' + moved
    ensures lo + q * hi == 2 * ((lo' + moved * h * p) + q * hi') + lost
  {
    MulEqual(q, hi, 2 * hi' + moved);
    MulEqual(p, B, 2 * h);
    MulEqual(moved, q, 2 * (h * p));
  }

  lemma AddHighBit(s: seq<nat>, moved: nat, n: nat, w: WordBits)
    requires |s| == n > 0
    ensures Val(s[..n - 1] + [s[n - 1] + moved * HighBit(w)], Base(w))
         == Val(s, Base(w)) + moved * HighBit(w) * Pow(Base(w), n - 1)
  {
    hide Val, Base, Pow;
    var B := Base(w);
    assert s == s[..n - 1] + [s[n - 1]];
    ValSnoc(s[..n - 1], s[n - 1], B);
    ValSnoc(s[..n - 1], s[n - 1] + moved * HighBit(w), B);
    MulDistrib(Pow(B, n - 1), s[n - 1], moved * HighBit(w));
  }

  /** After a shift right by one, the top bit of the top word is clear. */
  lemma TopBitFree(s: seq<nat>, t: seq<nat>, n: nat, w: WordBits)
    requires |s| == |t| == n > 0 && IsWords(s, Base(w))
    requires 2 * Val(t, Base(w)) <= Val(s, Base(w))
    ensures t[n - 1] < HighBit(w)
  {
    hide Val, Pow;
    var B, p := Base(w), Pow(Base(w), n - 1);
    ValBound(s, B);
    PowStep(B, n - 1);
    assert t == t[..n - 1] + [t[n - 1]];
    ValSnoc(t[..n - 1], t[n - 1], B);
    assert 2 * (t[n - 1] * p) < 2 * (HighBit(w) * p) by { MulAssoc(2, HighBit(w), p); }
    MulCancelLess(p, t[n - 1], HighBit(w));
  }

  lemma StartRange(m: nat, b: nat, n: nat, w: WordBits, shift: nat)
    requires IsBitLength(m, b) && b > 0 && n > 0 && w * (n - 1) < b <= w * n && shift == 2 * (w * n) - b
    ensures shift - w * n < w
    ensures m * Pow(2, shift - w * n) < Pow(Base(w), n)
    ensures Pow(Base(w), 2 * n) <= m * Pow(2, shift + 1)
    ensures m * Pow(2, shift) == Pow(Base(w), n) * (m * Pow(2, shift - w * n))
  {
    hide Base, Pow;
    assert w * n == w * (n - 1) + w;
    PowMul(2, w, n);
    PowMul(2, w, 2 * n);
    assert w * (2 * n) == 2 * (w * n);
    ShiftedRange(m, b, w * n, shift - w * n);
  }

  lemma ShiftedRange(m: nat, b: nat, full: nat, c: nat)
    requires IsBitLength(m, b) && b > 0 && b + c == full
    ensures m * Pow(2, c) < Pow(2, full)
    ensures Pow(2, 2 * full) <= m * Pow(2, full + c + 1)
    ensures m * Pow(2, full + c) == Pow(2, full) * (m * Pow(2, c))
  {
    hide Pow;
    PowAdd(2, b, c);
    MulStrictMonotone(Pow(2, c), m, Pow(2, b));
    PowAdd(2, b - 1, full + c + 1);
    assert b - 1 + (full + c + 1) == 2 * full;
    MulMonotone(Pow(2, full + c + 1), Pow(2, b - 1), m);
    PowAdd(2, full, c);
    MulEqual(m, Pow(2, full + c), Pow(2, full) * Pow(2, c));
    MulAssoc(m, Pow(2, full), Pow(2, c));
    MulAssoc(Pow(2, full), m, Pow(2, c));
  }

  /** One round of the reduction: subtracting m * 2^shift when that does not borrow keeps the residue
      and halves the range. */
  lemma RoundStep(x: nat, m: nat, t: int, diff: int, product: nat)
    requires m > 0 && Cong(x, product, m) && x < 2 * (m * t) && diff == x - m * t
    ensures x >= m * t ==> diff >= 0 && diff < m * t && Cong(diff, product, m)
  {
    var back := -t;
    assert m * back == -(m * t);
    CongBy(diff, x, m, back);
    CongTrans(diff, x, product, m);
  }

  /** Subtracts mm = m * t from the number in v[index] into the other buffer; when there was no borrow
      the other buffer becomes the current one. */
  method SubtractRound(w: WordBits, v: seq<array<nat>>, index: nat, mm: array<nat>, n: nat,
                       ghost m: nat, ghost t: nat, ghost prod: nat) returns (next: nat)
    requires |v| == 2 && v[0] != v[1] && index <= 1 && mm !in v && m > 0
    requires v[0].Length == v[1].Length == n && Holds(v[index], n, Base(w)) && Holds(mm, n, Base(w))
    requires Val(mm[..n], Base(w)) == m * t
    requires Cong(Val(v[index][..n], Base(w)), prod, m) && Val(v[index][..n], Base(w)) < 2 * (m * t)
    modifies v[1 - index]
    ensures next <= 1 && Holds(v[next], n, Base(w))
    ensures Cong(Val(v[next][..n], Base(w)), prod, m) && Val(v[next][..n], Base(w)) < m * t
  {
    hide Val, Base, Pow;
    var B := Base(w);
    ghost var xs := v[index][..n];
    ghost var x := Val(xs, B);
    ghost var sub := mm[..n];
    var borrow := Sub(w, v[1 - index], v[index], mm, n);
    assert v[index][..n] == xs && mm[..n] == sub;
    ValBound(v[1 - index][..n], B);
    ValBound(xs, B);
    ghost var diff := Val(v[1 - index][..n], B);
    RoundStep(x, m, t, x - m * t, prod);
    next := if index == borrow then 1 else 0; // !(index ^ borrow)
    assert borrow == 0 ==> next == 1 - index && diff == x - m * t;
    assert borrow == 1 ==> next == index && x < m * t;
  }

  lemma DoubleMultiple(m: nat, e: nat)
    ensures m * Pow(2, e + 1) == 2 * (m * Pow(2, e))
  {
    PowStep(2, e);
    MulAssoc(m, 2, Pow(2, e));
  }

  /** The main loop of the reduction: m shifted down from `start` to 0, subtracted wherever it fits. */
  method ReduceLoop(w: WordBits, v: seq<array<nat>>, mm: array<nat>, n: nat, start: nat,
                    ghost m: nat, ghost prod: nat) returns (index: nat)
    requires n > 0 && |v| == 2 && v[0] != v[1] && mm !in v && m > 0
    requires v[0].Length == v[1].Length == 2 * n && Holds(v[1], 2 * n, Base(w)) && Holds(mm, 2 * n, Base(w))
    requires Val(mm[..2 * n], Base(w)) == m * Pow(2, start)
    requires Val(v[1][..2 * n], Base(w)) == prod < m * Pow(2, start + 1)
    modifies v[0], v[1], mm
    ensures index <= 1 && Holds(v[index], 2 * n, Base(w))
    ensures Val(v[index][..2 * n], Base(w)) == prod % m
  {
    hide Val, Base, Pow;
    var B := Base(w);
    index := 1;
    CongRefl(prod, m);
    var shift: int := start;
    while shift >= 0
      invariant -1 <= shift && index <= 1
      invariant Holds(mm, 2 * n, B) && Holds(v[index], 2 * n, B)
      invariant shift >= 0 ==> Val(mm[..2 * n], B) == m * Pow(2, shift)
      invariant Cong(Val(v[index][..2 * n], B), prod, m)
      invariant Val(v[index][..2 * n], B) < m * Pow(2, shift + 1)
      decreases shift
    {
      DoubleMultiple(m, shift);
      index := SubtractRound(w, v, index, mm, 2 * n, m, Pow(2, shift), prod);
      ghost var current := v[index][..2 * n];
      ghost var lost := HalveDouble(w, mm, n);
      assert v[index][..2 * n] == current;
      shift := shift - 1;
      if shift >= 0 { DoubleMultiple(m, shift); }
    }
    PowZero(2);
    CongResidue(Val(v[index][..2 * n], B), prod, m);
  }

  /** The modulus shifted left until its highest bit is the highest of 2n words. */
  method StartMultiple(w: WordBits, mod: array<nat>, n: nat) returns (mm: array<nat>, shift: nat)
    requires n > 0 && Holds(mod, n, Base(w)) && mod[n - 1] != 0
    ensures fresh(mm) && mm.Length == 2 * n && Holds(mm, 2 * n, Base(w)) && Val(mod[..n], Base(w)) > 0
    ensures Val(mm[..2 * n], Base(w)) == Val(mod[..n], Base(w)) * Pow(2, shift)
    ensures Pow(Base(w), 2 * n) <= Val(mod[..n], Base(w)) * Pow(2, shift + 1)
  {
    hide Val, Base, Pow, IsBitLength;
    var B := Base(w);
    ghost var m := Val(mod[..n], B);
    assert m > 0 by { ValPositive(mod[..n], n - 1, B); }
    mm := new nat[2 * n];
    var b := NumBits(w, mod, n);
    BitLengthPositive(m, b);
    shift := 2 * (w * n) - b;
    StartRange(m, b, n, w, shift);
    Clear(mm, n); // word_shift is n and bit_shift is shift - w * n
    ShiftInto(w, mm, mod, n, shift - w * n);
    UpperHalf(mm[..2 * n], n, B);
    assert mm[..2 * n][n..] == mm[n..2 * n];
  }

  /** Copies the low n words of a number below B^n. */
  method SetLow(w: WordBits, result: array<nat>, a: array<nat>, n: nat)
    requires Holds(a, 2 * n, Base(w)) && n <= result.Length && result != a
    requires Val(a[..2 * n], Base(w)) < Pow(Base(w), n)
    modifies result
    ensures Holds(result, n, Base(w)) && result[n..] == old(result[n..])
    ensures Val(result[..n], Base(w)) == old(Val(a[..2 * n], Base(w)))
  {
    hide Val, Base, Pow;
    ghost var s := a[..2 * n];
    LowWords(s, n, Base(w));
    Set(result, 0, a, n);
    assert result[..n] == s[..n] by { assert result[0..0 + n] == result[..n]; }
  }

  /** result = product % mod, for a 2n-word product and a modulus with a nonzero top word.
      The words of `product` are used as scratch space. */
  method MMod(w: WordBits, result: array<nat>, product: array<nat>, mod: array<nat>, n: nat)
    requires n > 0 && Holds(mod, n, Base(w)) && mod[n - 1] != 0
    requires Holds(product, 2 * n, Base(w)) && product.Length == 2 * n && n <= result.Length
    requires result != product && mod != product && mod != result
    modifies result, product
    ensures Holds(result, n, Base(w)) && result[n..] == old(result[n..])
    ensures Val(mod[..n], Base(w)) > 0
    ensures Val(result[..n], Base(w)) == old(Val(product[..2 * n], Base(w))) % Val(mod[..n], Base(w))
  {
    hide Val, Base, Pow;
    ghost var mw, tail := mod[..n], result[n..];
    ghost var m, prod := Val(mw, Base(w)), Val(product[..2 * n], Base(w));
    ValBound(product[..2 * n], Base(w));
    ValBound(mw, Base(w));
    var mm, shift := StartMultiple(w, mod, n);
    var tmp := new nat[2 * n];
    var v := [tmp, product];
    var index := ReduceLoop(w, v, mm, n, shift, m, prod);
    assert mod[..n] == mw && result[n..] == tail;
    RemainderRange(prod, m);
    SetLow(w, result, v[index], n);
    assert mod[..n] == mw;
  }

  lemma RemainderRange(x: int, m: nat)
    requires m > 0
    ensures 0 <= x % m < m
  {
  }

  lemma BitLengthPositive(x: nat, b: nat)
    requires IsBitLength(x, b) && x > 0
    ensures b > 0
  {
  }

  lemma UpperHalf(s: seq<nat>, n: nat, B: nat)
    requires |s| == 2 * n && forall j :: 0 <= j < n ==> s[j] == 0
    ensures Val(s, B) == Pow(B, n) * Val(s[n..], B)
  {
    ValSplit(s, n, B);
    ValZeros(s[..n], B);
  }

  /** A number below B^n sits in its low n words. */
  lemma LowWords(s: seq<nat>, n: nat, B: nat)
    requires n <= |s| && IsWords(s, B) && B > 0 && Val(s, B) < Pow(B, n)
    ensures Val(s[..n], B) == Val(s, B)
  {
    hide Val;
    ValSplit(s, n, B);
    if Val(s[n..], B) > 0 { MulMonotone(Pow(B, n), 1, Val(s[n..], B)); }
  }

  /** result = (left * right) % mod. */
  method ModMult(w: WordBits, result: array<nat>, left: array<nat>, right: array<nat>, mod: array<nat>, n: nat)
    requires 0 < n <= Base(w) && n <= result.Length && result != mod
    requires Holds(left, n, Base(w)) && Holds(right, n, Base(w)) && Holds(mod, n, Base(w)) && mod[n - 1] != 0
    modifies result
    ensures Holds(result, n, Base(w)) && result[n..] == old(result[n..])
    ensures Val(mod[..n], Base(w)) > 0
    ensures Val(result[..n], Base(w))
         == old(Val(left[..n], Base(w)) * Val(right[..n], Base(w))) % Val(mod[..n], Base(w))
  {
    hide Val, Base;
    var product := new nat[2 * n];
    Multiply(w, product, left, right, n);
    MMod(w, result, product, mod, n);
  }

  /** result = left^2 % mod. */
  method ModSquare(w: WordBits, result: array<nat>, left: array<nat>, mod: array<nat>, n: nat)
    requires 0 < n <= Base(w) && n <= result.Length && result != mod
    requires Holds(left, n, Base(w)) && Holds(mod, n, Base(w)) && mod[n - 1] != 0
    modifies result
    ensures Holds(result, n, Base(w)) && result[n..] == old(result[n..])
    ensures Val(mod[..n], Base(w)) > 0
    ensures Val(result[..n], Base(w))
         == old(Val(left[..n], Base(w)) * Val(left[..n], Base(w))) % Val(mod[..n], Base(w))
  {
    hide Val, Base;
    var product := new nat[2 * n];
    Square(w, product, left, n);
    MMod(w, result, product, mod, n);
  }
}
