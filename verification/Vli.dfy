/** Multi-word integers held in arrays of machine words: comparison, shifting, addition
    and subtraction with hand-written carries, all working in place. */
module Vli {
  import opened Numbers
  import opened Words

  /** The number in words `off .. off + n` of `a`. */
  ghost function At(a: array<nat>, off: nat, n: nat, B: nat): nat
    requires off + n <= a.Length
    reads a
  {
    Val(a[off..off + n], B)
  }

  /** The first `n` words of `a` are machine words. */
  ghost predicate Holds(a: array<nat>, n: nat, B: nat)
    reads a
  {
    n <= a.Length && IsWords(a[..n], B)
  }

  // ---------- reading ----------

  /** Bit `i` of `x`. */
  predicate Bit(x: nat, i: nat) {
    DigitAt(x, 2, i) == 1
  }

  method IsZero(w: WordBits, vli: array<nat>, n: nat) returns (zero: bool)
    requires Holds(vli, n, Base(w))
    ensures zero <==> Val(vli[..n], Base(w)) == 0
  {
    var bits := false; // some word read so far has a bit set
    for i := 0 to n
      invariant bits <==> exists j :: 0 <= j < i && vli[j] != 0
    {
      bits := bits || vli[i] != 0;
    }
    zero := !bits;
    if bits {
      var j :| 0 <= j < n && vli[j] != 0;
      ValPositive(vli[..n], j, Base(w));
    } else {
      ValZeros(vli[..n], Base(w));
    }
  }

  method Equal(w: WordBits, left: array<nat>, right: array<nat>, n: nat) returns (same: bool)
    requires Holds(left, n, Base(w)) && Holds(right, n, Base(w))
    ensures same <==> Val(left[..n], Base(w)) == Val(right[..n], Base(w))
  {
    var diff := false;
    var i := n;
    while i > 0
      invariant 0 <= i <= n
      invariant diff <==> left[i..n] != right[i..n]
    {
      i := i - 1;
      diff := diff || left[i] != right[i];
      assert left[i..n] == [left[i]] + left[i + 1..n];
      assert right[i..n] == [right[i]] + right[i + 1..n];
    }
    same := !diff;
    assert left[0..n] == left[..n] && right[0..n] == right[..n];
    if Val(left[..n], Base(w)) == Val(right[..n], Base(w)) {
      ValInjective(left[..n], right[..n], Base(w));
    }
  }

  /** The sign of `left - right`. */
  method CmpUnsafe(w: WordBits, left: array<nat>, right: array<nat>, n: nat) returns (sign: int)
    requires Holds(left, n, Base(w)) && Holds(right, n, Base(w))
    ensures -1 <= sign <= 1
    ensures sign == 1 <==> Val(left[..n], Base(w)) > Val(right[..n], Base(w))
    ensures sign == -1 <==> Val(left[..n], Base(w)) < Val(right[..n], Base(w))
  {
    ghost var l, r := left[..n], right[..n];
    var i := n - 1;
    while i >= 0
      invariant -1 <= i < n
      invariant forall j :: i < j < n ==> l[j] == r[j]
    {
      if left[i] > right[i] {
        ValLess(r, l, i, Base(w));
        return 1;
      } else if left[i] < right[i] {
        ValLess(l, r, i, Base(w));
        return -1;
      }
      i := i - 1;
    }
    assert l == r;
    return 0;
  }

  lemma DivShift(x: nat, p: nat, q: nat, low: nat)
    requires p > 0 && q > 0 && low < p
    ensures (low + p * x) / (p * q) == x / q
  {
    var a, b := x / q, x % q;
    assert x == q * a + b;
    assert p * x == (p * q) * a + p * b by { MulAssoc(p, q, a); }
    assert low + p * b < p * q by { MulMonotone(p, b + 1, q); }
    DivModUnique(low + p * x, p * q, a, low + p * b);
  }

  lemma AddMultiple(s: nat, q: nat, k: nat)
    requires q > 0
    ensures (s + q * k) / q == s / q + k
  {
    MulDistrib(q, s / q, k);
    DivModUnique(s + q * k, q, s / q + k, s % q);
  }

  lemma ModMultiple(x: int, D: int, k: int)
    requires D > 0
    ensures (x + D * k) % D == x % D
  {
    MulDistrib(D, x / D, k);
    DivModUnique(x + D * k, D, x / D + k, x % D);
  }

  lemma FactorBase(q: int, D: int, rest: int, h: int, p: int)
    requires p == q * (D * rest)
    ensures p * h == q * (D * (rest * h))
  {
    MulEqual(h, p, q * (D * rest));
    MulAssoc(q, D * rest, h);
    MulAssoc(D, rest, h);
  }

  /** Digit `i` of `x` in base `D`. */
  function DigitAt(x: nat, D: nat, i: nat): nat
    requires D > 0
  {
    (x / Pow(D, i)) % D
  }

  lemma HighDigits(s: nat, D: nat, c: nat, j: nat, h: nat)
    requires D > 0 && j < c
    ensures DigitAt(s + Pow(D, c) * h, D, j) == DigitAt(s, D, j)
  {
    hide Pow;
    var q, rest := Pow(D, j), Pow(D, c - j - 1);
    PowAdd(D, j, c - j);
    PowStep(D, c - j - 1);
    FactorBase(q, D, rest, h, Pow(D, c));
    var k := rest * h;
    AddMultiple(s, q, D * k);
    ModMultiple(s / q, D, k);
  }

  /** A digit of a number made of words of `c` digits each is a digit of one word. */
  lemma DigitOfWord(s: seq<nat>, D: nat, c: nat, B: nat, k: nat, j: nat)
    requires D > 0 && k < |s| && j < c && B == Pow(D, c) && IsWords(s, B)
    ensures DigitAt(Val(s, B), D, c * k + j) == DigitAt(s[k], D, j)
  {
    hide Val, Pow;
    var low, hi, p, q := Val(s[..k], B), s[k..], Pow(B, k), Pow(D, j);
    var x := Val(hi, B);
    assert Val(s, B) == low + p * x by { ValSplit(s, k, B); }
    assert low < p by { ValBound(s[..k], B); }
    assert Pow(D, c * k + j) == p * q by { PowMul(D, c, k); PowAdd(D, c * k, j); }
    DivShift(x, p, q, low);
    ValCons(hi, B);
    HighDigits(s[k], D, c, j, Val(hi[1..], B));
  }

  /** The word and the position inside it that hold bit `bit`. */
  function Locate(bit: nat, w: WordBits): (r: (nat, nat))
    ensures bit == w * r.0 + r.1 && r.1 < w
  {
    (bit / w, bit % w)
  }

  method TestBit(w: WordBits, vli: array<nat>, bit: nat, ghost n: nat) returns (isSet: bool)
    requires Holds(vli, n, Base(w)) && bit < w * n
    ensures isSet <==> Bit(Val(vli[..n], Base(w)), bit)
  {
    hide Locate, Val, Pow, Base, DigitAt;
    var (k, j) := Locate(bit, w);
    assert k < n by { if k >= n { MulMonotone(w, n, k); } }
    DigitOfWord(vli[..n], 2, w, Base(w), k, j);
    isSet := Bit(vli[k], j);
  }

  method NumDigits(w: WordBits, vli: array<nat>, n: nat) returns (d: nat)
    requires Holds(vli, n, Base(w))
    ensures d <= n && (d > 0 ==> vli[d - 1] != 0)
    ensures forall j :: d <= j < n ==> vli[j] == 0
  {
    var i := n - 1;
    while i >= 0 && vli[i] == 0
      invariant -1 <= i < n
      invariant forall j :: i < j < n ==> vli[j] == 0
    {
      i := i - 1;
    }
    d := i + 1;
  }

  /** `b` is the position just above the highest set bit of `x`. */
  ghost predicate IsBitLength(x: nat, b: nat) {
    if b == 0 then x == 0 else Pow(2, b - 1) <= x < Pow(2, b)
  }

  lemma BitLengthShift(x: nat, i: nat, p: nat, e: nat, low: nat)
    requires x > 0 && IsBitLength(x, i) && p == Pow(2, e) && low < p
    ensures IsBitLength(low + x * p, e + i)
  {
    PowAdd(2, e, i);
    PowAdd(2, e, i - 1);
    MulMonotone(p, Pow(2, i - 1), x);
    MulMonotone(p, x + 1, Pow(2, i));
    assert p * (x + 1) == x * p + p;
    assert e + i - 1 == e + (i - 1);
  }

  lemma BitLengthOfWords(s: seq<nat>, w: WordBits, d: nat, i: nat)
    requires 0 < d <= |s| && IsWords(s, Base(w)) && s[d - 1] != 0
    requires forall j :: d <= j < |s| ==> s[j] == 0
    requires IsBitLength(s[d - 1], i)
    ensures IsBitLength(Val(s, Base(w)), w * (d - 1) + i)
  {
    hide Val, Pow;
    var B, k := Base(w), d - 1;
    assert Val(s, B) == Val(s[..k], B) + s[k] * Pow(B, k) by {
      ValSplit(s, d, B);
      ValZeros(s[d..], B);
      ValPrefix(s, k, B);
    }
    ValBound(s[..k], B);
    PowMul(2, w, k);
    BitLengthShift(s[k], i, Pow(B, k), w * k, Val(s[..k], B));
  }

  lemma WordBitLength(x: nat, w: WordBits, i: nat)
    requires IsBitLength(x, i) && x < Base(w)
    ensures i <= w && (x > 0 ==> i > 0)
  {
    if i > w { PowMonotone(2, w, i - 1); }
  }

  /** The number of bits of one nonzero word, by shifting it down to zero. */
  method WordBitCount(x: nat) returns (i: nat)
    ensures IsBitLength(x, i)
  {
    var digit := x;
    i := 0;
    while digit != 0
      invariant digit == x / Pow(2, i)
      invariant i > 0 ==> x >= Pow(2, i - 1)
      decreases digit
    {
      ghost var p := Pow(2, i);
      assert x >= p by { if x < p { DivModUnique(x, p, 0, x); } }
      HalveQuotient(x, p);
      digit := digit / 2;
      i := i + 1;
    }
    assert x < Pow(2, i) by { assert x == Pow(2, i) * (x / Pow(2, i)) + x % Pow(2, i); }
  }

  method NumBits(w: WordBits, vli: array<nat>, n: nat) returns (b: nat)
    requires Holds(vli, n, Base(w))
    ensures IsBitLength(Val(vli[..n], Base(w)), b)
    ensures b <= w * n
    ensures n > 0 && vli[n - 1] != 0 ==> w * (n - 1) < b
  {
    var d := NumDigits(w, vli, n);
    if d == 0 {
      ValZeros(vli[..n], Base(w));
      return 0;
    }
    hide Val, Base, Pow, IsBitLength;
    var i := WordBitCount(vli[d - 1]);
    b := w * (d - 1) + i;
    BitLengthOfWords(vli[..n], w, d, i);
    WordBitLength(vli[d - 1], w, i);
    WithinWords(w, d, n, i);
  }

  lemma WithinWords(w: nat, d: nat, n: nat, i: nat)
    requires 0 < d <= n && i <= w
    ensures w * (d - 1) + i <= w * n
  {
    MulDistrib(w, d - 1, 1);
    MulMonotone(w, d, n);
  }

  lemma HalveQuotient(x: nat, p: nat)
    requires p > 0
    ensures x / p / 2 == x / (2 * p)
  {
    var a, b := x / p, x % p;
    assert x == p * a + b && 0 <= b < p;
    HalveQuotientOf(x, p, a, b);
  }

  lemma HalveQuotientOf(x: nat, p: nat, a: int, b: int)
    requires p > 0 && x == p * a + b && 0 <= b < p
    ensures a / 2 == x / (2 * p)
  {
    var c, e := a / 2, a % 2;
    MulEqual(p, a, (c + c) + e);
    MulDistrib(p, c + c, e);
    MulDistrib(p, c, c);
    assert p * e == if e == 0 then 0 else p;
    MulDistrib(c, p, p);
    DivModUnique(x, 2 * p, c, if e == 0 then b else p + b);
  }

  // ---------- writing ----------

  method Clear(vli: array<nat>, n: nat)
    requires n <= vli.Length
    modifies vli
    ensures forall i :: 0 <= i < n ==> vli[i] == 0
    ensures vli[n..] == old(vli[n..])
  {
    for i := 0 to n
      invariant forall j :: 0 <= j < i ==> vli[j] == 0
      invariant vli[n..] == old(vli[n..])
    {
      vli[i] := 0;
    }
  }

  /** Copies `n` words of `src` to `dest` starting at word `off`. */
  method Set(dest: array<nat>, off: nat, src: array<nat>, n: nat)
    requires off + n <= dest.Length && n <= src.Length && dest != src
    modifies dest
    ensures dest[off..off + n] == src[..n]
    ensures dest[..off] == old(dest[..off]) && dest[off + n..] == old(dest[off + n..])
  {
    for i := 0 to n
      invariant dest[off..off + i] == src[..i]
      invariant dest[..off] == old(dest[..off]) && dest[off + n..] == old(dest[off + n..])
    {
      dest[off + i] := src[i];
      assert src[..i + 1] == src[..i] + [src[i]];
      assert dest[off..off + i + 1] == dest[off..off + i] + [src[i]];
    }
  }

  lemma ShiftStep(h: nat, x: nat, c: nat, hi: nat, low: nat, hi': nat)
    requires hi == 2 * hi' + c && low == x / 2 + c * h
    ensures x + (2 * h) * hi == 2 * (low + (2 * h) * hi') + x % 2
  {
    var B := 2 * h;
    assert B * hi == 2 * (B * hi') + B * c;
    assert B * c == 2 * (c * h);
  }

  lemma ShiftWord(s: seq<nat>, t: seq<nat>, low: nat, c: nat, h: nat, B: nat)
    requires |s| == |t| + 1 && B == 2 * h
    requires Val(s[1..], B) == 2 * Val(t, B) + c && low == s[0] / 2 + c * h
    ensures Val(s, B) == 2 * Val([low] + t, B) + s[0] % 2
  {
    hide Val;
    ValCons(s, B);
    ValCons([low] + t, B);
    assert ([low] + t)[1..] == t;
    ShiftStep(h, s[0], c, Val(s[1..], B), low, Val(t, B));
  }

  /** Shifts the `n` words of `vli` starting at `off` right by one bit. */
  method RShift1(w: WordBits, vli: array<nat>, off: nat, n: nat)
    requires off + n <= vli.Length && IsWords(vli[off..off + n], Base(w))
    modifies vli
    ensures IsWords(vli[off..off + n], Base(w))
    ensures old(At(vli, off, n, Base(w)))
         == 2 * At(vli, off, n, Base(w)) + (if n == 0 then 0 else old(vli[off..])[0] % 2)
    ensures forall j :: 0 <= j < vli.Length && !(off <= j < off + n) ==> vli[j] == old(vli[j])
  {
    hide Val, Pow;
    var B := Base(w);
    ghost var s := vli[off..off + n];
    var i := n;
    var carry := 0;
    ghost var c := 0; // the bit shifted out of the word above
    ghost var t: seq<nat> := []; // the words already shifted
    ValZeros(t, B);
    assert s[n..] == t;
    while i > 0
      invariant 0 <= i <= n && |t| == n - i && c <= 1 && carry == c * HighBit(w)
      invariant forall j :: off <= j < off + i ==> vli[j] == s[j - off]
      invariant forall j :: off + i <= j < off + n ==> vli[j] == t[j - off - i]
      invariant IsWords(t, B)
      invariant c == if i < n then s[i] % 2 else 0
      invariant Val(s[i..], B) == 2 * Val(t, B) + c
      invariant forall j :: 0 <= j < vli.Length && !(off <= j < off + n) ==> vli[j] == old(vli[j])
    {
      i := i - 1;
      var temp := vli[off + i];
      var low := temp / 2 + carry; // the two operands of `|` share no bit
      vli[off + i] := low;
      carry := temp % 2 * HighBit(w); // temp << (w - 1)
      assert s[i..][1..] == s[i + 1..];
      ShiftWord(s[i..], t, low, c, HighBit(w), B);
      t := [low] + t;
      c := temp % 2;
    }
    assert s[0..] == s;
    assert vli[off..off + n] == t;
  }

  /** One column of an addition, exactly as the carry is computed in the source. */
  function AddWord(a: nat, b: nat, carry: nat, B: nat): (r: (nat, nat))
    requires a < B && b < B && carry <= 1
    ensures r.1 <= 1 && r.0 < B && r.0 + r.1 * B == a + b + carry
  {
    var t := a + b + carry;
    var sum := if t >= B then t - B else t; // wraps at the word size
    (sum, if sum != a then (if sum < a then 1 else 0) else carry)
  }

  /** One column of a subtraction, exactly as the borrow is computed in the source. */
  function SubWord(a: nat, b: nat, borrow: nat, B: nat): (r: (nat, nat))
    requires a < B && b < B && borrow <= 1
    ensures r.1 <= 1 && r.0 < B && r.0 + b + borrow == a + r.1 * B
  {
    var t := a - b - borrow;
    var diff := if t < 0 then t + B else t; // wraps at the word size
    (diff, if diff != a then (if diff > a then 1 else 0) else borrow)
  }

  lemma ColumnStep(B: nat, p: nat, x: nat, y: nat, z: nat, c: nat, c': nat)
    requires z + c' * B == x + y + c
    ensures z * p + c' * (B * p) == x * p + y * p + c * p
  {
    MulAssoc(c', B, p);
    assert (z + c' * B) * p == z * p + (c' * B) * p;
    assert (x + y + c) * p == x * p + y * p + c * p;
  }

  /** result = left + right; `result` may be `left` or `right`. */
  method Add(w: WordBits, result: array<nat>, left: array<nat>, right: array<nat>, n: nat) returns (carry: nat)
    requires Holds(left, n, Base(w)) && Holds(right, n, Base(w)) && n <= result.Length
    modifies result
    ensures carry <= 1 && Holds(result, n, Base(w))
    ensures Val(result[..n], Base(w)) + carry * Pow(Base(w), n)
         == old(Val(left[..n], Base(w)) + Val(right[..n], Base(w)))
    ensures result[n..] == old(result[n..])
  {
    var B := Base(w);
    hide Val, Base, Pow;
    ghost var l, r := left[..n], right[..n];
    carry := 0;
    ValZeros([], B);
    assert l[..0] == [] && r[..0] == [] && result[..0] == [];
    for i := 0 to n
      invariant carry <= 1
      invariant forall j :: i <= j < n ==> left[j] == l[j] && right[j] == r[j]
      invariant IsWords(result[..i], B)
      invariant Val(result[..i], B) + carry * Pow(B, i) == Val(l[..i], B) + Val(r[..i], B)
      invariant result[n..] == old(result[n..])
    {
      ghost var done, c := result[..i], carry;
      var (sum, next) := AddWord(left[i], right[i], carry, B);
      carry := next;
      result[i] := sum;
      assert result[..i + 1] == done + [sum];
      ValSnoc(done, sum, B);
      ValPrefix(l, i, B);
      ValPrefix(r, i, B);
      PowStep(B, i);
      ColumnStep(B, Pow(B, i), l[i], r[i], sum, c, carry);
    }
    assert l[..n] == l && r[..n] == r;
  }

  /** result = left - right; `result` may be `left` or `right`. */
  method Sub(w: WordBits, result: array<nat>, left: array<nat>, right: array<nat>, n: nat) returns (borrow: nat)
    requires Holds(left, n, Base(w)) && Holds(right, n, Base(w)) && n <= result.Length
    modifies result
    ensures borrow <= 1 && Holds(result, n, Base(w))
    ensures Val(result[..n], Base(w)) + old(Val(right[..n], Base(w)))
         == old(Val(left[..n], Base(w))) + borrow * Pow(Base(w), n)
    ensures result[n..] == old(result[n..])
  {
    var B := Base(w);
    hide Val, Base, Pow;
    ghost var l, r := left[..n], right[..n];
    borrow := 0;
    ValZeros([], B);
    assert l[..0] == [] && r[..0] == [] && result[..0] == [];
    for i := 0 to n
      invariant borrow <= 1
      invariant forall j :: i <= j < n ==> left[j] == l[j] && right[j] == r[j]
      invariant IsWords(result[..i], B)
      invariant Val(result[..i], B) + Val(r[..i], B) == Val(l[..i], B) + borrow * Pow(B, i)
      invariant result[n..] == old(result[n..])
    {
      ghost var done, c := result[..i], borrow;
      var (diff, next) := SubWord(left[i], right[i], borrow, B);
      borrow := next;
      result[i] := diff;
      assert result[..i + 1] == done + [diff];
      ValSnoc(done, diff, B);
      ValPrefix(l, i, B);
      ValPrefix(r, i, B);
      PowStep(B, i);
      ColumnStep(B, Pow(B, i), diff, r[i], l[i], c, borrow);
    }
    assert l[..n] == l && r[..n] == r;
  }

  /** The sign of `left - right` without data-dependent branches: the borrow and zero test of a subtraction. */
  method Cmp(w: WordBits, left: array<nat>, right: array<nat>, n: nat) returns (sign: int)
    requires Holds(left, n, Base(w)) && Holds(right, n, Base(w))
    ensures -1 <= sign <= 1
    ensures sign == 1 <==> Val(left[..n], Base(w)) > Val(right[..n], Base(w))
    ensures sign == -1 <==> Val(left[..n], Base(w)) < Val(right[..n], Base(w))
  {
    hide Val, Base, Pow;
    var tmp := new nat[n];
    var neg := Sub(w, tmp, left, right, n);
    var equal := IsZero(w, tmp, n);
    ValBound(tmp[..n], Base(w));
    ValBound(left[..n], Base(w));
    ValBound(right[..n], Base(w));
    sign := if equal then 0 else 1;
    sign := sign - 2 * neg;
  }
}
