/** Conversion between big-endian byte strings and little-endian word arrays, and the
    truncation of a message hash to the size of the group order. */
module Bytes {
  import opened Numbers
  import opened Words
  import opened Vli
  import opened ModArith

  predicate IsBytes(s: seq<nat>) {
    IsWords(s, 256)
  }

  function Reversed(s: seq<nat>): (r: seq<nat>)
    ensures |r| == |s|
  {
    seq(|s|, i requires 0 <= i < |s| => s[|s| - 1 - i])
  }

  /** The number a big-endian byte string denotes. */
  ghost function BigEndian(s: seq<nat>): nat {
    Val(Reversed(s), 256)
  }

  /** The word size of `c` bytes. */
  function WordOf(c: nat): (w: WordBits)
    requires c > 0
  {
    8 * c
  }

  lemma WordBase(c: nat)
    requires c > 0
    ensures Base(WordOf(c)) == Pow(256, c)
  {
    assert Pow(2, 8) == 256;
    PowMul(2, 8, c);
  }

  /** Words needed for `bytes` bytes of `c` bytes each. */
  function WordsFor(bytes: nat, c: nat): (n: nat)
    requires c > 0
    ensures bytes <= c * n < bytes + c
  {
    Locate(bytes + (c - 1), c).0
  }

  // ---------- words as groups of bytes ----------

  /** Byte `j` of word `k` of the little-endian byte string `s`, with `c` bytes to a word. */
  ghost function ByteOf(s: seq<nat>, c: nat, k: nat, j: int): (x: nat)
    ensures x == Digit(s, c * k + j)
  {
    Digit(s, c * k + j)
  }

  /** The `c` bytes of word `k` of the little-endian byte string `s`. */
  ghost function Group(s: seq<nat>, c: nat, k: nat): (g: seq<nat>)
    ensures |g| == c && forall j :: 0 <= j < c ==> g[j] == ByteOf(s, c, k, j)
  {
    seq(c, j => ByteOf(s, c, k, j))
  }

  /** `words` are the groups of `c` bytes of `s`. */
  ghost predicate Grouped(words: seq<nat>, s: seq<nat>, c: nat) {
    forall k :: 0 <= k < |words| ==> words[k] == Val(Group(s, c, k), 256)
  }

  lemma {:induction false} GroupedVal(words: seq<nat>, s: seq<nat>, c: nat)
    requires Grouped(words, s, c)
    ensures Val(words, Pow(256, c)) == Val(Pad(s, c * |words|), 256)
  {
    hide Val, Pow;
    var B := Pow(256, c);
    if words == [] {
      ValEmpty(B);
      assert c * |words| == 0;
      assert Pad(s, 0) == [];
      ValEmpty(256);
    } else {
      var n := |words| - 1;
      var g := Group(s, c, n);
      GroupedVal(words[..n], s, c);
      assert words == words[..n] + [words[n]];
      ValSnoc(words[..n], words[n], B);
      MulDistrib(c, n, 1);
      assert Pad(s, c * (n + 1)) == Pad(s, c * n) + g;
      ValConcat(Pad(s, c * n), g, 256);
      PowMul(256, c, n);
    }
  }

  /** The little-endian bytes of `bytes` with those below position `b` still zero. */
  ghost function Pending(bytes: seq<nat>, b: nat): (s: seq<nat>)
    ensures |s| == |bytes|
  {
    seq(|bytes|, x requires 0 <= x < |bytes| => if x >= b then bytes[|bytes| - 1 - x] else 0)
  }

  lemma NextByte(bytes: seq<nat>, b: nat, c: nat, k: nat, j: nat)
    requires b < |bytes| && j < c && b == c * k + j
    ensures Val(Group(Pending(bytes, b), c, k), 256)
         == Val(Group(Pending(bytes, b + 1), c, k), 256) + bytes[|bytes| - 1 - b] * Pow(256, j)
    ensures forall k' :: k' != k ==> Group(Pending(bytes, b), c, k') == Group(Pending(bytes, b + 1), c, k')
  {
    hide Val, Pow;
    var s, t := Pending(bytes, b + 1), Pending(bytes, b);
    var x := bytes[|bytes| - 1 - b];
    assert t == s[b := x];
    var g, h := Group(s, c, k), Group(t, c, k);
    forall i | 0 <= i < c && i != j ensures h[i] == g[i] {
      assert h[i] == ByteOf(t, c, k, i) && g[i] == ByteOf(s, c, k, i);
    }
    assert g[j] == ByteOf(s, c, k, j) && h[j] == ByteOf(t, c, k, j);
    assert h == g[j := x];
    ValUpdate(g, j, x, 256);
    forall k' | k' != k
      ensures Group(t, c, k') == Group(s, c, k')
    {
      forall i | 0 <= i < c
        ensures ByteOf(t, c, k', i) == ByteOf(s, c, k', i)
      {
        if c * k' + i == b { GroupUnique(c, k, j, k', i); }
      }
    }
  }

  lemma GroupUnique(c: nat, k: nat, j: nat, k': nat, i: nat)
    requires j < c && i < c && c * k + j == c * k' + i
    ensures k == k'
  {
    DivModUnique(c * k + j, c, k, j);
    DivModUnique(c * k + j, c, k', i);
  }

  lemma GroupIsWord(bytes: seq<nat>, b: nat, c: nat, k: nat)
    requires IsBytes(bytes)
    ensures Val(Group(Pending(bytes, b), c, k), 256) < Pow(256, c)
  {
    ValBound(Group(Pending(bytes, b), c, k), 256);
  }

  lemma NothingPending(bytes: seq<nat>, c: nat, k: nat)
    ensures Val(Group(Pending(bytes, |bytes|), c, k), 256) == 0
  {
    ValZeros(Group(Pending(bytes, |bytes|), c, k), 256);
  }

  /** native = the number the big-endian `bytes` denote. */
  method BytesToNative(c: nat, native: array<nat>, bytes: seq<nat>)
    requires c > 0 && IsBytes(bytes) && WordsFor(|bytes|, c) <= native.Length
    modifies native
    ensures var n := WordsFor(|bytes|, c);
      && Holds(native, n, Base(WordOf(c)))
      && Val(native[..n], Base(WordOf(c))) == BigEndian(bytes)
      && native[n..] == old(native[n..])
  {
    hide Val, Pow, Base, WordsFor, Group, Locate;
    var n := WordsFor(|bytes|, c);
    Clear(native, n);
    forall k | 0 <= k < n ensures native[k] == Val(Group(Pending(bytes, |bytes|), c, k), 256) {
      NothingPending(bytes, c, k);
    }
    for i := 0 to |bytes|
      invariant native[n..] == old(native[n..])
      invariant Grouped(native[..n], Pending(bytes, |bytes| - i), c)
    {
      var b := |bytes| - 1 - i;
      var (k, j) := Locate(b, c);
      assert k < n by { if k >= n { MulMonotone(c, n, k); } }
      NextByte(bytes, b, c, k, j);
      assert native[..n][k] == native[k];
      native[k] := native[k] + bytes[i] * Pow(256, j); // `|=`: those bits of the word are still zero
      assert Grouped(native[..n], Pending(bytes, b), c);
    }
    assert Pending(bytes, 0) == Reversed(bytes);
    forall k | 0 <= k < n ensures native[..n][k] < Base(WordOf(c)) {
      GroupIsWord(bytes, 0, c, k);
      WordBase(c);
    }
    GroupedVal(native[..n], Reversed(bytes), c);
    ValPad(Reversed(bytes), c * n, 256);
    WordBase(c);
  }

  // ---------- bytes of words ----------

  lemma {:induction false} DigitsVal(s: seq<nat>, x: nat, D: nat)
    requires D > 0 && forall i :: 0 <= i < |s| ==> s[i] == DigitAt(x, D, i)
    ensures Val(s, D) == x % Pow(D, |s|)
  {
    hide Val, Pow, DigitAt;
    if s == [] {
      ValEmpty(D);
      PowZero(D);
      DivModUnique(x, 1, x, 0);
    } else {
      var n := |s| - 1;
      DigitsVal(s[..n], x, D);
      assert s == s[..n] + [s[n]];
      ValSnoc(s[..n], s[n], D);
      TopDigit(x, D, n);
    }
  }

  lemma TopDigit(x: nat, D: nat, n: nat)
    requires D > 0
    ensures x % Pow(D, n + 1) == x % Pow(D, n) + DigitAt(x, D, n) * Pow(D, n)
  {
    hide Pow;
    var p := Pow(D, n);
    PowStep(D, n);
    DivModEquation(x, p);
    DivModEquation(x / p, D);
    TopDigitOf(x, p, D, x / p, x % p, x / p / D, (x / p) % D);
  }

  lemma TopDigitOf(x: int, p: int, D: int, q: int, r: int, hi: int, d: int)
    requires p > 0 && D > 0 && x == p * q + r && 0 <= r < p && q == D * hi + d && 0 <= d < D
    ensures x % (D * p) == r + d * p
  {
    MulEqual(p, q, D * hi + d);
    MulDistrib(p, D * hi, d);
    MulMonotone(p, 0, d);
    MulMonotone(p, d + 1, D);
    MulDistrib(p, d, 1);
    MulAssoc(p, D, hi);
    DivModUnique(x, D * p, hi, r + d * p);
  }

  /** Writes the low `count` bytes of native, big-endian, at offset `off` of `bytes`. */
  method NativeToBytes(c: nat, bytes: array<nat>, off: nat, count: nat, native: array<nat>, ghost n: nat)
    requires c > 0 && off + count <= bytes.Length && count <= c * n && bytes != native
    requires Holds(native, n, Base(WordOf(c)))
    modifies bytes
    ensures IsBytes(bytes[off..off + count])
    ensures BigEndian(bytes[off..off + count]) == Val(native[..n], Base(WordOf(c))) % Pow(256, count)
    ensures bytes[..off] == old(bytes[..off]) && bytes[off + count..] == old(bytes[off + count..])
  {
    hide Val, Pow, Base, Locate, DigitAt;
    ghost var x := Val(native[..n], Base(WordOf(c)));
    for i := 0 to count
      invariant bytes[..off] == old(bytes[..off]) && bytes[off + count..] == old(bytes[off + count..])
      invariant forall y :: off <= y < off + i ==> bytes[y] < 256 && bytes[y] == DigitAt(x, 256, count - 1 - (y - off))
    {
      var b := count - 1 - i;
      var (k, j) := Locate(b, c);
      assert k < n by { if k >= n { MulMonotone(c, n, k); } }
      WordBase(c);
      DigitOfWord(native[..n], 256, c, Base(WordOf(c)), k, j);
      DigitBound(native[k], 256, j);
      bytes[off + i] := DigitAt(native[k], 256, j);
    }
    ghost var out := bytes[off..off + count];
    DigitsVal(Reversed(out), x, 256);
  }

  lemma DigitBound(x: nat, D: nat, j: nat)
    requires D > 0
    ensures DigitAt(x, D, j) < D
  {
  }

  // ---------- round trips ----------

  lemma BigEndianBound(s: seq<nat>)
    requires IsBytes(s)
    ensures BigEndian(s) < Pow(256, |s|)
  {
    ValBound(Reversed(s), 256);
  }

  /** Byte strings of one length denoting the same number are the same. */
  lemma BigEndianInjective(s: seq<nat>, t: seq<nat>)
    requires |s| == |t| && IsBytes(s) && IsBytes(t) && BigEndian(s) == BigEndian(t)
    ensures s == t
  {
    ValInjective(Reversed(s), Reversed(t), 256);
    forall i | 0 <= i < |s| ensures s[i] == t[i] {
      assert Reversed(s)[|s| - 1 - i] == s[i] && Reversed(t)[|s| - 1 - i] == t[i];
    }
  }

  /** Reading bytes into words and writing that many bytes back gives the same bytes: `words` and `out`
      are any results the contracts of BytesToNative and NativeToBytes allow. */
  lemma BytesRoundTrip(bytes: seq<nat>, words: seq<nat>, out: seq<nat>, B: nat)
    requires IsBytes(bytes) && IsBytes(out) && |out| == |bytes|
    requires Val(words, B) == BigEndian(bytes) && BigEndian(out) == Val(words, B) % Pow(256, |out|)
    ensures out == bytes
  {
    hide Val, Pow, BigEndian;
    BigEndianBound(bytes);
    DivModUnique(BigEndian(bytes), Pow(256, |bytes|), 0, BigEndian(bytes));
    BigEndianInjective(out, bytes);
  }

  /** Writing words that fit as bytes and reading them back gives the same words. */
  lemma WordsRoundTrip(words: seq<nat>, bytes: seq<nat>, back: seq<nat>, B: nat)
    requires IsWords(words, B) && IsWords(back, B) && |back| == |words| && B > 0
    requires Val(words, B) < Pow(256, |bytes|)
    requires BigEndian(bytes) == Val(words, B) % Pow(256, |bytes|) && Val(back, B) == BigEndian(bytes)
    ensures back == words
  {
    hide Val, Pow, BigEndian;
    DivModUnique(Val(words, B), Pow(256, |bytes|), 0, Val(words, B));
    ValInjective(back, words, B);
  }

  // ---------- hash truncation ----------

  lemma ShrWord(temp: nat, above: nat, p: nat, q: nat, B: nat, hi: nat, hi': nat)
    requires p > 0 && q > 0 && B == p * q && hi == p * hi' + above % p
    ensures (above * q) % B == q * (above % p)
    ensures temp + B * hi == p * ((temp / p + q * (above % p)) + B * hi') + temp % p
  {
    var c := above % p;
    DivModEquation(above, p);
    DivModEquation(temp, p);
    assert (above * q) % B == q * c by { CarryBits(above, above / p, c, p, q, B); }
    ShrSum(temp, temp / p, temp % p, c, p, q, B, hi, hi');
  }

  lemma CarryBits(x: int, h: int, c: int, p: int, q: int, B: int)
    requires p > 0 && q > 0 && B == p * q && x == p * h + c && 0 <= c < p
    ensures (x * q) % B == q * c
  {
    MulEqual(q, x, p * h + c);
    MulDistrib(q, p * h, c);
    MulAssoc(q, p, h);
    MulEqual(h, B, p * q);
    MulMonotone(q, 0, c);
    MulStrictMonotone(q, c, p);
    DivModUnique(x * q, B, h, q * c);
  }

  lemma ShrSum(temp: int, t: int, r: int, c: int, p: int, q: int, B: int, hi: int, hi': int)
    requires B == p * q && temp == p * t + r && hi == p * hi' + c
    ensures temp + B * hi == p * ((t + q * c) + B * hi') + r
  {
    MulEqual(B, hi, p * hi' + c);
    MulEqual(c, B, p * q);
    MulDistrib(p, t + q * c, B * hi');
    MulDistrib(p, t, q * c);
    MulAssoc(p, q, c);
    MulAssoc(B, p, hi');
    MulAssoc(p, B, hi');
  }

  lemma ShrValue(s: seq<nat>, t: seq<nat>, above: nat, low: nat, p: nat, q: nat, B: nat)
    requires |s| == |t| + 1 && p > 0 && q > 0 && B == p * q
    requires Val(s[1..], B) == p * Val(t, B) + above % p && low == s[0] / p + q * (above % p)
    ensures Val(s, B) == p * Val([low] + t, B) + s[0] % p
  {
    hide Val;
    ValCons(s, B);
    ValCons([low] + t, B);
    assert ([low] + t)[1..] == t;
    ShrWord(s[0], above, p, q, B, Val(s[1..], B), Val(t, B));
  }

  lemma ShrIsWord(temp: nat, c: nat, p: nat, q: nat, B: nat)
    requires p > 0 && q > 0 && B == p * q && temp < B && c < p
    ensures 0 <= temp / p + q * c < B
  {
    DivModEquation(temp, p);
    var t := temp / p;
    if t >= q { MulMonotone(p, q, t); }
    MulMonotone(q, 0, c);
    MulMonotone(q, c + 1, p);
    MulDistrib(q, c, 1);
    if t < 0 { MulMonotone(p, t, -1); }
  }

  /** native = native >> shift, for a shift below the word size. */
  method ShiftRight(w: WordBits, native: array<nat>, n: nat, shift: nat)
    requires Holds(native, n, Base(w)) && 0 < shift < w
    modifies native
    ensures Holds(native, n, Base(w)) && native[n..] == old(native[n..])
    ensures Val(native[..n], Base(w)) == old(Val(native[..n], Base(w))) / Pow(2, shift)
  {
    hide Val, Pow, Base;
    var B := Base(w);
    var p, q := Pow(2, shift), Pow(2, w - shift);
    PowAdd(2, shift, w - shift);
    ghost var s := native[..n];
    var i := n;
    var carry := 0;
    ghost var above := 0; // the word above the one being shifted
    ghost var t: seq<nat> := [];
    ValEmpty(B);
    assert s[n..] == [];
    DivModUnique(0, p, 0, 0);
    while i > 0
      invariant 0 <= i <= n && |t| == n - i && IsWords(t, B) && carry == q * (above % p) && above % p < p
      invariant above == if i < n then s[i] else 0
      invariant forall j :: 0 <= j < i ==> native[j] == s[j]
      invariant forall j :: i <= j < n ==> native[j] == t[j - i]
      invariant Val(s[i..], B) == p * Val(t, B) + above % p
      invariant native[n..] == old(native[n..])
    {
      i := i - 1;
      var temp := native[i];
      var low := temp / p + carry; // the two operands of `|` share no bit
      ShrIsWord(temp, above % p, p, q, B);
      native[i] := low;
      assert s[i..][1..] == s[i + 1..];
      ShrValue(s[i..], t, above, low, p, q, B);
      DivModEquation(temp, p);
      CarryBits(temp, temp / p, temp % p, p, q, B);
      carry := (temp * q) % B;
      t := [low] + t;
      above := temp;
    }
    assert s[0..] == s && native[..n] == t;
    DivModUnique(Val(s, B), p, Val(t, B), above % p);
  }

  function BytesOfBits(bits: nat): nat { (bits + 7) / 8 }

  /** The leftmost `bits` bits of a hash, as a number (all of it when it is no longer than that). */
  ghost function LeftmostBits(hash: seq<nat>, bits: nat): nat {
    if 8 * |hash| <= bits then BigEndian(hash) else BigEndian(hash) / Pow(2, 8 * |hash| - bits)
  }

  lemma ReversedConcat(a: seq<nat>, b: seq<nat>)
    ensures Reversed(a + b) == Reversed(b) + Reversed(a)
  {
    var l, r := Reversed(a + b), Reversed(b) + Reversed(a);
    forall i | 0 <= i < |l| ensures l[i] == r[i] {
      assert l[i] == (a + b)[|a| + |b| - 1 - i];
    }
  }

  lemma BigEndianConcat(a: seq<nat>, b: seq<nat>)
    ensures BigEndian(a + b) == BigEndian(b) + Pow(256, |b|) * BigEndian(a)
  {
    hide Val, Pow;
    ReversedConcat(a, b);
    ValConcat(Reversed(b), Reversed(a), 256);
  }

  lemma PowBytes(k: nat)
    ensures Pow(256, k) == Pow(2, 8 * k)
  {
    assert Pow(2, 8) == 256;
    PowMul(2, 8, k);
  }

  /** Dropping whole bytes first does not change the leftmost bits. */
  lemma TruncateBytes(hash: seq<nat>, k: nat, bits: nat)
    requires IsBytes(hash) && k <= |hash| && bits <= 8 * k
    ensures LeftmostBits(hash, bits) == BigEndian(hash[..k]) / Pow(2, 8 * k - bits)
  {
    hide Pow, BigEndian;
    var a, b := hash[..k], hash[k..];
    assert hash == a + b;
    BigEndianConcat(a, b);
    BigEndianBound(b);
    PowBytes(|b|);
    var e := 8 * k - bits;
    PowAdd(2, 8 * |b|, e);
    assert 8 * |hash| - bits == 8 * |b| + e;
    DivShift(BigEndian(a), Pow(256, |b|), Pow(2, e), BigEndian(b));
    if 8 * |hash| == bits {
      assert hash[..k] == hash;
      PowZero(2);
      DivModUnique(BigEndian(hash), 1, BigEndian(hash), 0);
    }
  }

  lemma LeftmostBitsBound(hash: seq<nat>, bits: nat)
    requires IsBytes(hash)
    ensures LeftmostBits(hash, bits) < Pow(2, bits)
  {
    hide Pow, BigEndian;
    BigEndianBound(hash);
    PowBytes(|hash|);
    if 8 * |hash| <= bits {
      PowMonotone(2, 8 * |hash|, bits);
    } else {
      var e := 8 * |hash| - bits;
      PowAdd(2, e, bits);
      QuotientBound(BigEndian(hash), Pow(2, e), Pow(2, bits));
    }
  }

  lemma QuotientBound(x: nat, p: nat, q: nat)
    requires p > 0 && x < p * q
    ensures x / p < q
  {
    DivModEquation(x, p);
    MulCancelLess(p, x / p, q);
  }

  /** What bits2int leaves in its output: reduced once only when bits were shifted out. */
  ghost function HashValue(hash: seq<nat>, bits: nat, order: nat): int {
    if 8 * |hash| <= bits || bits % 8 == 0 then LeftmostBits(hash, bits)
    else ReduceOnce(LeftmostBits(hash, bits), order)
  }

  lemma HashValueProperties(hash: seq<nat>, bits: nat, order: nat)
    requires IsBytes(hash) && order > 0
    ensures 0 <= HashValue(hash, bits, order) < Pow(2, bits)
    ensures Cong(HashValue(hash, bits, order), LeftmostBits(hash, bits), order)
    ensures 8 * |hash| <= bits || bits % 8 == 0 ==> HashValue(hash, bits, order) == LeftmostBits(hash, bits)
    ensures 8 * |hash| > bits && bits % 8 != 0 && IsBitLength(order, bits) ==> HashValue(hash, bits, order) < order
  {
    LeftmostBitsBound(hash, bits);
    if bits > 0 { PowStep(2, bits - 1); }
    CongRefl(LeftmostBits(hash, bits), order);
    ReduceOnceCong(LeftmostBits(hash, bits), order);
  }

  /** Clears `nw` words of native and reads the big-endian `bytes` into them. */
  method LoadBytes(c: nat, native: array<nat>, bytes: seq<nat>, nw: nat)
    requires c > 0 && IsBytes(bytes) && |bytes| <= c * nw && nw <= native.Length
    modifies native
    ensures Holds(native, nw, Base(WordOf(c))) && native[nw..] == old(native[nw..])
    ensures Val(native[..nw], Base(WordOf(c))) == BigEndian(bytes)
  {
    hide Val, Pow, Base, BigEndian, WordsFor;
    Clear(native, nw);
    ghost var used := WordsFor(|bytes|, c);
    assert used <= nw by { if used > nw { MulMonotone(c, nw + 1, used); MulDistrib(c, nw, 1); } }
    ghost var before := native[..];
    BytesToNative(c, native, bytes);
    ghost var s := native[..nw];
    assert native[used..] == before[used..];
    assert s[..used] == native[..used];
    forall i | 0 <= i < nw - used ensures s[used..][i] == 0 {
      assert s[used..][i] == native[used..][i] == before[used + i];
    }
    forall i | nw <= i < native.Length ensures native[i] == before[i] {
      assert native[used..][i - used] == before[used..][i - used];
    }
    LoadedValue(s, used, BigEndian(bytes), Base(WordOf(c)));
  }

  /** native = the leftmost bits of the hash; `bits` is the size of the order in bits, `nw` in words. */
  method Bits2Int(c: nat, native: array<nat>, hash: seq<nat>, bits: nat, order: array<nat>, nw: nat)
    requires c > 0 && IsBytes(hash) && bits <= WordOf(c) * nw && nw <= native.Length
    requires Holds(order, nw, Base(WordOf(c))) && native != order
    modifies native
    ensures Holds(native, nw, Base(WordOf(c))) && native[nw..] == old(native[nw..])
    ensures Val(native[..nw], Base(WordOf(c))) == HashValue(hash, bits, Val(order[..nw], Base(WordOf(c))))
  {
    hide Val, Pow, Base, BigEndian, LeftmostBits;
    var w := WordOf(c);
    ghost var ow, m := order[..nw], Val(order[..nw], Base(w));
    var size := BytesOfBits(bits);
    if |hash| <= size { size := |hash|; }
    FitsWords(bits, size, c, nw);
    LoadBytes(c, native, hash[..size], nw);
    assert order[..nw] == ow;
    if size * 8 <= bits {
      ShortHash(hash, size, bits);
      return;
    }
    ShiftRight(w, native, nw, size * 8 - bits);
    TruncateBytes(hash, size, bits);
    assert Val(native[..nw], Base(w)) == LeftmostBits(hash, bits);
    assert order[..nw] == ow;
    var cmp := CmpUnsafe(w, order, native, nw);
    if cmp != 1 {
      var borrow := Sub(w, native, native, order, nw);
      ValBound(native[..nw], Base(w));
      assert order[..nw] == ow;
    }
  }

  lemma FitsWords(bits: nat, size: nat, c: nat, nw: nat)
    requires size <= BytesOfBits(bits) && bits <= 8 * c * nw
    ensures size <= c * nw
  {
    MulAssoc(8, c, nw);
  }

  lemma LoadedValue(s: seq<nat>, used: nat, x: nat, B: nat)
    requires used <= |s| && B > 0 && IsWords(s[..used], B) && Val(s[..used], B) == x
    requires forall i :: 0 <= i < |s| - used ==> s[used..][i] == 0
    ensures Val(s, B) == x && IsWords(s, B)
  {
    ValSplit(s, used, B);
    ValZeros(s[used..], B);
    forall i | 0 <= i < |s| ensures s[i] < B {
      if i >= used { assert s[used..][i - used] == 0; } else { assert s[..used][i] < B; }
    }
  }

  lemma ShortHash(hash: seq<nat>, size: nat, bits: nat)
    requires IsBytes(hash) && size == (if |hash| <= BytesOfBits(bits) then |hash| else BytesOfBits(bits))
    requires size * 8 <= bits
    ensures LeftmostBits(hash, bits) == BigEndian(hash[..size])
    ensures 8 * |hash| <= bits || bits % 8 == 0
  {
    if |hash| <= BytesOfBits(bits) {
      assert hash[..size] == hash;
    } else {
      TruncateBytes(hash, size, bits);
      PowZero(2);
    }
  }
}
