/** Little-endian word sequences and the natural numbers they denote. */
module Words {
  import opened Numbers

  /** Bits in a machine word (lib/ecc/types.h offers 8, 32 and 64; any positive number is covered). */
  type WordBits = w: nat | w > 0 witness 8

  /** A word with only its most significant bit set. */
  function HighBit(w: WordBits): (h: nat)
    ensures h > 0
  {
    Pow(2, w - 1)
  }

  /** The number of values of a machine word. */
  function Base(w: WordBits): (B: nat)
    ensures B >= 2 && B == Pow(2, w) && B == 2 * HighBit(w)
  {
    2 * HighBit(w)
  }

  predicate IsWords(s: seq<nat>, B: nat) {
    forall i :: 0 <= i < |s| ==> s[i] < B
  }

  /** The number denoted by `s`, least significant word first. */
  ghost function Val(s: seq<nat>, B: nat): nat {
    if s == [] then 0 else Val(s[..|s| - 1], B) + s[|s| - 1] * Pow(B, |s| - 1)
  }

  lemma ValSnoc(s: seq<nat>, x: nat, B: nat)
    ensures Val(s + [x], B) == Val(s, B) + x * Pow(B, |s|)
  {
    assert (s + [x])[..|s|] == s;
  }

  lemma ValPrefix(s: seq<nat>, i: nat, B: nat)
    requires i < |s|
    ensures Val(s[..i + 1], B) == Val(s[..i], B) + s[i] * Pow(B, i)
  {
    assert s[..i + 1] == s[..i] + [s[i]];
    ValSnoc(s[..i], s[i], B);
  }

  lemma {:induction false} ValConcat(a: seq<nat>, b: seq<nat>, B: nat)
    ensures Val(a + b, B) == Val(a, B) + Pow(B, |a|) * Val(b, B)
  {
    hide Val, Pow;
    if b == [] {
      assert a + b == a;
      ValEmpty(B);
    } else {
      var b', x := b[..|b| - 1], b[|b| - 1];
      assert a + b == (a + b') + [x] && b == b' + [x];
      ValSnoc(a + b', x, B);
      ValSnoc(b', x, B);
      ValConcat(a, b', B);
      PowAdd(B, |a|, |b'|);
      ConcatStep(Pow(B, |a|), Val(b', B), x, Pow(B, |b'|));
    }
  }

  lemma ValEmpty(B: nat)
    ensures Val([], B) == 0
  {
  }

  lemma ConcatStep(p: int, v: int, x: int, q: int)
    ensures p * (v + x * q) == p * v + x * (p * q)
  {
    MulDistrib(p, v, x * q);
    MulAssoc(p, x, q);
    MulAssoc(x, p, q);
  }

  lemma ValSplit(s: seq<nat>, i: nat, B: nat)
    requires i <= |s|
    ensures Val(s, B) == Val(s[..i], B) + Pow(B, i) * Val(s[i..], B)
  {
    assert s == s[..i] + s[i..];
    ValConcat(s[..i], s[i..], B);
  }

  lemma ValOne(x: nat, B: nat)
    ensures Val([x], B) == x
  {
    ValSnoc([], x, B);
    assert [] + [x] == [x];
  }

  /** Peeling the least significant word. */
  lemma ValCons(s: seq<nat>, B: nat)
    requires s != []
    ensures Val(s, B) == s[0] + B * Val(s[1..], B)
  {
    ValSplit(s, 1, B);
    assert s[..1] == [s[0]];
    ValOne(s[0], B);
    assert Pow(B, 1) == B * Pow(B, 0);
  }

  lemma {:induction false} ValBound(s: seq<nat>, B: nat)
    requires IsWords(s, B) && B > 0
    ensures Val(s, B) < Pow(B, |s|)
  {
    if s != [] {
      var k := |s| - 1;
      ValBound(s[..k], B);
      MulMonotone(Pow(B, k), s[k] + 1, B);
      assert Pow(B, k) * (s[k] + 1) == s[k] * Pow(B, k) + Pow(B, k);
      assert Pow(B, k) * B == Pow(B, k + 1);
    }
  }

  lemma {:induction false} ValZeros(s: seq<nat>, B: nat)
    requires forall i :: 0 <= i < |s| ==> s[i] == 0
    ensures Val(s, B) == 0
  {
    if s != [] { ValZeros(s[..|s| - 1], B); }
  }

  lemma {:induction false} ValPositive(s: seq<nat>, i: nat, B: nat)
    requires i < |s| && s[i] > 0 && B > 0
    ensures Val(s, B) >= Pow(B, i)
  {
    ValSplit(s, i, B);
    ValCons(s[i..], B);
    MulMonotone(Pow(B, i), 1, Val(s[i..], B));
  }

  /** The most significant differing word decides the order. */
  lemma ValLess(l: seq<nat>, r: seq<nat>, i: nat, B: nat)
    requires |l| == |r| && i < |l| && l[i] < r[i]
    requires forall j :: i < j < |l| ==> l[j] == r[j]
    requires IsWords(l, B) && B > 0
    ensures Val(l, B) < Val(r, B)
  {
    hide Val, Pow;
    ValSplit(l, i + 1, B);
    ValSplit(r, i + 1, B);
    assert l[i + 1..] == r[i + 1..];
    assert Val(l[..i + 1], B) < Val(r[..i + 1], B) by {
      ValPrefix(l, i, B);
      ValPrefix(r, i, B);
      ValBound(l[..i], B);
      LeadingWord(Pow(B, i), l[i], r[i]);
    }
  }

  lemma LeadingWord(p: nat, x: nat, y: nat)
    requires x < y
    ensures x * p + p <= y * p
  {
    MulMonotone(p, x + 1, y);
    assert p * (x + 1) == x * p + p;
  }

  /** Words of equal length denoting the same number are the same words. */
  lemma {:induction false} ValInjective(l: seq<nat>, r: seq<nat>, B: nat)
    requires |l| == |r| && IsWords(l, B) && IsWords(r, B) && B > 0
    requires Val(l, B) == Val(r, B)
    ensures l == r
  {
    if l != [] {
      var k := |l| - 1;
      if l[k] < r[k] { ValLess(l, r, k, B); }
      if r[k] < l[k] { ValLess(r, l, k, B); }
      ValInjective(l[..k], r[..k], B);
      assert l == l[..k] + [l[k]] && r == r[..k] + [r[k]];
    }
  }

  /** Word `i` of `s`, zero outside it. */
  ghost function Digit(s: seq<nat>, i: int): nat {
    if 0 <= i < |s| then s[i] else 0
  }

  /** The first `m` words of `s`, zero-filled. */
  ghost function Pad(s: seq<nat>, m: nat): seq<nat> {
    seq(m, i => Digit(s, i))
  }

  lemma ValPad(s: seq<nat>, m: nat, B: nat)
    requires m >= |s|
    ensures Val(Pad(s, m), B) == Val(s, B)
  {
    hide Val;
    var t := Pad(s, m);
    ValSplit(t, |s|, B);
    assert t[..|s|] == s;
    ValZeros(t[|s|..], B);
  }

  /** Replacing a zero word adds that word in its place. */
  lemma ValUpdate(s: seq<nat>, i: nat, x: nat, B: nat)
    requires i < |s| && s[i] == 0
    ensures Val(s[i := x], B) == Val(s, B) + x * Pow(B, i)
  {
    hide Val, Pow;
    var t := s[i := x];
    ValSplit(s, i, B);
    ValSplit(t, i, B);
    ValCons(s[i..], B);
    ValCons(t[i..], B);
    assert t[..i] == s[..i] && t[i..][1..] == s[i..][1..];
    MulDistrib(Pow(B, i), x, B * Val(s[i..][1..], B));
  }
}
