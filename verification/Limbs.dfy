/** Numbers as sequences of 16-bit limbs, least significant first, and their bits. */
module Limbs {
  import opened Seqs
  import opened Int64

  const LIMB: nat := 0x1_0000

  type limb = x: int | 0 <= x < 0x1_0000

  function Val(s: seq<limb>): nat
  {
    if s == [] then 0 else s[0] + LIMB * Val(s[1..])
  }

  /** The weight of limb `n`. */
  function Weight(n: nat): (r: nat)
    ensures r >= 1
  {
    if n == 0 then 1 else LIMB * Weight(n - 1)
  }

  lemma ScaleSum(c: int, a: int, x: int, b: int)
    ensures c * (a + x * b) == c * a + x * (c * b)
  {
  }

  lemma {:induction false} ValConcat(a: seq<limb>, b: seq<limb>)
    ensures Val(a + b) == Val(a) + Weight(|a|) * Val(b)
  {
    if a == [] {
      assert a + b == b;
    } else {
      AppendTail(a, b);
      ValConcat(a[1..], b);
      HeadFirst(a[0], Val(a[1..]), Weight(|a| - 1), Val(b));
    }
  }

  lemma HeadFirst(x: int, v: int, w: int, b: int)
    ensures x + LIMB * (v + w * b) == (x + LIMB * v) + (LIMB * w) * b
  {
    ScaleSum(LIMB, v, b, w);
    Assoc(LIMB, w, b);
  }

  lemma ValSnoc(s: seq<limb>, i: nat)
    requires i < |s|
    ensures Val(s[..i + 1]) == Val(s[..i]) + Weight(i) * s[i]
  {
    TakeSnoc(s, i);
    ValConcat(s[..i], [s[i]]);
    assert Val([s[i]]) == s[i] + LIMB * Val([s[i]][1..]);
  }

  lemma {:induction false} ValBounded(s: seq<limb>)
    ensures Val(s) < Weight(|s|)
  {
    if s != [] {
      ValBounded(s[1..]);
    }
  }

  lemma ValHead(high: seq<limb>, tail: seq<limb>)
    requires high != [] && tail == high[1..]
    ensures Val(high) == high[0] + LIMB * Val(tail)
  {
  }

  /** A number cut at limb `i`. */
  lemma ValCut(s: seq<limb>, i: nat)
    requires i < |s|
    ensures Val(s) == Val(s[..i]) + Weight(i) * Val(s[i..])
    ensures Val(s[i..]) == s[i] + LIMB * Val(s[i + 1..])
  {
    hide Weight;
    var high := s[i..];
    ValHead(high, s[i + 1..]);
    hide Val;
    TakeDrop(s, i);
    ValConcat(s[..i], high);
  }

  lemma ValUpdate(s: seq<limb>, i: nat, v: limb)
    requires i < |s|
    ensures Val(s[i := v]) == Val(s) + Weight(i) * (v - s[i])
  {
    var t: seq<limb> := s[i := v];
    ValCut(s, i);
    ValCut(t, i);
    assert t[..i] == s[..i] && t[i + 1..] == s[i + 1..];
    hide Val, Weight;
    Factor(Weight(i), Val(s[i..]), Val(t[i..]), v - s[i]);
  }

  lemma Factor(w: int, a: int, b: int, d: int)
    requires b == a + d
    ensures w * b == w * a + w * d
  {
  }

  lemma {:induction false} ValZeros(s: seq<limb>)
    requires forall i :: 0 <= i < |s| ==> s[i] == 0
    ensures Val(s) == 0
  {
    if s != [] {
      ValZeros(s[1..]);
    }
  }

  /** The highest limb in which two numbers differ decides. */
  lemma ValLess(a: seq<limb>, b: seq<limb>, i: nat)
    requires i < |a| == |b| && a[i + 1..] == b[i + 1..] && a[i] < b[i]
    ensures Val(a) < Val(b)
  {
    ValCut(a, i);
    ValCut(b, i);
    ValBounded(a[..i]);
    HighDecides(Val(a[..i]), Val(b[..i]), Weight(i), Val(a[i..]), Val(b[i..]));
  }

  lemma HighDecides(low: nat, other: nat, w: nat, a: nat, b: nat)
    requires low < w && a < b
    ensures low + w * a < other + w * b
  {
    Factor(w, a, b, b - a);
    MulMonotone(1, b - a, w);
  }

  // ---------------------------------------------------------------- bits

  function BitOf(s: seq<limb>, bit: nat): (r: nat)
    requires bit / 16 < |s|
    ensures r <= 1
  {
    (s[bit / 16] / Pow2(bit % 16)) % 2
  }

  function Scale(v: nat, p: nat): nat
  {
    MulMonotone(0, v, p);
    v * p
  }

  /** The number that the bits from `bit` on spell. */
  function From(s: seq<limb>, bit: nat): nat
  {
    var l, p := bit / 16, bit % 16;
    if l >= |s| then 0 else Scale(Val(s[l + 1..]), Pow2(16 - p)) + Quotient(s[l], Pow2(p))
  }

  lemma Pow2Of16()
    ensures Pow2(16) == LIMB
  {
    assert Pow2(8) == 256;
    assert Pow2(12) == 4096;
    assert Pow2(16) == LIMB;
  }

  lemma HalveQuotient(a: nat, p: nat)
    requires p > 0
    ensures a / p == 2 * (a / (2 * p)) + (a / p) % 2
  {
    var q, r := a / (2 * p), a % (2 * p);
    assert a == 2 * p * q + r;
    var b := if r < p then 0 else 1;
    QuotientIs(a, p, 2 * q + b, r - b * p);
  }

  lemma DoubleTerm(v: nat, p: nat)
    ensures v * (2 * p) == 2 * (v * p)
  {
  }

  /** Going down one bit doubles the number and adds the bit. */
  lemma FromStep(s: seq<limb>, bit: nat)
    requires bit / 16 < |s|
    ensures From(s, bit) == 2 * From(s, bit + 1) + BitOf(s, bit)
  {
    var l, p := bit / 16, bit % 16;
    HalveQuotient(s[l], Pow2(p));
    if p < 15 {
      assert (bit + 1) / 16 == l && (bit + 1) % 16 == p + 1;
      DoubleTerm(Val(s[l + 1..]), Pow2(16 - (p + 1)));
    } else {
      Pow2Of16();
      assert (bit + 1) / 16 == l + 1 && (bit + 1) % 16 == 0;
      assert Pow2(1) == 2 && Pow2(0) == 1;
      assert s[l] / LIMB == 0;
      if l + 1 < |s| {
        ValCut(s, l + 1);
      }
    }
  }

  lemma FromAll(s: seq<limb>)
    ensures From(s, 0) == Val(s)
  {
    Pow2Of16();
    if s != [] {
      assert Pow2(0) == 1;
      FirstLimb(s);
    }
  }

  lemma FirstLimb(s: seq<limb>)
    requires s != [] && Pow2(16) == LIMB && Pow2(0) == 1
    ensures From(s, 0) == s[0] + LIMB * Val(s[1..])
  {
    hide Val, Pow2;
    assert s[0] / 1 == s[0];
  }

  /** What `x | (1 << p)` is. */
  function SetBit(x: nat, p: nat): nat
  {
    if (x / Pow2(p)) % 2 == 0 then x + Pow2(p) else x
  }
}
