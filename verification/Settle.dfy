/** Settlement of a constant-product swap with 256-bit amounts: limb-wise scaling and
    multiplication into 512 bits, and a restoring division bit by bit. */
module Settle {
  import opened Seqs
  import opened Int64
  import opened Limbs

  const FEE: nat := 997
  const FEE_BASE: nat := 1000

  /** The value of 64-bit words, least significant first. */
  function WordsVal(w: seq<u64>): nat
  {
    if w == [] then 0 else WordsVal(w[..|w| - 1]) + Weight(4 * (|w| - 1)) * w[|w| - 1]
  }

  // ---------------------------------------------------------------- steps on one limb

  /** Writing the low part of `t` and carrying the high part loses nothing. */
  lemma CarryStep(w: nat, t: nat)
    ensures w * (t % LIMB) + (t / LIMB) * (LIMB * w) == w * t
  {
    assert t == t % LIMB + LIMB * (t / LIMB);
    Distribute(w, t % LIMB, t / LIMB);
  }

  lemma Distribute(w: int, r: int, q: int)
    ensures w * (r + LIMB * q) == w * r + q * (LIMB * w)
  {
  }

  lemma Spread(w: int, a: int, b: int, c: int)
    ensures w * (a + b + c) == w * a + w * b + w * c
  {
  }

  // ---------------------------------------------------------------- unpacking and packing

  lemma ModSplit(x: nat, w: nat)
    requires w > 0
    ensures x % (LIMB * w) == x % w + w * ((x / w) % LIMB)
  {
    var q, r := x / w, x % w;
    var q', r' := q / LIMB, q % LIMB;
    assert x == w * q + r;
    Distribute(w, r', q');
    Assoc(LIMB, w, q');
    assert x == (LIMB * w) * q' + (w * r' + r);
    MulMonotone(r', LIMB - 1, w);
    QuotientIs(x, LIMB * w, q', w * r' + r);
  }

  lemma ShiftWeight(i: nat)
    requires i <= 4
    ensures Pow2(16 * i) == Weight(i)
    ensures Weight(4) == TWO64
  {
    Pow2Of16();
    assert Weight(1) == LIMB && Weight(2) == 0x1_0000_0000 && Weight(3) == 0x1_0000_0000_0000;
    assert Pow2(24) == 0x100_0000 && Pow2(32) == 0x1_0000_0000;
    assert Pow2(40) == 0x100_0000_0000 && Pow2(48) == 0x1_0000_0000_0000;
    Pow2Of64();
  }

  lemma {:induction false} WeightSum(a: nat, b: nat)
    ensures Weight(a + b) == Weight(a) * Weight(b)
  {
    if a > 0 {
      WeightSum(a - 1, b);
      Assoc(LIMB, Weight(a - 1), Weight(b));
    }
  }

  /** One more limb of a word. */
  lemma UnpackStep(s: seq<limb>, w: nat, i: nat, x: u64, done: nat)
    requires i < 4 && 4 * w + i < |s| && s[4 * w + i] == (x / Pow2(16 * i)) % LIMB
    requires Val(s[..4 * w + i]) == done + Weight(4 * w) * (x % Weight(i))
    ensures Val(s[..4 * w + i + 1]) == done + Weight(4 * w) * (x % Weight(i + 1))
  {
    var k := 4 * w + i;
    ValSnoc(s, k);
    ShiftWeight(i);
    WeightSum(4 * w, i);
    ModSplit(x, Weight(i));
    Assoc(Weight(4 * w), Weight(i), s[k]);
    Distributes(Weight(4 * w), x % Weight(i), Weight(i) * s[k]);
  }

  method Unpack(words: seq<u64>) returns (a: array<limb>)
    requires |words| == 4
    ensures fresh(a) && a.Length == 16 && Val(a[..]) == WordsVal(words)
  {
    a := new limb[16](_ => 0);
    for w := 0 to 4
      invariant Val(a[..4 * w]) == WordsVal(words[..w])
    {
      ghost var done := WordsVal(words[..w]);
      assert words[w] % Weight(0) == 0;
      for i := 0 to 4
        invariant Val(a[..4 * w + i]) == done + Weight(4 * w) * (words[w] % Weight(i))
      {
        ghost var before := a[..4 * w + i];
        a[4 * w + i] := (words[w] / Pow2(16 * i)) % LIMB;
        assert a[..][..4 * w + i] == before;
        UnpackStep(a[..], w, i, words[w], done);
        assert a[..][..4 * w + i + 1] == a[..4 * w + (i + 1)];
      }
      ShiftWeight(4);
      assert words[w] % TWO64 == words[w];
      assert words[..w + 1][..w] == words[..w];
      assert 4 * w + 4 == 4 * (w + 1);
    }
    assert a[..16] == a[..] && words[..4] == words;
  }

  /** Four limbs side by side; shifted to their places they do not overlap, so adding them is
      combining them. */
  function PackWord(s: seq<limb>): (x: u64)
    requires |s| == 4
    ensures x == Val(s)
  {
    FourLimbs(s);
    ValBounded(s);
    ShiftWeight(4);
    s[0] as int + s[1] as int * 0x1_0000 + s[2] as int * 0x1_0000_0000 + s[3] as int * 0x1_0000_0000_0000
  }

  lemma FourLimbs(s: seq<limb>)
    requires |s| == 4
    ensures Val(s) == s[0] as int + s[1] as int * 0x1_0000 + s[2] as int * 0x1_0000_0000
                      + s[3] as int * 0x1_0000_0000_0000
  {
    assert s[1..][1..] == s[2..] && s[2..][1..] == s[3..] && s[3..][1..] == [];
    assert Val(s[3..]) == s[3];
    assert Val(s[2..]) == s[2] + LIMB * s[3];
    assert Val(s[1..]) == s[1] + LIMB * Val(s[2..]);
  }

  method Pack(a: array<limb>) returns (words: seq<u64>)
    requires a.Length == 16
    ensures |words| == 4 && WordsVal(words) == Val(a[..])
  {
    words := [];
    assert Val(a[..0]) == 0;
    hide Val, PackWord, Weight;
    for w := 0 to 4
      invariant |words| == w && WordsVal(words) == Val(a[..4 * w])
    {
      var four := a[4 * w..4 * w + 4];
      var x := PackWord(four);
      assert a[..4 * (w + 1)] == a[..4 * w] + four;
      ValConcat(a[..4 * w], four);
      assert (words + [x])[..w] == words;
      words := words + [x];
    }
    assert a[..16] == a[..];
  }

  // ---------------------------------------------------------------- scaling and multiplying

  /** The number in the limbs together with a carry into limb `k`. */
  ghost function Held(s: seq<limb>, k: nat, carry: nat): nat
  {
    Val(s) + Weight(k) * carry
  }

  lemma HeldNone(s: seq<limb>, k: nat)
    ensures Held(s, k, 0) == Val(s)
  {
  }

  /** The earlier rows of a schoolbook product, and row `i` up to column `j`. */
  ghost function Partial(done: nat, fi: nat, i: nat, r: seq<limb>, j: nat): nat
    requires j <= |r|
  {
    done + fi * (Weight(i) * Val(r[..j]))
  }

  ghost function Rows(f: seq<limb>, r: seq<limb>, i: nat): nat
    requires i <= |f|
  {
    Val(f[..i]) * Val(r)
  }

  ghost function Scaled(x: seq<limb>, factor: nat, y: seq<limb>, i: nat): nat
    requires i <= |x| && i <= |y|
  {
    factor * Val(x[..i]) + Val(y[..i])
  }

  /** One column of a scaling: it fits into 32 bits. */
  function ScaleTerm(x: nat, factor: nat, carry: nat, y: nat): (t: nat)
    requires x < LIMB && y < LIMB && carry <= factor <= FEE_BASE
    ensures t < 0x1_0000_0000 && t / LIMB <= factor
  {
    MulMonotone(x, LIMB - 1, factor);
    x * factor + carry + y
  }

  /** out := x * factor + y in 16 limbs; what does not fit is returned. */
  method ScaleAdd(x: array<limb>, factor: nat, y: array<limb>, out: array<limb>) returns (carry: nat)
    requires x.Length == y.Length == out.Length == 16 && out != x && out != y && factor <= FEE_BASE
    modifies out
    ensures Held(out[..], 16, carry) == factor * Val(x[..]) + Val(y[..])
  {
    carry := 0;
    ScaleEnds(out[..], x[..], y[..], factor);
    hide Val, Weight, Held, Scaled, ScaleTerm;
    for i := 0 to 16
      invariant carry <= factor
      invariant Held(out[..i], i, carry) == Scaled(x[..], factor, y[..], i)
    {
      var t := ScaleTerm(x[i], factor, carry, y[i]);
      ghost var before := out[..i];
      out[i] := t % LIMB;
      assert out[..][..i] == before;
      ScaleStep(out[..], x[..], y[..], i, factor, carry, t);
      carry := t / LIMB;
      assert out[..][..i + 1] == out[..i + 1];
    }
    assert out[..16] == out[..];
  }

  lemma ScaleEnds(out: seq<limb>, x: seq<limb>, y: seq<limb>, factor: nat)
    requires |x| == |y|
    ensures Held(out[..0], 0, 0) == Scaled(x, factor, y, 0)
    ensures Scaled(x, factor, y, |x|) == factor * Val(x) + Val(y)
  {
    assert x[..|x|] == x && y[..|y|] == y;
  }

  lemma ScaleStep(out: seq<limb>, x: seq<limb>, y: seq<limb>, i: nat, factor: nat, carry: nat, t: nat)
    requires i < |out| == |x| == |y| && carry <= factor <= FEE_BASE
    requires t == ScaleTerm(x[i], factor, carry, y[i]) && out[i] == t % LIMB
    requires Held(out[..i], i, carry) == Scaled(x, factor, y, i)
    ensures Held(out[..i + 1], i + 1, t / LIMB) == Scaled(x, factor, y, i + 1)
  {
    hide Val;
    ValSnoc(out, i);
    ValSnoc(x, i);
    ValSnoc(y, i);
    ScaleArith(Val(out[..i]), Weight(i), carry, factor, Val(x[..i]), Val(y[..i]), x[i], y[i], t);
  }

  lemma ScaleArith(o: int, w: nat, carry: nat, f: nat, vx: nat, vy: nat, x: nat, y: nat, t: nat)
    requires o + w * carry == f * vx + vy && t == x * f + carry + y
    ensures (o + w * (t % LIMB)) + (LIMB * w) * (t / LIMB) == f * (vx + w * x) + (vy + w * y)
  {
    CarryStep(w, t);
    Spread(w, x * f, carry, y);
    Distributes(f, vx, w * x);
    Assoc(f, w, x);
    Assoc(w, x, f);
    Assoc(x, w, f);
  }

  /** num := num + f[i] * r, one limb product at a time; `done` is the sum of the earlier rows. */
  method AddRow(num: array<limb>, f: array<limb>, r: array<limb>, i: nat, ghost done: nat) returns (carry: nat)
    requires num.Length == 32 && f.Length == r.Length == 16 && num != f && num != r && i < 16
    requires Val(num[..]) == done
    modifies num
    ensures carry < LIMB && Held(num[..], i + 16, carry) == Partial(done, f[i], i, r[..], 16)
  {
    carry := 0;
    RowStart(num[..], r[..], i, f[i]);
    hide Val, Weight, Held, Partial, Term;
    for j := 0 to 16
      invariant carry < LIMB
      invariant Held(num[..], i + j, carry) == Partial(done, f[i], i, r[..], j)
    {
      var k := i + j;
      var t := Term(num[k], f[i], r[j], carry);
      RowStep(num[..], r[..], i, j, f[i], carry, t, done);
      ghost var after: seq<limb> := num[..][k := t % LIMB];
      num[k] := t % LIMB;
      assert num[..] == after;
      carry := t / LIMB;
    }
  }

  lemma RowStart(num: seq<limb>, r: seq<limb>, i: nat, fi: nat)
    ensures Held(num, i, 0) == Partial(Val(num), fi, i, r, 0)
  {
    assert Val(r[..0]) == 0;
  }

  lemma RowStep(num: seq<limb>, r: seq<limb>, i: nat, j: nat, fi: nat, carry: nat, t: nat, done: nat)
    requires i + j < |num| && j < |r| && fi < LIMB && carry < LIMB && t == Term(num[i + j], fi, r[j], carry)
    requires Held(num, i + j, carry) == Partial(done, fi, i, r, j)
    ensures Held(num[i + j := t % LIMB], i + j + 1, t / LIMB) == Partial(done, fi, i, r, j + 1)
  {
    hide Val, Weight;
    var k := i + j;
    ValUpdate(num, k, t % LIMB);
    ValSnoc(r, j);
    WeightSum(i, j);
    WeightNext(k);
    MulArith(Val(num), Weight(i), Weight(j), Weight(k), num[k], fi, r[j], carry, t, done, Val(r[..j]));
  }

  /** One column of a row: it fits into 32 bits, and its carry into 16. */
  function Term(n: nat, a: nat, b: nat, carry: nat): (t: nat)
    requires n < LIMB && a < LIMB && b < LIMB && carry < LIMB
    ensures t < 0x1_0000_0000 && t / LIMB < LIMB
  {
    MulMonotone(0, a, b);
    MulMonotone(a, LIMB - 1, b);
    n + a * b + carry
  }

  lemma WeightNext(k: nat)
    ensures Weight(k + 1) == LIMB * Weight(k)
  {
  }

  lemma MulArith(v: int, wi: nat, wj: nat, wk: nat, n: nat, f: nat, r: nat, carry: nat, t: nat, done: int, vr: nat)
    requires wk == wi * wj && v + wk * carry == done + f * (wi * vr) && t == n + f * r + carry
    ensures (v + wk * (t % LIMB - n)) + (LIMB * wk) * (t / LIMB) == done + f * (wi * (vr + wj * r))
  {
    CarryArith(v, wk, n, t);
    Spread(wk, n, f * r, carry);
    Assoc(wk, f, r);
    Assoc(wi, wj, r);
    Distributes(wi, vr, wj * r);
    Distributes(f, wi * vr, wi * (wj * r));
    Assoc(f, wk, r);
  }

  lemma CarryArith(v: int, w: nat, n: nat, t: nat)
    ensures (v + w * (t % LIMB - n)) + (LIMB * w) * (t / LIMB) == v - w * n + w * t
  {
    CarryStep(w, t);
    Distributes(w, t % LIMB, -(n as int));
  }

  /** Carries out of a row; nothing is lost as long as the sum fits. */
  method Propagate(num: array<limb>, start: nat, c: nat)
    requires num.Length == 32 && start <= 32 && c < LIMB
    requires Held(num[..], start, c) < Weight(32)
    modifies num
    ensures Val(num[..]) == old(Held(num[..], start, c))
  {
    hide Val, Weight, Held;
    ghost var total := Held(num[..], start, c);
    var carry: nat, k: nat := c, start;
    while k < 32 && carry != 0
      invariant start <= k <= 32 && carry < LIMB
      invariant Held(num[..], k, carry) == total
    {
      var t: nat := num[k] as int + carry;
      CarryOn(num[..], k, carry, t);
      ghost var after: seq<limb> := num[..][k := t % LIMB];
      num[k] := t % LIMB;
      assert num[..] == after;
      carry := t / LIMB;
      k := k + 1;
    }
    NoCarryLeft(num[..], carry);
    HeldNone(num[..], k);
  }

  lemma NoCarryLeft(num: seq<limb>, carry: nat)
    ensures Held(num, 32, carry) < Weight(32) ==> carry == 0
  {
    hide Weight, Val;
    if carry > 0 {
      MulMonotone(1, carry, Weight(32));
    }
  }

  lemma CarryOn(num: seq<limb>, k: nat, carry: nat, t: nat)
    requires k < |num| && t == num[k] as int + carry
    ensures Held(num[k := t % LIMB], k + 1, t / LIMB) == Held(num, k, carry)
  {
    hide Val, Weight;
    ValUpdate(num, k, t % LIMB);
    WeightNext(k);
    CarryArith(Val(num), Weight(k), num[k], t);
    Distributes(Weight(k), num[k], carry);
  }

  /** One more row, and the sum of the rows so far fits into 32 limbs. */
  lemma RowsFit(f: seq<limb>, r: seq<limb>, i: nat)
    requires i < |f| == |r| == 16
    ensures Partial(Rows(f, r, i), f[i], i, r, 16) == Rows(f, r, i + 1) < Weight(32)
  {
    hide Val, Weight;
    assert r[..16] == r;
    ValSnoc(f, i);
    RowArith(Val(f[..i]), Weight(i), f[i], Val(r), Val(f[..i + 1]));
    TakeBounded(f, i + 1);
    ValBounded(r);
    Below(Val(f[..i + 1]), Val(r), Weight(16));
    WeightSum(16, 16);
  }

  lemma TakeBounded(f: seq<limb>, n: nat)
    requires n <= |f|
    ensures Val(f[..n]) < Weight(|f|)
  {
    hide Val, Weight;
    TakeDrop(f, n);
    ValConcat(f[..n], f[n..]);
    ValBounded(f);
    MulMonotone(0, Val(f[n..]), Weight(n));
  }

  lemma RowArith(a: nat, w: nat, f: nat, r: nat, next: nat)
    requires next == a + w * f
    ensures a * r + f * (w * r) == next * r
  {
    Assoc(f, w, r);
    Sum(a, w * f, r);
  }

  lemma Sum(a: int, b: int, r: int)
    ensures (a + b) * r == a * r + b * r
  {
  }

  lemma Below(a: nat, b: nat, w: nat)
    requires a < w && b < w
    ensures a * b < w * w
  {
    MulMonotone(a, w, b);
    MulMonotone(b + 1, w, w);
  }

  method Multiply(f: array<limb>, r: array<limb>) returns (num: array<limb>)
    requires f.Length == r.Length == 16
    ensures fresh(num) && num.Length == 32 && Val(num[..]) == Val(f[..]) * Val(r[..])
  {
    num := new limb[32](_ => 0);
    ValZeros(num[..]);
    RowsEnds(f[..], r[..]);
    hide Val, Weight, Rows, Partial;
    for i := 0 to 16
      invariant Val(num[..]) == Rows(f[..], r[..], i)
    {
      RowsFit(f[..], r[..], i);
      var carry := AddRow(num, f, r, i, Rows(f[..], r[..], i));
      Propagate(num, i + 16, carry);
    }
  }

  lemma RowsEnds(f: seq<limb>, r: seq<limb>)
    ensures Rows(f, r, 0) == 0 && Rows(f, r, |f|) == Val(f) * Val(r)
  {
    assert f[..|f|] == f;
  }

  // ---------------------------------------------------------------- dividing

  /** rem := 2 * rem + bit; the bit shifted out is returned. */
  method ShiftIn(rem: array<limb>, bit: nat) returns (carry: nat)
    requires rem.Length == 16 && bit <= 1
    modifies rem
    ensures carry <= 1 && Held(rem[..], 16, carry) == 2 * old(Val(rem[..])) + bit
  {
    carry := bit;
    ghost var was := rem[..];
    assert Held(rem[..0], 0, carry) == 2 * Val(was[..0]) + bit;
    hide Val, Weight, Held;
    for j := 0 to 16
      invariant carry <= 1 && rem[j..] == was[j..]
      invariant Held(rem[..j], j, carry) == 2 * Val(was[..j]) + bit
    {
      ghost var before := rem[..j];
      assert rem[j] == rem[j..][0] == was[j..][0] == was[j];
      var t: nat := rem[j] as int * 2 + carry;
      assert rem[j..][1..] == was[j..][1..];
      rem[j] := t % LIMB;
      assert rem[..][..j] == before;
      ShiftStep(rem[..], was, j, carry, bit, t);
      carry := t / LIMB;
      assert rem[..][..j + 1] == rem[..j + 1];
    }
    assert rem[..16] == rem[..] && was[..16] == was;
  }

  lemma ShiftStep(rem: seq<limb>, was: seq<limb>, j: nat, carry: nat, bit: nat, t: nat)
    requires j < |rem| == |was| && t == was[j] as int * 2 + carry && rem[j] == t % LIMB
    requires Held(rem[..j], j, carry) == 2 * Val(was[..j]) + bit
    ensures Held(rem[..j + 1], j + 1, t / LIMB) == 2 * Val(was[..j + 1]) + bit
  {
    hide Val;
    ValSnoc(rem, j);
    ValSnoc(was, j);
    ScaleArith(Val(rem[..j]), Weight(j), carry, 2, Val(was[..j]), bit, was[j], 0, t);
  }

  method Compare(a: array<limb>, b: array<limb>) returns (cmp: int)
    requires a.Length == b.Length == 16
    ensures (cmp > 0 <==> Val(a[..]) > Val(b[..])) && (cmp < 0 <==> Val(a[..]) < Val(b[..]))
  {
    var j := 16;
    while j > 0
      invariant 0 <= j <= 16 && a[j..] == b[j..]
    {
      j := j - 1;
      assert a[..][j + 1..] == a[j + 1..] && b[..][j + 1..] == b[j + 1..];
      if a[j] > b[j] {
        ValLess(b[..], a[..], j);
        return 1;
      } else if a[j] < b[j] {
        ValLess(a[..], b[..], j);
        return -1;
      }
    }
    assert a[..] == a[0..] == b[0..] == b[..];
    return 0;
  }

  /** rem := rem - den in 16 limbs; what was borrowed from above is returned. */
  method Subtract(rem: array<limb>, den: array<limb>) returns (borrow: nat)
    requires rem.Length == den.Length == 16 && rem != den
    modifies rem
    ensures borrow <= 1 && Val(rem[..]) + Val(den[..]) == Held(old(rem[..]), 16, borrow)
  {
    borrow := 0;
    ghost var was := rem[..];
    assert Val(rem[..0]) + Val(den[..][..0]) == Held(was[..0], 0, 0);
    hide Val, Weight, Held;
    for j := 0 to 16
      invariant borrow <= 1 && rem[j..] == was[j..]
      invariant Val(rem[..j]) + Val(den[..][..j]) == Held(was[..j], j, borrow)
    {
      ghost var before := rem[..j];
      assert rem[j] == rem[j..][0] == was[j..][0] == was[j];
      var t := rem[j] as int - den[j] as int - borrow;
      assert rem[j..][1..] == was[j..][1..];
      ghost var b := borrow;
      if t < 0 {
        rem[j] := t + LIMB;
        borrow := 1;
      } else {
        rem[j] := t;
        borrow := 0;
      }
      assert rem[..][..j] == before;
      SubtractStep(rem[..], was, den[..], j, b, borrow);
      assert rem[..][..j + 1] == rem[..j + 1];
    }
    assert rem[..16] == rem[..] && was[..16] == was && den[..][..16] == den[..];
  }

  lemma SubtractStep(rem: seq<limb>, was: seq<limb>, den: seq<limb>, j: nat, b: nat, borrow: nat)
    requires j < |rem| == |was| == |den|
    requires rem[j] as int + den[j] as int + b == was[j] as int + LIMB * borrow
    requires Val(rem[..j]) + Val(den[..j]) == Held(was[..j], j, b)
    ensures Val(rem[..j + 1]) + Val(den[..j + 1]) == Held(was[..j + 1], j + 1, borrow)
  {
    hide Val;
    ValSnoc(rem, j);
    ValSnoc(was, j);
    ValSnoc(den, j);
    var w := Weight(j);
    Spread(w, rem[j], den[j], b);
    Distribute(w, was[j], borrow);
  }

  // ---------------------------------------------------------------- quotient bits

  lemma {:induction false} Pow2Weight(n: nat)
    ensures Pow2(16 * n) == Weight(n)
  {
    if n > 0 {
      Pow2Weight(n - 1);
      Pow2Of16();
      Pow2Sum(16, 16 * (n - 1));
    }
  }

  /** Setting a clear bit: the bits above it stay, it is set, the bits below it stay. */
  lemma SetClearBit(x: limb, p: nat, y: nat)
    requires p < 16 && (x / Pow2(p)) % 2 == 0 && y == SetBit(x, p)
    ensures y < LIMB && (y / Pow2(p)) % 2 == 1 && y / Pow2(p + 1) == x / Pow2(p + 1)
  {
    Pow2Of16();
    Pow2Sum(p + 1, 15 - p);
    assert Pow2(p + 1) == 2 * Pow2(p);
    AddUnit(x, Pow2(p), Pow2(15 - p));
  }

  lemma AddUnit(x: nat, one: nat, n: nat)
    requires one > 0 && (x / one) % 2 == 0
    ensures (x + one) / (2 * one) == x / (2 * one) && ((x + one) / one) % 2 == 1
    ensures x < 2 * one * n ==> x + one < 2 * one * n
  {
    var two := 2 * one;
    var q, r := x / two, x % two;
    HalveQuotient(x, one);
    EvenPart(x, one, q, r);
    UnitParts(x, one, two, q, r);
    if x < two * n {
      RoomAbove(x, two, q, r, n);
      MulMonotone(q + 1, n, two);
    }
  }

  lemma UnitParts(x: nat, one: nat, two: nat, q: nat, r: nat)
    requires one > 0 && two == 2 * one && x == two * q + r && r < one
    ensures (x + one) / two == q && ((x + one) / one) % 2 == 1
  {
    QuotientIs(x + one, two, q, r + one);
    Assoc(2, one, q);
    QuotientIs(x + one, one, 2 * q + 1, r);
  }

  lemma EvenPart(x: nat, one: nat, q: nat, r: nat)
    requires one > 0 && x == 2 * one * q + r && r < 2 * one && x / one == 2 * q
    ensures r < one
  {
    if r >= one {
      QuotientIs(x, one, 2 * q + 1, r - one);
    }
  }

  lemma RoomAbove(x: nat, m: nat, q: nat, r: nat, n: nat)
    requires x == m * q + r && r < m && x < m * n
    ensures q < n
  {
    if q >= n { MulMonotone(n, q, m); }
  }

  lemma LowerBits(x: nat, p: nat, k: nat)
    requires k < p
    ensures ((x + Pow2(p)) / Pow2(k)) % 2 == (x / Pow2(k)) % 2
  {
    Pow2Sum(k, p - k);
    AddUnits(x, Pow2(k), Pow2(p - k - 1));
  }

  lemma AddUnits(x: nat, one: nat, half: nat)
    requires one > 0
    ensures ((x + one * (2 * half)) / one) % 2 == (x / one) % 2
  {
    var q, r := x / one, x % one;
    Distributes(one, q, 2 * half);
    QuotientIs(x + one * (2 * half), one, q + 2 * half, r);
  }

  ghost predicate ClearBelow(q: seq<limb>, bit: nat)
  {
    forall k :: 0 <= k < bit && k / 16 < |q| ==> BitOf(q, k) == 0
  }

  lemma SetQuotientBit(q: seq<limb>, bit: nat, y: nat)
    requires bit / 16 < |q| && ClearBelow(q, bit + 1) && y == SetBit(q[bit / 16], bit % 16)
    ensures y < LIMB
    ensures var q': seq<limb> := q[bit / 16 := y];
            From(q', bit) == 2 * From(q, bit + 1) + 1 && ClearBelow(q', bit)
  {
    var l, p := bit / 16, bit % 16;
    assert BitOf(q, bit) == 0;
    SetClearBit(q[l], p, y);
    var q': seq<limb> := q[l := y];
    FromStep(q', bit);
    assert q'[l + 1..] == q[l + 1..];
    if p == 15 {
      assert (bit + 1) / 16 == l + 1;
      if l + 1 < |q| {
        assert q'[l + 1 + 1..] == q[l + 1 + 1..];
      }
    } else {
      assert (bit + 1) / 16 == l && (bit + 1) % 16 == p + 1;
    }
    assert From(q', bit + 1) == From(q, bit + 1);
    forall k | 0 <= k < bit && k / 16 < |q'| ensures BitOf(q', k) == 0 {
      assert BitOf(q, k) == 0;
      if k / 16 == l {
        LowerBits(q[l], p, k % 16);
      }
    }
  }

  /** What the quotient and the remainder say about the bits of the numerator seen so far. */
  ghost predicate Divided(s: nat, q: nat, d: nat, r: nat)
  {
    s == q * d + r && r < d
  }

  lemma DivStep(s: nat, q: nat, d: nat, r: nat, bit: nat)
    requires Divided(s, q, d, r) && bit <= 1
    ensures 2 * r + bit < d ==> Divided(2 * s + bit, 2 * q, d, 2 * r + bit)
    ensures 2 * r + bit >= d ==> Divided(2 * s + bit, 2 * q + 1, d, 2 * r + bit - d)
    ensures 2 * r + bit < 2 * d
  {
    Sum(q, q, d);
    Sum(2 * q, 1, d);
  }

  lemma DividedIs(s: nat, q: nat, d: nat, r: nat)
    requires Divided(s, q, d, r)
    ensures s / d == q
  {
    QuotientIs(s, d, q, r);
  }

  lemma {:induction false} FromShift(s: seq<limb>, bit: nat)
    ensures From(s, bit) * Pow2(bit) <= Val(s)
  {
    hide From, Val;
    if bit == 0 {
      FromAll(s);
    } else if (bit - 1) / 16 < |s| {
      FromShift(s, bit - 1);
      FromStep(s, bit - 1);
      DoubleShift(From(s, bit), From(s, bit - 1), Pow2(bit - 1));
    } else {
      FromPast(s, bit);
    }
  }

  lemma FromPast(s: seq<limb>, bit: nat)
    requires bit / 16 >= |s|
    ensures From(s, bit) == 0
  {
  }

  lemma DoubleShift(f: nat, g: nat, p: nat)
    requires g >= 2 * f
    ensures f * (2 * p) <= g * p
  {
    Assoc(f, 2, p);
    MulMonotone(2 * f, g, p);
  }

  /** A quotient bit at or above 2^256 means that the quotient does not fit. */
  lemma TooBig(n: seq<limb>, bit: nat, d: nat)
    requires bit >= 256 && d > 0 && From(n, bit) >= d
    ensures Val(n) / d >= Weight(16)
  {
    hide From, Val, Weight, Pow2;
    FromShift(n, bit);
    Pow2Weight(16);
    Pow2Sum(256, bit - 256);
    QuotientLarge(Val(n), d, From(n, bit), Pow2(bit), Pow2(256), Pow2(bit - 256));
  }

  lemma QuotientLarge(n: nat, d: nat, f: nat, p: nat, w: nat, k: nat)
    requires f * p <= n && 0 < d <= f && p == w * k && k >= 1
    ensures n / d >= w
  {
    MulMonotone(1, k, w);
    MulMonotone(d, f, p);
    MulMonotone(w, p, d);
    var q := n / d;
    if q < w {
      MulMonotone(q + 1, w, d);
      assert false;
    }
  }

  /** Restoring division of 512 by 256 bits, from the highest bit down.  It gives up on the
      first quotient bit at or above 2^256. */
  method Divide(num: array<limb>, den: array<limb>) returns (fits: bool, q: array<limb>)
    requires num.Length == 32 && den.Length == 16 && Val(den[..]) > 0
    ensures fresh(q) && q.Length == 16
    ensures fits <==> Val(num[..]) / Val(den[..]) < Weight(16)
    ensures fits ==> Val(q[..]) == Val(num[..]) / Val(den[..])
  {
    hide Val, Weight, From, BitOf, SetBit, Divided;
    q := new limb[16](_ => 0);
    var rem := new limb[16](_ => 0);
    ghost var n, d := num[..], Val(den[..]);
    DivideStart(n, q[..], rem[..], d);
    for bit := 512 downto 0
      invariant num[..] == n && Val(den[..]) == d
      invariant Divided(From(n, bit), From(q[..], bit), d, Val(rem[..])) && ClearBelow(q[..], bit)
    {
      var limb_, pos := bit / 16, bit % 16;
      var inBit := BitOf(num[..], bit);
      FromStep(n, bit);
      DivStep(From(n, bit + 1), From(q[..], bit + 1), d, Val(rem[..]), inBit);
      ghost var v := 2 * Val(rem[..]) + inBit;
      var carry := ShiftIn(rem, inBit);
      var cmp := Compare(rem, den);
      WideCompare(rem[..], den[..], carry, v);
      if carry == 1 || cmp >= 0 {
        if bit >= 256 {
          PastEnd(q[..], bit);
          DividedAtLeast(From(n, bit), d, v, 2 * From(q[..], bit + 1));
          TooBig(n, bit, d);
          return false, q;
        }
        SetQuotientBit(q[..], bit, SetBit(q[limb_], pos));
        ghost var q': seq<limb> := q[..][limb_ := SetBit(q[limb_], pos)];
        q[limb_] := SetBit(q[limb_], pos);
        assert q[..] == q';
        ghost var low := rem[..];
        var borrow := Subtract(rem, den);
        BorrowIsCarry(low, rem[..], den[..], carry, borrow, v);
      } else {
        QuotientBitClear(q[..], bit);
      }
    }
    FromAll(n);
    FromAll(q[..]);
    DividedIs(Val(n), Val(q[..]), d, Val(rem[..]));
    ValBounded(q[..]);
    return true, q;
  }

  lemma DivideStart(n: seq<limb>, q: seq<limb>, rem: seq<limb>, d: nat)
    requires |n| == 32 && |q| == 16 && d > 0
    requires (forall i :: 0 <= i < 16 ==> q[i] == 0) && |rem| == 16 && forall i :: 0 <= i < 16 ==> rem[i] == 0
    ensures Divided(From(n, 512), From(q, 512), d, Val(rem)) && ClearBelow(q, 512)
  {
    ValZeros(rem);
    forall k | 0 <= k < 512 && k / 16 < |q| ensures BitOf(q, k) == 0 {
      assert q[k / 16] == 0;
    }
  }

  /** Comparing 257 bits: the carry decides, then the limbs do. */
  lemma WideCompare(rem: seq<limb>, den: seq<limb>, carry: nat, v: nat)
    requires |rem| == |den| == 16 && carry <= 1 && v == Held(rem, 16, carry)
    ensures v >= Val(den) <==> carry == 1 || Val(rem) >= Val(den)
    ensures carry == 0 ==> v == Val(rem)
  {
    hide Val, Weight;
    ValBounded(den);
  }

  lemma PastEnd(q: seq<limb>, bit: nat)
    requires |q| == 16 && bit >= 256
    ensures From(q, bit) == 0 && From(q, bit + 1) == 0
  {
  }

  lemma DividedAtLeast(s: nat, d: nat, v: nat, q: nat)
    requires v >= d && q == 0 && Divided(s, q + 1, d, v - d)
    ensures s >= d
  {
  }

  lemma BorrowIsCarry(low: seq<limb>, rem: seq<limb>, den: seq<limb>, carry: nat, borrow: nat, v: nat)
    requires |low| == |rem| == |den| == 16 && carry <= 1 && borrow <= 1
    requires v == Held(low, 16, carry) && Val(den) <= v < 2 * Val(den)
    requires Val(rem) + Val(den) == Held(low, 16, borrow)
    ensures Val(rem) == v - Val(den)
  {
    hide Val, Weight;
    ValBounded(rem);
    ValBounded(den);
    ValBounded(low);
  }

  lemma QuotientBitClear(q: seq<limb>, bit: nat)
    requires |q| == 16 && ClearBelow(q, bit + 1)
    ensures From(q, bit) == 2 * From(q, bit + 1) && ClearBelow(q, bit)
  {
    hide From, BitOf;
    if bit / 16 < |q| {
      FromStep(q, bit);
    } else {
      PastEnd(q, bit);
    }
  }

  // ---------------------------------------------------------------- settling

  function Denominator(ain: nat, rin: nat): nat { FEE_BASE * rin + FEE * ain }

  function Numerator(ain: nat, rout: nat): nat
  {
    MulMonotone(0, FEE * ain, rout);
    FEE * ain * rout
  }

  /** The amount that the constant-product formula with a 0.3% fee gives out. */
  function AmountOut(ain: nat, rin: nat, rout: nat): nat
    requires Denominator(ain, rin) > 0
  {
    Quotient(Numerator(ain, rout), Denominator(ain, rin))
  }

  predicate AllZero(words: seq<u64>)
    requires |words| == 4
  {
    words[0] == 0 && words[1] == 0 && words[2] == 0 && words[3] == 0
  }

  lemma ZeroWords(words: seq<u64>)
    requires |words| == 4
    ensures AllZero(words) <==> WordsVal(words) == 0
  {
    var w3, w2, w1 := words[..3], words[..2], words[..1];
    assert w3[..2] == w2 && w2[..1] == w1 && w1[..0] == [];
    assert WordsVal(w1) == Weight(0) * w1[0];
    assert WordsVal(w2) == WordsVal(w1) + Weight(4) * w2[1];
    assert WordsVal(w3) == WordsVal(w2) + Weight(8) * w3[2];
    assert WordsVal(words) == WordsVal(w3) + Weight(12) * words[3];
    MulMonotone(1, Weight(4), words[1]);
    MulMonotone(1, Weight(8), words[2]);
    MulMonotone(1, Weight(12), words[3]);
  }

  /** Three 256-bit inputs; 1 with the amount out, -1 for a zero input, -2 when the denominator
      does not fit into 256 bits.  Nothing else can happen: the quotient always fits. */
  method SettleSwap(amtIn: seq<u64>, rIn: seq<u64>, rOut: seq<u64>) returns (status: int, out: seq<u64>)
    requires |amtIn| == |rIn| == |rOut| == 4
    ensures status == 1 || status == -1 || status == -2
    ensures var a, ri, ro := WordsVal(amtIn), WordsVal(rIn), WordsVal(rOut);
            && (status == -1 <==> a == 0 || ri == 0 || ro == 0)
            && (status == -2 <==> a > 0 && ri > 0 && ro > 0 && Denominator(a, ri) >= Weight(16))
            && (status == 1 ==> |out| == 4 && WordsVal(out) == AmountOut(a, ri, ro))
  {
    hide Val, Weight, WordsVal, Held;
    out := [];
    var amount := Unpack(amtIn);
    var reserveIn := Unpack(rIn);
    var reserveOut := Unpack(rOut);
    ZeroWords(amtIn);
    ZeroWords(rIn);
    ZeroWords(rOut);
    if AllZero(amtIn) { return -1, out; }
    if AllZero(rIn) { return -1, out; }
    if AllZero(rOut) { return -1, out; }
    ghost var a, ri, ro := WordsVal(amtIn), WordsVal(rIn), WordsVal(rOut);

    var zero := new limb[16](_ => 0);
    ValZeros(zero[..]);
    var fee := new limb[16](_ => 0);
    var carry := ScaleAdd(amount, FEE, zero, fee);
    Overflow(fee[..], carry);
    if carry != 0 { return -2, out; }
    var den := new limb[16](_ => 0);
    carry := ScaleAdd(reserveIn, FEE_BASE, fee, den);
    Overflow(den[..], carry);
    if carry != 0 { return -2, out; }

    var num := Multiply(fee, reserveOut);
    ValBounded(reserveOut[..]);
    QuotientFits(a, ri, ro);
    var fits, q := Divide(num, den);
    assert fits;  // so the exit for a quotient beyond 256 bits is never taken
    out := Pack(q);
    return 1, out;
  }

  lemma Overflow(s: seq<limb>, carry: nat)
    requires |s| == 16
    ensures carry != 0 <==> Held(s, 16, carry) >= Weight(16)
    ensures carry == 0 ==> Held(s, 16, carry) == Val(s)
  {
    hide Val, Weight;
    ValBounded(s);
    if carry > 0 {
      MulMonotone(1, carry, Weight(16));
    }
  }

  /** The amount out is below the reserve, so it always fits. */
  lemma QuotientFits(ain: nat, rin: nat, rout: nat)
    requires ain > 0 && rin > 0 && rout > 0
    ensures AmountOut(ain, rin, rout) < rout
  {
    var d := Denominator(ain, rin);
    var o := AmountOut(ain, rin, rout);
    if o >= rout {
      MulMonotone(rout, o, d);
      MulMonotone(FEE * ain + 1, d, rout);
      Sum(FEE * ain, 1, rout);
      assert false;
    }
  }

  /** The fee-adjusted product of the reserves does not fall for exactly the amounts up to the
      one given out. */
  lemma KeepsProduct(ain: nat, rin: nat, rout: nat, o: int)
    requires rin > 0 && o >= 0
    ensures Denominator(ain, rin) * (rout - o) >= FEE_BASE * rin * rout <==> o <= AmountOut(ain, rin, rout)
  {
    var d: int := Denominator(ain, rin);
    var n, q := Numerator(ain, rout), AmountOut(ain, rin, rout);
    Distributes(d, rout, -o);
    Sum(FEE_BASE * rin, FEE * ain, rout);
    assert d * (rout - o) >= FEE_BASE * rin * rout <==> d * o <= n;
    if o <= q {
      MulMonotone(o, q, d);
    } else {
      MulMonotone(q + 1, o, d);
    }
  }

  // ---------------------------------------------------------------- the same in plain numbers

  lemma WordsSpelled(w: seq<u64>)
    requires |w| == 4
    ensures WordsVal(w) == w[0] as int + 0x1_0000_0000_0000_0000 * (w[1] as int)
                           + 0x1_0000_0000_0000_0000_0000_0000_0000_0000 * (w[2] as int)
                           + 0x1_0000_0000_0000_0000_0000_0000_0000_0000_0000_0000_0000_0000 * (w[3] as int)
  {
    hide Weight;
    WeightsSpelled();
    var w1, w2, w3 := w[..1], w[..2], w[..3];
    assert w3[..2] == w2 && w2[..1] == w1 && w1[..0] == [];
    assert WordsVal(w1) == w[0];
    assert WordsVal(w2) == WordsVal(w1) + Weight(4) * w[1];
    assert WordsVal(w3) == WordsVal(w2) + Weight(8) * w[2];
    assert WordsVal(w) == WordsVal(w3) + Weight(12) * w[3];
  }

  lemma WeightsSpelled()
    ensures Weight(0) == 1 && Weight(4) == 0x1_0000_0000_0000_0000
    ensures Weight(8) == 0x1_0000_0000_0000_0000_0000_0000_0000_0000
    ensures Weight(12) == 0x1_0000_0000_0000_0000_0000_0000_0000_0000_0000_0000_0000_0000
    ensures Weight(16) == 0x1_0000_0000_0000_0000_0000_0000_0000_0000_0000_0000_0000_0000_0000_0000_0000_0000
  {
    assert Weight(2) == 0x1_0000_0000;
    assert Weight(6) == 0x1_0000_0000_0000_0000_0000_0000;
    assert Weight(10) == 0x1_0000_0000_0000_0000_0000_0000_0000_0000_0000_0000;
    assert Weight(14) == 0x1_0000_0000_0000_0000_0000_0000_0000_0000_0000_0000_0000_0000_0000_0000;
  }

  /** The amount out is the largest one for which the reserves, with 0.3% of the amount in not
      counted, keep their product; and the denominator that has to fit is the first factor. */
  lemma FormulaSpelled(ain: nat, rin: nat, rout: nat, o: nat)
    requires rin > 0
    ensures Denominator(ain, rin) == 1000 * rin + 997 * ain
    ensures (1000 * rin + 997 * ain) * (rout - o) >= 1000 * rin * rout <==> o <= AmountOut(ain, rin, rout)
  {
    KeepsProduct(ain, rin, rout, o);
  }
}
