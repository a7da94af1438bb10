/** SHA-256 the way FIPS 180-4 describes it, bit by bit and modulo 2^32: what the hash computation
    has to agree with. */
module Fips {
  import opened Bytes
  import opened Seqs
  import opened Int64
  import opened Bits
  import opened Sha256

  // ---------------------------------------------------------------- the functions of section 4.1.2

  /** Three rotations to the right, added modulo two. */
  ghost predicate BigSigma(y: u32, x: u32, a: nat, b: nat, c: nat)
  {
    forall k: nat :: k < 32 ==>
      (BitOf(y, k) <==> (BitOf(x, (k + a) % 32) != (BitOf(x, (k + b) % 32) != BitOf(x, (k + c) % 32))))
  }

  /** Two rotations and a shift. */
  ghost predicate SmallSigma(y: u32, x: u32, a: nat, b: nat, c: nat)
  {
    forall k: nat :: k < 32 ==>
      (BitOf(y, k) <==> (BitOf(x, (k + a) % 32) != (BitOf(x, (k + b) % 32) != (k + c < 32 && BitOf(x, k + c)))))
  }

  ghost predicate Choice(y: u32, e: u32, f: u32, g: u32)
  {
    forall k: nat :: k < 32 ==> (BitOf(y, k) <==> if BitOf(e, k) then BitOf(f, k) else BitOf(g, k))
  }

  ghost predicate Majority(y: u32, a: u32, b: u32, c: u32)
  {
    forall k: nat :: k < 32 ==>
      (BitOf(y, k) <==> || (BitOf(a, k) && BitOf(b, k)) || (BitOf(a, k) && BitOf(c, k))
                        || (BitOf(b, k) && BitOf(c, k)))
  }

  predicate Mod32(y: u32, z: int) { y == z % 0x1_0000_0000 }

  // ---------------------------------------------------------------- their bits

  lemma Powers32()
    ensures Pow2(32) == TWO32
  {
    assert Pow2(8) == 256;
    assert Pow2(16) == 0x1_0000;
    assert Pow2(24) == 0x100_0000;
  }

  /** Bits of a word beyond its end. */
  lemma NoHighBit(x: u32, k: nat)
    requires k >= 32
    ensures !BitOf(x, k)
  {
    Powers32();
    Pow2Sum(32, k - 32);
    MulMonotone(1, Pow2(k - 32), Pow2(32));
    FloorIs(x, Pow2(k), 0, x);
  }

  /** Dividing by a power of two moves the bits down. */
  lemma BitDown(x: int, n: nat, k: nat)
    ensures BitOf(x / Pow2(n), k) <==> BitOf(x, k + n)
  {
    hide Pow2;
    var p, s := Pow2(n), Pow2(k);
    var q, r := FloorParts(x, p);
    var q', r' := FloorParts(q, s);
    Pow2Sum(n, k);
    Distributes(p, s * q', r');
    Assoc(p, s, q');
    Below(p, s, r, r');
    FloorIs(x, p * s, q', p * r' + r);
  }

  lemma Below(p: nat, s: nat, r: nat, r': nat)
    requires r < p && r' < s
    ensures p * r' + r < p * s
  {
    MulMonotone(r' + 1, s, p);
  }

  /** Multiplying by one moves them up. */
  lemma BitUp(x: int, n: nat, k: nat)
    ensures BitOf(x * Pow2(n), k) <==> k >= n && BitOf(x, k - n)
  {
    hide BitOf, Pow2;
    if k >= n {
      Pow2Above(x, n);
      BitDown(x * Pow2(n), n, k - n);
    } else {
      var c := x * Pow2(n - k - 1);
      Pow2Split(x, k + 1, n - k - 1);
      BitMoved(0, k, c);
      BitOfZero(k);
    }
  }

  lemma Pow2Above(x: int, n: nat)
    ensures (x * Pow2(n)) / Pow2(n) == x
  {
    FloorIs(x * Pow2(n), Pow2(n), x, 0);
  }

  lemma Pow2Split(x: int, a: nat, b: nat)
    ensures x * Pow2(a + b) == Pow2(a) * (x * Pow2(b))
  {
    Pow2Sum(a, b);
    Assoc(x, Pow2(a), Pow2(b));
  }

  lemma BitOfZero(k: nat)
    ensures !BitOf(0, k)
  {
    FloorIs(0, Pow2(k), 0, 0);
  }

  /** Reducing modulo 2^32 keeps the low bits. */
  lemma WordBits(x: nat, k: nat)
    requires k < 32
    ensures BitOf(Word(x), k) <==> BitOf(x, k)
  {
    Powers32();
    Pow2Sum(k + 1, 31 - k);
    var q, r := FloorParts(x, TWO32);
    Assoc(Pow2(k + 1), Pow2(31 - k), q);
    BitMoved(r, k, Pow2(31 - k) * q);
  }

  lemma ShrBits(x: u32, n: nat, k: nat)
    requires k < 32
    ensures BitOf(Shr(x, n), k) <==> k + n < 32 && BitOf(x, k + n)
  {
    hide BitOf;
    WordBits(Quotient(x, Pow2(n)), k);
    BitDown(x, n, k);
    if k + n >= 32 { NoHighBit(x, k + n); }
  }

  lemma RorBits(x: u32, n: nat, k: nat)
    requires k < 32 && n <= 32
    ensures BitOf(Ror(x, n), k) <==> BitOf(x, (k + n) % 32)
  {
    hide BitOf, Shr, Word, Bitwise, Pow2;
    ShrBits(x, n, k);
    WordBits(x as nat * Pow2(32 - n), k);
    BitUp(x, 32 - n, k);
    var a, b := Shr(x, n), Word(x as nat * Pow2(32 - n));
    BitwiseBit(Or, a, b, 32, k);
    WordBits(Bitwise(Or, a, b, 32), k);
    if k + n >= 32 { assert (k + n) % 32 == k + n - 32; }
  }

  lemma XorBits(a: u32, b: u32, k: nat)
    requires k < 32
    ensures BitOf(Xor2(a, b), k) <==> BitOf(a, k) != BitOf(b, k)
  {
    hide BitOf, Bitwise, Word;
    WordBits(Bitwise(Xor, a, b, 32), k);
    BitwiseBit(Xor, a, b, 32, k);
  }

  lemma AndBits(a: u32, b: u32, k: nat)
    requires k < 32
    ensures BitOf(And2(a, b), k) <==> BitOf(a, k) && BitOf(b, k)
  {
    hide BitOf, Bitwise, Word;
    WordBits(Bitwise(And, a, b, 32), k);
    BitwiseBit(And, a, b, 32, k);
  }

  lemma FlippedBits(a: u32, k: nat)
    requires k < 32
    ensures BitOf(Sha256.Not(a), k) <==> !BitOf(a, k)
  {
    hide BitOf;
    NotBits(a, k);
    Powers32();
    Pow2Sum(k + 1, 31 - k);
    BitMoved(-1 - a, k, Pow2(31 - k));
  }

  lemma SameWord(a: u32, b: u32)
    requires forall k: nat :: k < 32 ==> (BitOf(a, k) <==> BitOf(b, k))
    ensures a == b
  {
    hide BitOf;
    Powers32();
    SameLowBits(a, b, 32);
  }

  // ---------------------------------------------------------------- the hash computation of section 6.2.2

  /** Word t of the schedule: four bytes of the block, or the sum of four terms. */
  ghost predicate WordAt(w: seq<u32>, b: Block, t: nat)
    requires t < |w|
  {
    if t < 16 then
      w[t] == b[4 * t] as int * 0x100_0000 + b[4 * t + 1] as int * 0x1_0000 + b[4 * t + 2] as int * 0x100 + b[4 * t + 3]
    else SumOfFour(w[t], w[t - 2], w[t - 7], w[t - 15], w[t - 16])
  }

  ghost predicate SumOfFour(y: u32, w2: u32, w7: u32, w15: u32, w16: u32)
  {
    exists s1: u32, s0: u32 :: SmallSigma(s1, w2, 17, 19, 10) && SmallSigma(s0, w15, 7, 18, 3)
                               && Mod32(y, s1 as int + w7 + s0 + w16)
  }

  ghost predicate ScheduleOf(w: seq<u32>, b: Block)
  {
    |w| == 64 && forall t :: 0 <= t < 64 ==> WordAt(w, b, t)
  }

  /** The two new words of a round. */
  ghost predicate Mixed(x: u32, y: u32, q: Regs, k: u32, w: u32)
  {
    exists s1: u32, ch: u32, s0: u32, maj: u32 ::
      && BigSigma(s1, q.e, 6, 11, 25) && Choice(ch, q.e, q.f, q.g)
      && BigSigma(s0, q.a, 2, 13, 22) && Majority(maj, q.a, q.b, q.c)
      && Mod32(x, q.h as int + s1 + ch + k + w + s0 + maj)
      && Mod32(y, q.d as int + q.h + s1 + ch + k + w)
  }

  /** One round on the eight working variables. */
  ghost predicate Round(q: Regs, k: u32, w: u32, next: Regs)
  {
    && Mixed(next.a, next.e, q, k, w)
    && next.b == q.a && next.c == q.b && next.d == q.c
    && next.f == q.e && next.g == q.f && next.h == q.g
  }

  ghost predicate RoundsOf(vs: seq<Regs>, w: seq<u32>)
  {
    |vs| == 65 && |w| == 64 && forall t :: 0 <= t < 64 ==> Round(vs[t], K[t], w[t], vs[t + 1])
  }

  ghost predicate Adds(out: State, s: State, q: Regs)
  {
    && Mod32(out[0], s[0] as int + q.a) && Mod32(out[1], s[1] as int + q.b)
    && Mod32(out[2], s[2] as int + q.c) && Mod32(out[3], s[3] as int + q.d)
    && Mod32(out[4], s[4] as int + q.e) && Mod32(out[5], s[5] as int + q.f)
    && Mod32(out[6], s[6] as int + q.g) && Mod32(out[7], s[7] as int + q.h)
  }

  /** The intermediate hash value behind a block. */
  ghost predicate Compresses(s: State, b: Block, out: State)
  {
    exists w, vs :: ScheduleOf(w, b) && RoundsOf(vs, w)
                    && vs[0] == Regs(s[0], s[1], s[2], s[3], s[4], s[5], s[6], s[7])
                    && Adds(out, s, vs[64])
  }

  // ---------------------------------------------------------------- and what computes it

  lemma Rotations(x: u32, a: nat, b: nat, c: nat)
    requires a <= 32 && b <= 32 && c <= 32
    ensures BigSigma(Xor2(Xor2(Ror(x, a), Ror(x, b)), Ror(x, c)), x, a, b, c)
    ensures SmallSigma(Xor2(Xor2(Ror(x, a), Ror(x, b)), Shr(x, c)), x, a, b, c)
  {
    hide BitOf, Xor2, Ror, Shr;
    forall k: nat | k < 32
      ensures BitOf(Xor2(Xor2(Ror(x, a), Ror(x, b)), Ror(x, c)), k) <==>
                (BitOf(x, (k + a) % 32) != (BitOf(x, (k + b) % 32) != BitOf(x, (k + c) % 32)))
      ensures BitOf(Xor2(Xor2(Ror(x, a), Ror(x, b)), Shr(x, c)), k) <==>
                (BitOf(x, (k + a) % 32) != (BitOf(x, (k + b) % 32) != (k + c < 32 && BitOf(x, k + c))))
    {
      RorBits(x, a, k);
      RorBits(x, b, k);
      RorBits(x, c, k);
      ShrBits(x, c, k);
      XorBits(Ror(x, a), Ror(x, b), k);
      XorBits(Xor2(Ror(x, a), Ror(x, b)), Ror(x, c), k);
      XorBits(Xor2(Ror(x, a), Ror(x, b)), Shr(x, c), k);
    }
  }

  lemma Choices(e: u32, f: u32, g: u32)
    ensures Choice(Xor2(And2(e, f), And2(Sha256.Not(e), g)), e, f, g)
  {
    hide BitOf, Xor2, And2, Sha256.Not;
    forall k: nat | k < 32
      ensures BitOf(Xor2(And2(e, f), And2(Sha256.Not(e), g)), k) <==> if BitOf(e, k) then BitOf(f, k) else BitOf(g, k)
    {
      FlippedBits(e, k);
      AndBits(e, f, k);
      AndBits(Sha256.Not(e), g, k);
      XorBits(And2(e, f), And2(Sha256.Not(e), g), k);
    }
  }

  lemma Majorities(a: u32, b: u32, c: u32)
    ensures Majority(Xor2(Xor2(And2(a, b), And2(a, c)), And2(b, c)), a, b, c)
  {
    hide BitOf, Xor2, And2;
    var y := Xor2(Xor2(And2(a, b), And2(a, c)), And2(b, c));
    forall k: nat | k < 32
      ensures BitOf(y, k) <==> || (BitOf(a, k) && BitOf(b, k)) || (BitOf(a, k) && BitOf(c, k))
                               || (BitOf(b, k) && BitOf(c, k))
    {
      AndBits(a, b, k);
      AndBits(a, c, k);
      AndBits(b, c, k);
      XorBits(And2(a, b), And2(a, c), k);
      XorBits(Xor2(And2(a, b), And2(a, c)), And2(b, c), k);
    }
  }

  lemma BigOnce(y: u32, z: u32, x: u32, a: nat, b: nat, c: nat)
    requires BigSigma(y, x, a, b, c) && BigSigma(z, x, a, b, c)
    ensures y == z
  {
    hide BitOf;
    SameWord(y, z);
  }

  lemma SmallOnce(y: u32, z: u32, x: u32, a: nat, b: nat, c: nat)
    requires SmallSigma(y, x, a, b, c) && SmallSigma(z, x, a, b, c)
    ensures y == z
  {
    hide BitOf;
    SameWord(y, z);
  }

  lemma ChoiceOnce(y: u32, z: u32, e: u32, f: u32, g: u32)
    requires Choice(y, e, f, g) && Choice(z, e, f, g)
    ensures y == z
  {
    hide BitOf;
    SameWord(y, z);
  }

  lemma MajorityOnce(y: u32, z: u32, a: u32, b: u32, c: u32)
    requires Majority(y, a, b, c) && Majority(z, a, b, c)
    ensures y == z
  {
    hide BitOf;
    SameWord(y, z);
  }

  lemma AddOn(z: nat, a: u32)
    ensures Add(Word(z), a) == Word(z + a) && Add(a, Word(z)) == Word(z + a)
  {
  }

  lemma FourTerms(y: u32, a: u32, b: u32, c: u32, d: u32)
    ensures Mod32(y, a as int + b + c + d) <==> y == Add(Add(Add(d, c), b), a)
  {
    hide Add, Word;
    AddIs(d, c);
    AddOn(d as int + c, b);
    AddOn(d as int + c + b, a);
    WordIs(y, a as int + b + c + d);
  }

  lemma AddIs(a: u32, b: u32)
    ensures Add(a, b) == Word(a as int + b)
  {
  }

  lemma WordIs(y: u32, z: nat)
    ensures Mod32(y, z) <==> y == Word(z)
  {
  }

  /** Words of the schedule are exactly those of the hash computation. */
  lemma NextExactly(w: seq<u32>, b: Block)
    requires |w| > 16
    ensures WordAt(w, b, |w| - 1) <==> w[|w| - 1] == NextWord(w[..|w| - 1])
  {
    hide Xor2, Ror, Shr, SumOfFour, NextWord;
    var t := |w| - 1;
    NextIs(w[..t], w[t], w[t - 2], w[t - 7], w[t - 15], w[t - 16]);
  }

  lemma NextIs(w: seq<u32>, y: u32, w2: u32, w7: u32, w15: u32, w16: u32)
    requires |w| >= 16 && w2 == w[|w| - 2] && w7 == w[|w| - 7] && w15 == w[|w| - 15] && w16 == w[|w| - 16]
    ensures SumOfFour(y, w2, w7, w15, w16) <==> y == NextWord(w)
  {
    hide Add, Xor2, Ror, Shr, SmallSigma, Mod32;
    var s0 := Xor2(Xor2(Ror(w15, 7), Ror(w15, 18)), Shr(w15, 3));
    var s1 := Xor2(Xor2(Ror(w2, 17), Ror(w2, 19)), Shr(w2, 10));
    Rotations(w15, 7, 18, 3);
    Rotations(w2, 17, 19, 10);
    FourTerms(y, s1, w7, s0, w16);
    if SumOfFour(y, w2, w7, w15, w16) {
      var r1: u32, r0: u32 :| SmallSigma(r1, w2, 17, 19, 10) && SmallSigma(r0, w15, 7, 18, 3)
                              && Mod32(y, r1 as int + w7 + r0 + w16);
      SmallOnce(r0, s0, w15, 7, 18, 3);
      SmallOnce(r1, s1, w2, 17, 19, 10);
    }
  }

  lemma {:induction false} ScheduleExactly(w: seq<u32>, b: Block, n: nat)
    requires n <= |w|
    ensures (forall t :: 0 <= t < n ==> WordAt(w, b, t)) <==> w[..n] == Schedule(b, n)
  {
    hide WordAt, NextWord;
    if n > 0 {
      ScheduleExactly(w, b, n - 1);
      var v := w[..n];
      assert v == w[..n - 1] + [w[n - 1]] && v[..n - 1] == w[..n - 1];
      WordOfPrefix(w, v, b, n - 1);
      if n <= 16 { BlockWordAt(w, b, n - 1); } else { NextExactly(v, b); }
    }
  }

  lemma WordOfPrefix(w: seq<u32>, v: seq<u32>, b: Block, t: nat)
    requires t < |v| <= |w| && v == w[..|v|]
    ensures WordAt(w, b, t) <==> WordAt(v, b, t)
  {
  }

  lemma BlockWordAt(w: seq<u32>, b: Block, t: nat)
    requires t < 16 && t < |w|
    ensures WordAt(w, b, t) <==> w[t] == BlockWord(b, t)
  {
    var v := 4 * t;
    assert b[v] as int * 0x100_0000 + b[v + 1] as int * 0x1_0000 + b[v + 2] as int * 0x100 + b[v + 3] < TWO32;
  }

  // ---------------------------------------------------------------- rounds

  function Turn(q: Regs, k: u32, w: u32): Regs
  {
    var t1, t2 := T1(q, k, w), T2(q);
    Regs(Add(t1, t2), q.a, q.b, q.c, Add(q.d, t1), q.e, q.f, q.g)
  }

  lemma TurnExactly(q: Regs, k: u32, w: u32, next: Regs)
    ensures Round(q, k, w, next) <==> next == Turn(q, k, w)
  {
    hide Xor2, And2, Sha256.Not, Ror, BigSigma, Choice, Majority, Turn, Mod32, Add;
    var s1 := Xor2(Xor2(Ror(q.e, 6), Ror(q.e, 11)), Ror(q.e, 25));
    var ch := Xor2(And2(q.e, q.f), And2(Sha256.Not(q.e), q.g));
    var s0 := Xor2(Xor2(Ror(q.a, 2), Ror(q.a, 13)), Ror(q.a, 22));
    var maj := Xor2(Xor2(And2(q.a, q.b), And2(q.a, q.c)), And2(q.b, q.c));
    Rotations(q.e, 6, 11, 25);
    Rotations(q.a, 2, 13, 22);
    Choices(q.e, q.f, q.g);
    Majorities(q.a, q.b, q.c);
    TurnIs(q, k, w, s1, ch, s0, maj);
    MixedIs(next.a, next.e, q, k, w, s1, ch, s0, maj);
  }

  lemma MixedIs(x: u32, y: u32, q: Regs, k: u32, w: u32, s1: u32, ch: u32, s0: u32, maj: u32)
    requires BigSigma(s1, q.e, 6, 11, 25) && Choice(ch, q.e, q.f, q.g)
    requires BigSigma(s0, q.a, 2, 13, 22) && Majority(maj, q.a, q.b, q.c)
    ensures var t1 := Add(Add(Add(Add(q.h, s1), ch), k), w);
            Mixed(x, y, q, k, w) <==> x == Add(t1, Add(s0, maj)) && y == Add(q.d, t1)
  {
    hide BigSigma, Choice, Majority, Mod32, Add;
    SevenTerms(x, q.h, s1, ch, k, w, s0, maj);
    SixTerms(y, q.d, q.h, s1, ch, k, w);
    if Mixed(x, y, q, k, w) {
      var s1': u32, ch': u32, s0': u32, maj': u32 :|
        && BigSigma(s1', q.e, 6, 11, 25) && Choice(ch', q.e, q.f, q.g)
        && BigSigma(s0', q.a, 2, 13, 22) && Majority(maj', q.a, q.b, q.c)
        && Mod32(x, q.h as int + s1' + ch' + k + w + s0' + maj')
        && Mod32(y, q.d as int + q.h + s1' + ch' + k + w);
      BigOnce(s1', s1, q.e, 6, 11, 25);
      ChoiceOnce(ch', ch, q.e, q.f, q.g);
      BigOnce(s0', s0, q.a, 2, 13, 22);
      MajorityOnce(maj', maj, q.a, q.b, q.c);
    }
  }

  lemma TurnIs(q: Regs, k: u32, w: u32, s1: u32, ch: u32, s0: u32, maj: u32)
    requires s1 == Xor2(Xor2(Ror(q.e, 6), Ror(q.e, 11)), Ror(q.e, 25))
    requires ch == Xor2(And2(q.e, q.f), And2(Sha256.Not(q.e), q.g))
    requires s0 == Xor2(Xor2(Ror(q.a, 2), Ror(q.a, 13)), Ror(q.a, 22))
    requires maj == Xor2(Xor2(And2(q.a, q.b), And2(q.a, q.c)), And2(q.b, q.c))
    ensures var t1 := Add(Add(Add(Add(q.h, s1), ch), k), w);
            Turn(q, k, w) == Regs(Add(t1, Add(s0, maj)), q.a, q.b, q.c, Add(q.d, t1), q.e, q.f, q.g)
  {
    hide Xor2, And2, Sha256.Not, Ror, Add;
  }

  /** The sum of five terms, with the last two terms of the rounds. */
  lemma FiveTerms(a: u32, b: u32, c: u32, d: u32, e: u32)
    ensures Add(Add(Add(Add(a, b), c), d), e) == Word(a as int + b + c + d + e)
  {
    hide Add, Word;
    AddIs(a, b);
    AddOn(a as int + b, c);
    AddOn(a as int + b + c, d);
    AddOn(a as int + b + c + d, e);
  }

  lemma SevenTerms(y: u32, a: u32, b: u32, c: u32, d: u32, e: u32, f: u32, g: u32)
    ensures Mod32(y, a as int + b + c + d + e + f + g) <==> y == Add(Add(Add(Add(Add(a, b), c), d), e), Add(f, g))
  {
    hide Add, Word;
    FiveTerms(a, b, c, d, e);
    AddIs(f, g);
    AddWords(a as int + b + c + d + e, f as int + g);
    WordIs(y, a as int + b + c + d + e + f + g);
  }

  lemma AddWords(x: nat, z: nat)
    ensures Add(Word(x), Word(z)) == Word(x + z)
  {
  }

  lemma SixTerms(y: u32, a: u32, b: u32, c: u32, d: u32, e: u32, f: u32)
    ensures Mod32(y, a as int + b + c + d + e + f) <==> y == Add(a, Add(Add(Add(Add(b, c), d), e), f))
  {
    hide Add, Word;
    FiveTerms(b, c, d, e, f);
    AddOn(b as int + c + d + e + f, a);
    WordIs(y, a as int + b + c + d + e + f);
  }

  /** Rounds as a list of register states. */
  lemma {:induction false} RoundsExactly(vs: seq<Regs>, w: seq<u32>, n: nat)
    requires n <= 64 == |w| && |vs| == 65
    requires forall t :: 0 <= t < n ==> Round(vs[t], K[t], w[t], vs[t + 1])
    ensures vs[n] == Rounds(vs[0], w, n)
  {
    hide Round, Rounds;
    NoRounds(vs[0], w);
    if n > 0 {
      RoundsExactly(vs, w, n - 1);
      TurnExactly(vs[n - 1], K[n - 1], w[n - 1], vs[n]);
      RoundsTurn(vs[0], w, n);
    }
  }

  lemma RoundsTurn(r: Regs, w: seq<u32>, n: nat)
    requires 0 < n <= 64 == |w|
    ensures Rounds(r, w, n) == Turn(Rounds(r, w, n - 1), K[n - 1], w[n - 1])
  {
    hide T1, T2, Add, K;
  }

  lemma RoundsListed(r: Regs, w: seq<u32>) returns (vs: seq<Regs>)
    requires |w| == 64
    ensures RoundsOf(vs, w) && vs[0] == r && vs[64] == Rounds(r, w, 64)
  {
    hide Round, Rounds;
    vs := seq(65, t requires 0 <= t < 65 => Rounds(r, w, t));
    forall t | 0 <= t < 64 ensures Round(vs[t], K[t], w[t], vs[t + 1]) {
      TurnExactly(vs[t], K[t], w[t], vs[t + 1]);
      RoundsTurn(r, w, t + 1);
    }
    NoRounds(r, w);
  }

  lemma NoRounds(r: Regs, w: seq<u32>)
    requires |w| == 64
    ensures Rounds(r, w, 0) == r
  {
    hide K;
  }

  lemma AddsExactly(out: State, s: State, q: Regs)
    ensures Adds(out, s, q) <==> out == Sum(s, q)
  {
  }

  /** The compression function is the hash computation. */
  lemma CompressExactly(s: State, b: Block, out: State)
    ensures Compresses(s, b, out) <==> out == Compress(s, b)
  {
    hide Rounds, Schedule, Sum, Adds, WordAt, Round, K;
    var w := Schedule(b, 64);
    assert w[..64] == w;
    ScheduleExactly(w, b, 64);
    var vs := RoundsListed(Load(s), w);
    AddsExactly(out, s, vs[64]);
    if Compresses(s, b, out) {
      var w', vs' :| ScheduleOf(w', b) && RoundsOf(vs', w')
                     && vs'[0] == Regs(s[0], s[1], s[2], s[3], s[4], s[5], s[6], s[7]) && Adds(out, s, vs'[64]);
      assert w'[..64] == w';
      ScheduleExactly(w', b, 64);
      RoundsExactly(vs', w', 64);
      AddsExactly(out, s, vs'[64]);
    }
  }

  // ---------------------------------------------------------------- the whole message

  /** Section 5.1.1: a one bit, the fewest zeros that fill a block, and the length in bits. */
  ghost predicate Padded(p: bytes, m: bytes)
  {
    var n := |m|;
    && |p| % 64 == 0 && n + 9 <= |p| < n + 9 + 64
    && p[..n] == m && p[n] == 0x80
    && (forall i :: n < i < |p| - 8 ==> p[i] == 0)
    && FromBE(p[|p| - 8..]) == (8 * n) % 0x1_0000_0000_0000_0000
  }

  ghost predicate Chained(hs: seq<State>, p: bytes, n: nat)
  {
    && |p| == 64 * n && |hs| == n + 1 && hs[0] == H0
    && forall i: nat :: i < n ==> BlockStep(hs, p, i)
  }

  ghost predicate BlockStep(hs: seq<State>, p: bytes, i: nat)
  {
    i + 1 < |hs| && 64 * i + 64 <= |p| && Compresses(hs[i], p[64 * i..64 * i + 64], hs[i + 1])
  }

  /** The digest is the words of the last hash value, highest byte first. */
  ghost predicate WordsOf(d: Digest, s: State)
  {
    forall i :: 0 <= i < 8 ==> FromBE(d[4 * i..4 * i + 4]) == s[i]
  }

  ghost predicate DigestOf(m: bytes, d: Digest)
  {
    exists p, hs, n: nat :: Padded(p, m) && Chained(hs, p, n) && WordsOf(d, hs[n])
  }

  lemma {:induction false} BEInjective(a: bytes, b: bytes)
    requires |a| == |b| && FromBE(a) == FromBE(b)
    ensures a == b
  {
    if a != [] {
      var n := |a| - 1;
      LastDigit(FromBE(a[..n]), a[n], FromBE(b[..n]), b[n]);
      BEInjective(a[..n], b[..n]);
      assert a == a[..n] + [a[n]] && b == b[..n] + [b[n]];
    }
  }

  lemma LastDigit(x: nat, c: byte, y: nat, d: byte)
    requires x * 256 + c == y * 256 + d
    ensures x == y && c == d
  {
  }

  lemma PaddedExactly(p: bytes, m: bytes)
    ensures Padded(p, m) <==> p == Pad(m)
  {
    hide FromBE, BE64, Padded;
    var v: u64 := (8 * |m|) % TWO64;
    BE64RoundTrip(v);
    PadIsPadded(m, v);
    if Padded(p, m) { PaddedIsPad(p, m, v); }
  }

  lemma PadIsPadded(m: bytes, v: u64)
    requires v == (8 * |m|) % TWO64 && FromBE(BE64(v)) == v
    ensures Padded(Pad(m), m)
  {
    hide FromBE, BE64;
    GapIsLeast(|m|, 0);
    PadStart(m);
    PadEnd(m);
    var p := Pad(m);
    assert p[|m|] == 0x80;
  }

  lemma PaddedIsPad(p: bytes, m: bytes, v: u64)
    requires Padded(p, m) && v == (8 * |m|) % TWO64 && FromBE(BE64(v)) == v
    ensures p == Pad(m)
  {
    hide FromBE, BE64;
    var n, e := |m|, |p| - 8;
    GapIsLeast(n, e - n - 1);
    BEInjective(p[e..], BE64(v));
    assert e - n - 1 == Gap(n);
    assert p[n + 1..e] == Zeros(Gap(n));
    assert p == p[..n] + ([p[n]] + (p[n + 1..e] + p[e..]));
  }

  lemma {:induction false} ChainFolds(hs: seq<State>, p: bytes, n: nat, i: nat)
    requires Chained(hs, p, n) && i <= n
    ensures hs[i] == Fold(H0, p[..64 * i])
  {
    hide Compresses, Compress, H0, Fold;
    if i == 0 {
      EmptyFold(p[..0]);
    } else {
      var j: nat := i - 1;
      ChainFolds(hs, p, n, j);
      assert BlockStep(hs, p, j);
      CompressExactly(hs[j], p[64 * j..64 * j + 64], hs[i]);
      assert p[..64 * i] == p[..64 * j] + p[64 * j..64 * j + 64];
      FoldSnoc(H0, p[..64 * j], p[64 * j..64 * j + 64]);
    }
  }

  lemma EmptyFold(b: bytes)
    requires b == []
    ensures Fold(H0, b) == H0
  {
    hide H0;
  }

  lemma ChainOf(p: bytes, n: nat) returns (hs: seq<State>)
    requires |p| == 64 * n
    ensures Chained(hs, p, n)
  {
    hide Compresses, Compress, H0, Fold;
    hs := seq(n + 1, i requires 0 <= i <= n => Fold(H0, p[..64 * i]));
    EmptyFold(p[..0]);
    forall i: nat | i < n ensures BlockStep(hs, p, i) {
      assert p[..64 * (i + 1)] == p[..64 * i] + p[64 * i..64 * i + 64];
      FoldSnoc(H0, p[..64 * i], p[64 * i..64 * i + 64]);
      CompressExactly(hs[i], p[64 * i..64 * i + 64], hs[i + 1]);
    }
  }

  lemma WordBytes(x: u32)
    ensures FromBE([ByteAt(x, 24), ByteAt(x, 16), ByteAt(x, 8), ByteAt(x, 0)]) == x
  {
    hide FromBE, Quotient, Pow2;
    BytePowers();
    DivTwice(x, 1);
    DivTwice(x, 0x100);
    DivTwice(x, 0x1_0000);
    WordEnds(x);
    FourBytes(ByteAt(x, 24), ByteAt(x, 16), ByteAt(x, 8), ByteAt(x, 0));
  }

  lemma WordEnds(x: u32)
    ensures Quotient(x, 1) == x && Quotient(x, 0x100_0000) < 256
  {
  }

  lemma FourBytes(a: byte, b: byte, c: byte, d: byte)
    ensures FromBE([a, b, c, d]) == ((a as int * 256 + b) * 256 + c) * 256 + d
  {
    hide FromBE;
    BESnoc([], a);
    BESnoc([a], b);
    BESnoc([a, b], c);
    BESnoc([a, b, c], d);
    assert [] + [a] == [a] && [a] + [b] == [a, b] && [a, b] + [c] == [a, b, c] && [a, b, c] + [d] == [a, b, c, d];
  }

  lemma BESnoc(b: bytes, c: byte)
    ensures FromBE(b + [c]) == FromBE(b) * 256 + c && FromBE([]) == 0
  {
    SnocParts(b, c);
  }

  lemma OutputWords(s: State)
    ensures WordsOf(Output(s), s)
  {
    hide FromBE, ByteAt;
    var o: bytes := Output(s);
    forall i | 0 <= i < 8 ensures FromBE(o[4 * i..4 * i + 4]) == s[i] {
      OutputAt(s, i);
      WordBytes(s[i]);
      assert o[4 * i..4 * i + 4] == [o[4 * i], o[4 * i + 1], o[4 * i + 2], o[4 * i + 3]];
    }
  }

  lemma WordsOnce(d: Digest, o: Digest, s: State)
    requires WordsOf(d, s) && WordsOf(o, s)
    ensures d == o
  {
    hide FromBE;
    forall k | 0 <= k < 32 ensures d[k] == o[k] {
      var i := k / 4;
      assert FromBE(d[4 * i..4 * i + 4]) == s[i] == FromBE(o[4 * i..4 * i + 4]);
      BEInjective(d[4 * i..4 * i + 4], o[4 * i..4 * i + 4]);
      assert d[4 * i..4 * i + 4][k - 4 * i] == d[k] && o[4 * i..4 * i + 4][k - 4 * i] == o[k];
    }
  }

  /** The digest is exactly the one of the standard, for messages of every length. */
  lemma DigestExactly(m: bytes, d: Digest)
    ensures DigestOf(m, d) <==> d == Sha256.Sha256(m)
  {
    hide Padded, Pad, H0, Fold, Output, WordsOf, BlockStep, Sha256.Sha256;
    var p := Pad(m);
    PaddedExactly(p, m);
    var n := BlocksOf(p, m);
    var hs := ChainOf(p, n);
    ChainEnd(hs, p, n);
    OutputWords(hs[n]);
    DigestIs(m);
    if DigestOf(m, d) {
      var p', hs', n': nat :| Padded(p', m) && Chained(hs', p', n') && WordsOf(d, hs'[n']);
      PaddedExactly(p', m);
      ChainEnd(hs', p', n');
      WordsOnce(d, Output(hs[n]), hs[n]);
    }
  }

  lemma BlocksOf(p: bytes, m: bytes) returns (n: nat)
    requires Padded(p, m)
    ensures |p| == 64 * n
  {
    n := |p| / 64;
  }

  lemma ChainEnd(hs: seq<State>, p: bytes, n: nat)
    requires Chained(hs, p, n)
    ensures |hs| == n + 1 && hs[n] == Fold(H0, p)
  {
    hide Fold, H0;
    ChainFolds(hs, p, n, n);
    assert p[..64 * n] == p;
  }
}
