/** The bits of integers, and which bits the bitwise operations and shifts leave. */
module Bits {
  import opened Int64
  import opened Semantics

  /** Bit k in two's complement. */
  predicate BitOf(x: int, k: nat)
  {
    (x / Pow2(k)) % 2 == 1
  }

  /** The number of the same 64 bits without a sign. */
  function Unsigned(x: i64): u64
  {
    if x < 0 then x + 0x1_0000_0000_0000_0000 else x
  }

  lemma FloorIs(x: int, p: nat, q: int, r: int)
    requires 0 <= r < p && x == p * q + r
    ensures x / p == q && x % p == r
  {
    var k := x / p;
    if k < q { MulMonotone(k + 1, q, p); } else if k > q { MulMonotone(q + 1, k, p); }
  }

  lemma FloorParts(x: int, p: nat) returns (q: int, r: int)
    requires p > 0
    ensures q == x / p && x == p * q + r && 0 <= r < p
  {
    q, r := x / p, x % p;
  }

  lemma BitHalf(x: int, k: nat)
    requires k > 0
    ensures BitOf(x, k) <==> BitOf(x / 2, k - 1)
  {
    var p := Pow2(k - 1);
    var q, r := FloorParts(x / 2, p);
    Distributes(2, p * q, r);
    Assoc(2, p, q);
    FloorIs(x, 2 * p, q, 2 * r + x % 2);
  }

  lemma BitZero(x: int)
    ensures BitOf(x, 0) <==> x % 2 == 1
  {
    assert Pow2(0) == 1;
  }

  /** Adding a multiple of a higher power of two leaves a bit alone. */
  lemma BitMoved(x: int, k: nat, c: int)
    ensures BitOf(x + Pow2(k + 1) * c, k) <==> BitOf(x, k)
  {
    var p := Pow2(k);
    var q, r := FloorParts(x, p);
    Assoc(2, p, c);
    Distributes(p, q, 2 * c);
    Assoc(p, 2, c);
    FloorIs(x + Pow2(k + 1) * c, p, q + 2 * c, r);
  }

  lemma UnsignedBits(x: i64, k: nat)
    requires k < 64
    ensures BitOf(Unsigned(x), k) <==> BitOf(x, k)
  {
    Pow2Sum(k + 1, 63 - k);
    Pow2Of64();
    BitMoved(x, k, Pow2(63 - k));
  }

  lemma NotBits(x: int, k: nat)
    ensures BitOf(-1 - x, k) <==> !BitOf(x, k)
  {
    var p := Pow2(k);
    var q, r := FloorParts(x, p);
    Distributes(p, -1, q);
    FloorIs(-1 - x, p, -1 - q, p - 1 - r);
  }

  predicate BitRuleOf(rule: BitRule, a: bool, b: bool)
  {
    match rule case And => a && b case Or => a || b case Xor => a != b
  }

  lemma {:induction false} BitwiseBit(rule: BitRule, a: nat, b: nat, n: nat, k: nat)
    requires k < n
    ensures BitOf(Bitwise(rule, a, b, n), k) <==> BitRuleOf(rule, BitOf(a, k), BitOf(b, k))
    decreases n
  {
    hide BitOf;
    var c := Bitwise(rule, a, b, n);
    if k == 0 {
      BitZero(a);
      BitZero(b);
      BitZero(c);
    } else {
      BitHalf(a, k);
      BitHalf(b, k);
      BitHalf(c, k);
      BitwiseBit(rule, a / 2, b / 2, n - 1, k - 1);
    }
  }

  lemma SignBack(u: u64)
    ensures Unsigned(FromU64(u)) == u
  {
  }

  lemma SameUnsigned(x: i64)
    ensures ToU64(x) == Unsigned(x)
  {
  }

  lemma Bitwise64Bit(rule: BitRule, x: i64, y: i64, k: nat)
    requires k < 64
    ensures BitOf(Bitwise64(rule, x, y), k) <==> BitRuleOf(rule, BitOf(x, k), BitOf(y, k))
  {
    hide BitOf, Bitwise, FromU64, ToU64, Unsigned;
    Pow2Of64();
    SameUnsigned(x);
    SameUnsigned(y);
    UnsignedBits(x, k);
    UnsignedBits(y, k);
    var u: u64 := Bitwise(rule, ToU64(x), ToU64(y), 64);
    SignBack(u);
    UnsignedBits(FromU64(u), k);
    BitwiseBit(rule, ToU64(x), ToU64(y), 64, k);
  }

  lemma {:induction false} SameLowBits(a: nat, b: nat, n: nat)
    requires a < Pow2(n) && b < Pow2(n) && forall k: nat :: k < n ==> (BitOf(a, k) <==> BitOf(b, k))
    ensures a == b
    decreases n
  {
    hide BitOf;
    if n > 0 {
      BitZero(a);
      BitZero(b);
      forall k: nat | k < n - 1 ensures BitOf(a / 2, k) <==> BitOf(b / 2, k) {
        BitHalf(a, k + 1);
        BitHalf(b, k + 1);
      }
      SameLowBits(a / 2, b / 2, n - 1);
    }
  }

  /** A 64-bit number is its 64 bits. */
  lemma BitsDetermine(v: i64, w: i64)
    requires forall k: nat :: k < 64 ==> (BitOf(v, k) <==> BitOf(w, k))
    ensures v == w
  {
    hide BitOf;
    Pow2Of64();
    forall k: nat | k < 64 ensures BitOf(Unsigned(v), k) <==> BitOf(Unsigned(w), k) {
      UnsignedBits(v, k);
      UnsignedBits(w, k);
    }
    SameLowBits(Unsigned(v), Unsigned(w), 64);
  }

  // ---------------------------------------------------------------- shifts

  /** v is x / 2^y rounded down. */
  ghost predicate Halved(x: int, y: nat, v: int)
  {
    Pow2(y) * v <= x < Pow2(y) * (v + 1)
  }

  lemma FloorHalves(x: int, y: nat)
    ensures Halved(x, y, x / Pow2(y))
  {
    var q, r := FloorParts(x, Pow2(y));
    Distributes(Pow2(y), q, 1);
  }

  lemma LeftShift(x: i64, y: i64)
    requires 0 <= y < 64
    ensures Congruent(Shift(x, y, true), x * Pow2(y))
  {
    hide Pow2, FromU64;
    var c := if x < 0 then 1 else 0;
    var p := Pow2(y);
    assert ToU64(x) == x + c * TWO64;
    MovedProduct(x, c, p);
    MovedMod(x * p, c * p);
    ReducedWraps(x * p);
    WrapsCongruent(x * p, Shift(x, y, true));
  }

  lemma MovedProduct(x: int, c: int, p: int)
    ensures (x + c * TWO64) * p == x * p + (c * p) * TWO64
  {
  }

  lemma RightShift(x: i64, y: i64)
    requires 0 <= y < 64
    ensures Halved(x, y, Shift(x, y, false))
  {
    hide Halved, Pow2;
    FloorHalves(x, y);
  }

  lemma UnsignedShift(x: i64, y: i64)
    requires 0 <= y < 64
    ensures Halved(Unsigned(x), y, Unsigned(ShiftUnsigned(x, y)))
  {
    hide Halved, Pow2, Unsigned, ToU64, FromU64;
    SameUnsigned(x);
    FloorDivBounded(ToU64(x), Pow2(y));
    FloorHalves(Unsigned(x), y);
    SignBack(ToU64(x) / Pow2(y));
  }
}
