/** Wrapping 64-bit arithmetic, the way the C code computes it through unsigned integers. */
module Int64 {

  const TWO63: int := 0x8000_0000_0000_0000
  const TWO64: int := 0x1_0000_0000_0000_0000

  type i64 = x: int | -0x8000_0000_0000_0000 <= x < 0x8000_0000_0000_0000
  type u64 = x: int | 0 <= x < 0x1_0000_0000_0000_0000

  const INT64_MIN: i64 := -0x8000_0000_0000_0000

  function ToU64(x: i64): u64
  {
    if x < 0 then x + TWO64 else x
  }

  function FromU64(x: u64): i64
  {
    if x >= TWO63 then x - TWO64 else x
  }

  function WAdd(a: i64, b: i64): i64 { FromU64((ToU64(a) + ToU64(b)) % TWO64) }

  function WSub(a: i64, b: i64): i64 { FromU64((ToU64(a) - ToU64(b)) % TWO64) }

  function WMul(a: i64, b: i64): i64 { FromU64((ToU64(a) * ToU64(b)) % TWO64) }

  /** C division truncates toward zero. */
  function TruncDiv(x: int, y: int): int
    requires y != 0
  {
    if x >= 0 then (if y > 0 then x / y else -(x / -y))
    else (if y > 0 then -(-x / y) else -x / -y)
  }

  function Abs(x: int): (r: int)
    ensures r >= 0
  {
    if x < 0 then -x else x
  }

  lemma MulMonotone(a: int, b: int, q: int)
    requires a <= b && 0 <= q
    ensures a * q <= b * q
  {
  }

  lemma Assoc(a: int, b: int, c: int)
    ensures a * (b * c) == (a * b) * c == b * (a * c)
  {
  }

  lemma Distributes(a: int, b: int, c: int)
    ensures a * (b + c) == a * b + a * c && a * (b - c) == a * b - a * c
  {
  }

  /** The quotient is the only number that leaves a remainder in range. */
  lemma QuotientIs(x: nat, p: nat, q: int, r: int)
    requires 0 <= r < p && x == p * q + r
    ensures x / p == q && x % p == r
  {
    var k := x / p;
    if k < q { MulMonotone(k + 1, q, p); } else if k > q { MulMonotone(q + 1, k, p); }
  }

  lemma DivMagnitude(a: int, b: int, q: int, r: int)
    requires a >= 0 && b > 0 && a == b * q + r && 0 <= r < b && q >= 0
    ensures q <= a && 0 <= b * q <= a
    ensures b > 1 && a > 0 ==> q < a
  {
    MulMonotone(1, b, q);
    if b > 1 { MulMonotone(2, b, q); }
  }

  lemma QuotientNonNegative(a: int, b: int)
    requires a >= 0 && b > 0
    ensures a / b >= 0 && a == b * (a / b) + a % b && 0 <= a % b < b
  {
  }

  lemma MulNegate(y: int, q: int)
    ensures y * -q == -(y * q) && -y * q == -(y * q) && -y * -q == y * q
  {
  }

  /** Quotients and remainders stay within the magnitude of the dividend. */
  lemma TruncDivBounded(x: int, y: int)
    requires y != 0
    ensures -Abs(x) <= TruncDiv(x, y) <= Abs(x)
    ensures y != -1 && x < 0 ==> TruncDiv(x, y) < Abs(x)
    ensures -Abs(x) <= x - y * TruncDiv(x, y) <= Abs(x)
  {
    var a, b := Abs(x), Abs(y);
    QuotientNonNegative(a, b);
    var q := a / b;
    DivMagnitude(a, b, q, a % b);
    MulNegate(y, q);
  }

  function WDiv(x: i64, y: i64): i64
    requires y != 0
  {
    TruncDivBounded(x, y);
    if x == INT64_MIN && y == -1 then INT64_MIN else TruncDiv(x, y)
  }

  function WRem(x: i64, y: i64): i64
    requires y != 0
  {
    TruncDivBounded(x, y);
    if x == INT64_MIN && y == -1 then 0 else x - y * TruncDiv(x, y)
  }

  /** The unique 64-bit value congruent to `x`. */
  ghost predicate Wraps(x: int, r: i64)
  {
    (x - r) % TWO64 == 0
  }

  lemma AddWraps(a: i64, b: i64)
    ensures Wraps(a + b, WAdd(a, b)) && Wraps(a - b, WSub(a, b))
  {
    hide FromU64, Wraps;
    var ka, kb := if a < 0 then 1 else 0, if b < 0 then 1 else 0;
    MovedMod(a + b, ka + kb);
    ReducedWraps(a + b);
    MovedMod(a - b, ka - kb);
    ReducedWraps(a - b);
  }

  lemma MovedMod(x: int, k: int)
    ensures (x + k * TWO64) % TWO64 == x % TWO64
  {
  }

  lemma ReducedWraps(x: int)
    ensures Wraps(x, FromU64(x % TWO64))
  {
    var q, m := x / TWO64, x % TWO64;
    assert x == TWO64 * q + m;
    MultipleMod(q);
    MultipleMod(q + 1);
    assert TWO64 * (q + 1) == TWO64 * q + TWO64;
  }

  lemma ExpandProduct(a: int, ka: int, b: int, kb: int, m: int)
    ensures (a + ka * m) * (b + kb * m) == a * b + m * (ka * b + kb * a + ka * kb * m)
  {
  }

  /** Multiplying the unsigned images multiplies the signed values modulo 2^64. */
  lemma MulWraps(a: i64, b: i64)
    ensures Wraps(a * b, WMul(a, b))
  {
    var ua, ub := ToU64(a), ToU64(b);
    var ka, kb := if a < 0 then 1 else 0, if b < 0 then 1 else 0;
    assert ua == a + ka * TWO64 && ub == b + kb * TWO64;
    var k := ka * b + kb * a + ka * kb * TWO64;
    ExpandProduct(a, ka, b, kb, TWO64);
    assert ua * ub == a * b + TWO64 * k;
    var m := (ua * ub) % TWO64;
    var q := (ua * ub) / TWO64;
    assert ua * ub == TWO64 * q + m;
    var w := if m >= TWO63 then 1 else 0;
    assert WMul(a, b) == m - w * TWO64;
    assert a * b - WMul(a, b) == TWO64 * (q - k + w);
    MultipleMod(q - k + w);
  }

  lemma MultipleMod(k: int)
    ensures (TWO64 * k) % TWO64 == 0
  {
  }

  lemma WrapUnique(x: int, r: i64, s: i64)
    requires Wraps(x, r) && Wraps(x, s)
    ensures r == s
  {
  }

  // ---------------------------------------------------------------- bits

  function Quotient(x: nat, p: nat): nat
    requires p > 0
  {
    x / p
  }

  function Pow2(n: nat): (r: nat)
    ensures r >= 1
  {
    if n == 0 then 1 else 2 * Pow2(n - 1)
  }

  lemma {:induction false} Pow2Sum(a: nat, b: nat)
    ensures Pow2(a + b) == Pow2(a) * Pow2(b)
  {
    if a > 0 {
      Pow2Sum(a - 1, b);
      Assoc(2, Pow2(a - 1), Pow2(b));
    }
  }

  lemma Pow2Of64()
    ensures Pow2(64) == TWO64
  {
    assert Pow2(8) == 256;
    assert Pow2(16) == 0x1_0000;
    assert Pow2(24) == 0x100_0000;
    assert Pow2(32) == 0x1_0000_0000;
    assert Pow2(40) == 0x100_0000_0000;
    assert Pow2(48) == 0x1_0000_0000_0000;
    assert Pow2(56) == 0x100_0000_0000_0000;
  }

  datatype BitRule = And | Or | Xor
  {
    function Bit(a: nat, b: nat): (r: nat)
      ensures r <= 1
    {
      var x, y := a % 2 == 1, b % 2 == 1;
      if (match this case And => x && y case Or => x || y case Xor => x != y) then 1 else 0
    }
  }

  /** A bitwise operation on the `n` low bits. */
  function Bitwise(rule: BitRule, a: nat, b: nat, n: nat): (r: nat)
    ensures r < Pow2(n)
  {
    if n == 0 then 0 else rule.Bit(a, b) + 2 * Bitwise(rule, a / 2, b / 2, n - 1)
  }

  function Bitwise64(rule: BitRule, a: i64, b: i64): i64
  {
    Pow2Of64();
    FromU64(Bitwise(rule, ToU64(a), ToU64(b), 64))
  }

  /** The `k` low bits of `c` are clear. */
  predicate LowClear(c: nat, k: nat)
  {
    k == 0 || (c % 2 == 0 && LowClear(c / 2, k - 1))
  }

  lemma {:induction false} MulLowClear(b: nat, k: nat)
    ensures LowClear(b * Pow2(k), k)
  {
    if k > 0 {
      MulLowClear(b, k - 1);
      Assoc(b, 2, Pow2(k - 1));
      DoubleClear(b * Pow2(k - 1), k);
    }
  }

  lemma DoubleClear(c: nat, k: nat)
    requires k > 0 && LowClear(c, k - 1)
    ensures LowClear(2 * c, k)
  {
  }

  /** Setting bits that are still clear is addition. */
  lemma {:induction false} OrIsAdd(a: nat, c: nat, k: nat, n: nat)
    requires a < Pow2(k) && k <= n && LowClear(c, k) && a + c < Pow2(n)
    ensures Bitwise(Or, a, c, n) == a + c
    decreases n
  {
    if n > 0 {
      if k == 0 {
        OrZero(c, n);
      } else {
        OrIsAdd(a / 2, c / 2, k - 1, n - 1);
      }
    }
  }

  lemma {:induction false} OrZero(b: nat, n: nat)
    requires b < Pow2(n)
    ensures Bitwise(Or, 0, b, n) == b
  {
    if n > 0 { OrZero(b / 2, n - 1); }
  }

  // ---------------------------------------------------------------- shifts

  /** Left and arithmetic right shift; a count outside of 0..63 gives 0. */
  function Shift(a: i64, b: i64, left: bool): i64
  {
    if b < 0 || b >= 64 then 0
    else if left then FromU64((ToU64(a) * Pow2(b)) % TWO64)
    else FloorDivBounded(a, Pow2(b)); a / Pow2(b)
  }

  function ShiftUnsigned(a: i64, b: i64): i64
  {
    if b < 0 || b >= 64 then 0
    else FloorDivBounded(ToU64(a), Pow2(b)); FromU64(ToU64(a) / Pow2(b))
  }

  lemma FloorDivBounded(a: int, p: int)
    requires p >= 1
    ensures a >= 0 ==> 0 <= a / p <= a
    ensures a < 0 ==> a <= a / p < 0
  {
    var q, r := a / p, a % p;
    assert a == p * q + r && 0 <= r < p;
    if q >= 0 { MulMonotone(1, p, q); } else { MulMonotone(1, p, -q); MulNegate(p, q); }
    if a >= 0 && q < 0 { MulMonotone(1, p, -q - 1); NegateStep(p, q); }
    if a < 0 && q >= 0 { MulMonotone(1, p, q); }
    if a < 0 && q < a { NegateAbove(p, q, a); }
  }

  lemma NegateStep(p: int, q: int)
    ensures p * (-q - 1) == -(p * q) - p
  {
  }

  lemma NegateAbove(p: int, q: int, a: int)
    requires p >= 1 && q < a < 0
    ensures p * q <= a - p
  {
    assert p * q <= p * (a - 1);
    assert p * (a - 1) == p * a - p;
    assert p * a <= a;
  }
}
