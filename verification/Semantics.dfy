/** What expressions mean, said over the integers: a relation between trees, environments and
    outcomes. */
module Semantics {
  import opened Bytes
  import opened Int64
  import opened Syntax

  datatype Binding = Binding(name: bytes, val: i64)

  datatype Outcome = Val(v: i64) | Bad(err: Failure)

  /** The 64-bit value congruent to an integer. */
  ghost predicate Congruent(v: i64, z: int)
  {
    (v - z) % 0x1_0000_0000_0000_0000 == 0
  }

  /** Division toward zero: the remainder is smaller than the divisor and has the sign of x. */
  ghost predicate Divided(x: int, y: int, q: int, r: int)
  {
    && x == y * q + r
    && (if y < 0 then y < r < -y else -y < r < y)
    && (x >= 0 ==> r >= 0) && (x <= 0 ==> r <= 0)
  }

  ghost predicate IsFlag(o: Outcome, b: bool)
  {
    o == Val(if b then 1 else 0)
  }

  /** What an operator gives for two values. */
  ghost predicate Operates(op: BinOp, x: i64, y: i64, o: Outcome)
  {
    match op
    case OpAdd => o.Val? && Congruent(o.v, x + y)
    case OpSub => o.Val? && Congruent(o.v, x - y)
    case OpMul => o.Val? && Congruent(o.v, x * y)
    case OpDiv =>
      if y == 0 then o == Bad(DivZero)
      else if x == -0x8000_0000_0000_0000 && y == -1 then o == Val(-0x8000_0000_0000_0000)
      else o.Val? && exists r :: Divided(x, y, o.v, r)
    case OpMod =>
      if y == 0 then o == Bad(DivZero)
      else o.Val? && exists q :: Divided(x, y, q, o.v)
    case OpEq => IsFlag(o, x == y)
    case OpNeq => IsFlag(o, x != y)
    case OpLt => IsFlag(o, x < y)
    case OpLte => IsFlag(o, x <= y)
    case OpGt => IsFlag(o, x > y)
    case OpGte => IsFlag(o, x >= y)
  }

  /** Binding i is the first one of the name. */
  ghost predicate FirstOf(env: seq<Binding>, name: bytes, i: nat)
  {
    i < |env| && env[i].name == name && forall j :: 0 <= j < i ==> env[j].name != name
  }

  ghost predicate Names(env: seq<Binding>, name: bytes, o: Outcome)
  {
    || (exists i: nat :: FirstOf(env, name, i) && o == Val(env[i].val))
    || ((forall i :: 0 <= i < |env| ==> env[i].name != name) && o == Bad(UndefVar))
  }

  ghost predicate Negates(x: Outcome, o: Outcome)
  {
    if x.Bad? then o == x else o.Val? && Congruent(o.v, 0 - x.v)
  }

  /** The tree has this outcome: operands from left to right, the first error wins, and calls have no
      meaning in expressions. */
  ghost predicate Gives(t: Expr, env: seq<Binding>, o: Outcome)
  {
    match t
    case Lit(v) => o == Val(v)
    case Var(n) => Names(env, n, o)
    case Pos(e) => Gives(e, env, o)
    case Neg(e) => exists x :: Gives(e, env, x) && Negates(x, o)
    case Bin(op, l, r) =>
      exists x :: Gives(l, env, x)
                  && if x.Bad? then o == x
                     else exists y :: Gives(r, env, y) && if y.Bad? then o == y else Operates(op, x.v, y.v, o)
    case Call(_, _) => o == Bad(UndefVar)
  }

  // ---------------------------------------------------------------- uniqueness

  lemma DividedOnce(x: int, y: int, q: int, r: int, q': int, r': int)
    requires y != 0 && Divided(x, y, q, r) && Divided(x, y, q', r')
    ensures q == q' && r == r'
  {
    assert y * (q - q') == r' - r by { Distributes(y, q, q'); }
    SmallProduct(y, q - q', r' - r);
  }

  lemma SmallProduct(y: int, k: int, d: int)
    requires y != 0 && y * k == d && (if y < 0 then y < d < -y else -y < d < y)
    ensures k == 0 && d == 0
  {
    var a := if y < 0 then -y else y;
    var s := if y < 0 then -k else k;
    assert a * s == d by { MulNegate(y, k); }
    if s > 0 { MulMonotone(1, s, a); } else if s < 0 { MulMonotone(s, -1, a); }
  }

  /** C division does it. */
  lemma TruncDivides(x: int, y: int)
    requires y != 0
    ensures Divided(x, y, TruncDiv(x, y), x - y * TruncDiv(x, y))
  {
    var a, b := if x < 0 then -x else x, if y < 0 then -y else y;
    QuotientNonNegative(a, b);
    TruncDivSign(x, y, a, b);
    SignedQuotient(x, y, a, b, a / b, a % b, TruncDiv(x, y));
  }

  lemma TruncDivSign(x: int, y: int, a: int, b: int)
    requires y != 0 && a == (if x < 0 then -x else x) && b == (if y < 0 then -y else y)
    ensures TruncDiv(x, y) == if (x < 0) == (y < 0) then a / b else -(a / b)
  {
  }

  lemma SignedQuotient(x: int, y: int, a: int, b: int, q: int, r: int, t: int)
    requires y != 0 && a == (if x < 0 then -x else x) && b == (if y < 0 then -y else y)
    requires a == b * q + r && 0 <= r < b && q >= 0 && t == if (x < 0) == (y < 0) then q else -q
    ensures Divided(x, y, t, x - y * t)
  {
    hide Divided;
    FourSigns(b, q, r);
    var rest := if x < 0 then -r else r;
    assert Divided(x, y, t, rest);
    RestIs(x, y, t, rest);
  }

  lemma FourSigns(b: int, q: int, r: int)
    requires 0 <= r < b && q >= 0
    ensures Divided(b * q + r, b, q, r) && Divided(-(b * q + r), b, -q, -r)
    ensures Divided(b * q + r, -b, -q, r) && Divided(-(b * q + r), -b, q, -r)
  {
    MulNegate(b, q);
    MulMonotone(0, q, b);
  }

  lemma RestIs(x: int, y: int, q: int, r: int)
    requires Divided(x, y, q, r)
    ensures r == x - y * q
  {
  }

  lemma WrapsCongruent(z: int, v: i64)
    requires Wraps(z, v)
    ensures Congruent(v, z)
  {
  }

  lemma CongruentOnce(v: i64, w: i64, z: int)
    requires Congruent(v, z) && Congruent(w, z)
    ensures v == w
  {
    WrapUnique(z, v, w);
  }
}
