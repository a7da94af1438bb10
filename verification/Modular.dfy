/** Divisibility, congruence, greatest common divisors and inverses modulo n. */
module Modular {
  import opened Int64

  ghost predicate Divides(d: nat, x: int)
  {
    exists k: int :: x == Times(d, k)
  }

  function Times(d: int, k: int): int { d * k }

  ghost predicate Cong(n: nat, a: int, b: int)
  {
    Divides(n, a - b)
  }

  lemma DividesMod(d: nat, x: int)
    requires d > 0
    ensures Divides(d, x) <==> x % d == 0
  {
    if x % d == 0 {
      assert x == Times(d, x / d);
    }
    if Divides(d, x) {
      var k :| x == Times(d, k);
      MultipleIsZero(d, k);
    }
  }

  lemma MultipleIsZero(d: nat, k: int)
    requires d > 0
    ensures (d * k) % d == 0
  {
    var q, r := (d * k) / d, (d * k) % d;
    assert d * k == d * q + r;
    Distributes(d, k, q);
    if k > q { MulMonotone(1, k - q, d); } else if k < q { MulMonotone(k - q, -1, d); }
  }

  lemma DividesSum(d: nat, x: int, y: int)
    requires Divides(d, x) && Divides(d, y)
    ensures Divides(d, x + y) && Divides(d, x - y)
  {
    var j :| x == Times(d, j);
    var k :| y == Times(d, k);
    Distributes(d, j, k);
    assert x + y == Times(d, j + k);
    assert x - y == Times(d, j - k);
  }

  lemma DividesMultiple(d: nat, x: int, c: int)
    requires Divides(d, x)
    ensures Divides(d, x * c) && Divides(d, c * x)
  {
    var j :| x == Times(d, j);
    Assoc(d, j, c);
    assert x * c == Times(d, j * c);
    assert c * x == Times(d, j * c);
  }

  lemma DividesItself(d: nat, c: int)
    ensures Divides(d, d * c) && Divides(d, c * d) && Divides(d, 0)
  {
    assert d * c == Times(d, c);
    assert c * d == Times(d, c);
    assert 0 == Times(d, 0);
  }

  lemma DividesTrans(a: nat, b: nat, x: int)
    requires Divides(a, b) && Divides(b, x)
    ensures Divides(a, x)
  {
    var j :| b == Times(a, j);
    var k :| x == Times(b, k);
    Assoc(a, j, k);
    assert x == Times(a, j * k);
  }

  lemma SmallMultiple(d: nat, x: int)
    requires Divides(d, x) && -(d as int) < x < d
    ensures x == 0
  {
    var k :| x == Times(d, k);
    if k > 0 { MulMonotone(1, k, d); } else if k < 0 { MulMonotone(k, -1, d); }
  }

  // ---------------------------------------------------------------- congruence

  lemma CongReflexive(n: nat, a: int)
    ensures Cong(n, a, a)
  {
    DividesItself(n, 0);
  }

  lemma CongSym(n: nat, a: int, b: int)
    requires Cong(n, a, b)
    ensures Cong(n, b, a)
  {
    DividesItself(n, 0);
    DividesSum(n, 0, a - b);
  }

  lemma CongTrans(n: nat, a: int, b: int, c: int)
    requires Cong(n, a, b) && Cong(n, b, c)
    ensures Cong(n, a, c)
  {
    DividesSum(n, a - b, b - c);
  }

  lemma CongAdd(n: nat, a: int, b: int, c: int, d: int)
    requires Cong(n, a, b) && Cong(n, c, d)
    ensures Cong(n, a + c, b + d) && Cong(n, a - c, b - d)
  {
    DividesSum(n, a - b, c - d);
  }

  lemma CongMul(n: nat, a: int, b: int, c: int, d: int)
    requires Cong(n, a, b) && Cong(n, c, d)
    ensures Cong(n, a * c, b * d)
  {
    DividesMultiple(n, a - b, c);
    DividesMultiple(n, c - d, b);
    DividesSum(n, (a - b) * c, b * (c - d));
    Difference(a, b, c, d);
  }

  lemma Difference(a: int, b: int, c: int, d: int)
    ensures (a - b) * c + b * (c - d) == a * c - b * d
  {
  }

  lemma CongMod(n: nat, a: int)
    requires n > 0
    ensures Cong(n, a % n, a) && Cong(n, a, a % n)
  {
    assert a - a % n == Times(n, a / n);
    CongSym(n, a, a % n);
  }

  /** Congruent numbers have one remainder. */
  lemma CongRemainder(n: nat, a: int, b: int)
    requires n > 0
    ensures Cong(n, a, b) <==> a % n == b % n
  {
    CongMod(n, a);
    CongMod(n, b);
    if Cong(n, a, b) {
      CongTrans(n, a % n, a, b);
      CongTrans(n, a % n, b, b % n);
      SmallMultiple(n, a % n - b % n);
    }
    if a % n == b % n {
      CongTrans(n, a, a % n, b);
    }
  }

  /** A multiple of the modulus is congruent to zero. */
  lemma CongZero(n: nat, a: int, b: int)
    requires Cong(n, a, b)
    ensures Divides(n, a) <==> Divides(n, b)
  {
    if Divides(n, a) { DividesSum(n, a, a - b); }
    if Divides(n, b) { DividesSum(n, b, a - b); }
  }

  function Pow(x: int, e: nat): int
  {
    if e == 0 then 1 else x * Pow(x, e - 1)
  }

  // ---------------------------------------------------------------- greatest common divisors

  function Gcd(a: nat, b: nat): nat
    decreases b
  {
    if b == 0 then a else Gcd(b, a % b)
  }

  method ComputeGcd(a: nat, b: nat) returns (g: nat)
    ensures g == Gcd(a, b)
  {
    var x, y := a, b;
    while y != 0
      invariant Gcd(x, y) == Gcd(a, b)
      decreases y
    {
      x, y := y, x % y;
    }
    return x;
  }

  /** It divides both, and it is a combination of both. */
  lemma {:induction false} GcdBezout(a: nat, b: nat) returns (u: int, v: int)
    ensures Gcd(a, b) == u * a + v * b
    ensures Divides(Gcd(a, b), a) && Divides(Gcd(a, b), b)
    decreases b
  {
    var g := Gcd(a, b);
    if b == 0 {
      u, v := 1, 0;
      DividesItself(a, 1);
      DividesItself(a, 0);
    } else {
      var s, t := GcdBezout(b, a % b);
      u, v := t, s - t * (a / b);
      assert a == b * (a / b) + a % b;
      Combine(s, t, a, b, a / b, a % b);
      DividesMultiple(g, b, a / b);
      DividesSum(g, b * (a / b), a % b);
    }
  }

  lemma Combine(s: int, t: int, a: int, b: int, q: int, r: int)
    requires a == b * q + r
    ensures s * b + t * r == t * a + (s - t * q) * b
  {
    Assoc(t, b, q);
    Assoc(t, q, b);
    Distributes(t, b * q, r);
    assert (s - t * q) * b == s * b - (t * q) * b;
  }

  /** Coprime divisors divide together. */
  lemma CoprimeProduct(a: nat, b: nat, x: int)
    requires Gcd(a, b) == 1 && Divides(a, x) && Divides(b, x)
    ensures Divides(a * b, x)
  {
    var u, v := GcdBezout(a, b);
    var j :| x == Times(a, j);
    var k :| x == Times(b, k);
    Products(a, b, u, v, j, k, x);
    assert x == Times(a * b, u * k + v * j);
  }

  lemma Products(a: int, b: int, u: int, v: int, j: int, k: int, x: int)
    requires u * a + v * b == 1 && x == a * j && x == b * k
    ensures x == (a * b) * (u * k + v * j)
  {
    calc {
      x;
      (u * a + v * b) * x;
      (u * a) * x + (v * b) * x;
      (u * a) * (b * k) + (v * b) * (a * j);
      (a * b) * (u * k) + (a * b) * (v * j);
      (a * b) * (u * k + v * j);
    }
  }

  // ---------------------------------------------------------------- inverses

  datatype Inverse = Inv(v: nat) | NoInverse

  /** pow(a, -1, n): the inverse below n, if there is one. */
  function ModInv(a: int, n: nat): (r: Inverse)
    requires n > 0
    ensures r.Inv? ==> r.v < n && (a * r.v) % n == 1 % n
  {
    InvFrom(a, n, 0)
  }

  function InvFrom(a: int, n: nat, v: nat): (r: Inverse)
    requires n > 0
    ensures r.Inv? ==> r.v < n && (a * r.v) % n == 1 % n
    ensures r.NoInverse? ==> forall w: nat :: v <= w < n ==> (a * w) % n != 1 % n
    decreases n - v
  {
    if v >= n then NoInverse else if (a * v) % n == 1 % n then Inv(v) else InvFrom(a, n, v + 1)
  }

  lemma InverseCong(a: int, n: nat)
    requires n > 0 && ModInv(a, n).Inv?
    ensures Cong(n, a * ModInv(a, n).v, 1)
  {
    CongRemainder(n, a * ModInv(a, n).v, 1);
  }

  /** Numbers coprime to the modulus have an inverse. */
  lemma CoprimeInverse(a: nat, n: nat)
    requires n > 0 && Gcd(a, n) == 1
    ensures ModInv(a, n).Inv?
  {
    var u, v := GcdBezout(a, n);
    var w := u % n;
    CongMod(n, u);
    CongReflexive(n, a);
    CongMul(n, a, a, w, u);
    DividesItself(n, v);
    CongSym(n, a * w, a * u);
    UnitRest(n, a, u, v);
    CongSym(n, 1, a * u);
    CongTrans(n, a * w, a * u, 1);
    CongRemainder(n, a * w, 1);
  }

  lemma UnitRest(n: nat, a: int, u: int, v: int)
    requires u * a + v * n == 1
    ensures Cong(n, 1, a * u)
  {
    DividesItself(n, v);
  }

  /** An invertible factor can be cancelled. */
  lemma CancelUnit(n: nat, a: int, inv: int, x: int)
    requires Cong(n, a * inv, 1) && Divides(n, inv * x)
    ensures Divides(n, x)
  {
    DividesMultiple(n, inv * x, a);
    Assoc(a, inv, x);
    CongReflexive(n, x);
    CongMul(n, a * inv, 1, x, x);
    CongZero(n, (a * inv) * x, 1 * x);
  }
}
