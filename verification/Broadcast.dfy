/** Chinese remaindering, integer cube roots, and the message that one exponent-3 broadcast
    determines. */
module Broadcast {
  import opened Int64
  import opened Modular

  // ---------------------------------------------------------------- products of moduli

  ghost predicate Positive(ms: seq<nat>)
  {
    forall i :: 0 <= i < |ms| ==> ms[i] > 0
  }

  ghost predicate PairwiseCoprime(ms: seq<nat>)
  {
    forall i, j :: 0 <= i < j < |ms| ==> Gcd(ms[i], ms[j]) == 1
  }

  function Product(ms: seq<nat>): nat
  {
    if ms == [] then 1
    else
      MulMonotone(0, Product(ms[..|ms| - 1]), ms[|ms| - 1]);
      Product(ms[..|ms| - 1]) * ms[|ms| - 1]
  }

  lemma {:induction false} ProductConcat(a: seq<nat>, b: seq<nat>)
    ensures Product(a + b) == Times(Product(a), Product(b))
  {
    if b == [] {
      assert a + b == a;
    } else {
      var k := |b| - 1;
      assert (a + b)[..|a + b| - 1] == a + b[..k];
      ProductConcat(a, b[..k]);
      Assoc(Product(a), Product(b[..k]), b[k]);
    }
  }

  lemma {:induction false} ProductPositive(ms: seq<nat>)
    requires Positive(ms)
    ensures Product(ms) >= 1
  {
    if ms != [] {
      ProductPositive(ms[..|ms| - 1]);
      MulMonotone(1, Product(ms[..|ms| - 1]), ms[|ms| - 1]);
    }
  }

  function Others(ms: seq<nat>, i: nat): seq<nat>
    requires i < |ms|
  {
    ms[..i] + ms[i + 1..]
  }

  lemma ProductSplit(ms: seq<nat>, i: nat)
    requires i < |ms|
    ensures Product(ms) == Times(Product(Others(ms, i)), ms[i])
  {
    hide Product, Times;
    var a, b := ms[..i], ms[i + 1..];
    assert ms == (a + [ms[i]]) + b;
    ProductOne(ms[i]);
    ProductConcat(a + [ms[i]], b);
    ProductConcat(a, [ms[i]]);
    ProductConcat(a, b);
    Factors(Product(ms), Product(a + [ms[i]]), Product(a), Product(b), Product(a + b), ms[i]);
  }

  lemma Factors(p: int, am: int, a: int, b: int, ab: int, m: int)
    requires p == Times(am, b) && am == Times(a, m) && ab == Times(a, b)
    ensures p == Times(ab, m)
  {
    Shuffle(a, m, b);
  }

  lemma ProductOne(m: nat)
    ensures Product([m]) == m
  {
    assert [m][..0] == [];
  }

  lemma Shuffle(a: int, m: int, b: int)
    ensures (a * m) * b == (a * b) * m
  {
  }

  lemma {:induction false} MemberDivides(ms: seq<nat>, i: nat)
    requires i < |ms|
    ensures Divides(ms[i], Product(ms))
  {
    ProductSplit(ms, i);
    DividesItself(ms[i], Product(Others(ms, i)));
  }

  lemma OtherDivides(ms: seq<nat>, i: nat, j: nat)
    requires i < |ms| && j < |ms| && i != j
    ensures Divides(ms[j], Product(Others(ms, i)))
  {
    var o := Others(ms, i);
    MemberDivides(o, if j < i then j else j - 1);
  }

  lemma UnitDivisor(g: nat)
    requires Divides(g, 1)
    ensures g == 1
  {
    var k :| 1 == Times(g, k);
    if k > 0 { MulMonotone(1, k, g); } else { MulMonotone(k, 0, g); }
    if g > 1 { SmallMultiple(g, 1); }
  }

  lemma GcdSym(a: nat, b: nat)
    requires Gcd(a, b) == 1
    ensures Gcd(b, a) == 1
  {
    var u, v := GcdBezout(a, b);
    var s, t := GcdBezout(b, a);
    var g := Gcd(b, a);
    DividesMultiple(g, a, u);
    DividesMultiple(g, b, v);
    DividesSum(g, u * a, v * b);
    UnitDivisor(g);
  }

  /** A product of numbers coprime to n is coprime to n. */
  lemma CoprimeTimes(a: nat, b: nat, n: nat, p: nat)
    requires Gcd(a, n) == 1 && Gcd(b, n) == 1 && p == a * b
    ensures Gcd(p, n) == 1
  {
    var g := Gcd(p, n);
    var u, v := GcdBezout(a, n);
    var s, t := GcdBezout(b, n);
    var x, y := GcdBezout(p, n);
    // g divides b, because b is a combination of a * b and n
    DividesMultiple(g, p, u);
    DividesMultiple(g, n, v * b);
    DividesSum(g, u * p, n * (v * b));
    Expand(u, a, v, n, b);
    DividesMultiple(g, b, s);
    DividesMultiple(g, n, t);
    DividesSum(g, s * b, t * n);
    UnitDivisor(g);
  }

  lemma Expand(u: int, a: int, v: int, n: int, b: int)
    requires u * a + v * n == 1
    ensures u * (a * b) + n * (v * b) == b
  {
    calc {
      u * (a * b) + n * (v * b);
      (u * a) * b + (v * n) * b;
      (u * a + v * n) * b;
      b;
    }
  }

  lemma {:induction false} CoprimeToAll(ms: seq<nat>, n: nat)
    requires forall i :: 0 <= i < |ms| ==> Gcd(ms[i], n) == 1
    ensures Gcd(Product(ms), n) == 1
  {
    if ms == [] {
      GcdSym(n, 1);
    } else {
      var k := |ms| - 1;
      CoprimeToAll(ms[..k], n);
      CoprimeTimes(Product(ms[..k]), ms[k], n, Product(ms));
    }
  }

  lemma OthersCoprime(ms: seq<nat>, i: nat)
    requires i < |ms| && PairwiseCoprime(ms)
    ensures Gcd(Product(Others(ms, i)), ms[i]) == 1
  {
    var o := Others(ms, i);
    forall j | 0 <= j < |o| ensures Gcd(o[j], ms[i]) == 1 {
      if j >= i { GcdSym(ms[i], ms[j + 1]); }
    }
    CoprimeToAll(o, ms[i]);
  }

  /** What every modulus divides, the product divides. */
  lemma {:induction false} ProductDivides(ms: seq<nat>, x: int)
    requires PairwiseCoprime(ms) && forall i :: 0 <= i < |ms| ==> Divides(ms[i], x)
    ensures Divides(Product(ms), x)
  {
    if ms == [] {
      DividesItself(1, x);
    } else {
      var k := |ms| - 1;
      ProductDivides(ms[..k], x);
      assert forall i :: 0 <= i < k ==> Gcd(ms[..k][i], ms[k]) == 1;
      CoprimeToAll(ms[..k], ms[k]);
      CoprimeProduct(Product(ms[..k]), ms[k], x);
    }
  }

  // ---------------------------------------------------------------- remaindering

  datatype CrtResult = Residue(x: nat, modulus: nat) | NotCoprime | DivideByZero

  /** Residues beyond the moduli are ignored; moduli beyond the residues ask for 0. */
  function Wanted(rs: seq<int>, i: nat): int
  {
    if i < |rs| then rs[i] else 0
  }

  /** x has the given residues. */
  ghost predicate Solves(x: int, rs: seq<int>, ms: seq<nat>)
  {
    forall i :: 0 <= i < |ms| ==> Cong(ms[i], x, Wanted(rs, i))
  }

  ghost predicate SolvesFirst(x: int, rs: seq<int>, ms: seq<nat>, n: nat)
  {
    forall j :: 0 <= j < |ms| ==> Cong(ms[j], x, if j < n then Wanted(rs, j) else 0)
  }

  method Coprime(ms: seq<nat>) returns (ok: bool)
    ensures ok <==> PairwiseCoprime(ms)
  {
    for i := 0 to |ms|
      invariant forall a, b :: 0 <= a < b < |ms| && a < i ==> Gcd(ms[a], ms[b]) == 1
    {
      for j := i + 1 to |ms|
        invariant forall b :: i < b < j ==> Gcd(ms[i], ms[b]) == 1
      {
        var g := ComputeGcd(ms[i], ms[j]);
        if g != 1 { return false; }
      }
    }
    return true;
  }

  /** A zero modulus stops the program, unless it refuses the moduli anyway or has no residue to
      divide for. */
  ghost predicate ZeroFails(rs: seq<int>, ms: seq<nat>)
  {
    PairwiseCoprime(ms) && !Positive(ms) && rs != []
  }

  /** Refuses exactly the moduli that are not pairwise coprime; otherwise the one number below
      the product with all the residues. */
  method Crt(rs: seq<int>, ms: seq<nat>) returns (r: CrtResult)
    ensures r.NotCoprime? <==> !PairwiseCoprime(ms)
    ensures r.DivideByZero? <==> ZeroFails(rs, ms)
    ensures r.Residue? ==> r.modulus == Product(ms) && Solves(r.x, rs, ms) && (Positive(ms) ==> r.x < r.modulus)
  {
    var m := 1;
    for i := 0 to |ms|
      invariant m == Product(ms[..i])
    {
      assert ms[..i + 1][..i] == ms[..i];
      m := m * ms[i];
    }
    assert ms[..|ms|] == ms;
    var ok := Coprime(ms);
    if !ok { return NotCoprime; }
    if Positive(ms) { ProductPositive(ms); } else { ProductZero(ms); }
    var x := 0;
    NoneSolved(rs, ms);
    for i := 0 to if |rs| < |ms| then |rs| else |ms|
      invariant 0 <= x && (Positive(ms) ==> x < m) && SolvesFirst(x, rs, ms, i)
      invariant i > 0 ==> Positive(ms)
    {
      if ms[i] == 0 { return DivideByZero; }
      var mi := m / ms[i];
      CofactorIs(ms, i);
      OthersCoprime(ms, i);
      CoprimeInverse(mi, ms[i]);
      var inv := ModInv(mi, ms[i]);
      if m == 0 { return DivideByZero; }
      AddResidue(x, rs, ms, i, mi, inv.v);
      x := (x + rs[i] * mi * inv.v) % m;
    }
    return Residue(x, m);
  }

  lemma {:induction false} ProductZero(ms: seq<nat>)
    requires !Positive(ms)
    ensures Product(ms) == 0
  {
    var i :| 0 <= i < |ms| && ms[i] == 0;
    ProductSplit(ms, i);
  }

  lemma CofactorIs(ms: seq<nat>, i: nat)
    requires i < |ms| && ms[i] > 0
    ensures Product(ms) / ms[i] == Product(Others(ms, i))
  {
    ProductSplit(ms, i);
    QuotientIs(Product(ms), ms[i], Product(Others(ms, i)), 0);
  }

  lemma NoneSolved(rs: seq<int>, ms: seq<nat>)
    ensures SolvesFirst(0, rs, ms, 0)
  {
    forall j | 0 <= j < |ms| ensures Cong(ms[j], 0, 0) {
      CongReflexive(ms[j], 0);
    }
  }

  lemma AddResidue(x: int, rs: seq<int>, ms: seq<nat>, i: nat, mi: nat, inv: nat)
    requires i < |ms| && i < |rs| && Positive(ms) && SolvesFirst(x, rs, ms, i) && Product(ms) > 0
    requires mi == Product(Others(ms, i)) && (mi * inv) % ms[i] == 1 % ms[i]
    ensures SolvesFirst((x + rs[i] * mi * inv) % Product(ms), rs, ms, i + 1)
  {
    var y := x + rs[i] * mi * inv;
    var m := Product(ms);
    forall j | 0 <= j < |ms| ensures Cong(ms[j], y % m, if j < i + 1 then Wanted(rs, j) else 0) {
      MemberDivides(ms, j);
      CongMod(m, y);
      DividesTrans(ms[j], m, y % m - y);
      if j == i {
        OwnResidue(ms[i], x, rs[i], mi, inv);
      } else {
        OtherDivides(ms, i, j);
        OtherResidue(ms[j], x, rs[i], mi, inv, if j < i then Wanted(rs, j) else 0);
      }
      CongTrans(ms[j], y % m, y, if j < i + 1 then Wanted(rs, j) else 0);
    }
  }

  lemma OwnResidue(n: nat, x: int, r: int, mi: nat, inv: nat)
    requires n > 0 && Cong(n, x, 0) && (mi * inv) % n == 1 % n
    ensures Cong(n, x + r * mi * inv, r)
  {
    CongRemainder(n, mi * inv, 1);
    CongReflexive(n, r);
    CongMul(n, r, r, mi * inv, 1);
    Assoc(r, mi, inv);
    CongAdd(n, x, 0, r * (mi * inv), r * 1);
  }

  lemma OtherResidue(n: nat, x: int, r: int, mi: nat, inv: nat, target: int)
    requires Cong(n, x, target) && Divides(n, mi)
    ensures Cong(n, x + r * mi * inv, target)
  {
    DividesMultiple(n, mi, r * inv);
    Shuffle(r, mi, inv);
    assert r * mi * inv == (r * inv) * mi;
    DividesSum(n, x - target, r * mi * inv);
  }

  /** Two solutions below the product are one. */
  lemma SolutionUnique(x: nat, y: nat, rs: seq<int>, ms: seq<nat>)
    requires Positive(ms) && PairwiseCoprime(ms)
    requires x < Product(ms) && y < Product(ms) && Solves(x, rs, ms) && Solves(y, rs, ms)
    ensures x == y
  {
    forall i | 0 <= i < |ms| ensures Divides(ms[i], x - y) {
      CongSym(ms[i], y, Wanted(rs, i));
      CongTrans(ms[i], x, Wanted(rs, i), y);
    }
    ProductDivides(ms, x - y);
    SmallMultiple(Product(ms), x - y);
  }

  // ---------------------------------------------------------------- cube roots

  lemma CubeIs(x: nat)
    ensures Pow(x, 3) == x * (x * (x * 1))
  {
    assert Pow(x, 1) == x * 1;
    assert Pow(x, 2) == x * Pow(x, 1);
  }

  lemma {:induction false} PowMonotone(x: nat, y: nat, e: nat)
    requires x <= y
    ensures 0 <= Pow(x, e) <= Pow(y, e)
    ensures x < y && e > 0 ==> Pow(x, e) < Pow(y, e)
  {
    if e > 0 {
      PowMonotone(x, y, e - 1);
      if x < y && e == 1 {
        assert Pow(x, 0) == 1;
      }
      PowStep(x, y, Pow(x, e - 1), Pow(y, e - 1));
      if x < y { PowPositive(y, e - 1); }
    }
  }

  lemma {:induction false} PowPositive(x: nat, e: nat)
    requires x > 0
    ensures Pow(x, e) > 0
  {
    if e > 0 {
      PowPositive(x, e - 1);
      MulMonotone(1, x, Pow(x, e - 1));
    }
  }

  lemma PowStep(x: nat, y: nat, p: nat, q: nat)
    requires x <= y && p <= q
    ensures 0 <= x * p <= y * q
    ensures x < y && q > 0 ==> x * p < y * q
  {
    MulMonotone(x, y, q);
    MulMonotone(p, q, x);
    MulMonotone(0, x, p);
    if x < y { MulMonotone(x + 1, y, q); }
  }

  function BitLength(v: nat): nat
  {
    if v == 0 then 0 else 1 + BitLength(v / 2)
  }

  lemma {:induction false} BitLengthBounds(v: nat)
    ensures v < Pow2(BitLength(v))
  {
    if v > 0 {
      BitLengthBounds(v / 2);
    }
  }

  lemma {:induction false} Pow2Monotone(a: nat, b: nat)
    requires a <= b
    ensures Pow2(a) <= Pow2(b)
  {
    if a < b {
      Pow2Monotone(a, b - 1);
    }
  }

  /** The first upper bound of the bisection is large enough. */
  lemma UpperBound(v: nat, k: nat)
    requires k == (BitLength(v) + 3) / 3 + 1
    ensures Pow(Pow2(k), 3) > v
  {
    hide Pow2, Pow, BitLength;
    BitLengthBounds(v);
    CubeOfPower(k);
    Pow2Monotone(BitLength(v), k + (k + k));
  }

  lemma CubeOfPower(k: nat)
    ensures Pow(Pow2(k), 3) == Pow2(k + (k + k))
  {
    hide Pow2, Pow;
    CubeIs(Pow2(k));
    Pow2Sum(k, k);
    Pow2Sum(k, k + k);
  }

  /** The exact integer cube root, for every v. */
  method Icbrt(v: nat) returns (root: nat, exact: bool)
    ensures Pow(root, 3) <= v < Pow(root + 1, 3)
    ensures exact <==> Pow(root, 3) == v
  {
    var lo, hi := 0, Pow2((BitLength(v) + 3) / 3 + 1);
    UpperBound(v, (BitLength(v) + 3) / 3 + 1);
    CubeIs(0);
    while lo + 1 < hi
      invariant 0 <= lo < hi && Pow(lo, 3) <= v < Pow(hi, 3)
      decreases hi - lo
    {
      var mid := (lo + hi) / 2;
      if Pow(mid, 3) <= v { lo := mid; } else { hi := mid; }
    }
    return lo, Pow(lo, 3) == v;
  }

  // ---------------------------------------------------------------- broadcasts

  datatype Recovered = Message(m: nat) | Nothing | Failed

  /** m was sent to every receiver: the ciphertexts are the residues of its cube. */
  ghost predicate SentCubed(m: nat, cs: seq<int>, ms: seq<nat>)
  {
    Solves(Pow(m, 3), cs, ms)
  }

  /** The message comes back exactly when the moduli are pairwise coprime and its cube is below
      their product; for e = 3 the second test of the code never fires. */
  method HastadBroadcast(cs: seq<int>, ms: seq<nat>, e: nat) returns (r: Recovered)
    ensures r.Failed? <==> ZeroFails(cs, ms)
    ensures forall m: nat :: r == Message(m) <==>
      PairwiseCoprime(ms) && Pow(m, 3) < Product(ms) && SentCubed(m, cs, ms) && Pow(m, e) < Product(ms)
  {
    hide Solves, PairwiseCoprime, Pow;
    var y := Crt(cs, ms);
    if y.NotCoprime? { return Nothing; }
    if y.DivideByZero? {
      ProductZero(ms);
      forall m: nat ensures Pow(m, 3) >= Product(ms) { PowMonotone(0, m, 3); }
      return Failed;
    }
    var root, exact := Icbrt(y.x);
    PowMonotone(0, root, e);
    if !Positive(ms) { ProductZero(ms); }
    forall m: nat | Pow(m, 3) < Product(ms) && SentCubed(m, cs, ms) ensures exact && root == m {
      PowMonotone(0, m, 3);
      SolutionUnique(Pow(m, 3), y.x, cs, ms);
      RootUnique(m, root, y.x);
    }
    if !exact || Pow(root, e) >= y.modulus { return Nothing; }
    return Message(root);
  }

  lemma RootUnique(m: nat, root: nat, v: nat)
    requires Pow(m, 3) == v && Pow(root, 3) <= v < Pow(root + 1, 3)
    ensures m == root
  {
    if m < root {
      PowMonotone(m, root, 3);
    } else if m > root {
      PowMonotone(root + 1, m, 3);
    }
  }
}
