/** Two powers of linearly related messages: the polynomials that share the message as a root,
    and the message read off a linear common divisor. */
module RelatedMessages {
  import opened Modular
  import opened Poly

  // ---------------------------------------------------------------- the binomial expansion

  /** math.comb */
  function Comb(e: nat, j: nat): nat
  {
    if j == 0 then 1 else if e == 0 then 0 else Comb(e - 1, j) + Comb(e - 1, j - 1)
  }

  lemma {:induction false} CombAbove(e: nat, j: nat)
    requires j > e
    ensures Comb(e, j) == 0
  {
    if e > 0 {
      CombAbove(e - 1, j);
      CombAbove(e - 1, j - 1);
    }
  }

  function Term(a: int, b: int, e: nat, j: nat): int
    requires j <= e
  {
    Comb(e, j) * Pow(b, e - j) * Pow(a, j)
  }

  /** The coefficients of (a x + b)^e. */
  function Binomial(a: int, b: int, e: nat): (p: seq<int>)
    ensures |p| == e + 1
  {
    seq(e + 1, j requires 0 <= j <= e => Term(a, b, e, j))
  }

  lemma Pascal(a: int, b: int, e: nat, j: nat)
    requires 1 <= j <= e
    ensures Term(a, b, e + 1, j) == b * Term(a, b, e, j) + a * Term(a, b, e, j - 1)
    ensures Term(a, b, e + 1, 0) == b * Term(a, b, e, 0)
    ensures Term(a, b, e + 1, e + 1) == a * Term(a, b, e, e)
  {
    PascalArith(Comb(e, j), Comb(e, j - 1), b, Pow(b, e - j), a, Pow(a, j - 1));
    PascalEnds(a, b, e);
  }

  lemma PascalArith(c: int, d: int, b: int, pb: int, a: int, pa: int)
    ensures (c + d) * (b * pb) * (a * pa) == b * (c * pb * (a * pa)) + a * (d * (b * pb) * pa)
  {
    calc {
      (c + d) * (b * pb) * (a * pa);
      (c * (b * pb) + d * (b * pb)) * (a * pa);
      c * (b * pb) * (a * pa) + d * (b * pb) * (a * pa);
      b * (c * pb * (a * pa)) + a * (d * (b * pb) * pa);
    }
  }

  lemma PascalEnds(a: int, b: int, e: nat)
    ensures Term(a, b, e + 1, 0) == b * Term(a, b, e, 0)
    ensures Term(a, b, e + 1, e + 1) == a * Term(a, b, e, e)
  {
    CombAbove(e, e + 1);
    assert Comb(e + 1, e + 1) == Comb(e, e);
    EndArith(Comb(e, e), a, Pow(a, e));
  }

  lemma EndArith(c: int, a: int, p: int)
    ensures c * 1 * (a * p) == a * (c * 1 * p)
  {
  }

  lemma {:induction false} EvalSum(p: seq<int>, q: seq<int>, r: seq<int>, x: int)
    requires |p| == |q| == |r| && forall i :: 0 <= i < |p| ==> r[i] == p[i] + q[i]
    ensures Eval(r, x) == Eval(p, x) + Eval(q, x)
    decreases |p|
  {
    if p != [] {
      EvalSum(p[1..], q[1..], r[1..], x);
    }
  }

  lemma {:induction false} EvalScaled(p: seq<int>, r: seq<int>, c: int, x: int)
    requires |p| == |r| && forall i :: 0 <= i < |p| ==> r[i] == c * p[i]
    ensures Eval(r, x) == c * Eval(p, x)
    decreases |p|
  {
    if p != [] {
      EvalScaled(p[1..], r[1..], c, x);
      ScaleOut(c, p[0], x, Eval(p[1..], x));
    }
  }

  lemma ScaleOut(c: int, p: int, x: int, v: int)
    ensures c * p + x * (c * v) == c * (p + x * v)
  {
  }

  /** The binomial theorem. */
  lemma {:induction false} BinomialValue(a: int, b: int, e: nat, x: int)
    ensures Eval(Binomial(a, b, e), x) == Pow(a * x + b, e)
  {
    hide Term;
    if e == 0 {
      UnitTerm(a, b);
      assert Binomial(a, b, 0) == [1] && [1][1..] == [];
      assert Eval([1], x) == 1 + x * Eval([1][1..], x);
    } else {
      BinomialValue(a, b, e - 1, x);
      BinomialSum(a, b, e, x);
      JoinArith(a, b, x, Eval(Binomial(a, b, e - 1), x));
    }
  }

  /** The coefficients of b p. */
  function Low(p: seq<int>, b: int): (r: seq<int>)
    ensures |r| == |p| + 1
  {
    seq(|p|, i requires 0 <= i < |p| => b * p[i]) + [0]
  }

  /** The coefficients of a x p. */
  function High(p: seq<int>, a: int): (r: seq<int>)
    ensures |r| == |p| + 1
  {
    [0] + seq(|p|, i requires 0 <= i < |p| => a * p[i])
  }

  lemma PartValues(p: seq<int>, a: int, b: int, x: int)
    ensures Eval(Low(p, b), x) == b * Eval(p, x)
    ensures Eval(High(p, a), x) == x * (a * Eval(p, x))
  {
    var low, high := Low(p, b), High(p, a);
    assert low == low[..|p|] + [0];
    EvalScaled(p, low[..|p|], b, x);
    EvalSnoc(low[..|p|], 0, x);
    EvalScaled(p, high[1..], a, x);
    assert Eval(high, x) == 0 + x * Eval(high[1..], x);
  }

  lemma BinomialSum(a: int, b: int, e: nat, x: int)
    requires e > 0
    ensures var v := Eval(Binomial(a, b, e - 1), x); Eval(Binomial(a, b, e), x) == b * v + x * (a * v)
  {
    hide Term, Eval;
    var p, next := Binomial(a, b, e - 1), Binomial(a, b, e);
    forall i | 0 <= i <= e ensures next[i] == Low(p, b)[i] + High(p, a)[i] {
      TermSum(a, b, e, i);
    }
    EvalSum(Low(p, b), High(p, a), next, x);
    PartValues(p, a, b, x);
  }

  lemma UnitTerm(a: int, b: int)
    ensures Term(a, b, 0, 0) == 1
  {
    assert Pow(a, 0) == 1 && Pow(b, 0) == 1 && Comb(0, 0) == 1;
  }

  lemma TermSum(a: int, b: int, e: nat, i: nat)
    requires e >= 1 && i <= e
    ensures Term(a, b, e, i) == (if i < e then b * Term(a, b, e - 1, i) else 0)
                                + (if i > 0 then a * Term(a, b, e - 1, i - 1) else 0)
  {
    hide Term;
    PascalEnds(a, b, e - 1);
    if 1 <= i < e {
      Pascal(a, b, e - 1, i);
    }
  }

  lemma JoinArith(a: int, b: int, x: int, v: int)
    ensures b * v + x * (a * v) == (a * x + b) * v
  {
  }

  // ---------------------------------------------------------------- the two polynomials

  lemma {:induction false} EvalCong(p: seq<int>, q: seq<int>, n: nat, x: int)
    requires |p| == |q| && forall i :: 0 <= i < |p| ==> Cong(n, p[i], q[i])
    ensures Cong(n, Eval(p, x), Eval(q, x))
    decreases |p|
  {
    hide Cong;
    if p == [] {
      CongReflexive(n, 0);
    } else {
      EvalCong(p[1..], q[1..], n, x);
      CongReflexive(n, x);
      CongMul(n, x, x, Eval(p[1..], x), Eval(q[1..], x));
      CongAdd(n, p[0], q[0], x * Eval(p[1..], x), x * Eval(q[1..], x));
    }
  }

  /** The degree of the first polynomial: for exponent 0 it is x - c, because the list always ends
      in a one behind its constant. */
  function Degree(e: nat): nat
  {
    if e == 0 then 1 else e
  }

  /** x^e - c, with the constant reduced. */
  function PowerPoly(c: int, e: nat, n: nat): (p: seq<int>)
    requires n > 0
    ensures |p| == Degree(e) + 1
  {
    [(-c) % n] + seq(if e > 0 then e - 1 else 0, _ => 0) + [1]
  }

  lemma {:induction false} ZerosValue(k: nat, x: int)
    ensures Eval(seq(k, _ => 0), x) == 0
  {
    var z := seq(k, _ => 0);
    if k > 0 {
      assert z[1..] == seq(k - 1, _ => 0);
      ZerosValue(k - 1, x);
    }
  }

  lemma PowerPolyValue(c: int, e: nat, n: nat, x: int)
    requires n > 0
    ensures Cong(n, Eval(PowerPoly(c, e, n), x), Pow(x, Degree(e)) - c)
  {
    var d := Degree(e);
    var zeros := seq(d - 1, _ => 0);
    var front := [(-c) % n] + zeros;
    assert front[1..] == zeros;
    ZerosValue(d - 1, x);
    EvalSnoc(front, 1, x);
    CongMod(n, -c);
    CongReflexive(n, Pow(x, d));
    CongAdd(n, (-c) % n, -c, Pow(x, d), Pow(x, d));
  }

  function Reduced(a: int, b: int, e: nat, j: nat, n: nat): int
    requires j <= e && n > 0
  {
    ((Comb(e, j) * (Pow(b, e - j) % n) * (Pow(a, j) % n)) % n) % n
  }

  lemma ReducedTerm(a: int, b: int, e: nat, j: nat, n: nat)
    requires j <= e && n > 0
    ensures Cong(n, Reduced(a, b, e, j, n), Term(a, b, e, j))
  {
    var c, pb, pa := Comb(e, j), Pow(b, e - j), Pow(a, j);
    var v := c * (pb % n) * (pa % n);
    CongReflexive(n, c);
    CongMod(n, pb);
    CongMod(n, pa);
    CongMul(n, c, c, pb % n, pb);
    CongMul(n, c * (pb % n), c * pb, pa % n, pa);
    CongMod(n, v);
    CongMod(n, v % n);
    CongTrans(n, (v % n) % n, v % n, v);
    CongTrans(n, (v % n) % n, v, Term(a, b, e, j));
  }

  /** (a x + b)^e - c with reduced coefficients, filled up with zeros. */
  function ShiftedPoly(a: int, b: int, c: int, e: nat, n: nat, size: nat): (f: seq<int>)
    requires n > 0 && size > e
    ensures |f| == size
  {
    var terms := seq(e + 1, j requires 0 <= j <= e => Reduced(a, b, e, j, n));
    terms[0 := (terms[0] - c) % n] + seq(size - e - 1, _ => 0)
  }

  lemma ShiftedValue(a: int, b: int, c: int, e: nat, n: nat, size: nat, x: int)
    requires n > 0 && size > e
    ensures Cong(n, Eval(ShiftedPoly(a, b, c, e, n, size), x), Pow(a * x + b, e) - c)
  {
    hide Cong, Term, Reduced, Comb, Eval;
    var f := ShiftedPoly(a, b, c, e, n, size);
    var terms := seq(e + 1, j requires 0 <= j <= e => Reduced(a, b, e, j, n));
    forall j | 0 <= j <= e ensures Cong(n, terms[j], Binomial(a, b, e)[j]) {
      ReducedTerm(a, b, e, j, n);
    }
    EvalCong(terms, Binomial(a, b, e), n, x);
    BinomialValue(a, b, e, x);
    ConstantShift(terms, f[..e + 1], c, n, x, Pow(a * x + b, e));
    TakeKeepsValue(f, e + 1, n, x);
    CongSym(n, Eval(f[..e + 1], x), Eval(f, x));
    CongTrans(n, Eval(f, x), Eval(f[..e + 1], x), Pow(a * x + b, e) - c);
  }

  /** The coefficients are written one by one into a list of zeros. */
  method ShiftedPower(a: int, b: int, c: int, e: nat, n: nat, size: nat) returns (f: seq<int>)
    requires n > 0 && size > e
    ensures f == ShiftedPoly(a, b, c, e, n, size)
    ensures forall x :: Cong(n, Eval(f, x), Pow(a * x + b, e) - c)
  {
    hide Cong, Term, Comb, Eval;
    f := seq(size, _ => 0);
    for j := 0 to e + 1
      invariant |f| == size
      invariant forall i :: 0 <= i < j ==> f[i] == Reduced(a, b, e, i, n)
      invariant forall i :: j <= i < size ==> f[i] == 0
    {
      var coef := (Comb(e, j) * (Pow(b, e - j) % n) * (Pow(a, j) % n)) % n;
      f := f[j := (f[j] + coef) % n];
    }
    f := f[0 := (f[0] - c) % n];
    assert f == ShiftedPoly(a, b, c, e, n, size);
    forall x ensures Cong(n, Eval(f, x), Pow(a * x + b, e) - c) {
      ShiftedValue(a, b, c, e, n, size, x);
    }
  }

  lemma ConstantShift(p: seq<int>, f: seq<int>, c: int, n: nat, x: int, v: int)
    requires n > 0 && p != [] && f == p[0 := (p[0] - c) % n] && Cong(n, Eval(p, x), v)
    ensures Cong(n, Eval(f, x), v - c)
  {
    EvalUpdate(p, 0, (p[0] - c) % n, x);
    assert Pow(x, 0) == 1;
    CongMod(n, p[0] - c);
    CongReflexive(n, p[0]);
    CongAdd(n, (p[0] - c) % n, p[0] - c, p[0], p[0]);
    CongAdd(n, Eval(p, x), v, (p[0] - c) % n - p[0], -c);
  }

  // ---------------------------------------------------------------- reading off the message

  datatype Recovered = Message(m: nat) | Nothing

  /** Both polynomials vanish at x: for e >= 1, both ciphertexts come from x. */
  ghost predicate Explains(x: int, n: nat, e: nat, a: int, b: int, c1: int, c2: int)
  {
    Cong(n, Pow(x, Degree(e)), c1) && Cong(n, Pow(a * x + b, e), c2)
  }

  function Divisor(n: nat, e: nat, a: int, b: int, c1: int, c2: int): GcdResult
    requires n > 0
  {
    Start(PowerPoly(c1, e, n), ShiftedPoly(a, b, c2, e, n, Degree(e) + 1), n)
  }

  predicate Linear(r: GcdResult)
  {
    r.Monic? && |r.g| == 2
  }

  /** A message comes back exactly when the cap allows the degree and the common divisor is linear;
      it explains both ciphertexts, and modulo n nothing else does. */
  method FranklinReiter(n: nat, e: nat, a: int, b: int, c1: int, c2: int, cap: int) returns (r: Recovered)
    requires n > 0
    ensures r.Message? <==> n > 1 && Degree(e) <= cap && Linear(Divisor(n, e, a, b, c1, c2))
    ensures r.Message? ==> r.m < n && forall x :: Explains(x, n, e, a, b, c1, c2) <==> Cong(n, x, r.m)
  {
    hide PowerPoly, ShiftedPoly, Start, Trim, ModInv, Cong, Root, CommonRoot, Explains;
    if e > cap { return Nothing; }
    var f1 := PowerPoly(c1, e, n);
    var f2 := ShiftedPower(a, b, c2, e, n, |f1|);
    var t2 := TrimList(f2, n);
    var g := PolyGcd(f1, t2, n, cap, true);
    StartTrims(f1, f2, n);
    if !g.Monic? || |g.g| != 2 { return Nothing; }
    StartMonic(f1, f2, n);
    var lead := g.g[1] % n;
    OneInverse(n);
    if lead == 0 { return Nothing; }
    var m := (-(g.g[0]) * ModInv(lead, n).v) % n;
    forall x ensures Explains(x, n, e, a, b, c1, c2) <==> Cong(n, x, m) {
      Unique(g.g, n, e, a, b, c1, c2, x);
    }
    return Message(m);
  }

  lemma StartTrims(f1: seq<int>, f2: seq<int>, n: nat)
    requires n > 0
    ensures Start(f1, Trim(f2, n), n) == Start(f1, f2, n)
    ensures |f2| >= 1 ==> |Trim(f2, n)| <= |f2|
  {
    hide Euclid;
    TrimTwice(f2, n);
  }

  lemma StartMonic(f1: seq<int>, f2: seq<int>, n: nat)
    requires n > 0 && Linear(Start(f1, f2, n))
    ensures Start(f1, f2, n).g[1] == 1 % n && (1 % n) % n == 1 % n
  {
    hide Euclid, Trim;
    TrimTwice(f1, n);
    TrimTwice(f2, n);
    EuclidShape(Trim(f1, n), Trim(f2, n), n);
  }

  lemma OneInverse(n: nat)
    requires n > 0
    ensures n > 1 ==> 1 % n == 1 && ModInv(1 % n, n) == Inv(1)
    ensures n == 1 ==> 1 % n == 0
  {
    if n > 1 {
      assert InvFrom(1, n, 1) == Inv(1);
    }
  }

  lemma Unique(g: seq<int>, n: nat, e: nat, a: int, b: int, c1: int, c2: int, x: int)
    requires n > 1 && Divisor(n, e, a, b, c1, c2) == Monic(g) && |g| == 2 && g[1] == 1 % n
    ensures Explains(x, n, e, a, b, c1, c2) <==> Cong(n, x, (-g[0] * 1) % n)
  {
    hide Trim, Eval, Pow, PowerPoly, ShiftedPoly, Start, Divides, ModInv;
    var f1, f2 := PowerPoly(c1, e, n), ShiftedPoly(a, b, c2, e, n, Degree(e) + 1);
    LinearRoot(g, n, x);
    PowerPolyValue(c1, e, n, x);
    CongZero(n, Eval(f1, x), Pow(x, Degree(e)) - c1);
    ShiftedValue(a, b, c2, e, n, Degree(e) + 1, x);
    CongZero(n, Eval(f2, x), Pow(a * x + b, e) - c2);
    StartRoots(f1, f2, n, x);
    NegatedMod(n, x, g[0]);
  }

  lemma NegatedMod(n: nat, x: int, c: int)
    requires n > 0
    ensures Cong(n, x, -c) <==> Cong(n, x, (-c * 1) % n)
  {
    hide Cong;
    var y := -c * 1;
    assert y == -c;
    CongMod(n, y);
    if Cong(n, x, y) { CongTrans(n, x, y, y % n); }
    if Cong(n, x, y % n) { CongTrans(n, x, y % n, y); }
  }
}
