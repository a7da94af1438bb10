/** Polynomials over the integers modulo n, lowest coefficient first: trimming, long division and
    Euclid's algorithm with its two ways to give up. */
module Poly {
  import opened Seqs
  import opened Int64
  import opened Modular

  function Eval(p: seq<int>, x: int): int
  {
    if p == [] then 0 else p[0] + x * Eval(p[1..], x)
  }

  ghost predicate Root(p: seq<int>, x: int, n: nat)
  {
    Divides(n, Eval(p, x))
  }

  // ---------------------------------------------------------------- evaluation

  lemma {:induction false} EvalSnoc(p: seq<int>, c: int, x: int)
    ensures Eval(p + [c], x) == Eval(p, x) + c * Pow(x, |p|)
  {
    if p == [] {
      assert ([] + [c])[1..] == [];
    } else {
      AppendTail(p, [c]);
      EvalSnoc(p[1..], c, x);
      SnocArith(x, Eval(p[1..], x), c, Pow(x, |p| - 1));
    }
  }

  lemma SnocArith(x: int, v: int, c: int, w: int)
    ensures x * (v + c * w) == x * v + c * (x * w)
  {
  }

  lemma {:induction false} EvalUpdate(p: seq<int>, i: nat, v: int, x: int)
    requires i < |p|
    ensures Eval(p[i := v], x) == Eval(p, x) + (v - p[i]) * Pow(x, i)
  {
    if i == 0 {
      assert p[0 := v][1..] == p[1..];
    } else {
      assert p[i := v][1..] == p[1..][i - 1 := v];
      EvalUpdate(p[1..], i - 1, v, x);
      SnocArith(x, Eval(p[1..], x), v - p[i], Pow(x, i - 1));
    }
  }

  lemma {:induction false} PowSum(x: int, a: nat, b: nat)
    ensures Pow(x, a + b) == Pow(x, a) * Pow(x, b)
  {
    if a > 0 {
      PowSum(x, a - 1, b);
      Assoc(x, Pow(x, a - 1), Pow(x, b));
    }
  }

  // ---------------------------------------------------------------- trimming

  /** Without leading coefficients that vanish modulo n; the zero polynomial is [0]. */
  function Trim(p: seq<int>, n: nat): (r: seq<int>)
    requires n > 0
    ensures 1 <= |r| && (|r| <= |p| || r == [0])
    ensures r == [0] || r[|r| - 1] % n != 0
  {
    if p == [] then [0] else if p[|p| - 1] % n == 0 then Trim(p[..|p| - 1], n) else p
  }

  method TrimList(p: seq<int>, n: nat) returns (r: seq<int>)
    requires n > 0
    ensures r == Trim(p, n)
  {
    r := p;
    while r != [] && r[|r| - 1] % n == 0
      invariant Trim(r, n) == Trim(p, n)
      decreases |r|
    {
      r := r[..|r| - 1];
    }
    return if r == [] then [0] else r;
  }

  lemma {:induction false} TrimKeepsValue(p: seq<int>, n: nat, x: int)
    requires n > 0
    ensures Cong(n, Eval(Trim(p, n), x), Eval(p, x))
  {
    CongReflexive(n, Eval(p, x));
    if p == [] {
      assert Eval([0], x) == 0 + x * Eval([0][1..], x);
      CongReflexive(n, 0);
    } else if p[|p| - 1] % n == 0 {
      var k := |p| - 1;
      TrimKeepsValue(p[..k], n, x);
      assert p == p[..k] + [p[k]];
      EvalSnoc(p[..k], p[k], x);
      DropVanishing(n, Eval(p[..k], x), p[k], Pow(x, k));
      CongTrans(n, Eval(Trim(p, n), x), Eval(p[..k], x), Eval(p, x));
    }
  }

  lemma DropVanishing(n: nat, v: int, c: int, w: int)
    requires n > 0 && c % n == 0
    ensures Cong(n, v, v + c * w)
  {
    DividesMod(n, c);
    DividesMultiple(n, c, w);
    CongReflexive(n, v);
    DividesItself(n, 0);
    DividesSum(n, 0, c * w);
  }

  ghost predicate VanishesFrom(p: seq<int>, k: nat, n: nat)
    requires n > 0
  {
    forall t :: k <= t < |p| ==> p[t] % n == 0
  }

  lemma {:induction false} TakeKeepsValue(p: seq<int>, k: nat, n: nat, x: int)
    requires n > 0 && k <= |p| && VanishesFrom(p, k, n)
    ensures Cong(n, Eval(p[..k], x), Eval(p, x))
    decreases |p|
  {
    if k == |p| {
      assert p[..k] == p;
      CongReflexive(n, Eval(p, x));
    } else {
      var m := |p| - 1;
      TakeKeepsValue(p[..m], k, n, x);
      assert p[..m][..k] == p[..k] && p == p[..m] + [p[m]];
      EvalSnoc(p[..m], p[m], x);
      DropVanishing(n, Eval(p[..m], x), p[m], Pow(x, m));
      CongTrans(n, Eval(p[..k], x), Eval(p[..m], x), Eval(p, x));
    }
  }

  // ---------------------------------------------------------------- one step of long division

  /** r - coef * x^s * b, the first `i` coefficients of b so far, reduced modulo n. */
  function SubShift(r: seq<int>, b: seq<int>, s: nat, coef: int, n: nat, i: nat): (q: seq<int>)
    requires n > 0 && i <= |b| && s + i <= |r|
    ensures |q| == |r|
    ensures forall t :: 0 <= t < |r| && (t < s || t >= s + i) ==> q[t] == r[t]
    ensures forall t :: s <= t < s + i ==> q[t] == (r[t] - coef * b[t - s]) % n
    decreases i
  {
    if i == 0 then r
    else SubShift(r, b, s, coef, n, i - 1)[s + i - 1 := (r[s + i - 1] - coef * b[i - 1]) % n]
  }

  lemma {:induction false} SubShiftValue(r: seq<int>, b: seq<int>, s: nat, coef: int, n: nat, i: nat, x: int)
    requires n > 0 && i <= |b| && s + i <= |r|
    ensures Cong(n, Eval(SubShift(r, b, s, coef, n, i), x), Eval(r, x) - coef * (Pow(x, s) * Eval(b[..i], x)))
    decreases i
  {
    if i == 0 {
      CongReflexive(n, Eval(r, x));
    } else {
      var q := SubShift(r, b, s, coef, n, i - 1);
      var t := s + i - 1;
      SubShiftValue(r, b, s, coef, n, i - 1, x);
      EvalUpdate(q, t, (r[t] - coef * b[i - 1]) % n, x);
      TakeSnoc(b, i - 1);
      EvalSnoc(b[..i - 1], b[i - 1], x);
      PowSum(x, s, i - 1);
      StepValue(n, Eval(q, x), Eval(r, x), coef, Pow(x, s), Eval(b[..i - 1], x), r[t], b[i - 1], Pow(x, i - 1));
    }
  }

  lemma StepValue(n: nat, vq: int, vr: int, coef: int, ws: int, vb: int, rt: int, bi: int, wi: int)
    requires n > 0 && Cong(n, vq, vr - coef * (ws * vb))
    ensures Cong(n, vq + ((rt - coef * bi) % n - rt) * (ws * wi), vr - coef * (ws * (vb + bi * wi)))
  {
    ReducedTerm(n, rt, coef * bi);
    AddTerm(n, vq, vr - coef * (ws * vb), (rt - coef * bi) % n - rt, coef * bi, ws * wi);
    StepArith(coef, ws, vb, bi, wi);
  }

  lemma ReducedTerm(n: nat, rt: int, c: int)
    requires n > 0
    ensures Cong(n, (rt - c) % n - rt, -c)
  {
    hide Cong;
    CongMod(n, rt - c);
    CongReflexive(n, rt);
    CongAdd(n, (rt - c) % n, rt - c, rt, rt);
  }

  lemma AddTerm(n: nat, v: int, base: int, z: int, c: int, w: int)
    requires Cong(n, v, base) && Cong(n, z, -c)
    ensures Cong(n, v + z * w, base - c * w)
  {
    hide Cong;
    CongReflexive(n, w);
    CongMul(n, z, -c, w, w);
    CongAdd(n, v, base, z * w, -c * w);
    assert -c * w == -(c * w);
  }

  lemma StepArith(coef: int, ws: int, vb: int, bi: int, wi: int)
    ensures coef * (ws * (vb + bi * wi)) == coef * (ws * vb) + (coef * bi) * (ws * wi)
  {
    calc {
      coef * (ws * (vb + bi * wi));
      coef * (ws * vb + ws * (bi * wi));
      coef * (ws * vb) + coef * (ws * (bi * wi));
      { Assoc(ws, bi, wi); Assoc(bi, ws, wi); Assoc(coef, bi, ws * wi); }
      coef * (ws * vb) + (coef * bi) * (ws * wi);
    }
  }

  // ---------------------------------------------------------------- long division

  function DivStep(r: seq<int>, b: seq<int>, inv: int, n: nat, k: nat): (q: seq<int>)
    requires n > 0 && b != [] && |b| - 1 <= k < |r|
    ensures |q| == |r|
  {
    var coef := (r[k] * inv) % n;
    if coef == 0 then r else SubShift(r, b, k - (|b| - 1), coef, n, |b|)
  }

  /** The remainder list after the coefficients from `k` up have been cleared. */
  function Cleared(a: seq<int>, b: seq<int>, inv: int, n: nat, k: nat): (r: seq<int>)
    requires n > 0 && b != [] && |b| - 1 <= k <= |a|
    ensures |r| == |a|
    decreases |a| - k
  {
    if k == |a| then a else DivStep(Cleared(a, b, inv, n, k + 1), b, inv, n, k)
  }

  function Remainder(a: seq<int>, b: seq<int>, inv: int, n: nat): (r: seq<int>)
    requires n > 0 && b != [] && |b| <= |a|
    ensures 1 <= |r| && (|r| < |b| || r == [0])
    ensures r == [0] || r[|r| - 1] % n != 0
  {
    var d := |b| - 1;
    if d > 0 then Trim(Cleared(a, b, inv, n, d)[..d], n) else [0]
  }

  method LongDivision(a: seq<int>, b: seq<int>, inv: int, n: nat) returns (rem: seq<int>)
    requires n > 0 && b != [] && |b| <= |a|
    ensures rem == Remainder(a, b, inv, n)
  {
    hide SubShift;
    var r := new int[|a|](i requires 0 <= i < |a| => a[i]);
    assert r[..] == a;
    var d := |b| - 1;
    var k := |a|;
    while k > d
      invariant d <= k <= |a|
      invariant r[..] == Cleared(a, b, inv, n, k)
    {
      k := k - 1;
      ghost var before := r[..];
      var coef := (r[k] * inv) % n;
      if coef != 0 {
        SubtractInPlace(r, b, k - d, coef, n);
      }
      assert r[..] == DivStep(before, b, inv, n, k);
    }
    if d > 0 {
      rem := TrimList(r[..d], n);
      assert r[..d] == r[..][..d];
    } else {
      rem := [0];
    }
  }

  method SubtractInPlace(r: array<int>, b: seq<int>, s: nat, coef: int, n: nat)
    requires n > 0 && s + |b| <= r.Length
    modifies r
    ensures r[..] == SubShift(old(r[..]), b, s, coef, n, |b|)
  {
    ghost var before := r[..];
    for i := 0 to |b|
      invariant r[..] == SubShift(before, b, s, coef, n, i)
    {
      ghost var now: seq<int> := r[..][s + i := (r[s + i] - coef * b[i]) % n];
      r[s + i] := (r[s + i] - coef * b[i]) % n;
      assert r[..] == now;
    }
  }

  ghost predicate Unit(lead: int, inv: int, n: nat)
  {
    Cong(n, lead * inv, 1)
  }

  /** Clearing leaves zeros behind and, where b vanishes, does not change the value. */
  lemma {:induction false} ClearedFacts(a: seq<int>, b: seq<int>, inv: int, n: nat, k: nat)
    requires n > 0 && b != [] && |b| - 1 <= k <= |a| && Unit(b[|b| - 1], inv, n)
    ensures VanishesFrom(Cleared(a, b, inv, n, k), k, n)
    decreases |a| - k
  {
    hide SubShift;
    if k < |a| {
      ClearedFacts(a, b, inv, n, k + 1);
      var r := Cleared(a, b, inv, n, k + 1);
      StepClears(r, b, inv, n, k);
    }
  }

  lemma StepClears(r: seq<int>, b: seq<int>, inv: int, n: nat, k: nat)
    requires n > 0 && b != [] && |b| - 1 <= k < |r| && Unit(b[|b| - 1], inv, n) && VanishesFrom(r, k + 1, n)
    ensures VanishesFrom(DivStep(r, b, inv, n, k), k, n)
  {
    var coef := (r[k] * inv) % n;
    var lead := b[|b| - 1];
    LeadVanishes(n, r[k], lead, inv, coef);
    var q := DivStep(r, b, inv, n, k);
    forall t | k <= t < |q| ensures q[t] % n == 0 {
      if t > k { assert q[t] == r[t]; }
    }
  }

  lemma LeadVanishes(n: nat, rk: int, lead: int, inv: int, coef: int)
    requires n > 0 && Unit(lead, inv, n) && coef == (rk * inv) % n
    ensures ((rk - coef * lead) % n) % n == 0
    ensures coef == 0 ==> rk % n == 0
  {
    hide Divides;
    LeadProduct(n, rk, lead, inv, coef);
    DividesMod(n, rk - coef * lead);
  }

  lemma LeadProduct(n: nat, rk: int, lead: int, inv: int, coef: int)
    requires n > 0 && Unit(lead, inv, n) && coef == (rk * inv) % n
    ensures Cong(n, rk, coef * lead)
  {
    hide Cong;
    CongMod(n, rk * inv);
    CongReflexive(n, lead);
    CongMul(n, coef, rk * inv, lead, lead);
    CongReflexive(n, rk);
    CongMul(n, rk, rk, lead * inv, 1);
    Swapped(rk, inv, lead);
    CongTrans(n, coef * lead, rk * (lead * inv), rk);
    CongSym(n, coef * lead, rk);
  }

  lemma Swapped(a: int, b: int, c: int)
    ensures (a * b) * c == a * (c * b) && a * 1 == a
  {
  }

  lemma {:induction false} ClearedValue(a: seq<int>, b: seq<int>, inv: int, n: nat, k: nat, x: int)
    requires n > 0 && b != [] && |b| - 1 <= k <= |a| && Root(b, x, n)
    ensures Cong(n, Eval(Cleared(a, b, inv, n, k), x), Eval(a, x))
    decreases |a| - k
  {
    if k == |a| {
      CongReflexive(n, Eval(a, x));
    } else {
      var r := Cleared(a, b, inv, n, k + 1);
      var q := DivStep(r, b, inv, n, k);
      ClearedValue(a, b, inv, n, k + 1, x);
      StepKeepsValue(r, b, inv, n, k, x);
      CongTrans(n, Eval(q, x), Eval(r, x), Eval(a, x));
    }
  }

  lemma StepKeepsValue(r: seq<int>, b: seq<int>, inv: int, n: nat, k: nat, x: int)
    requires n > 0 && b != [] && |b| - 1 <= k < |r| && Root(b, x, n)
    ensures Cong(n, Eval(DivStep(r, b, inv, n, k), x), Eval(r, x))
  {
    var coef := (r[k] * inv) % n;
    CongReflexive(n, Eval(r, x));
    if coef != 0 {
      var s := k - (|b| - 1);
      SubShiftValue(r, b, s, coef, n, |b|, x);
      assert b[..|b|] == b;
      VanishingTerm(n, Eval(SubShift(r, b, s, coef, n, |b|), x), Eval(r, x), coef, Pow(x, s), Eval(b, x));
    }
  }

  lemma VanishingTerm(n: nat, vq: int, vr: int, coef: int, w: int, vb: int)
    requires Divides(n, vb) && Cong(n, vq, vr - coef * (w * vb))
    ensures Cong(n, vq, vr)
  {
    DividesMultiple(n, vb, w);
    DividesMultiple(n, w * vb, coef);
    DividesSum(n, vq - (vr - coef * (w * vb)), coef * (w * vb));
  }

  /** Where the divisor vanishes, the remainder has the value of the dividend. */
  lemma RemainderValue(a: seq<int>, b: seq<int>, inv: int, n: nat, x: int)
    requires n > 0 && b != [] && |b| <= |a| && Unit(b[|b| - 1], inv, n) && Root(b, x, n)
    ensures Cong(n, Eval(Remainder(a, b, inv, n), x), Eval(a, x))
  {
    hide Cleared;
    var d := |b| - 1;
    var c := Cleared(a, b, inv, n, d);
    ClearedFacts(a, b, inv, n, d);
    ClearedValue(a, b, inv, n, d, x);
    TakeKeepsValue(c, d, n, x);
    CongTrans(n, Eval(c[..d], x), Eval(c, x), Eval(a, x));
    if d > 0 {
      TrimKeepsValue(c[..d], n, x);
      CongTrans(n, Eval(Remainder(a, b, inv, n), x), Eval(c[..d], x), Eval(a, x));
    } else {
      assert c[..0] == [] && Eval([0], x) == 0 + x * Eval([0][1..], x);
    }
  }

  // ---------------------------------------------------------------- Euclid

  /** A monic polynomial; or a degree above the cap; or the two polynomials of the round that
      could not go on, because the leading coefficient of the first one has no inverse.  The
      program answers None in both cases of failure. */
  datatype GcdResult = Monic(g: seq<int>) | TooDeep | Blocked(p: seq<int>, other: seq<int>)

  ghost predicate CommonRoot(a: seq<int>, b: seq<int>, x: int, n: nat)
  {
    Root(a, x, n) && Root(b, x, n)
  }

  predicate IsZero(b: seq<int>, n: nat)
    requires n > 0
  {
    |b| == 1 && b[0] % n == 0
  }

  /** How many rounds the loop still needs. */
  function Need(a: seq<int>, b: seq<int>, n: nat): nat
    requires n > 0
  {
    if IsZero(b, n) then 1 else if |a| < |b| then |a| + 2 else |b| + 1
  }

  predicate Trimmed(b: seq<int>, n: nat)
    requires n > 0
  {
    b == Trim(b, n)
  }

  function Max(a: int, b: int): int { if a > b then a else b }

  function Scale(a: seq<int>, inv: int, n: nat): (g: seq<int>)
    requires n > 0
    ensures |g| == |a|
  {
    seq(|a|, i requires 0 <= i < |a| => (a[i] * inv) % n)
  }

  lemma TrimShape(a: seq<int>, n: nat)
    requires n > 0 && Trimmed(a, n)
    ensures |a| >= 1 && (IsZero(a, n) <==> a == [0])
    ensures a != [0] ==> a[|a| - 1] % n != 0
  {
  }

  lemma TrimTwice(p: seq<int>, n: nat)
    requires n > 0
    ensures Trimmed(Trim(p, n), n)
  {
    var t := Trim(p, n);
    if t == [0] {
      assert [0][..0] == [] && [0][|[0]| - 1] == 0;
      assert Trim([0], n) == Trim([0][..0], n);
    }
  }

  lemma RemainderTrimmed(a: seq<int>, b: seq<int>, inv: int, n: nat)
    requires n > 0 && b != [] && |b| <= |a|
    ensures Trimmed(Remainder(a, b, inv, n), n)
  {
    if |b| > 1 {
      TrimTwice(Cleared(a, b, inv, n, |b| - 1)[..|b| - 1], n);
    } else {
      TrimTwice([], n);
    }
  }

  lemma TrimRoot(p: seq<int>, n: nat, x: int)
    requires n > 0
    ensures Root(Trim(p, n), x, n) <==> Root(p, x, n)
  {
    TrimKeepsValue(p, n, x);
    CongZero(n, Eval(Trim(p, n), x), Eval(p, x));
  }

  lemma {:induction false} ScaleValue(a: seq<int>, inv: int, n: nat, x: int)
    requires n > 0
    ensures Cong(n, Eval(Scale(a, inv, n), x), inv * Eval(a, x))
  {
    if a == [] {
      CongReflexive(n, 0);
    } else {
      var g := Scale(a, inv, n);
      assert g[1..] == Scale(a[1..], inv, n);
      ScaleValue(a[1..], inv, n, x);
      CongMod(n, a[0] * inv);
      CongReflexive(n, x);
      CongMul(n, x, x, Eval(g[1..], x), inv * Eval(a[1..], x));
      CongAdd(n, g[0], a[0] * inv, x * Eval(g[1..], x), x * (inv * Eval(a[1..], x)));
      ScaleArith(a[0], inv, x, Eval(a[1..], x));
    }
  }

  lemma ScaleArith(c: int, inv: int, x: int, v: int)
    ensures c * inv + x * (inv * v) == inv * (c + x * v)
  {
  }

  lemma ScaledRoot(a: seq<int>, lead: int, inv: int, n: nat, x: int)
    requires n > 0 && Unit(lead, inv, n)
    ensures Root(Scale(a, inv, n), x, n) <==> Root(a, x, n)
  {
    ScaleValue(a, inv, n, x);
    CongZero(n, Eval(Scale(a, inv, n), x), inv * Eval(a, x));
    if Root(a, x, n) { DividesMultiple(n, Eval(a, x), inv); }
    if Divides(n, inv * Eval(a, x)) { CancelUnit(n, lead, inv, Eval(a, x)); }
  }

  lemma ZeroRoot(b: seq<int>, n: nat, x: int)
    requires n > 0 && b == [0]
    ensures Root(b, x, n)
  {
    assert b[1..] == [] && Eval(b, x) == 0 + x * Eval(b[1..], x);
    DividesItself(n, 0);
  }

  function Lead(p: seq<int>): int
    requires p != []
  {
    p[|p| - 1]
  }

  /** Euclid's algorithm on trimmed polynomials. */
  function Euclid(a: seq<int>, b: seq<int>, n: nat): (r: GcdResult)
    requires n > 0 && Trimmed(a, n) && Trimmed(b, n)
    ensures r.Monic? || r.Blocked?
    decreases Need(a, b, n)
  {
    TrimShape(a, n);
    TrimShape(b, n);
    if b == [0] then
      var inv := ModInv(Lead(a), n);
      if inv.NoInverse? then Blocked(a, b) else Monic(Scale(a, inv.v, n))
    else if |a| < |b| then Euclid(b, a, n)
    else
      var inv := ModInv(Lead(b), n);
      if inv.NoInverse? then Blocked(b, a)
      else
        RemainderTrimmed(a, b, inv.v, n);
        DivideNeeds(a, b, Remainder(a, b, inv.v, n), n);
        Euclid(b, Remainder(a, b, inv.v, n), n)
  }

  /** The algorithm on any inputs: it trims them first. */
  function Start(f1: seq<int>, f2: seq<int>, n: nat): GcdResult
    requires n > 0
  {
    TrimTwice(f1, n);
    TrimTwice(f2, n);
    Euclid(Trim(f1, n), Trim(f2, n), n)
  }

  lemma DivideNeeds(a: seq<int>, b: seq<int>, rem: seq<int>, n: nat)
    requires n > 0 && 1 <= |b| <= |a| && !IsZero(b, n) && (1 <= |rem| < |b| || rem == [0])
    ensures Need(b, rem, n) <= Need(a, b, n) - 1
  {
  }

  /** Euclid's algorithm as it runs, with a budget of rounds that is never what ends it. */
  method PolyGcd(f1: seq<int>, f2: seq<int>, n: nat, cap: int, capped: bool) returns (r: GcdResult)
    requires n > 0
    ensures r == if capped && Max(|f1|, |f2|) - 1 > cap then TooDeep else Start(f1, f2, n)
  {
    hide Remainder, Trim, ModInv, Scale;
    if capped && Max(|f1|, |f2|) - 1 > cap { return TooDeep; }
    TrimTwice(f1, n);
    TrimTwice(f2, n);
    var a := TrimList(f1, n);
    var b := TrimList(f2, n);
    ghost var whole := Euclid(a, b, n);
    r := TooDeep;
    var left, done := 4 * (|f1| + |f2|) + 16, false;
    while !done
      invariant !done ==> left >= Need(a, b, n) && Trimmed(a, n) && Trimmed(b, n) && whole == Euclid(a, b, n)
      invariant done ==> r == whole
      decreases !done, left
    {
      assert left > 0;
      left := left - 1;
      b := TrimList(b, n);
      TrimShape(a, n);
      TrimShape(b, n);
      if |b| == 1 && b[0] % n == 0 {
        a := TrimList(a, n);
        var inv := ModInv(a[|a| - 1], n);
        r := if inv.NoInverse? then Blocked(a, b) else Monic(Scale(a, inv.v, n));
        done := true;
      } else if |a| < |b| {
        a, b := b, a;
      } else {
        var inv := ModInv(b[|b| - 1], n);
        if inv.NoInverse? {
          r := Blocked(b, a);
          done := true;
        } else {
          RemainderTrimmed(a, b, inv.v, n);
          DivideNeeds(a, b, Remainder(a, b, inv.v, n), n);
          var rem := LongDivision(a, b, inv.v, n);
          a, b := b, rem;
        }
      }
    }
  }

  // ---------------------------------------------------------------- roots

  /** A division step neither loses nor gains a common root. */
  lemma DivideRoot(a: seq<int>, b: seq<int>, inv: int, n: nat, x: int)
    requires n > 0 && b != [] && |b| <= |a| && Unit(Lead(b), inv, n)
    ensures CommonRoot(b, Remainder(a, b, inv, n), x, n) <==> CommonRoot(a, b, x, n)
  {
    hide Remainder;
    if Root(b, x, n) {
      RemainderValue(a, b, inv, n, x);
      CongZero(n, Eval(Remainder(a, b, inv, n), x), Eval(a, x));
    }
  }

  /** The roots of the polynomials a result consists of. */
  ghost predicate ResultRoot(r: GcdResult, x: int, n: nat)
  {
    match r
    case Monic(g) => Root(g, x, n)
    case Blocked(p, other) => CommonRoot(p, other, x, n)
    case TooDeep => false
  }

  /** The roots of the result, and the common roots of the pair it got stuck on, are exactly the
      common roots of the inputs. */
  lemma {:induction false} EuclidRoots(a: seq<int>, b: seq<int>, n: nat, x: int)
    requires n > 0 && Trimmed(a, n) && Trimmed(b, n)
    ensures ResultRoot(Euclid(a, b, n), x, n) <==> CommonRoot(a, b, x, n)
    decreases Need(a, b, n)
  {
    hide Root, Remainder, ModInv, Scale, Trimmed, Unit;
    TrimShape(a, n);
    TrimShape(b, n);
    if b == [0] {
      ZeroRoot(b, n, x);
      if ModInv(Lead(a), n).Inv? {
        LeadUnit(a, n);
        ScaledRoot(a, Lead(a), ModInv(Lead(a), n).v, n, x);
      }
    } else if |a| < |b| {
      EuclidRoots(b, a, n, x);
    } else if ModInv(Lead(b), n).Inv? {
      var inv := ModInv(Lead(b), n).v;
      LeadUnit(b, n);
      RemainderTrimmed(a, b, inv, n);
      DivideNeeds(a, b, Remainder(a, b, inv, n), n);
      EuclidRoots(b, Remainder(a, b, inv, n), n, x);
      DivideRoot(a, b, inv, n, x);
    }
  }

  lemma LeadUnit(b: seq<int>, n: nat)
    requires n > 0 && b != [] && ModInv(Lead(b), n).Inv?
    ensures Unit(Lead(b), ModInv(Lead(b), n).v, n)
  {
    InverseCong(Lead(b), n);
  }

  /** So for any inputs: the roots modulo n are exactly the common roots. */
  lemma StartRoots(f1: seq<int>, f2: seq<int>, n: nat, x: int)
    requires n > 0
    ensures ResultRoot(Start(f1, f2, n), x, n) <==> CommonRoot(f1, f2, x, n)
  {
    hide Root, Euclid;
    TrimTwice(f1, n);
    TrimTwice(f2, n);
    EuclidRoots(Trim(f1, n), Trim(f2, n), n, x);
    TrimRoot(f1, n, x);
    TrimRoot(f2, n, x);
  }

  // ---------------------------------------------------------------- what a result is

  /** A returned polynomial is monic; a blocking one is trimmed, and its last coefficient has no
      inverse. */
  lemma {:induction false} EuclidShape(a: seq<int>, b: seq<int>, n: nat)
    requires n > 0 && Trimmed(a, n) && Trimmed(b, n)
    ensures var r := Euclid(a, b, n);
            && (r.Monic? ==> r.g != [] && Lead(r.g) == 1 % n)
            && (r.Blocked? ==> Trimmed(r.p, n) && Trimmed(r.other, n) && r.p != [] && ModInv(Lead(r.p), n).NoInverse?)
            && (r.Blocked? && r.p == [0] ==> a == [0] && b == [0])
    decreases Need(a, b, n)
  {
    hide Remainder, ModInv, Trimmed;
    TrimShape(a, n);
    TrimShape(b, n);
    if b == [0] {
    } else if |a| < |b| {
      EuclidShape(b, a, n);
    } else if ModInv(Lead(b), n).Inv? {
      var inv := ModInv(Lead(b), n).v;
      RemainderTrimmed(a, b, inv, n);
      DivideNeeds(a, b, Remainder(a, b, inv, n), n);
      EuclidShape(b, Remainder(a, b, inv, n), n);
    }
  }

  predicate Prime(n: nat)
  {
    n > 1 && forall d :: 1 < d < n ==> n % d != 0
  }

  /** Modulo a prime only zero has no inverse. */
  lemma PrimeInverse(c: int, n: nat)
    requires Prime(n) && c % n != 0
    ensures ModInv(c, n).Inv?
  {
    var r := c % n;
    var g := Gcd(r, n);
    var u, v := GcdBezout(r, n);
    DividesMod(n, r);
    SmallDivisor(g, n, r);
    CoprimeInverse(r, n);
    var w := ModInv(r, n).v;
    CongMod(n, c);
    CongReflexive(n, w);
    CongMul(n, c, r, w, w);
    CongRemainder(n, c * w, r * w);
  }

  lemma SmallDivisor(g: nat, n: nat, r: nat)
    requires Prime(n) && 0 < r < n && Divides(g, r) && Divides(g, n)
    ensures g == 1
  {
    var j :| r == Times(g, j);
    var k :| n == Times(g, k);
    if j > 0 { MulMonotone(1, j, g); } else { MulMonotone(j, 0, g); }
    assert 0 < g <= r;
    DividesMod(g, n);
  }

  lemma PrimeAboveOne(n: nat)
    requires Prime(n)
    ensures n > 1
  {
  }

  /** Modulo a prime only the zero polynomial can block. */
  lemma PrimeBlocks(p: seq<int>, n: nat)
    requires Prime(n) && Trimmed(p, n) && p != [] && ModInv(Lead(p), n).NoInverse?
    ensures p == [0]
  {
    hide ModInv;
    TrimShape(p, n);
    if p != [0] { PrimeInverse(Lead(p), n); }
  }

  /** Modulo a prime a common divisor is always returned, unless both inputs vanish. */
  lemma PrimeGcd(f1: seq<int>, f2: seq<int>, n: nat)
    requires Prime(n)
    ensures Start(f1, f2, n).Monic? <==> !(Trim(f1, n) == [0] && Trim(f2, n) == [0])
  {
    hide Trim, Trimmed, Euclid, ModInv, Prime;
    PrimeAboveOne(n);
    TrimTwice(f1, n);
    TrimTwice(f2, n);
    var a, b := Trim(f1, n), Trim(f2, n);
    var r := Euclid(a, b, n);
    EuclidShape(a, b, n);
    if r.Blocked? {
      PrimeBlocks(r.p, n);
    }
    if a == [0] && b == [0] {
      ZeroBlocked(a, b, n);
    }
  }

  lemma ZeroBlocked(a: seq<int>, b: seq<int>, n: nat)
    requires n > 1 && a == [0] == b && Trimmed(a, n) && Trimmed(b, n)
    ensures Euclid(a, b, n).Blocked?
  {
    assert forall v: nat :: (0 * v) % n == 0;
  }

  /** A linear result has exactly one root modulo n. */
  lemma LinearRoot(g: seq<int>, n: nat, x: int)
    requires n > 0 && |g| == 2 && g[1] == 1 % n
    ensures Root(g, x, n) <==> Cong(n, x, -g[0])
  {
    assert g[1..][1..] == [];
    assert Eval(g[1..], x) == g[1] + x * Eval(g[1..][1..], x);
    assert Eval(g, x) == g[0] + x * g[1];
    CongMod(n, 1);
    CongReflexive(n, x);
    CongMul(n, x, x, g[1], 1);
    CongReflexive(n, g[0]);
    CongAdd(n, x * g[1], x, g[0], g[0]);
    CongZero(n, x * g[1] + g[0], x + g[0]);
  }
}
