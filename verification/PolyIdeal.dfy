/** What Euclid's algorithm keeps besides the common roots: the result generates, modulo n, the
    same polynomials as the inputs, so that it divides both and is a combination of both. */
module PolyIdeal {
  import opened Int64
  import opened Modular
  import opened Poly

  /** The coefficient at x^i, for any i. */
  function Coef(p: seq<int>, i: int): int
  {
    if 0 <= i < |p| then p[i] else 0
  }

  /** q is r - c x^s b modulo n. */
  ghost predicate Less(q: seq<int>, r: seq<int>, b: seq<int>, c: int, s: nat, n: nat)
  {
    forall i :: Cong(n, Coef(q, i), Coef(r, i) - c * Coef(b, i - s))
  }

  ghost predicate Same(p: seq<int>, q: seq<int>, n: nat)
  {
    forall i :: Cong(n, Coef(p, i), Coef(q, i))
  }

  ghost predicate Ideal(I: iset<seq<int>>, n: nat)
  {
    forall q, r, b, c, s: nat :: r in I && b in I && Less(q, r, b, c, s, n) ==> q in I
  }

  // ---------------------------------------------------------------- what an ideal contains

  lemma Contains(I: iset<seq<int>>, q: seq<int>, r: seq<int>, b: seq<int>, c: int, s: nat, n: nat)
    requires Ideal(I, n) && r in I && b in I && Less(q, r, b, c, s, n)
    ensures q in I
  {
  }

  lemma SameSym(p: seq<int>, q: seq<int>, n: nat)
    requires Same(p, q, n)
    ensures Same(q, p, n)
  {
    forall i ensures Cong(n, Coef(q, i), Coef(p, i)) {
      CongSym(n, Coef(p, i), Coef(q, i));
    }
  }

  lemma SameTrans(p: seq<int>, q: seq<int>, r: seq<int>, n: nat)
    requires Same(p, q, n) && Same(q, r, n)
    ensures Same(p, r, n)
  {
    forall i ensures Cong(n, Coef(p, i), Coef(r, i)) {
      CongTrans(n, Coef(p, i), Coef(q, i), Coef(r, i));
    }
  }

  lemma ContainsSame(I: iset<seq<int>>, p: seq<int>, q: seq<int>, n: nat)
    requires Ideal(I, n) && Same(p, q, n)
    ensures p in I <==> q in I
  {
    SameSym(p, q, n);
    if p in I { SameLess(q, p, n); Contains(I, q, p, p, 0, 0, n); }
    if q in I { SameLess(p, q, n); Contains(I, p, q, q, 0, 0, n); }
  }

  lemma SameLess(p: seq<int>, q: seq<int>, n: nat)
    requires Same(p, q, n)
    ensures Less(p, q, q, 0, 0, n)
  {
    hide Cong;
  }

  lemma ContainsZero(I: iset<seq<int>>, p: seq<int>, n: nat)
    requires Ideal(I, n) && p in I
    ensures [0] in I
  {
    forall i ensures Cong(n, Coef([0], i), Coef(p, i) - 1 * Coef(p, i - 0)) {
      CongReflexive(n, 0);
    }
    Contains(I, [0], p, p, 1, 0, n);
  }

  lemma ContainsScaled(I: iset<seq<int>>, p: seq<int>, q: seq<int>, c: int, n: nat)
    requires Ideal(I, n) && p in I && forall i :: Cong(n, Coef(q, i), c * Coef(p, i))
    ensures q in I
  {
    ContainsZero(I, p, n);
    forall i ensures Cong(n, Coef(q, i), Coef([0], i) - -c * Coef(p, i - 0)) {
      assert Coef([0], i) - -c * Coef(p, i) == c * Coef(p, i);
    }
    Contains(I, q, [0], p, -c, 0, n);
  }

  // ---------------------------------------------------------------- the steps of the algorithm

  lemma TakeSame(p: seq<int>, k: nat, n: nat)
    requires n > 0 && k <= |p| && VanishesFrom(p, k, n)
    ensures Same(p[..k], p, n)
  {
    forall i ensures Cong(n, Coef(p[..k], i), Coef(p, i)) {
      CongReflexive(n, Coef(p, i));
      if k <= i < |p| {
        CongRemainder(n, 0, p[i]);
      }
    }
  }

  lemma SameReflexive(p: seq<int>, n: nat)
    ensures Same(p, p, n)
  {
    forall i ensures Cong(n, Coef(p, i), Coef(p, i)) {
      CongReflexive(n, Coef(p, i));
    }
  }

  lemma {:induction false} TrimSame(p: seq<int>, n: nat)
    requires n > 0
    ensures Same(Trim(p, n), p, n)
  {
    hide Same;
    if p == [] {
      TakeSame([0], 0, n);
      SameSym([0][..0], [0], n);
      assert [0][..0] == p;
    } else if p[|p| - 1] % n == 0 {
      var k := |p| - 1;
      TrimSame(p[..k], n);
      TakeSame(p, k, n);
      SameTrans(Trim(p, n), p[..k], p, n);
    } else {
      SameReflexive(p, n);
    }
  }

  lemma SubShiftLess(r: seq<int>, b: seq<int>, s: nat, c: int, n: nat)
    requires n > 0 && s + |b| <= |r|
    ensures Less(SubShift(r, b, s, c, n, |b|), r, b, c, s, n)
    ensures Less(r, SubShift(r, b, s, c, n, |b|), b, -c, s, n)
  {
    hide SubShift, Cong;
    var q := SubShift(r, b, s, c, n, |b|);
    forall i ensures Cong(n, Coef(q, i), Coef(r, i) - c * Coef(b, i - s))
      ensures Cong(n, Coef(r, i), Coef(q, i) - -c * Coef(b, i - s))
    {
      var v := Coef(r, i) - c * Coef(b, i - s);
      if s <= i < s + |b| {
        CongMod(n, v);
      } else {
        assert Coef(q, i) == v;
        CongReflexive(n, v);
      }
      MoveOver(n, Coef(q, i), Coef(r, i), c, Coef(b, i - s));
    }
  }

  lemma MoveOver(n: nat, q: int, r: int, c: int, b: int)
    requires Cong(n, q, r - c * b)
    ensures Cong(n, r, q - -c * b)
  {
    CongSym(n, q, r - c * b);
    CongReflexive(n, c * b);
    CongAdd(n, r - c * b, q, c * b, c * b);
    assert q - -c * b == q + c * b;
  }

  lemma {:induction false} ClearedIn(a: seq<int>, b: seq<int>, inv: int, n: nat, k: nat, I: iset<seq<int>>)
    requires n > 0 && b != [] && |b| - 1 <= k <= |a| && Ideal(I, n) && b in I
    ensures Cleared(a, b, inv, n, k) in I <==> a in I
    decreases |a| - k
  {
    hide SubShift, Less, Ideal;
    if k < |a| {
      var r := Cleared(a, b, inv, n, k + 1);
      var c := (r[k] * inv) % n;
      ClearedIn(a, b, inv, n, k + 1, I);
      if c != 0 {
        var s := k - (|b| - 1);
        var q := SubShift(r, b, s, c, n, |b|);
        SubShiftLess(r, b, s, c, n);
        if r in I { Contains(I, q, r, b, c, s, n); }
        if q in I { Contains(I, r, q, b, -c, s, n); }
      }
    }
  }

  lemma RemainderIn(a: seq<int>, b: seq<int>, inv: int, n: nat, I: iset<seq<int>>)
    requires n > 0 && b != [] && |b| <= |a| && Unit(Lead(b), inv, n) && Ideal(I, n) && b in I
    ensures Remainder(a, b, inv, n) in I <==> a in I
  {
    hide Cleared, Trim, Same, Ideal, Unit, VanishesFrom;
    var d := |b| - 1;
    var c := Cleared(a, b, inv, n, d);
    ClearedFacts(a, b, inv, n, d);
    ClearedIn(a, b, inv, n, d, I);
    TakeSame(c, d, n);
    ContainsSame(I, c[..d], c, n);
    TrimSame(c[..d], n);
    ContainsSame(I, Trim(c[..d], n), c[..d], n);
    if d == 0 {
      EmptyTrim(c[..0], n);
    }
  }

  lemma EmptyTrim(p: seq<int>, n: nat)
    requires n > 0 && p == []
    ensures Trim(p, n) == [0]
  {
  }

  lemma ScaleIn(a: seq<int>, inv: int, n: nat, I: iset<seq<int>>)
    requires n > 0 && a != [] && Unit(Lead(a), inv, n) && Ideal(I, n)
    ensures Scale(a, inv, n) in I <==> a in I
  {
    hide Ideal, Cong;
    var g := Scale(a, inv, n);
    forall i ensures Cong(n, Coef(g, i), inv * Coef(a, i)) && Cong(n, Coef(a, i), Lead(a) * Coef(g, i)) {
      var v := Coef(a, i);
      if 0 <= i < |a| {
        CongMod(n, v * inv);
      } else {
        CongReflexive(n, 0);
      }
      ScaleBack(n, Coef(g, i), v, inv, Lead(a));
    }
    if a in I { ContainsScaled(I, a, g, inv, n); }
    if g in I { ContainsScaled(I, g, a, Lead(a), n); }
  }

  lemma ScaleBack(n: nat, g: int, v: int, inv: int, lead: int)
    requires Cong(n, g, inv * v) && Unit(lead, inv, n)
    ensures Cong(n, v, lead * g)
  {
    hide Cong;
    CongReflexive(n, lead);
    CongReflexive(n, v);
    CongMul(n, lead, lead, g, inv * v);
    CongMul(n, lead * inv, 1, v, v);
    Assoc(lead, inv, v);
    CongTrans(n, lead * g, lead * (inv * v), 1 * v);
    CongSym(n, lead * g, 1 * v);
  }

  // ---------------------------------------------------------------- the whole algorithm

  /** The polynomials a result consists of. */
  function Parts(r: GcdResult): set<seq<int>>
  {
    match r
    case Monic(g) => {g}
    case Blocked(p, other) => {p, other}
    case TooDeep => {}
  }

  ghost predicate Within(a: set<seq<int>>, I: iset<seq<int>>)
  {
    forall p :: p in a ==> p in I
  }

  lemma {:induction false} EuclidIn(a: seq<int>, b: seq<int>, n: nat, I: iset<seq<int>>)
    requires n > 0 && Trimmed(a, n) && Trimmed(b, n) && Ideal(I, n)
    ensures Within(Parts(Euclid(a, b, n)), I) <==> a in I && b in I
    decreases Need(a, b, n)
  {
    hide Remainder, ModInv, Scale, Trimmed, Unit, Ideal;
    TrimShape(a, n);
    TrimShape(b, n);
    if b == [0] {
      if a in I { ContainsZero(I, a, n); }
      if ModInv(Lead(a), n).Inv? {
        LeadUnit(a, n);
        ScaleIn(a, ModInv(Lead(a), n).v, n, I);
      }
    } else if |a| < |b| {
      EuclidIn(b, a, n, I);
    } else if ModInv(Lead(b), n).Inv? {
      var inv := ModInv(Lead(b), n).v;
      LeadUnit(b, n);
      RemainderTrimmed(a, b, inv, n);
      DivideNeeds(a, b, Remainder(a, b, inv, n), n);
      EuclidIn(b, Remainder(a, b, inv, n), n, I);
      if b in I { RemainderIn(a, b, inv, n, I); }
    }
  }

  lemma StartIn(f1: seq<int>, f2: seq<int>, n: nat, I: iset<seq<int>>)
    requires n > 0 && Ideal(I, n)
    ensures Within(Parts(Start(f1, f2, n)), I) <==> f1 in I && f2 in I
  {
    hide Euclid, Ideal, Trim, Same, Within, Parts;
    TrimTwice(f1, n);
    TrimTwice(f2, n);
    EuclidIn(Trim(f1, n), Trim(f2, n), n, I);
    TrimSame(f1, n);
    TrimSame(f2, n);
    ContainsSame(I, Trim(f1, n), f1, n);
    ContainsSame(I, Trim(f2, n), f2, n);
  }

  // ---------------------------------------------------------------- generated polynomials

  /** c x^s p */
  datatype Part = Part(c: int, s: nat, p: seq<int>)

  function Sum(ts: seq<Part>, i: int): int
  {
    if ts == [] then 0 else ts[0].c * Coef(ts[0].p, i - ts[0].s) + Sum(ts[1..], i)
  }

  /** p is the sum of the parts modulo n. */
  ghost predicate IsSum(p: seq<int>, ts: seq<Part>, n: nat)
  {
    forall i :: Cong(n, Coef(p, i), Sum(ts, i))
  }

  predicate From(ts: seq<Part>, a: set<seq<int>>)
  {
    forall k :: 0 <= k < |ts| ==> ts[k].p in a
  }

  /** p is a combination of members of `a` modulo n, with polynomials as coefficients. */
  ghost predicate Combination(p: seq<int>, a: set<seq<int>>, n: nat)
  {
    exists ts :: From(ts, a) && IsSum(p, ts, n)
  }

  ghost function Generated(a: set<seq<int>>, n: nat): iset<seq<int>>
  {
    iset p | Combination(p, a, n)
  }

  function Moved(ts: seq<Part>, c: int, s: nat): (r: seq<Part>)
    ensures |r| == |ts|
    ensures forall k :: 0 <= k < |ts| ==> r[k].p == ts[k].p
  {
    if ts == [] then [] else [Part(c * ts[0].c, s + ts[0].s, ts[0].p)] + Moved(ts[1..], c, s)
  }

  lemma {:induction false} SumMoved(ts: seq<Part>, c: int, s: nat, i: int)
    ensures Sum(Moved(ts, c, s), i) == c * Sum(ts, i - s)
  {
    if ts != [] {
      var m := Moved(ts, c, s);
      assert m[1..] == Moved(ts[1..], c, s);
      SumMoved(ts[1..], c, s, i);
      assert i - (s + ts[0].s) == i - s - ts[0].s;
      var v := Coef(ts[0].p, i - s - ts[0].s);
      Assoc(c, ts[0].c, v);
      assert c * (ts[0].c * v + Sum(ts[1..], i - s)) == c * (ts[0].c * v) + c * Sum(ts[1..], i - s);
    }
  }

  lemma {:induction false} SumConcat(ts: seq<Part>, us: seq<Part>, i: int)
    ensures Sum(ts + us, i) == Sum(ts, i) + Sum(us, i)
  {
    if ts == [] {
      assert ts + us == us;
    } else {
      assert (ts + us)[1..] == ts[1..] + us;
      SumConcat(ts[1..], us, i);
    }
  }

  lemma GeneratedIdeal(a: set<seq<int>>, n: nat)
    ensures Ideal(Generated(a, n), n)
  {
    hide Less, IsSum, Cong;
    forall q, r, b, c, s: nat | r in Generated(a, n) && b in Generated(a, n) && Less(q, r, b, c, s, n)
      ensures q in Generated(a, n)
    {
      var ts :| From(ts, a) && IsSum(r, ts, n);
      var us :| From(us, a) && IsSum(b, us, n);
      SumLess(q, r, b, c, s, n, ts, us);
      assert From(ts + Moved(us, -c, s), a);
    }
  }

  lemma SumLess(q: seq<int>, r: seq<int>, b: seq<int>, c: int, s: nat, n: nat, ts: seq<Part>, us: seq<Part>)
    requires Less(q, r, b, c, s, n) && IsSum(r, ts, n) && IsSum(b, us, n)
    ensures IsSum(q, ts + Moved(us, -c, s), n)
  {
    hide Cong, Sum, Coef, Moved;
    var vs := Moved(us, -c, s);
    forall i ensures Cong(n, Coef(q, i), Sum(ts + vs, i)) {
      SumConcat(ts, vs, i);
      SumMoved(us, -c, s, i);
      CongReflexive(n, c);
      CongMul(n, c, c, Coef(b, i - s), Sum(us, i - s));
      CongAdd(n, Coef(r, i), Sum(ts, i), c * Coef(b, i - s), c * Sum(us, i - s));
      CongTrans(n, Coef(q, i), Coef(r, i) - c * Coef(b, i - s), Sum(ts, i) - c * Sum(us, i - s));
      assert Sum(ts, i) + -c * Sum(us, i - s) == Sum(ts, i) - c * Sum(us, i - s);
    }
  }

  lemma Generates(a: set<seq<int>>, n: nat)
    ensures Within(a, Generated(a, n))
  {
    forall p | p in a ensures p in Generated(a, n) {
      var ts := [Part(1, 0, p)];
      forall i ensures Cong(n, Coef(p, i), Sum(ts, i)) {
        assert ts[1..] == [] && Sum(ts, i) == 1 * Coef(p, i - 0) + Sum(ts[1..], i);
        CongReflexive(n, Coef(p, i));
      }
      assert From(ts, a) && IsSum(p, ts, n);
    }
  }

  /** Nothing smaller is closed. */
  lemma {:induction false} Smallest(p: seq<int>, ts: seq<Part>, a: set<seq<int>>, n: nat, I: iset<seq<int>>)
    requires Ideal(I, n) && Within(a, I) && [0] in I && From(ts, a) && IsSum(p, ts, n)
    ensures p in I
    decreases |ts|
  {
    hide Ideal;
    if ts == [] {
      SumOfNone(p, n);
      ContainsSame(I, p, [0], n);
    } else {
      var t := ts[0];
      var r := Without(p, t);
      WithoutLess(p, t, n);
      WithoutSum(p, ts, n);
      Smallest(r, ts[1..], a, n, I);
      Contains(I, p, r, t.p, -t.c, t.s, n);
    }
  }

  lemma SumOfNone(p: seq<int>, n: nat)
    requires IsSum(p, [], n)
    ensures Same(p, [0], n)
  {
    forall i ensures Cong(n, Coef(p, i), Coef([0], i)) {
      assert Coef([0], i) == Sum([], i);
    }
  }

  /** p - c x^s q */
  function Without(p: seq<int>, t: Part): (r: seq<int>)
    ensures forall i :: Coef(r, i) == Coef(p, i) - t.c * Coef(t.p, i - t.s)
  {
    seq(|p| + t.s + |t.p|, i => Coef(p, i) - t.c * Coef(t.p, i - t.s))
  }

  lemma WithoutLess(p: seq<int>, t: Part, n: nat)
    ensures Less(p, Without(p, t), t.p, -t.c, t.s, n)
  {
    hide Without, Coef;
    var r := Without(p, t);
    forall i ensures Cong(n, Coef(p, i), Coef(r, i) - -t.c * Coef(t.p, i - t.s)) {
      assert Coef(r, i) - -t.c * Coef(t.p, i - t.s) == Coef(p, i);
      CongReflexive(n, Coef(p, i));
    }
  }

  lemma WithoutSum(p: seq<int>, ts: seq<Part>, n: nat)
    requires ts != [] && IsSum(p, ts, n)
    ensures IsSum(Without(p, ts[0]), ts[1..], n)
  {
    hide Without, Coef, Cong;
    var t := ts[0];
    var r := Without(p, t);
    forall i ensures Cong(n, Coef(r, i), Sum(ts[1..], i)) {
      var v := t.c * Coef(t.p, i - t.s);
      CongReflexive(n, v);
      CongAdd(n, Coef(p, i), Sum(ts, i), v, v);
    }
  }

  lemma GeneratedWithin(a: set<seq<int>>, n: nat, I: iset<seq<int>>)
    requires Ideal(I, n) && Within(a, I) && a != {}
    ensures Generated(a, n) <= I
  {
    hide Ideal, IsSum;
    var p0 :| p0 in a;
    ContainsZero(I, p0, n);
    forall p | p in Generated(a, n) ensures p in I {
      var ts :| From(ts, a) && IsSum(p, ts, n);
      Smallest(p, ts, a, n, I);
    }
  }

  /** The result and the inputs generate the same polynomials: a monic result divides both inputs
      modulo n and is a combination of them, and so do the two polynomials of a blocked round. */
  lemma SameIdeal(f1: seq<int>, f2: seq<int>, n: nat)
    requires n > 0
    ensures Generated(Parts(Start(f1, f2, n)), n) == Generated({f1, f2}, n)
  {
    hide Ideal, Generated, Euclid;
    var parts := Parts(Start(f1, f2, n));
    GeneratedIdeal(parts, n);
    Generates(parts, n);
    StartIn(f1, f2, n, Generated(parts, n));
    GeneratedWithin({f1, f2}, n, Generated(parts, n));
    GeneratedIdeal({f1, f2}, n);
    Generates({f1, f2}, n);
    StartIn(f1, f2, n, Generated({f1, f2}, n));
    GeneratedWithin(parts, n, Generated({f1, f2}, n));
  }

  /** So a monic result divides both inputs, and every common divisor of them divides it. */
  lemma CommonDivisor(f1: seq<int>, f2: seq<int>, n: nat, g: seq<int>)
    requires n > 0 && Start(f1, f2, n) == Monic(g)
    ensures Combination(f1, {g}, n) && Combination(f2, {g}, n) && Combination(g, {f1, f2}, n)
    ensures forall h :: Combination(f1, {h}, n) && Combination(f2, {h}, n) ==> Combination(g, {h}, n)
  {
    hide Ideal, Combination, Start;
    SameIdeal(f1, f2, n);
    Generates({g}, n);
    Generates({f1, f2}, n);
    assert Generated({g}, n) == Generated({f1, f2}, n);
    forall h | Combination(f1, {h}, n) && Combination(f2, {h}, n) ensures Combination(g, {h}, n) {
      GeneratedIdeal({h}, n);
      GeneratedWithin({f1, f2}, n, Generated({h}, n));
    }
  }
}
