/** Evaluation over the flat arena, and what it means for the tree the arena came from. */
module Arena {
  import opened Bytes
  import opened Seqs
  import opened Int64
  import opened Syntax
  import opened Semantics

  /** The first binding of a name, or the length of the environment. */
  function Lookup(env: seq<Binding>, name: bytes): (i: nat)
    ensures i <= |env|
    ensures i < |env| ==> env[i].name == name
    ensures forall j :: 0 <= j < i ==> env[j].name != name
  {
    if env == [] || env[0].name == name then 0 else 1 + Lookup(env[1..], name)
  }

  function Apply(op: BinOp, l: i64, r: i64): Outcome
  {
    match op
    case OpAdd => Val(WAdd(l, r))
    case OpSub => Val(WSub(l, r))
    case OpMul => Val(WMul(l, r))
    case OpDiv => if r == 0 then Bad(DivZero) else Val(WDiv(l, r))
    case OpMod => if r == 0 then Bad(DivZero) else Val(WRem(l, r))
    case OpEq => Val(if l == r then 1 else 0)
    case OpNeq => Val(if l != r then 1 else 0)
    case OpLt => Val(if l < r then 1 else 0)
    case OpLte => Val(if l <= r then 1 else 0)
    case OpGt => Val(if l > r then 1 else 0)
    case OpGte => Val(if l >= r then 1 else 0)
  }

  // ---------------------------------------------------------------- meaning of trees

  function Meaning(t: Expr, env: seq<Binding>): Outcome
  {
    match t
    case Lit(v) => Val(v)
    case Var(n) => var i := Lookup(env, n); if i < |env| then Val(env[i].val) else Bad(UndefVar)
    case Pos(e) => Meaning(e, env)
    case Neg(e) => var x := Meaning(e, env); if x.Bad? then x else Val(WSub(0, x.v))
    case Bin(op, l, r) =>
      var x := Meaning(l, env);
      if x.Bad? then x else
      var y := Meaning(r, env);
      if y.Bad? then y else Apply(op, x.v, y.v)
    case Call(_, _) => Bad(UndefVar)
  }

  // ---------------------------------------------------------------- the relation holds

  lemma WrappedOps(x: i64, y: i64)
    ensures Congruent(WAdd(x, y), x + y) && Congruent(WSub(x, y), x - y) && Congruent(WMul(x, y), x * y)
  {
    hide WAdd, WSub, WMul, Wraps, Congruent;
    AddWraps(x, y);
    MulWraps(x, y);
    WrapsCongruent(x + y, WAdd(x, y));
    WrapsCongruent(x - y, WSub(x, y));
    WrapsCongruent(x * y, WMul(x, y));
  }

  lemma DivOperates(x: i64, y: i64, o: Outcome)
    ensures Operates(OpDiv, x, y, o) <==> o == Apply(OpDiv, x, y)
    ensures Operates(OpMod, x, y, o) <==> o == Apply(OpMod, x, y)
  {
    hide Divided, TruncDiv;
    if y != 0 {
      var q, r := TruncDiv(x, y), x - y * TruncDiv(x, y);
      TruncDivides(x, y);
      if o.Val? {
        forall r' | Divided(x, y, o.v, r') ensures o.v == q { DividedOnce(x, y, o.v, r', q, r); }
        forall q' | Divided(x, y, q', o.v) ensures o.v == r { DividedOnce(x, y, q', o.v, q, r); }
      }
      if x == INT64_MIN && y == -1 { MinOverMinusOne(q, r); }
    }
  }

  lemma MinOverMinusOne(q: int, r: int)
    requires Divided(INT64_MIN, -1, q, r)
    ensures r == 0
  {
  }

  /** The operators of the evaluator are those of the integers. */
  lemma ApplyOperates(op: BinOp, x: i64, y: i64, o: Outcome)
    ensures Operates(op, x, y, o) <==> o == Apply(op, x, y)
  {
    hide WAdd, WSub, WMul, WDiv, WRem, Congruent, Divided;
    WrappedOps(x, y);
    DivOperates(x, y, o);
    if o.Val? && op == OpAdd && Operates(op, x, y, o) { CongruentOnce(o.v, WAdd(x, y), x + y); }
    if o.Val? && op == OpSub && Operates(op, x, y, o) { CongruentOnce(o.v, WSub(x, y), x - y); }
    if o.Val? && op == OpMul && Operates(op, x, y, o) { CongruentOnce(o.v, WMul(x, y), x * y); }
  }

  lemma NegOperates(x: Outcome, o: Outcome)
    ensures Negates(x, o) <==> o == if x.Bad? then x else Val(WSub(0, x.v))
  {
    hide WSub, Congruent;
    if x.Val? {
      WrappedOps(0, x.v);
      if Negates(x, o) { CongruentOnce(o.v, WSub(0, x.v), 0 - x.v); }
    }
  }

  lemma LookupNames(env: seq<Binding>, name: bytes, o: Outcome)
    ensures Names(env, name, o) <==>
              o == var i := Lookup(env, name); if i < |env| then Val(env[i].val) else Bad(UndefVar)
  {
    var i := Lookup(env, name);
    if i < |env| {
      assert FirstOf(env, name, i);
      forall j: nat | FirstOf(env, name, j) ensures j == i { }
    }
  }

  /** Every tree has exactly one outcome, and it is its meaning. */
  lemma {:induction false} MeaningGiven(t: Expr, env: seq<Binding>, o: Outcome)
    ensures Gives(t, env, o) <==> o == Meaning(t, env)
    decreases t
  {
    hide Names, Lookup, Operates, Negates, Apply, WSub;
    match t {
      case Lit(v) =>
      case Var(n) => LookupNames(env, n, o);
      case Pos(e) => MeaningGiven(e, env, o);
      case Neg(e) =>
        forall x ensures Gives(e, env, x) <==> x == Meaning(e, env) { MeaningGiven(e, env, x); }
        NegOperates(Meaning(e, env), o);
      case Bin(op, l, r) =>
        var x, y := Meaning(l, env), Meaning(r, env);
        forall z ensures Gives(l, env, z) <==> z == x { MeaningGiven(l, env, z); }
        forall z ensures Gives(r, env, z) <==> z == y { MeaningGiven(r, env, z); }
        if x.Val? && y.Val? { ApplyOperates(op, x.v, y.v, o); }
      case Call(_, _) =>
    }
  }

  // ---------------------------------------------------------------- arenas

  /** Operands come before their operator. */
  predicate Ordered(a: seq<Node>)
  {
    forall i {:trigger OperandsBelow(a[i], i)} :: 0 <= i < |a| ==> OperandsBelow(a[i], i)
  }

  predicate OperandsBelow(n: Node, i: nat)
  {
    match n.tag
    case TPos => n.lhs < i
    case TNeg => n.lhs < i
    case TBin(_) => n.lhs < i && n.rhs < i
    case _ => true
  }

  /** `rank` falls from every operator to its operands. */
  ghost predicate Ranks(a: seq<Node>, rank: seq<nat>)
  {
    |rank| == |a| && forall i :: 0 <= i < |a| ==> rank[i] < |a| && Falls(a[i], rank, rank[i])
  }

  ghost predicate Falls(n: Node, rank: seq<nat>, r: nat)
  {
    match n.tag
    case TPos => Above(rank, n.lhs) <= r
    case TNeg => Above(rank, n.lhs) <= r
    case TBin(_) => Above(rank, n.lhs) <= r && Above(rank, n.rhs) <= r
    case _ => true
  }

  ghost function Above(rank: seq<nat>, i: nat): nat
  {
    if i < |rank| then rank[i] + 1 else 0
  }

  /** No node is its own operand, however far down: otherwise the recursion never ends. */
  ghost predicate Acyclic(a: seq<Node>)
  {
    exists rank :: Ranks(a, rank)
  }

  ghost function Ranking(a: seq<Node>): (rank: seq<nat>)
    requires Acyclic(a)
    ensures Ranks(a, rank)
  {
    var rank :| Ranks(a, rank);
    rank
  }

  /** Bounds the recursion at a node. */
  ghost function Height(a: seq<Node>, i: nat): (n: nat)
    requires Acyclic(a)
    ensures n <= |a| && (i < |a| ==> n >= 1)
  {
    Above(Ranking(a), i)
  }

  lemma Descends(a: seq<Node>, i: nat)
    requires Acyclic(a) && i < |a|
    ensures match a[i].tag
            case TPos => Height(a, a[i].lhs) < Height(a, i)
            case TNeg => Height(a, a[i].lhs) < Height(a, i)
            case TBin(_) => Height(a, a[i].lhs) < Height(a, i) && Height(a, a[i].rhs) < Height(a, i)
            case _ => true
  {
    assert Falls(a[i], Ranking(a), Ranking(a)[i]);
  }

  lemma OrderedAcyclic(a: seq<Node>)
    requires Ordered(a)
    ensures Acyclic(a)
  {
    var rank := seq(|a|, i => i);
    forall i | 0 <= i < |a| ensures Falls(a[i], rank, rank[i]) {
      assert OperandsBelow(a[i], i);
    }
    assert Ranks(a, rank);
  }

  function EvalNode(a: seq<Node>, node: nat, env: seq<Binding>): Outcome
    requires Acyclic(a)
    decreases Height(a, node)
  {
    if node >= |a| then Bad(InvalidNode)
    else
      Descends(a, node);
      match a[node].tag
      case TLit => Val(a[node].val)
      case TVarRef => var i := Lookup(env, a[node].name); if i < |env| then Val(env[i].val) else Bad(UndefVar)
      case TPos => EvalNode(a, a[node].lhs, env)
      case TNeg => var x := EvalNode(a, a[node].lhs, env); if x.Bad? then x else Val(WSub(0, x.v))
      case TBin(op) =>
        var x := EvalNode(a, a[node].lhs, env);
        if x.Bad? then x else
        var y := EvalNode(a, a[node].rhs, env);
        if y.Bad? then y else Apply(op, x.v, y.v)
      case TCall => Bad(UndefVar)
      case TCallArg => Bad(UndefVar)
  }

  /** The same relation on the nodes of an arena; an index behind the last node is an error. */
  ghost predicate NodeGives(a: seq<Node>, node: nat, env: seq<Binding>, o: Outcome)
    requires Acyclic(a)
    decreases Height(a, node)
  {
    if node >= |a| then o == Bad(InvalidNode)
    else
      Descends(a, node);
      match a[node].tag
      case TLit => o == Val(a[node].val)
      case TVarRef => Names(env, a[node].name, o)
      case TPos => NodeGives(a, a[node].lhs, env, o)
      case TNeg => exists x :: NodeGives(a, a[node].lhs, env, x) && Negates(x, o)
      case TBin(op) =>
        exists x :: NodeGives(a, a[node].lhs, env, x)
                    && if x.Bad? then o == x
                       else exists y :: NodeGives(a, a[node].rhs, env, y)
                                        && if y.Bad? then o == y else Operates(op, x.v, y.v, o)
      case TCall => o == Bad(UndefVar)
      case TCallArg => o == Bad(UndefVar)
  }

  /** Every node has exactly one outcome. */
  lemma {:induction false} NodeGiven(a: seq<Node>, node: nat, env: seq<Binding>, o: Outcome)
    requires Acyclic(a)
    ensures NodeGives(a, node, env, o) <==> o == EvalNode(a, node, env)
    decreases Height(a, node)
  {
    hide Names, Lookup, Operates, Negates, Apply, WSub, Acyclic, Height;
    if node < |a| {
      Descends(a, node);
      var n := a[node];
      match n.tag {
        case TLit =>
        case TVarRef => LookupNames(env, n.name, o);
        case TPos => NodeGiven(a, n.lhs, env, o);
        case TNeg =>
          var x := EvalNode(a, n.lhs, env);
          forall z ensures NodeGives(a, n.lhs, env, z) <==> z == x { NodeGiven(a, n.lhs, env, z); }
          NegOperates(x, o);
        case TBin(op) =>
          var x, y := EvalNode(a, n.lhs, env), EvalNode(a, n.rhs, env);
          forall z ensures NodeGives(a, n.lhs, env, z) <==> z == x { NodeGiven(a, n.lhs, env, z); }
          forall z ensures NodeGives(a, n.rhs, env, z) <==> z == y { NodeGiven(a, n.rhs, env, z); }
          if x.Val? && y.Val? { ApplyOperates(op, x.v, y.v, o); }
        case TCall =>
        case TCallArg =>
      }
    }
  }

  /** One level of the definition. */
  lemma EvalUnfolds(a: seq<Node>, node: nat, env: seq<Binding>)
    requires Acyclic(a) && node < |a|
    ensures var n := a[node]; var e := EvalNode(a, node, env);
            match n.tag
            case TLit => e == Val(n.val)
            case TVarRef => e == var i := Lookup(env, n.name); if i < |env| then Val(env[i].val) else Bad(UndefVar)
            case TPos => e == EvalNode(a, n.lhs, env)
            case TNeg => e == var x := EvalNode(a, n.lhs, env); if x.Bad? then x else Val(WSub(0, x.v))
            case TBin(op) => e == var x := EvalNode(a, n.lhs, env);
                                  if x.Bad? then x else
                                  var y := EvalNode(a, n.rhs, env);
                                  if y.Bad? then y else Apply(op, x.v, y.v)
            case TCall => e == Bad(UndefVar)
            case TCallArg => e == Bad(UndefVar)
  {
    hide Lookup, Apply, WSub, Acyclic;
  }

  method FindBinding(env: seq<Binding>, name: bytes) returns (i: nat)
    ensures i == Lookup(env, name)
  {
    i := 0;
    while i < |env|
      invariant 0 <= i <= |env| && Lookup(env, name) == i + Lookup(env[i..], name)
    {
      if env[i].name == name { return i; }
      i := i + 1;
    }
  }

  /** The recursive evaluator gives exactly the outcome that the node has. */
  method Evaluate(a: seq<Node>, node: nat, env: seq<Binding>) returns (r: Outcome)
    requires Acyclic(a)
    ensures r == EvalNode(a, node, env)
    ensures forall o :: NodeGives(a, node, env, o) <==> o == r
    decreases Height(a, node)
  {
    hide NodeGives;
    forall o ensures NodeGives(a, node, env, o) <==> o == EvalNode(a, node, env) { NodeGiven(a, node, env, o); }
    if node >= |a| { return Bad(InvalidNode); }
    Descends(a, node);
    match a[node].tag {
      case TLit => return Val(a[node].val);
      case TVarRef =>
        var i := FindBinding(env, a[node].name);
        return if i < |env| then Val(env[i].val) else Bad(UndefVar);
      case TPos =>
        r := Evaluate(a, a[node].lhs, env);
      case TNeg =>
        r := Evaluate(a, a[node].lhs, env);
        if r.Bad? { return r; }
        return Val(WSub(0, r.v));
      case TBin(op) =>
        var x := Evaluate(a, a[node].lhs, env);
        if x.Bad? { return x; }
        var y := Evaluate(a, a[node].rhs, env);
        if y.Bad? { return y; }
        return Apply(op, x.v, y.v);
      case TCall => return Bad(UndefVar);
      case TCallArg => return Bad(UndefVar);
    }
  }

  // ---------------------------------------------------------------- trees inside arenas

  /** The arena image of `t` occupies the nodes from `base` on. */
  ghost predicate Holds(a: seq<Node>, t: Expr, base: nat)
  {
    base + Size(t) <= |a| && a[base..base + Size(t)] == Flat(t, base)
  }

  lemma HoldsRoot(a: seq<Node>, t: Expr, base: nat)
    requires Holds(a, t, base)
    ensures 1 <= Size(t) && base + Size(t) - 1 < |a|
  {
    hide Flat, Size;
    SizePositive(t);
  }

  lemma HoldsSigned(a: seq<Node>, sign: Tag, e: Expr, base: nat)
    requires (sign == TPos || sign == TNeg) && Holds(a, Signed(sign, e), base)
    ensures Size(Signed(sign, e)) == Size(e) + 1 && base + Size(e) < |a|
    ensures Holds(a, e, base) && a[base + Size(e)] == Node(sign, base + Size(e) - 1, 0, 0, [])
  {
    hide Flat, Size;
    Sizes();
    SizePositive(e);
    FlatSize(e, base);
    var x, n := Flat(e, base), Node(sign, base + Size(e) - 1, 0, 0, []);
    FlatSigned(sign, e, base, x, n);
    SliceSnoc(a, base, x, n);
  }

  lemma HoldsBin(a: seq<Node>, op: BinOp, l: Expr, r: Expr, base: nat)
    requires Holds(a, Bin(op, l, r), base)
    ensures Size(Bin(op, l, r)) == Size(l) + Size(r) + 1 && base + Size(l) + Size(r) < |a|
    ensures Holds(a, l, base) && Holds(a, r, base + Size(l))
    ensures a[base + Size(l) + Size(r)] == Node(TBin(op), base + Size(l) - 1, base + Size(l) + Size(r) - 1, 0, [])
  {
    hide Flat, Size;
    Sizes();
    SizePositive(l);
    FlatSize(l, base);
    FlatSize(r, base + Size(l));
    var x, y := Flat(l, base), Flat(r, base + Size(l));
    var n := Node(TBin(op), base + Size(l) - 1, base + Size(l) + Size(r) - 1, 0, []);
    FlatBin(l, r, op, base, x, y, n);
    SliceSnoc(a, base, x + y, n);
    SliceConcat(a, base, x, y);
  }

  lemma HoldsCall(a: seq<Node>, name: bytes, args: seq<Expr>, base: nat)
    requires Holds(a, Call(name, args), base)
    ensures Size(Call(name, args)) == SizeAll(args) + |args| + 1 && base + SizeAll(args) + |args| < |a|
    ensures a[base + SizeAll(args) + |args|].tag == TCall
  {
    hide Flat, Size, SizeAll, FlatAll, Chain, Roots;
    Sizes();
    FlatAllSize(args, base);
    var x, c := FlatAll(args, base), Chain(Roots(args, base), base + SizeAll(args));
    var n := Node(TCall, if args == [] then 0 else base + SizeAll(args) + |args| - 1, 0, |args| % TWO63, name);
    FlatCall(name, args, base, x, c, n);
    SliceSnoc(a, base, x + c, n);
  }

  lemma HoldsLeaf(a: seq<Node>, t: Expr, base: nat)
    requires (t.Lit? || t.Var?) && Holds(a, t, base)
    ensures Size(t) == 1 && base < |a|
    ensures t.Lit? ==> a[base] == Node(TLit, 0, 0, t.val, [])
    ensures t.Var? ==> a[base] == Node(TVarRef, 0, 0, 0, t.name)
  {
    LeafImages(base);
    assert a[base..base + 1] == [a[base]];
  }

  /** Evaluating the root of a tree's arena image gives the meaning of the tree. */
  lemma {:induction false} EvalIsMeaning(a: seq<Node>, t: Expr, base: nat, env: seq<Binding>)
    requires Acyclic(a) && Holds(a, t, base)
    ensures EvalNode(a, base + Size(t) - 1, env) == Meaning(t, env)
    decreases t
  {
    hide Flat, Size, SizeAll, Lookup, Apply, Holds, EvalNode, Acyclic, WSub;
    HoldsRoot(a, t, base);
    EvalUnfolds(a, base + Size(t) - 1, env);
    match t {
      case Lit(v) =>
        HoldsLeaf(a, t, base);
      case Var(n) =>
        HoldsLeaf(a, t, base);
      case Pos(e) =>
        HoldsSigned(a, TPos, e, base);
        EvalIsMeaning(a, e, base, env);
      case Neg(e) =>
        HoldsSigned(a, TNeg, e, base);
        EvalIsMeaning(a, e, base, env);
      case Bin(op, l, r) =>
        HoldsBin(a, op, l, r, base);
        EvalIsMeaning(a, l, base, env);
        EvalIsMeaning(a, r, base + Size(l), env);
      case Call(name, args) =>
        HoldsCall(a, name, args, base);
    }
  }

  // ---------------------------------------------------------------- parser arenas are ordered

  ghost predicate OrderedFrom(ns: seq<Node>, base: nat)
  {
    forall i :: 0 <= i < |ns| ==> OperandsBelow(ns[i], base + i)
  }

  lemma OrderedConcat(x: seq<Node>, y: seq<Node>, base: nat)
    requires OrderedFrom(x, base) && OrderedFrom(y, base + |x|)
    ensures OrderedFrom(x + y, base)
  {
  }

  lemma {:induction false} FlatOrdered(t: Expr, base: nat)
    ensures OrderedFrom(Flat(t, base), base)
    decreases t, 0
  {
    hide Flat, Size, SizeAll, FlatAll, Chain, Roots;
    LeafImages(base);
    match t {
      case Lit(_) =>
      case Var(_) =>
      case Pos(e) => SignedOrdered(TPos, e, base);
      case Neg(e) => SignedOrdered(TNeg, e, base);
      case Bin(op, l, r) =>
        FlatOrdered(l, base);
        FlatSize(l, base);
        SizePositive(l);
        FlatOrdered(r, base + Size(l));
        FlatSize(r, base + Size(l));
        var x, y := Flat(l, base), Flat(r, base + Size(l));
        var n := Node(TBin(op), base + Size(l) - 1, base + Size(l) + Size(r) - 1, 0, []);
        OrderedConcat(x, y, base);
        FlatBin(l, r, op, base, x, y, n);
        OrderedConcat(x + y, [n], base);
      case Call(name, args) =>
        FlatAllOrdered(args, base);
        FlatAllSize(args, base);
        var x, c := FlatAll(args, base), Chain(Roots(args, base), base + SizeAll(args));
        ChainOrdered(Roots(args, base), base + SizeAll(args));
        OrderedConcat(x, c, base);
        var n := Node(TCall, if args == [] then 0 else base + SizeAll(args) + |args| - 1, 0, |args| % TWO63, name);
        FlatCall(name, args, base, x, c, n);
        OrderedConcat(x + c, [n], base);
    }
  }

  lemma {:induction false} SignedOrdered(sign: Tag, e: Expr, base: nat)
    requires sign == TPos || sign == TNeg
    ensures OrderedFrom(Flat(Signed(sign, e), base), base)
    decreases e, 1
  {
    hide Flat, Size;
    FlatOrdered(e, base);
    FlatSize(e, base);
    SizePositive(e);
    var x, n := Flat(e, base), Node(sign, base + Size(e) - 1, 0, 0, []);
    FlatSigned(sign, e, base, x, n);
    OrderedConcat(x, [n], base);
  }

  lemma {:induction false} FlatAllOrdered(ts: seq<Expr>, base: nat)
    ensures OrderedFrom(FlatAll(ts, base), base)
    decreases ts, 0
  {
    if ts != [] {
      FlatOrdered(ts[0], base);
      FlatSize(ts[0], base);
      FlatAllOrdered(ts[1..], base + Size(ts[0]));
      OrderedConcat(Flat(ts[0], base), FlatAll(ts[1..], base + Size(ts[0])), base);
    }
  }

  lemma {:induction false} ChainOrdered(roots: seq<nat>, base: nat)
    ensures OrderedFrom(Chain(roots, base), base)
  {
    if roots != [] { ChainOrdered(roots[..|roots| - 1], base); }
  }

  lemma FlatAcyclic(t: Expr)
    ensures Ordered(Flat(t, 0)) && Acyclic(Flat(t, 0)) && |Flat(t, 0)| == Size(t) && Holds(Flat(t, 0), t, 0)
  {
    hide Flat, Size, Acyclic;
    FlatOrdered(t, 0);
    FlatSize(t, 0);
    var a := Flat(t, 0);
    assert forall i :: 0 <= i < |a| ==> OperandsBelow(a[i], 0 + i);
    OrderedAcyclic(a);
    assert a[0..0 + Size(t)] == a;
  }

  /** A parsed source evaluates to the meaning of its tree. */
  lemma ParsedMeaning(t: Expr, env: seq<Binding>)
    ensures Ordered(Flat(t, 0)) && Acyclic(Flat(t, 0)) && |Flat(t, 0)| == Size(t)
    ensures EvalNode(Flat(t, 0), Size(t) - 1, env) == Meaning(t, env)
  {
    hide Flat, Size, Acyclic, Ordered, EvalNode, Meaning, Holds;
    FlatAcyclic(t);
    SizePositive(t);
    EvalIsMeaning(Flat(t, 0), t, 0, env);
  }
}
